/** The index arithmetic of `GuiListViewEx`: which items are shown, focused, selected, and where the list is scrolled to. */
module ListView {
  import opened Options
  import opened Geometry
  import SB = ScrollBar
  import opened DragGrab

  /** The list's style properties, in pixels. */
  datatype ListStyle = ListStyle(itemHeight: int, spacing: int, border: int, barWidth: int, defaultBorder: int)

  /** Items that fit, at most all of them. */
  function VisibleItems(height: real, cell: int, count: nat): (r: int)
    requires cell > 0
    ensures height >= 0.0 ==> 0 <= r <= count
  {
    var v := Quotient(Truncate(height), cell);
    if v > count then count else v
  }

  predicate UsesScrollBar(height: real, cell: int, count: nat) { (cell * count) as real > height }

  /** A list with a scroll bar hides at least one item, so the scroll range, which is also its speed, is positive. */
  lemma ScrollBarMeansHiddenItems(height: real, cell: int, count: nat)
    requires cell > 0 && height >= 0.0 && UsesScrollBar(height, cell, count)
    ensures 0 <= VisibleItems(height, cell, count) < count
  {
    var h := Truncate(height);
    var v := h / cell;
    assert h == v * cell + h % cell;
    assert h < cell * count;
    assert v * cell == (v - count) * cell + count * cell;
    assert v >= count ==> (v - count) * cell >= 0;
  }

  /** A scroll index outside the list counts as the top. */
  function StartIndex(scrollIndex: int, last: int): (r: int)
    ensures last >= 0 ==> 0 <= r <= last
  {
    if scrollIndex < 0 || scrollIndex > last then 0 else scrollIndex
  }

  /** The rectangle of the `i`-th shown item. */
  function ItemRect(b: Rect, s: ListStyle, useScrollBar: bool, i: nat): Rect
  {
    Rect(b.x + s.spacing as real,
         b.y + s.spacing as real + s.defaultBorder as real + (i * (s.itemHeight + s.spacing)) as real,
         b.width - 2.0 * s.spacing as real - s.defaultBorder as real - if useScrollBar then s.barWidth as real else 0.0,
         s.itemHeight as real)
  }

  /** The first of the shown items from `i` on that holds the point; `visible` if none does. */
  function ItemUnder(b: Rect, s: ListStyle, useScrollBar: bool, at: Point, visible: nat, i: nat): (r: nat)
    requires i <= visible
    ensures i <= r <= visible && (r < visible ==> Inside(at, ItemRect(b, s, useScrollBar, r)))
    ensures forall j: nat :: i <= j < r ==> !Inside(at, ItemRect(b, s, useScrollBar, j))
    decreases visible - i
  {
    if i == visible || Inside(at, ItemRect(b, s, useScrollBar, i)) then i
    else ItemUnder(b, s, useScrollBar, at, visible, i + 1)
  }

  /** With a gap between items the item under the pointer is the only one. */
  lemma OneItemUnder(b: Rect, s: ListStyle, useScrollBar: bool, at: Point, visible: nat, i: nat)
    requires s.itemHeight >= 0 && s.spacing > 0 && i < visible
    ensures Inside(at, ItemRect(b, s, useScrollBar, i)) <==> ItemUnder(b, s, useScrollBar, at, visible, 0) == i
  {
    var r := ItemUnder(b, s, useScrollBar, at, visible, 0);
    if Inside(at, ItemRect(b, s, useScrollBar, i)) && r < i { RowsApart(s.itemHeight + s.spacing, r, i); }
  }

  lemma {:induction false} RowsApart(cell: int, i: nat, j: nat)
    requires cell > 0 && i < j
    ensures i * cell + cell <= j * cell
  {
    if j > i + 1 { RowsApart(cell, i, j - 1); }
    assert j * cell == (j - 1) * cell + cell;
  }

  // ----- One call -----

  /** What a call returns; `top` is the first item drawn, before the scroll bar is asked. */
  datatype ListResult = ListResult(scroll: int, selected: int, focused: int, top: int)

  /** The bar beside the list: its slider covers the shown share, its range is the hidden items. */
  function Bar(b: Rect, s: ListStyle, bar: SB.Style, visible: nat, count: nat): (c: Control)
    requires visible < count
    ensures forall v :: Fits(c, Index(v))
  {
    Control.ScrollBar(
      Rect(b.x + b.width - s.border as real - s.barWidth as real, b.y + s.border as real,
           s.barWidth as real, b.height - 2.0 * s.defaultBorder as real),
      0, count - visible,
      bar.(sliderSize := Truncate(b.height * (visible as real / count as real)), speed := count - visible))
  }

  /** Focus and selection: the item under the pointer takes the focus, a press selects it, or unselects the selected one. */
  function Chosen(start: int, row: nat, visible: nat, pressed: bool, active: int, focus: int): (int, int)
  {
    if row >= visible then (focus, active)
    else (start + row, if !pressed then active else if active == start + row then -1 else start + row)
  }

  /** Focus, selection and first item drawn, before the scroll bar. */
  function Updated(live: bool, b: Rect, s: ListStyle, useScrollBar: bool, visible: nat, count: nat, p: Pointer,
                   start: int, active: int, focus: int): (r: ListResult)
    requires visible <= count
    ensures 0 <= start <= count - visible ==> 0 <= r.top <= count - visible
    ensures r.selected == active || r.selected == -1 || start <= r.selected < start + visible
    ensures r.focused == focus || r.focused == -1 || start <= r.focused < start + visible
    ensures !live ==> r.selected == active && r.focused == focus
    ensures !live || !Inside(p.at, b) ==> r.top == start
  {
    var over := live && Inside(p.at, b);
    var (focused, selected) := Chosen(start, ItemUnder(b, s, useScrollBar, p.at, visible, 0), visible, p.pressed, active, focus);
    var top := if over && useScrollBar then SB.Normalize(start - Truncate(p.wheel), 0, count - visible) else start;
    ListResult(top, if over then selected else active, if !live then focus else if over then focused else -1, top)
  }

  function ListAfter(g: Grab, enabled: bool, b: Rect, s: ListStyle, bar: SB.Style, count: nat, p: Pointer,
                     scrollIndex: int, active: int, focus: int): ListResult
    requires s.itemHeight + s.spacing > 0 && b.height >= 0.0
  {
    var cell := s.itemHeight + s.spacing;
    var useScrollBar, visible := UsesScrollBar(b.height, cell, count), VisibleItems(b.height, cell, count);
    var start := StartIndex(scrollIndex, count - visible);
    var r := Updated(enabled && g == Idle, b, s, useScrollBar, visible, count, p, start, active, focus);
    if !useScrollBar then r
    else
      ScrollBarMeansHiddenItems(b.height, cell, count);
      r.(scroll := ValueAfter(g, Bar(b, s, bar, visible, count), enabled, p, Index(r.top)).index)
  }

  /** Whatever comes in, the list stays inside its items, and nothing is chosen while somebody drags. */
  lemma ListStaysInside(g: Grab, enabled: bool, b: Rect, s: ListStyle, bar: SB.Style, count: nat, p: Pointer,
                        scrollIndex: int, active: int, focus: int)
    requires s.itemHeight + s.spacing > 0 && b.height >= 0.0
    ensures var r := ListAfter(g, enabled, b, s, bar, count, p, scrollIndex, active, focus);
            var visible := VisibleItems(b.height, s.itemHeight + s.spacing, count);
            && 0 <= r.scroll <= count - visible
            && 0 <= r.top <= r.top + visible <= count
            && (r.selected == active || r.selected == -1 || 0 <= r.selected < count)
            && (r.focused == focus || r.focused == -1 || 0 <= r.focused < count)
            && (g.Held? || !enabled ==> r.selected == active && r.focused == focus)
  {
    hide Touches, Dragged, Pressed, Hovered, Releases, GrabAfter, Truncate, Quotient, Inside;
  }

  /** A list nobody points at, or during somebody else's drag, keeps a valid scroll index. */
  lemma UntouchedListStays(g: Grab, enabled: bool, b: Rect, s: ListStyle, bar: SB.Style, count: nat, p: Pointer,
                           scrollIndex: int, active: int, focus: int)
    requires s.itemHeight + s.spacing > 0 && b.height >= 0.0
    requires var visible := VisibleItems(b.height, s.itemHeight + s.spacing, count);
             && 0 <= scrollIndex <= count - visible
             && (visible < count ==>
                   var bounds := Bar(b, s, bar, visible, count).bounds;
                   if g.Held? then !SameId(bounds, g.owner) else !Inside(p.at, bounds) && !Inside(p.at, b))
    ensures ListAfter(g, enabled, b, s, bar, count, p, scrollIndex, active, focus).scroll == scrollIndex
  {
    var cell := s.itemHeight + s.spacing;
    if UsesScrollBar(b.height, cell, count) { ScrollBarMeansHiddenItems(b.height, cell, count); }
    hide Dragged, Pressed, Hovered, Releases, GrabAfter, Truncate, Quotient, Inside, SameId, UsesScrollBar, VisibleItems;
  }

  // ----- What a click does -----

  /** As many items are shown as have room with their spacing, or all there are. */
  lemma VisibleItemsFit(height: real, cell: int, count: nat)
    requires cell > 0 && height >= 0.0
    ensures var v := VisibleItems(height, cell, count);
            && (v * cell) as real <= height
            && (v < count ==> height < ((v + 1) * cell) as real)
  {
    var h := Truncate(height);
    var q := h / cell;
    assert h == q * cell + h % cell && (q + 1) * cell == q * cell + cell;
    if q > count { RowsApart(cell, count, q); }
  }

  /** Items are stacked below each other, the spacing between them, and stay beside the scroll bar exactly if their margin is no less than the list's border. */
  lemma ItemsAreStacked(b: Rect, s: ListStyle, bar: SB.Style, useScrollBar: bool, visible: nat, count: nat, i: nat)
    requires visible < count
    ensures var item, next := ItemRect(b, s, useScrollBar, i), ItemRect(b, s, useScrollBar, i + 1);
            && next.y == item.y + item.height + s.spacing as real && next.x == item.x && item.height == s.itemHeight as real
            && item.x == b.x + s.spacing as real
            && (i == 0 ==> item.y == b.y + (s.spacing + s.defaultBorder) as real)
            && (useScrollBar ==>
                  (item.x + item.width <= Bar(b, s, bar, visible, count).bounds.x <==> s.border <= s.spacing + s.defaultBorder))
  {
    assert (i + 1) * (s.itemHeight + s.spacing) == i * (s.itemHeight + s.spacing) + (s.itemHeight + s.spacing);
  }

  /**
    With a gap between items, a press on the row where an item is drawn selects that item, and unselects it if
    it was selected; hovering over the row takes the focus there and leaves the selection.
   */
  lemma ClickSelectsTheItem(g: Grab, enabled: bool, b: Rect, s: ListStyle, bar: SB.Style, count: nat, p: Pointer,
                            scrollIndex: int, active: int, focus: int, row: nat)
    requires s.itemHeight >= 0 && s.spacing > 0 && b.height >= 0.0 && g == Idle && enabled && p.wheel == 0.0 && Inside(p.at, b)
    requires var cell := s.itemHeight + s.spacing;
             row < VisibleItems(b.height, cell, count) && Inside(p.at, ItemRect(b, s, UsesScrollBar(b.height, cell, count), row))
    ensures var r := ListAfter(g, enabled, b, s, bar, count, p, scrollIndex, active, focus);
            && r.focused == r.top + row
            && r.selected == if !p.pressed then active else if active == r.top + row then -1 else r.top + row
  {
    var cell := s.itemHeight + s.spacing;
    var visible := VisibleItems(b.height, cell, count);
    OneItemUnder(b, s, UsesScrollBar(b.height, cell, count), p.at, visible, row);
    SB.WholeIsKept(0, p.wheel);
    hide Inside, ItemRect, UsesScrollBar, VisibleItems, ItemUnder, Truncate, ValueAfter, GrabAfter, Bar;
  }

  /** With the pointer off the list nothing has the focus, and the selection stays. */
  lemma LeavingTakesTheFocus(g: Grab, enabled: bool, b: Rect, s: ListStyle, bar: SB.Style, count: nat, p: Pointer,
                             scrollIndex: int, active: int, focus: int)
    requires s.itemHeight + s.spacing > 0 && b.height >= 0.0 && g == Idle && enabled && !Inside(p.at, b)
    ensures var r := ListAfter(g, enabled, b, s, bar, count, p, scrollIndex, active, focus);
            r.focused == -1 && r.selected == active
  {
    hide ItemRect, UsesScrollBar, VisibleItems, ItemUnder, Truncate, ValueAfter, GrabAfter, Bar;
  }

  /** The wheel over a list that scrolls shows earlier items with a positive turn, one for each step, as far as the list goes. */
  lemma WheelScrolls(g: Grab, enabled: bool, b: Rect, s: ListStyle, bar: SB.Style, count: nat, p: Pointer,
                     scrollIndex: int, active: int, focus: int, steps: int)
    requires s.itemHeight + s.spacing > 0 && b.height >= 0.0 && g == Idle && enabled && p.wheel == steps as real && Inside(p.at, b)
    requires var cell := s.itemHeight + s.spacing;
             var last := count - VisibleItems(b.height, cell, count);
             UsesScrollBar(b.height, cell, count) && 0 <= scrollIndex <= last && 0 <= scrollIndex - steps <= last
    ensures ListAfter(g, enabled, b, s, bar, count, p, scrollIndex, active, focus).top == scrollIndex - steps
  {
    SB.WholeIsKept(steps, p.wheel);
    hide Inside, ItemRect, UsesScrollBar, VisibleItems, ItemUnder, Truncate, ValueAfter, GrabAfter, Bar;
  }

  /** What an `int` pointer of the caller gives, or the default if it is null; and what is written back through it. */
  function Read(r: Option<int>, default: int): int { if r == None then default else r.value }

  function Written(r: Option<int>, value: int): Option<int> { if r == None then None else Some(value) }

  /**
    `shown` are the indices into the item texts that the drawing loop reads; `changed` is the result.  The
    scroll index and the focus may be null; the selection may not, because the code reads it at the end.
   */
  method GuiListViewEx(gui: Gui, b: Rect, s: ListStyle, bar: SB.Style, count: nat, p: Pointer,
                       scrollRef: Option<int>, active: int, focusRef: Option<int>)
    returns (r: ListResult, shown: seq<int>, scroll: Option<int>, focused: Option<int>, changed: bool)
    requires s.itemHeight + s.spacing > 0 && b.height >= 0.0
    modifies gui`exclusiveMode, gui`exclusiveRec
    ensures r == ListAfter(old(gui.Grab()), gui.Enabled(), b, s, bar, count, p, Read(scrollRef, 0), active, Read(focusRef, -1))
    ensures scroll == Written(scrollRef, r.scroll) && focused == Written(focusRef, r.focused)
    ensures changed <==> r.selected != active
    ensures var visible := VisibleItems(b.height, s.itemHeight + s.spacing, count);
            && |shown| == visible && (forall i :: 0 <= i < visible ==> shown[i] == r.top + i && 0 <= shown[i] < count)
            && gui.Grab() == if UsesScrollBar(b.height, s.itemHeight + s.spacing, count) && visible < count
                             then GrabAfter(old(gui.Grab()), Bar(b, s, bar, visible, count), gui.Enabled(), p, Index(r.top))
                             else old(gui.Grab())
  {
    hide VisibleItems, UsesScrollBar, Updated, Bar, StartIndex, GrabAfter, ValueAfter, Fits, Inside, Truncate, Quotient, ItemRect;
    var cell := s.itemHeight + s.spacing;
    var useScrollBar := UsesScrollBar(b.height, cell, count);
    var visible := VisibleItems(b.height, cell, count);
    if useScrollBar { ScrollBarMeansHiddenItems(b.height, cell, count); }
    var start := StartIndex(Read(scrollRef, 0), count - visible);
    var end;
    r, end := UpdateList(gui, b, s, useScrollBar, visible, count, p, start, active, Read(focusRef, -1));
    shown := DrawnItems(visible, r.top);
    if useScrollBar {
      var index := ScrollList(gui, b, s, bar, count, visible, p, r.top, end);
      r := r.(scroll := index);
    }
    scroll, focused := Written(scrollRef, r.scroll), Written(focusRef, r.focused);
    changed := active != r.selected;
  }

  /** The update part: pointer and wheel. */
  method UpdateList(gui: Gui, b: Rect, s: ListStyle, useScrollBar: bool, visible: nat, count: nat, p: Pointer,
                    scrollIndex: int, active: int, focus: int)
    returns (r: ListResult, end: int)
    requires visible <= count && 0 <= scrollIndex <= count - visible
    ensures r == Updated(gui.Enabled() && gui.Grab() == Idle, b, s, useScrollBar, visible, count, p, scrollIndex, active, focus)
    ensures end == r.top + visible
  {
    hide Inside, Truncate, ItemUnder;
    var selected, focused, start := active, focus, scrollIndex;
    end := start + visible;
    if !gui.disabled && !gui.locked && !gui.exclusiveMode {
      if Inside(p.at, b) {
        focused, selected := HitItem(b, s, useScrollBar, visible, start, p, active, focus);
        if useScrollBar {
          start := start - Truncate(p.wheel);
          if start < 0 { start := 0; } else if start > count - visible { start := count - visible; }
          end := start + visible;
          if end > count { end := count; }
        }
      } else {
        focused := -1;
      }
    }
    r := ListResult(start, selected, focused, start);
  }

  method ScrollList(gui: Gui, b: Rect, s: ListStyle, bar: SB.Style, count: nat, visible: nat, p: Pointer, start: int, end: int)
    returns (r: int)
    requires visible < count && end - start == visible
    modifies gui`exclusiveMode, gui`exclusiveRec
    ensures gui.Grab() == GrabAfter(old(gui.Grab()), Bar(b, s, bar, visible, count), gui.Enabled(), p, Index(start))
    ensures Index(r) == ValueAfter(old(gui.Grab()), Bar(b, s, bar, visible, count), gui.Enabled(), p, Index(start))
  {
    hide Touches, Dragged, Pressed, Hovered, Releases, SameId, GrabAfter, ValueAfter;
    var barBounds := Rect(b.x + b.width - s.border as real - s.barWidth as real, b.y + s.border as real,
                          s.barWidth as real, b.height - 2.0 * s.defaultBorder as real);
    var percentVisible := (end - start) as real / count as real;
    var style := bar.(sliderSize := Truncate(b.height * percentVisible), speed := count - visible);
    var c := Control.ScrollBar(barBounds, 0, count - visible, style);
    assert c == Bar(b, s, bar, visible, count);
    r := gui.GuiScrollBar(c, p, start);
  }

  /** The loop over the shown items. */
  method HitItem(b: Rect, s: ListStyle, useScrollBar: bool, visible: nat, start: int, p: Pointer, active: int, focus: int)
    returns (focused: int, selected: int)
    ensures (focused, selected) == Chosen(start, ItemUnder(b, s, useScrollBar, p.at, visible, 0), visible, p.pressed, active, focus)
  {
    hide Inside;
    focused, selected := focus, active;
    var item := ItemRect(b, s, useScrollBar, 0);
    var i := 0;
    while i < visible
      invariant 0 <= i <= visible && selected == active && focused == focus
      invariant item == ItemRect(b, s, useScrollBar, i)
      invariant ItemUnder(b, s, useScrollBar, p.at, visible, 0) == ItemUnder(b, s, useScrollBar, p.at, visible, i)
    {
      if Inside(p.at, item) {
        focused := start + i;
        if p.pressed {
          if selected == start + i { selected := -1; } else { selected := start + i; }
        }
        break;
      }
      item := item.(y := item.y + (s.itemHeight + s.spacing) as real);
      i := i + 1;
    }
  }

  /** The indices the drawing loop reads. */
  method DrawnItems(visible: nat, start: int) returns (shown: seq<int>)
    ensures |shown| == visible && forall j :: 0 <= j < visible ==> shown[j] == start + j
  {
    shown := [];
    var i := 0;
    while i < visible
      invariant 0 <= i <= visible && |shown| == i
      invariant forall j :: 0 <= j < i ==> shown[j] == start + j
    {
      shown := shown + [start + i];
      i := i + 1;
    }
  }
}
