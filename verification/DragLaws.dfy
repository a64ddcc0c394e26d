/**
  What dragging means to the user: the value a control takes is the one at which it draws its knob, selector
  or marker under the pointer.
 */
module DragLaws {
  import opened Geometry
  import SB = ScrollBar
  import opened DragGrab

  /** A call while its control is dragged. */
  predicate IsDragging(g: Grab, c: Control, p: Pointer)
  {
    g.Held? && SameId(c.bounds, g.owner) && p.down && !OnArrows(c, p.at)
  }

  // ----- Arithmetic -----

  lemma Product(x: real, y: real, c: real)
    requires c > 0.0
    ensures x < y <==> x * c < y * c
  {
    SB.Sign(y - x, c);
    SB.Distributes(y, x, c);
  }

  /** The quotient of a distance by a length: 0 at its start, 1 at its end, in proportion between them. */
  lemma Share(a: real, b: real) returns (r: real)
    requires b > 0.0
    ensures r == Ratio(a, b) && r * b == a
    ensures a < 0.0 ==> r < 0.0
    ensures a == 0.0 ==> r == 0.0
    ensures a == b ==> r == 1.0
    ensures a > b ==> r > 1.0
    ensures 0.0 <= a <= b ==> 0.0 <= r <= 1.0
  {
    r := a / b;
    SB.Divide(a, b, r);
    SB.Sign(r, b);
    SB.Sign(r - 1.0, b);
    SB.Distributes(r, 1.0, b);
  }

  // ----- Slider -----

  /** The knob as it is drawn for a value. */
  function Knob(c: Control, value: real): Rect
    requires c.Slider?
  {
    var b, w, border := c.bounds, c.knob as real, c.border as real;
    var x := b.x + Ratio(value - c.min, c.max - c.min) * (b.width - w - 2.0 * border);
    Rect(if x <= b.x + border then b.x + border else if x + w >= b.x + b.width then b.x + b.width - w - border else x,
         b.y + (c.border + c.padding) as real, w, b.height - 2.0 * (c.border + c.padding) as real)
  }

  /**
    Dragged with the pointer half a knob from the left edge, or farther left, a slider takes its least value;
    half a knob from the right edge its greatest; between them the value is in proportion, and without a
    border the knob drawn for it is centred on the pointer.
   */
  lemma SliderFollowsPointer(g: Grab, c: Control, p: Pointer, value: real, half: int)
    requires c.Slider? && IsDragging(g, c, p) && c.min < c.max
    requires half >= 0 && (c.knob == 2 * half || c.knob == 2 * half + 1) && c.knob as real < c.bounds.width
    ensures var r := ValueAfter(g, c, true, p, Level(value)).level;
            var x, last := p.at.x - c.bounds.x, c.bounds.width - (c.knob - half) as real;
            && (x <= half as real ==> r == c.min)
            && (x >= last ==> r == c.max)
            && (half as real <= x <= last ==>
                  (r - c.min) * (c.bounds.width - c.knob as real) == (c.max - c.min) * (x - half as real))
            && (half as real <= x <= last && c.border == 0 ==> Knob(c, r).x + half as real == p.at.x)
  {
    hide Knob, SliderAt, Clamp, Ratio, SameId;
    assert ValueAfter(g, c, true, p, Level(value)).level == Clamp(SliderAt(c, p.at), c.min, c.max);
    var t := SliderShare(c, p.at, half);
    ClampShare(t, c.min, c.max, SliderAt(c, p.at));
    if half as real <= p.at.x - c.bounds.x <= c.bounds.width - (c.knob - half) as real {
      InTheMiddle(c, SliderAt(c, p.at), t, p.at.x - c.bounds.x - half as real);
    }
  }

  lemma InTheMiddle(c: Control, r: real, t: real, a: real)
    requires c.Slider? && c.min < c.max && c.knob as real < c.bounds.width && 0.0 <= t <= 1.0
    requires r == (c.max - c.min) * t + c.min && t * (c.bounds.width - c.knob as real) == a
    ensures (r - c.min) * (c.bounds.width - c.knob as real) == (c.max - c.min) * a
    ensures c.border == 0 ==> Knob(c, r).x == c.bounds.x + a
  {
    hide Knob;
    SB.Regroup(c.max - c.min, t, c.bounds.width - c.knob as real);
    if c.border == 0 { KnobAt(c, r, t); }
  }

  lemma SliderShare(c: Control, at: Point, half: int) returns (t: real)
    requires c.Slider? && half >= 0 && (c.knob == 2 * half || c.knob == 2 * half + 1) && c.knob as real < c.bounds.width
    ensures SliderAt(c, at) == (c.max - c.min) * t + c.min
    ensures var x, last := at.x - c.bounds.x, c.bounds.width - (c.knob - half) as real;
            && t * (c.bounds.width - c.knob as real) == x - half as real
            && (x <= half as real ==> t <= 0.0) && (x >= last ==> t >= 1.0) && (half as real <= x <= last ==> 0.0 <= t <= 1.0)
  {
    assert Quotient(c.knob, 2) == half;
    t := Share(at.x - c.bounds.x - half as real, c.bounds.width - c.knob as real);
  }

  lemma ClampShare(t: real, min: real, max: real, v: real)
    requires min < max && v == (max - min) * t + min
    ensures && (t <= 0.0 ==> Clamp(v, min, max) == min)
            && (t >= 1.0 ==> Clamp(v, min, max) == max)
            && (0.0 <= t <= 1.0 ==> Clamp(v, min, max) == v)
  {
    var range := max - min;
    var e := t * range;
    SB.Sign(t, range);
    TimesShare(t, range, e);
    assert v == e + min;
  }

  lemma TimesShare(t: real, range: real, e: real)
    requires range > 0.0 && e == t * range
    ensures (t >= 1.0 ==> e >= range) && (t <= 1.0 ==> e <= range) && (t <= 0.0 ==> e <= 0.0) && (t >= 0.0 ==> e >= 0.0)
  {
    SB.Sign(t, range);
    SB.Sign(t - 1.0, range);
    SB.Distributes(t, 1.0, range);
  }

  lemma KnobAt(c: Control, r: real, t: real)
    requires c.Slider? && c.border == 0 && c.min < c.max && c.knob as real < c.bounds.width && 0.0 <= t <= 1.0
    requires r == (c.max - c.min) * t + c.min
    ensures Knob(c, r).x == c.bounds.x + t * (c.bounds.width - c.knob as real)
  {
    var range, room := c.max - c.min, c.bounds.width - c.knob as real;
    var q := Share(r - c.min, range);
    assert q * range == t * range;
    SB.Same(q, t, range);
    SB.Sign(t, room);
    SB.Sign(t - 1.0, room);
    SB.Distributes(t, 1.0, room);
  }

  /** The knob never leaves the bounds and keeps clear of the border on the left, for every value of the slider. */
  lemma KnobStaysInside(c: Control, value: real)
    requires c.Slider? && c.min < c.max && c.min <= value <= c.max && c.border >= 0 && c.knob >= 0
    requires c.knob as real + 2.0 * c.border as real <= c.bounds.width
    ensures c.bounds.x + c.border as real <= Knob(c, value).x
    ensures Knob(c, value).x + Knob(c, value).width <= c.bounds.x + c.bounds.width
    ensures Knob(c, value).y == c.bounds.y + (c.border + c.padding) as real && Knob(c, value).width == c.knob as real
    ensures Knob(c, value).y + Knob(c, value).height == c.bounds.y + c.bounds.height - (c.border + c.padding) as real
  {
    var room := c.bounds.width - c.knob as real - 2.0 * c.border as real;
    var t := Share(value - c.min, c.max - c.min);
    if room > 0.0 {
      SB.Sign(t - 1.0, room);
      SB.Distributes(t, 1.0, room);
    }
  }

  // ----- Colour bars -----

  /** Dragged along it, an alpha bar is 0 left of its bounds, 1 right of them, and between them draws its selector centred on the pointer. */
  lemma AlphaFollowsPointer(g: Grab, c: Control, p: Pointer, alpha: real, half: int)
    requires c.AlphaBar? && IsDragging(g, c, p) && c.bounds.width > 0.0
    requires half >= 0 && (c.selectorHeight == 2 * half || c.selectorHeight == 2 * half + 1)
    ensures var r, b := ValueAfter(g, c, true, p, Level(alpha)).level, c.bounds;
            && (p.at.x <= b.x ==> r == 0.0)
            && (p.at.x >= b.x + b.width ==> r == 1.0)
            && (b.x <= p.at.x <= b.x + b.width ==> AlphaSelector(b, c.selectorHeight, c.overflow, r).x + half as real == p.at.x)
  {
    var t := Share(p.at.x - c.bounds.x, c.bounds.width);
    assert Quotient(c.selectorHeight, 2) == half;
  }

  /** The same down a hue bar, from 0 to 359 degrees, which is one 360th of the bar above its end. */
  lemma HueFollowsPointer(g: Grab, c: Control, p: Pointer, hue: real, half: int)
    requires c.HueBar? && IsDragging(g, c, p) && c.bounds.height > 0.0
    requires half >= 0 && (c.selectorHeight == 2 * half || c.selectorHeight == 2 * half + 1)
    ensures var r, b := ValueAfter(g, c, true, p, Level(hue)).level, c.bounds;
            var y := p.at.y - b.y;
            && (y <= 0.0 ==> r == 0.0)
            && (y * 360.0 >= b.height * 359.0 ==> r == 359.0)
            && (0.0 <= y && y * 360.0 <= b.height * 359.0 ==> HueSelector(b, c.selectorHeight, c.overflow, r).y + half as real == p.at.y)
  {
    hide Clamp, Ratio, SameId;
    var b, y := c.bounds, p.at.y - c.bounds.y;
    assert Quotient(c.selectorHeight, 2) == half;
    var t := HueShare(y, b.height);
    assert ValueAfter(g, c, true, p, Level(hue)).level == Clamp(t, 0.0, 359.0);
    ClampIsInside(t, 0.0, 359.0);
    if 0.0 <= y && y * 360.0 <= b.height * 359.0 { HueSpot(t, b.height, y); }
  }

  lemma HueShare(y: real, height: real) returns (t: real)
    requires height > 0.0
    ensures t == Ratio(y * 360.0, height) && t * height == y * 360.0
    ensures (y <= 0.0 ==> t <= 0.0) && (y >= 0.0 ==> t >= 0.0)
    ensures (y * 360.0 >= height * 359.0 ==> t >= 359.0) && (y * 360.0 <= height * 359.0 ==> t <= 359.0)
  {
    t := Share(y * 360.0, height);
    Versus(t, 359.0, height, y * 360.0);
    Versus(t, 0.0, height, y * 360.0);
  }

  lemma Versus(t: real, k: real, c: real, p: real)
    requires c > 0.0 && p == t * c
    ensures (p >= k * c ==> t >= k) && (p <= k * c ==> t <= k)
  {
    Product(t, k, c);
    Product(k, t, c);
  }

  lemma HueSpot(t: real, height: real, y: real)
    requires height > 0.0 && t * height == y * 360.0
    ensures t / 360.0 * height == y
  {
    var u := t / 360.0;
    SB.Divide(t, 360.0, u);
    Shift(u, height, t);
    SB.Same(u * height, y, 360.0);
  }

  lemma Shift(u: real, height: real, t: real)
    requires u * 360.0 == t
    ensures (u * height) * 360.0 == t * height
  {
  }

  /** Selectors cover their bar from edge to edge, with the overflow on both sides. */
  lemma SelectorsCoverTheBar(b: Rect, h: int, overflow: int, v: real)
    ensures var a, u := AlphaSelector(b, h, overflow, v), HueSelector(b, h, overflow, v);
            && a.y == b.y - overflow as real && a.y + a.height == b.y + b.height + overflow as real && a.width == h as real
            && u.x == b.x - overflow as real && u.x + u.width == b.x + b.width + overflow as real && u.height == h as real
  {
  }

  // ----- Colour panel -----

  /** Where the panel draws its marker. */
  function Marker(b: Rect, v: Value): Point
    requires v.Shade?
  {
    Point(b.x + v.saturation * b.width, b.y + (1.0 - v.value) * b.height)
  }

  /** Dragged, the panel draws its marker at the pointer, or at the point of the panel nearest to it. */
  lemma PanelFollowsPointer(g: Grab, c: Control, p: Pointer, v: Value)
    requires c.ColorPanel? && v.Shade? && IsDragging(g, c, p) && c.bounds.width > 0.0 && c.bounds.height > 0.0
    ensures var r := ValueAfter(g, c, true, p, v);
            var m := Marker(c.bounds, r);
            && 0.0 <= r.saturation <= 1.0 && 0.0 <= r.value <= 1.0
            && Inside(m, c.bounds)
            && (Inside(p.at, c.bounds) ==> m == p.at)
            && (forall q :: Inside(q, c.bounds) ==> Gap(m.x, p.at.x) <= Gap(q.x, p.at.x) && Gap(m.y, p.at.y) <= Gap(q.y, p.at.y))
  {
    hide Ratio, SameId, PanelPoint, Inside, Gap;
    var q := PanelPoint(c.bounds, p.at);
    PanelPointIsNearest(c.bounds, p.at);
    assert q.x - c.bounds.x >= 0.0 && q.x - c.bounds.x <= c.bounds.width;
    var s := Share(q.x - c.bounds.x, c.bounds.width);
    var t := Share(q.y - c.bounds.y, c.bounds.height);
    var r := ValueAfter(g, c, true, p, v);
    assert r == Shade(s, 1.0 - t);
    assert Marker(c.bounds, r) == q;
  }

  lemma PanelPointIsNearest(b: Rect, at: Point)
    requires b.width > 0.0 && b.height > 0.0
    ensures var m := PanelPoint(b, at);
            && Inside(m, b) && b.x <= m.x <= b.x + b.width && b.y <= m.y <= b.y + b.height
            && (Inside(at, b) ==> m == at)
            && (forall q :: Inside(q, b) ==> Gap(m.x, at.x) <= Gap(q.x, at.x) && Gap(m.y, at.y) <= Gap(q.y, at.y))
  {
  }

  function Gap(x: real, y: real): real { if x < y then y - x else x - y }

  /** Pressed at a point of the panel, it draws its marker there. */
  lemma PanelPressedAt(c: Control, p: Pointer, v: Value)
    requires c.ColorPanel? && v.Shade? && p.down && Inside(p.at, c.bounds) && c.bounds.width > 0.0 && c.bounds.height > 0.0
    ensures Marker(c.bounds, ValueAfter(Idle, c, true, p, v)) == p.at
  {
    var s := Share(p.at.x - c.bounds.x, c.bounds.width);
    var t := Share(p.at.y - c.bounds.y, c.bounds.height);
    assert ValueAfter(Idle, c, true, p, v) == Shade(s, 1.0 - t);
  }

  // ----- Taking hold -----

  /** A press inside its bounds, while nobody drags, makes a control the owner of the grab; so it is what the next call of it drags. */
  lemma PressTakesHold(c: Control, p: Pointer, v: Value)
    requires Drags(c) && Fits(c, v) && Inside(p.at, c.bounds) && p.down && p.pressed
    ensures GrabAfter(Idle, c, true, p, v) == Held(c.bounds) && SameId(c.bounds, c.bounds)
  {
  }

  /** A press and then the pointer at rest: the value stays where the press put it, for the bars, the panel and a slider not pressed on its left edge. */
  lemma PressThenRest(c: Control, p: Pointer, v: Value)
    requires Drags(c) && !c.ScrollBar? && Fits(c, v) && Inside(p.at, c.bounds) && p.down
    requires c.Slider? ==> p.at.x != c.bounds.x
    requires c.ColorPanel? ==> c.bounds.width >= 0.0 && c.bounds.height >= 0.0
    ensures var r := ValueAfter(Idle, c, true, p, v);
            Fits(c, r) && ValueAfter(GrabAfter(Idle, c, true, p, v), c, true, p, r) == r
  {
    if c.ColorPanel? { assert PanelPoint(c.bounds, p.at) == p.at; }
  }

  /** Nothing touches a disabled control: its value keeps, but for a scroll bar's clamp, and so does the grab. */
  lemma DisabledWaits(g: Grab, c: Control, p: Pointer, v: Value)
    requires Fits(c, v)
    ensures GrabAfter(g, c, false, p, v) == g
    ensures ValueAfter(g, c, false, p, v) == if c.ScrollBar? then Index(SB.Normalize(v.index, c.low, c.high)) else v
  {
  }

  /** A button that is up never changes a control nobody drags, but for its clamp and a scroll bar's wheel. */
  lemma HoverChangesNothing(c: Control, p: Pointer, v: Value)
    requires Drags(c) && Fits(c, v) && !p.down && !p.pressed && (c.ScrollBar? ==> p.wheel == 0.0)
    ensures GrabAfter(Idle, c, true, p, v) == Idle && ValueAfter(Idle, c, true, p, v) == Rest(c, true, v)
  {
  }

  /** The clamp of a value is inside the limits, and does not move values inside them. */
  lemma ClampIsInside(r: real, low: real, high: real)
    requires low <= high
    ensures low <= Clamp(r, low, high) <= high && (low <= r <= high ==> Clamp(r, low, high) == r)
    ensures (r < low ==> Clamp(r, low, high) == low) && (r > high ==> Clamp(r, low, high) == high)
  {
  }

  // ----- Scroll bar -----

  /** The wheel over an idle bar goes up with its sign, one for each whole step, as far as the limits allow; also while its slider is pressed. */
  lemma WheelSteps(c: Control, p: Pointer, value: int, steps: int)
    requires c.ScrollBar? && Inside(p.at, c.bounds) && p.wheel == steps as real
    requires p.pressed ==> !OnArrows(c, p.at) && Inside(p.at, SB.SliderRect(c.bounds, c.style, value, c.low, c.high))
    requires c.low <= value <= c.high && c.low <= value + steps <= c.high
    ensures ValueAfter(Idle, c, true, p, Index(value)) == Index(value + steps)
  {
    hide SB.ArrowUpLeft, SB.ArrowDownRight, SB.SliderRect, SB.PointerValue, Inside;
    SB.WholeIsKept(steps, p.wheel);
  }

  /** A press on the first arrow goes back by one step, on the second forward, as far as the limits allow; without the wheel never the other way. */
  lemma ArrowsStep(c: Control, p: Pointer, value: int, steps: int)
    requires c.ScrollBar? && c.style.speed > 0 && c.low < c.high && c.low <= value <= c.high
    requires Inside(p.at, c.bounds) && p.pressed && p.wheel == steps as real
    ensures var r := ValueAfter(Idle, c, true, p, Index(value)).index;
            var step := (c.high - c.low) / c.style.speed;
            && step >= 0 && c.low <= r <= c.high
            && (Inside(p.at, SB.ArrowUpLeft(c.bounds, c.style)) ==>
                  (steps == 0 ==> r <= value) && (c.low <= value + steps - step <= c.high ==> r == value + steps - step))
            && (!Inside(p.at, SB.ArrowUpLeft(c.bounds, c.style)) && Inside(p.at, SB.ArrowDownRight(c.bounds, c.style)) ==>
                  (steps == 0 ==> r >= value) && (c.low <= value + steps + step <= c.high ==> r == value + steps + step))
  {
    hide SB.ArrowUpLeft, SB.ArrowDownRight, SB.SliderRect, SB.PointerValue, Inside;
    SB.WholeIsKept(steps, p.wheel);
    assert ArrowStep(c.low, c.high, c.style.speed) == (c.high - c.low) / c.style.speed;
  }

  /** A press in the track beside the slider brings the slider to the pointer; a press on the slider changes nothing. */
  lemma TrackPress(c: Control, p: Pointer, value: int)
    requires c.ScrollBar? && c.low < c.high && c.low <= value <= c.high
    requires Inside(p.at, c.bounds) && p.pressed && p.wheel == 0.0 && !OnArrows(c, p.at)
    ensures var r := ValueAfter(Idle, c, true, p, Index(value)).index;
            if Inside(p.at, SB.SliderRect(c.bounds, c.style, value, c.low, c.high)) then r == value
            else r == SB.Normalize(SB.PointerValue(c.bounds, c.style, p.at, c.low, c.high), c.low, c.high)
  {
    hide SB.ArrowUpLeft, SB.ArrowDownRight, SB.SliderRect, SB.PointerValue, Inside;
    SB.WholeIsKept(0, p.wheel);
  }

  /** Dragged, a bar draws its slider with the middle at the pointer, up to a pixel and what one value is worth; beyond the track at its end. */
  lemma BarFollowsPointer(g: Grab, c: Control, p: Pointer, value: int)
    requires c.ScrollBar? && IsDragging(g, c, p) && c.low < c.high
    ensures var r := ValueAfter(g, c, true, p, Index(value)).index;
            var m := if c.bounds.width > c.bounds.height then p.at.x else p.at.y;
            var half := SB.SliderLength(c.bounds, c.style) as real / 2.0;
            var up, down := SB.Along(c.bounds, SB.ArrowUpLeft(c.bounds, c.style)).to, SB.Along(c.bounds, SB.ArrowDownRight(c.bounds, c.style)).from;
            var slider := SB.Along(c.bounds, SB.SliderRect(c.bounds, c.style, r, c.low, c.high));
            var worth := SB.ValueWorth(SB.Room(c.bounds, c.style), c.low, c.high);
            && (m - half <= up ==> r == c.low)
            && (m + half >= down ==> r == c.high)
            && (up <= m - half && m + half <= down ==> -(1.0 + worth) < (slider.from + slider.to) / 2.0 - m < 1.0 + worth)
  {
    hide SB.ArrowUpLeft, SB.ArrowDownRight, SB.SliderRect, SB.PointerValue, SB.SliderLength, SB.ValueWorth, SB.Room, Inside;
    SB.PointerBeyondTheTrack(c.bounds, c.style, p.at, c.low, c.high);
    var m := if c.bounds.width > c.bounds.height then p.at.x else p.at.y;
    var half := SB.SliderLength(c.bounds, c.style) as real / 2.0;
    if SB.Along(c.bounds, SB.ArrowUpLeft(c.bounds, c.style)).to <= m - half
       && m + half <= SB.Along(c.bounds, SB.ArrowDownRight(c.bounds, c.style)).from {
      SB.SliderComesToThePointer(c.bounds, c.style, p.at, c.low, c.high);
    }
  }
}
