/**
  The drag grab shared by the slider, the two colour bars, the colour panel and the scroll bar: two
  globals that name the control being dragged by its bounds.  One step per call of a control.
 */
module DragGrab {
  import opened Geometry
  import SB = ScrollBar

  /** Nobody drags, or the control whose bounds were stored when dragging started. */
  datatype Grab = Idle | Held(owner: Rect)

  /** The value a control edits: a position, the saturation and value of a colour, a whole number, or on and off. */
  datatype Value = Level(level: real) | Shade(saturation: real, value: real) | Index(index: int) | Flag(on: bool)

  /** The controls, with what they read besides the globals, the pointer and their value. */
  datatype Control =
    | Slider(bounds: Rect, min: real, max: real, knob: int, border: int, padding: int)
    | AlphaBar(bounds: Rect, selectorHeight: int, overflow: int)
    | HueBar(bounds: Rect, selectorHeight: int, overflow: int)
    | ColorPanel(bounds: Rect)
    | ScrollBar(bounds: Rect, low: int, high: int, style: SB.Style)
    | Button(bounds: Rect)
    | Toggle(bounds: Rect)
    | CheckBox(bounds: Rect)    // its box together with its label

  /** The controls that can be dragged; the others only react to a release over them. */
  predicate Drags(c: Control) { !c.Button? && !c.Toggle? && !c.CheckBox? }

  /** The control edits a value of its own kind. */
  predicate Fits(c: Control, v: Value)
  {
    match c
    case ColorPanel(_) => v.Shade?
    case ScrollBar(_, _, _, _) => v.Index?
    case _ => if Drags(c) then v.Level? else v.Flag?
  }

  predicate SameSort(a: Value, b: Value) { a.Level? == b.Level? && a.Shade? == b.Shade? && a.Index? == b.Index? }

  /** Real division; where C would get an infinity the model has some real instead. */
  function Ratio(a: real, b: real): real { if b == 0.0 then 0.0 else a / b }

  function Clamp(r: real, low: real, high: real): real { if r > high then high else if r < low then low else r }

  // ----- Values under the pointer -----

  function SliderAt(c: Control, at: Point): real
    requires c.Slider?
  {
    (c.max - c.min) * Ratio(at.x - c.bounds.x - Quotient(c.knob, 2) as real, c.bounds.width - c.knob as real) + c.min
  }

  function AlphaAt(b: Rect, at: Point): real { Clamp(Ratio(at.x - b.x, b.width), 0.0, 1.0) }

  function HueAt(b: Rect, at: Point): real { Clamp(Ratio((at.y - b.y) * 360.0, b.height), 0.0, 359.0) }

  function ShadeAt(b: Rect, at: Point): Value { Shade(Ratio(at.x - b.x, b.width), 1.0 - Ratio(at.y - b.y, b.height)) }

  /** The panel's pointer, kept inside its bounds while dragging. */
  function PanelPoint(b: Rect, at: Point): Point
  {
    var x := if at.x < b.x then b.x else at.x;
    var y := if at.y < b.y then b.y else at.y;
    Point(if x > b.x + b.width then b.x + b.width else x, if y > b.y + b.height then b.y + b.height else y)
  }

  /** The value while the pointer drags the control. */
  function Dragged(c: Control, at: Point): Value
  {
    match c
    case Slider(_, _, _, _, _, _) => Level(SliderAt(c, at))
    case AlphaBar(b, _, _) => Level(AlphaAt(b, at))
    case HueBar(b, _, _) => Level(HueAt(b, at))
    case ColorPanel(b) => ShadeAt(b, PanelPoint(b, at))
    case ScrollBar(b, low, high, s) => Index(SB.PointerValue(b, s, at, low, high))
    case _ => Flag(true)
  }

  /** What the control does to its value in every call: its own clamp, if it has one. */
  function Rest(c: Control, enabled: bool, v: Value): (r: Value)
    requires Fits(c, v)
    ensures SameSort(r, v)
  {
    match c
    case Slider(_, min, max, _, _, _) => if enabled then Level(Clamp(v.level, min, max)) else v
    case ScrollBar(_, low, high, _) => Index(SB.Normalize(v.index, low, high))
    case _ => v
  }

  // ----- One call -----

  /** The selector drawn on an alpha bar, and on a hue bar; it overlaps the bar's edges. */
  function AlphaSelector(b: Rect, h: int, overflow: int, alpha: real): Rect
  {
    Rect(b.x + alpha * b.width - Quotient(h, 2) as real, b.y - overflow as real, h as real, b.height + 2.0 * overflow as real)
  }

  function HueSelector(b: Rect, h: int, overflow: int, hue: real): Rect
  {
    Rect(b.x - overflow as real, b.y + hue / 360.0 * b.height - Quotient(h, 2) as real, b.width + 2.0 * overflow as real, h as real)
  }

  /** Where a press or hover counts as on the control. */
  predicate Touches(c: Control, v: Value, at: Point)
    requires Fits(c, v)
  {
    var b := c.bounds;
    Inside(at, b) ||
    match c
    case AlphaBar(_, h, o) => Inside(at, AlphaSelector(b, h, o, v.level))
    case HueBar(_, h, o) => Inside(at, HueSelector(b, h, o, v.level))
    case _ => false
  }

  /** Is the pointer on one of a scroll bar's own arrows? */
  predicate OnArrows(c: Control, at: Point)
  {
    c.ScrollBar? && (Inside(at, SB.ArrowUpLeft(c.bounds, c.style)) || Inside(at, SB.ArrowDownRight(c.bounds, c.style)))
  }

  /** A call that ends a drag: the button is up, or the control is a scroll bar with the pointer on its arrows. */
  predicate Releases(c: Control, enabled: bool, p: Pointer)
  {
    enabled && Drags(c) && (!p.down || OnArrows(c, p.at))
  }

  function GrabAfter(g: Grab, c: Control, enabled: bool, p: Pointer, v: Value): Grab
    requires Fits(c, v)
  {
    if g.Held? then if Releases(c, enabled, p) then Idle else g
    else if enabled && Drags(c) && Touches(c, v, p.at) && (if c.ScrollBar? then p.pressed else p.down) then Held(c.bounds)
    else Idle
  }

  /** A press on an arrow divides by the scroll speed; at speed zero that is undefined. */
  predicate DividesByZero(g: Grab, c: Control, enabled: bool, p: Pointer)
  {
    c.ScrollBar? && c.style.speed == 0 && g == Idle && enabled && Inside(p.at, c.bounds) && p.pressed && OnArrows(c, p.at)
  }

  /** An arrow's step; where C would divide by zero the model has some number instead. */
  function ArrowStep(low: int, high: int, speed: int): int
  {
    if speed == 0 then 0 else Quotient(SB.Range(low, high), speed)
  }

  /** Button, toggle and check box: on after a release over it while nobody drags, or the other way round. */
  function Clicked(g: Grab, c: Control, enabled: bool, p: Pointer, on: bool): bool
    requires !Drags(c)
  {
    if !(enabled && g == Idle && Inside(p.at, c.bounds) && p.released) then on
    else if c.Button? then true
    else if c.Toggle? && p.down then on
    else !on
  }

  /** The value a press starts dragging from. */
  function Pressed(c: Control, p: Pointer, v: Value): Value
    requires Fits(c, v)
  {
    match c
    case Slider(b, _, _, _, border, pad) =>
      // The knob rectangle still has width zero when the press is tested.
      var knob := Rect(b.x, b.y + (border + pad) as real, 0.0, b.height - 2.0 * (border + pad) as real);
      if Inside(p.at, knob) then v else Level(SliderAt(c, p.at))
    case ColorPanel(b) => ShadeAt(b, p.at)
    case ScrollBar(b, low, high, s) =>
      var start := SB.Normalize(v.index, low, high);
      var scrolled := start + Truncate(p.wheel);
      if Inside(p.at, SB.ArrowUpLeft(b, s)) then Index(scrolled - ArrowStep(low, high, s.speed))
      else if Inside(p.at, SB.ArrowDownRight(b, s)) then Index(scrolled + ArrowStep(low, high, s.speed))
      else if !Inside(p.at, SB.SliderRect(b, s, start, low, high)) then Dragged(c, p.at)
      else Index(scrolled)
    case _ => Dragged(c, p.at)
  }

  /** The value when the pointer hovers without a press: only the scroll bar listens, to the wheel. */
  function Hovered(c: Control, p: Pointer, v: Value): Value
    requires Fits(c, v)
  {
    if c.ScrollBar? then Index(SB.Normalize(v.index, c.low, c.high) + Truncate(p.wheel)) else v
  }

  function ValueAfter(g: Grab, c: Control, enabled: bool, p: Pointer, v: Value): (r: Value)
    requires Fits(c, v)
    ensures SameSort(r, v)
  {
    if !Drags(c) then Flag(Clicked(g, c, enabled, p, v.on))
    else if !enabled then Rest(c, enabled, v)
    else if g.Held? then
      if !Releases(c, enabled, p) && SameId(c.bounds, g.owner) then Rest(c, enabled, Dragged(c, p.at)) else Rest(c, enabled, v)
    else if Touches(c, v, p.at) then
      Rest(c, enabled, if GrabAfter(g, c, enabled, p, v).Held? then Pressed(c, p, v) else Hovered(c, p, v))
    else Rest(c, enabled, v)
  }

  // ----- The controls as they are written -----

  /** The globals. */
  class Gui {
    var disabled: bool           // guiState == STATE_DISABLED
    var locked: bool
    var exclusiveMode: bool
    var exclusiveRec: Rect

    constructor ()
      ensures !disabled && !locked && Grab() == Idle
    {
      disabled, locked, exclusiveMode, exclusiveRec := false, false, false, NOWHERE;
    }

    function Grab(): Grab
      reads this
    {
      if exclusiveMode then Held(exclusiveRec) else Idle
    }

    predicate Enabled()
      reads this
    {
      !disabled && !locked
    }

    method GuiSlider(c: Control, p: Pointer, value: real) returns (r: real)
      requires c.Slider?
      modifies this`exclusiveMode, this`exclusiveRec
      ensures Grab() == GrabAfter(old(Grab()), c, Enabled(), p, Level(value))
      ensures Level(r) == ValueAfter(old(Grab()), c, Enabled(), p, Level(value))
    {
      r := value;
      var slider := Rect(c.bounds.x, c.bounds.y + (c.border + c.padding) as real,
                         0.0, c.bounds.height - 2.0 * (c.border + c.padding) as real);
      if !disabled && !locked {
        if exclusiveMode {
          if p.down {
            if SameId(c.bounds, exclusiveRec) { r := SliderAt(c, p.at); }
          } else {
            exclusiveMode := false;
            exclusiveRec := NOWHERE;
          }
        } else if Inside(p.at, c.bounds) {
          if p.down {
            exclusiveMode := true;
            exclusiveRec := c.bounds;
            if !Inside(p.at, slider) { r := SliderAt(c, p.at); }
          }
        }
        if r > c.max { r := c.max; } else if r < c.min { r := c.min; }
      }
    }

    method GuiColorBarAlpha(c: Control, p: Pointer, alpha: real) returns (r: real)
      requires c.AlphaBar?
      modifies this`exclusiveMode, this`exclusiveRec
      ensures Grab() == GrabAfter(old(Grab()), c, Enabled(), p, Level(alpha))
      ensures Level(r) == ValueAfter(old(Grab()), c, Enabled(), p, Level(alpha))
    {
      r := alpha;
      var b := c.bounds;
      var selector := AlphaSelector(b, c.selectorHeight, c.overflow, alpha);
      if !disabled && !locked {
        if exclusiveMode {
          if p.down {
            if SameId(c.bounds, exclusiveRec) {
              r := Ratio(p.at.x - b.x, b.width);
              if r <= 0.0 { r := 0.0; }
              if r >= 1.0 { r := 1.0; }
            }
          } else {
            exclusiveMode := false;
            exclusiveRec := NOWHERE;
          }
        } else if Inside(p.at, b) || Inside(p.at, selector) {
          if p.down {
            exclusiveMode := true;
            exclusiveRec := b;
            r := Ratio(p.at.x - b.x, b.width);
            if r <= 0.0 { r := 0.0; }
            if r >= 1.0 { r := 1.0; }
          }
        }
      }
    }

    method GuiColorBarHue(c: Control, p: Pointer, hue: real) returns (r: real)
      requires c.HueBar?
      modifies this`exclusiveMode, this`exclusiveRec
      ensures Grab() == GrabAfter(old(Grab()), c, Enabled(), p, Level(hue))
      ensures Level(r) == ValueAfter(old(Grab()), c, Enabled(), p, Level(hue))
    {
      r := hue;
      var b := c.bounds;
      var selector := HueSelector(b, c.selectorHeight, c.overflow, hue);
      if !disabled && !locked {
        if exclusiveMode {
          if p.down {
            if SameId(c.bounds, exclusiveRec) {
              r := Ratio((p.at.y - b.y) * 360.0, b.height);
              if r <= 0.0 { r := 0.0; }
              if r >= 359.0 { r := 359.0; }
            }
          } else {
            exclusiveMode := false;
            exclusiveRec := NOWHERE;
          }
        } else if Inside(p.at, b) || Inside(p.at, selector) {
          if p.down {
            exclusiveMode := true;
            exclusiveRec := b;
            r := Ratio((p.at.y - b.y) * 360.0, b.height);
            if r <= 0.0 { r := 0.0; }
            if r >= 359.0 { r := 359.0; }
          }
        }
      }
    }

    method GuiColorPanelHSV(c: Control, p: Pointer, saturation: real, value: real) returns (s: real, v: real)
      requires c.ColorPanel?
      modifies this`exclusiveMode, this`exclusiveRec
      ensures Grab() == GrabAfter(old(Grab()), c, Enabled(), p, Shade(saturation, value))
      ensures Shade(s, v) == ValueAfter(old(Grab()), c, Enabled(), p, Shade(saturation, value))
    {
      s, v := saturation, value;
      var b := c.bounds;
      if !disabled && !locked {
        if exclusiveMode {
          if p.down {
            if SameId(b, exclusiveRec) {
              var x, y := p.at.x, p.at.y;
              if x < b.x { x := b.x; }
              if x > b.x + b.width { x := b.x + b.width; }
              if y < b.y { y := b.y; }
              if y > b.y + b.height { y := b.y + b.height; }
              s, v := Ratio(x - b.x, b.width), 1.0 - Ratio(y - b.y, b.height);
            }
          } else {
            exclusiveMode := false;
            exclusiveRec := NOWHERE;
          }
        } else if Inside(p.at, b) {
          if p.down {
            exclusiveMode := true;
            exclusiveRec := b;
            s, v := Ratio(p.at.x - b.x, b.width), 1.0 - Ratio(p.at.y - b.y, b.height);
          }
        }
      }
    }

    /** A press on the bar: arrows step, the track jumps to the pointer, the slider only starts the drag. */
    static method PressScrollBar(c: Control, p: Pointer, value: int, scrolled: int) returns (r: int)
      requires c.ScrollBar? && (OnArrows(c, p.at) ==> c.style.speed != 0)
      requires scrolled == SB.Normalize(value, c.low, c.high) + Truncate(p.wheel)
      ensures Index(r) == Pressed(c, p, Index(value))
    {
      r := scrolled;
      var valueRange := c.high - c.low;
      if valueRange <= 0 { valueRange := 1; }
      var slider := SB.SliderRect(c.bounds, c.style, SB.Normalize(value, c.low, c.high), c.low, c.high);
      if Inside(p.at, SB.ArrowUpLeft(c.bounds, c.style)) { r := r - Quotient(valueRange, c.style.speed); }
      else if Inside(p.at, SB.ArrowDownRight(c.bounds, c.style)) { r := r + Quotient(valueRange, c.style.speed); }
      else if !Inside(p.at, slider) { r := SB.PointerValue(c.bounds, c.style, p.at, c.low, c.high); }
    }

    method GuiScrollBar(c: Control, p: Pointer, value: int) returns (r: int)
      requires c.ScrollBar? && !DividesByZero(Grab(), c, Enabled(), p)
      modifies this`exclusiveMode, this`exclusiveRec
      ensures Grab() == GrabAfter(old(Grab()), c, Enabled(), p, Index(value))
      ensures Index(r) == ValueAfter(old(Grab()), c, Enabled(), p, Index(value))
    {
      hide SB.PointerValue, SB.SliderRect, SB.ArrowUpLeft, SB.ArrowDownRight, Inside, Truncate, SameId, Pressed;
      r := value;
      if r > c.high { r := c.high; }
      if r < c.low { r := c.low; }
      if !disabled && !locked {
        if exclusiveMode {
          if p.down && !Inside(p.at, SB.ArrowUpLeft(c.bounds, c.style)) && !Inside(p.at, SB.ArrowDownRight(c.bounds, c.style)) {
            if SameId(c.bounds, exclusiveRec) { r := SB.PointerValue(c.bounds, c.style, p.at, c.low, c.high); }
          } else {
            exclusiveMode := false;
            exclusiveRec := NOWHERE;
          }
        } else if Inside(p.at, c.bounds) {
          if p.wheel != 0.0 { r := r + Truncate(p.wheel); }
          if p.pressed {
            exclusiveMode := true;
            exclusiveRec := c.bounds;
            r := PressScrollBar(c, p, value, r);
          }
        }
        if r > c.high { r := c.high; }
        if r < c.low { r := c.low; }
      }
    }

    /** Button, and the other controls that only react to a release: nothing while somebody drags. */
    method GuiButton(c: Control, p: Pointer) returns (pressed: bool)
      requires c.Button?
      ensures pressed <==> Enabled() && Grab() == Idle && Inside(p.at, c.bounds) && p.released
      ensures forall was :: Flag(was || pressed) == ValueAfter(Grab(), c, Enabled(), p, Flag(was))
    {
      pressed := false;
      if !disabled && !locked && !exclusiveMode {
        if Inside(p.at, c.bounds) {
          if p.released { pressed := true; }
        }
      }
    }

    /** Toggle: the button test has priority over the release. */
    method GuiToggle(c: Control, p: Pointer, active: bool) returns (r: bool)
      requires c.Toggle?
      ensures r == if Enabled() && Grab() == Idle && Inside(p.at, c.bounds) && !p.down && p.released then !active else active
      ensures Flag(r) == ValueAfter(Grab(), c, Enabled(), p, Flag(active))
    {
      r := active;
      if !disabled && !locked && !exclusiveMode {
        if Inside(p.at, c.bounds) {
          if p.down { } else if p.released { r := !active; }
        }
      }
    }

    method GuiCheckBox(c: Control, p: Pointer, checked: bool) returns (r: bool)
      requires c.CheckBox?
      ensures r == if Enabled() && Grab() == Idle && Inside(p.at, c.bounds) && p.released then !checked else checked
      ensures Flag(r) == ValueAfter(Grab(), c, Enabled(), p, Flag(checked))
    {
      r := checked;
      if !disabled && !locked && !exclusiveMode {
        if Inside(p.at, c.bounds) {
          if p.released { r := !r; }
        }
      }
    }
  }

  // ----- Runs of calls -----

  /**
    A call of a control on the value in `slot`; the application may pass other bounds or styles every time.
    A button's value is whether it has been reported pressed.
   */
  datatype Call = Call(control: Control, slot: nat, enabled: bool, pointer: Pointer)

  datatype World = World(grab: Grab, values: seq<Value>)

  predicate Typed(values: seq<Value>, call: Call)
  {
    call.slot < |values| && Fits(call.control, values[call.slot])
  }

  predicate AllTyped(values: seq<Value>, calls: seq<Call>)
  {
    forall k :: 0 <= k < |calls| ==> Typed(values, calls[k])
  }

  function Step(w: World, call: Call): World
    requires Typed(w.values, call)
  {
    var v := w.values[call.slot];
    World(GrabAfter(w.grab, call.control, call.enabled, call.pointer, v),
          w.values[call.slot := ValueAfter(w.grab, call.control, call.enabled, call.pointer, v)])
  }

  lemma StepKeepsTypes(w: World, call: Call, calls: seq<Call>)
    requires Typed(w.values, call) && AllTyped(w.values, calls)
    ensures AllTyped(Step(w, call).values, calls)
  {
    hide ValueAfter, GrabAfter;
    var r := Step(w, call).values;
    assert forall j :: 0 <= j < |r| ==> SameSort(r[j], w.values[j]);
    forall k | 0 <= k < |calls| ensures Typed(r, calls[k]) {
      assert Typed(w.values, calls[k]);
    }
  }

  function Run(w: World, calls: seq<Call>): World
    requires AllTyped(w.values, calls)
    decreases calls
  {
    if calls == [] then w
    else
      assert Typed(w.values, calls[0]) && AllTyped(w.values, calls[1..]);
      StepKeepsTypes(w, calls[0], calls[1..]);
      Run(Step(w, calls[0]), calls[1..])
  }

  /** Only the clamps of the calls on `slot`, in order. */
  function RestAll(calls: seq<Call>, slot: nat, v: Value): Value
    requires forall k :: 0 <= k < |calls| && calls[k].slot == slot ==> Fits(calls[k].control, v)
    decreases calls
  {
    assert forall k :: 0 <= k < |calls| - 1 ==> calls[1..][k] == calls[k + 1];
    if calls == [] then v
    else if calls[0].slot != slot then RestAll(calls[1..], slot, v)
    else
      assert Fits(calls[0].control, v);
      var r := Rest(calls[0].control, calls[0].enabled, v);
      assert forall c: Control :: Fits(c, v) ==> Fits(c, r);
      RestAll(calls[1..], slot, r)
  }

  /** No call ends the drag. */
  predicate NoRelease(calls: seq<Call>)
  {
    forall k :: 0 <= k < |calls| ==> !Releases(calls[k].control, calls[k].enabled, calls[k].pointer)
  }

  /** No drag control on `slot` passes bounds that identify the owner. */
  predicate Foreign(calls: seq<Call>, slot: nat, owner: Rect)
  {
    forall k :: 0 <= k < |calls| && calls[k].slot == slot && Drags(calls[k].control) ==> !SameId(calls[k].control.bounds, owner)
  }

  /**
    Drag safety: as long as no call releases it, the grab keeps its owner, and a value that is never
    shown with the owner's bounds changes only by its own controls' clamps.
   */
  lemma {:induction false} HeldRun(w: World, calls: seq<Call>, slot: nat)
    requires w.grab.Held? && AllTyped(w.values, calls) && NoRelease(calls) && slot < |w.values|
    ensures Run(w, calls).grab == w.grab && |Run(w, calls).values| == |w.values|
    ensures forall k :: 0 <= k < |calls| && calls[k].slot == slot ==> Fits(calls[k].control, w.values[slot])
    ensures Foreign(calls, slot, w.grab.owner) ==> Run(w, calls).values[slot] == RestAll(calls, slot, w.values[slot])
    decreases calls
  {
    hide Fits, Rest, Dragged, Touches, Releases, SameId, Pressed, Hovered;
    forall k | 0 <= k < |calls| && calls[k].slot == slot ensures Fits(calls[k].control, w.values[slot]) {
      assert Typed(w.values, calls[k]);
    }
    if calls != [] {
      assert Typed(w.values, calls[0]) && AllTyped(w.values, calls[1..]);
      StepKeepsTypes(w, calls[0], calls[1..]);
      assert NoRelease(calls[1..]);
      if !Drags(calls[0].control) { ClickWaits(w.grab, calls[0], w.values[calls[0].slot]); }
      HeldRun(Step(w, calls[0]), calls[1..], slot);
    }
  }

  lemma ClickWaits(g: Grab, call: Call, v: Value)
    requires g.Held? && !Drags(call.control) && Fits(call.control, v)
    ensures ValueAfter(g, call.control, call.enabled, call.pointer, v) == Rest(call.control, call.enabled, v) == v
  {
  }

  /** Buttons, toggles and check boxes do not react at all meanwhile, wherever they are. */
  lemma ClicksWait(w: World, calls: seq<Call>, slot: nat)
    requires w.grab.Held? && AllTyped(w.values, calls) && NoRelease(calls) && slot < |w.values|
    requires forall k :: 0 <= k < |calls| && calls[k].slot == slot ==> !Drags(calls[k].control)
    ensures |Run(w, calls).values| == |w.values| && Run(w, calls).values[slot] == w.values[slot]
  {
    hide Rest, Fits, ValueAfter, GrabAfter, Releases;
    forall k | 0 <= k < |calls| && calls[k].slot == slot
      ensures Fits(calls[k].control, w.values[slot]) && Rest(calls[k].control, calls[k].enabled, w.values[slot]) == w.values[slot]
    {
      assert Typed(w.values, calls[k]);
      ClickWaits(w.grab, calls[k], w.values[slot]);
    }
    OthersDoNotMove(w, calls, slot);
  }

  /** In particular a value inside the limits of its controls does not move while another control is dragged. */
  lemma {:induction false} OthersDoNotMove(w: World, calls: seq<Call>, slot: nat)
    requires w.grab.Held? && AllTyped(w.values, calls) && NoRelease(calls) && slot < |w.values|
    requires Foreign(calls, slot, w.grab.owner)
    requires forall k :: 0 <= k < |calls| && calls[k].slot == slot ==>
               Fits(calls[k].control, w.values[slot]) && Rest(calls[k].control, calls[k].enabled, w.values[slot]) == w.values[slot]
    ensures |Run(w, calls).values| == |w.values| && Run(w, calls).values[slot] == w.values[slot]
  {
    HeldRun(w, calls, slot);
    RestAllAtRest(calls, slot, w.values[slot]);
  }

  lemma {:induction false} RestAllAtRest(calls: seq<Call>, slot: nat, v: Value)
    requires forall k :: 0 <= k < |calls| && calls[k].slot == slot ==>
               Fits(calls[k].control, v) && Rest(calls[k].control, calls[k].enabled, v) == v
    ensures RestAll(calls, slot, v) == v
    decreases calls
  {
    hide Rest, Fits;
    if calls != [] { RestAllAtRest(calls[1..], slot, v); }
  }

  lemma {:induction false} RunLast(w: World, calls: seq<Call>)
    requires AllTyped(w.values, calls) && calls != []
    ensures var front, last := calls[..|calls| - 1], calls[|calls| - 1];
            AllTyped(w.values, front) && Typed(Run(w, front).values, last) && Run(w, calls) == Step(Run(w, front), last)
    decreases calls
  {
    hide Fits, GrabAfter, ValueAfter;
    assert Typed(w.values, calls[0]) && AllTyped(w.values, calls[1..]);
    StepKeepsTypes(w, calls[0], calls[1..]);
    var front := calls[..|calls| - 1];
    assert AllTyped(w.values, front);
    if |calls| > 1 {
      RunLast(Step(w, calls[0]), calls[1..]);
      assert front[1..] == calls[1..][..|calls| - 2];
      assert front[0] == calls[0];
    }
  }

  /** The grab is the same after every part of a run exactly if no call in it releases. */
  lemma GrabKeptExactly(w: World, calls: seq<Call>)
    requires w.grab.Held? && AllTyped(w.values, calls)
    ensures (forall k :: 0 <= k <= |calls| ==> AllTyped(w.values, calls[..k]) && Run(w, calls[..k]).grab == w.grab) <==> NoRelease(calls)
  {
    hide Fits, Rest, Dragged, Touches, Releases, SameId, Pressed, Hovered;
    forall k | 0 <= k <= |calls| ensures AllTyped(w.values, calls[..k]) {
      assert forall i :: 0 <= i < k ==> Typed(w.values, calls[i]);
    }
    if NoRelease(calls) {
      forall k | 0 <= k <= |calls| ensures Run(w, calls[..k]).grab == w.grab {
        if k > 0 { assert Typed(w.values, calls[0]); HeldRun(w, calls[..k], calls[0].slot); }
      }
    } else {
      var i :| 0 <= i < |calls| && Releases(calls[i].control, calls[i].enabled, calls[i].pointer);
      var part := calls[..i + 1];
      RunLast(w, part);
      assert part[..i] == calls[..i] && part[i] == calls[i];
      assert AllTyped(w.values, part);
      assert Run(w, calls[..i]).grab == w.grab ==> Run(w, calls[..i + 1]).grab == Idle;
    }
  }

  /** A bar that is not dragged ends the drag when the pointer, its button held down, is on one of the bar's arrows. */
  lemma ForeignBarReleases()
    ensures var owner, bounds := Rect(0.0, 0.0, 100.0, 10.0), Rect(200.0, 0.0, 12.0, 100.0);
            var bar := Control.ScrollBar(bounds, 0, 10, SB.Style(true, 0, 0, 0, 16, 12));
            var w := World(Held(owner), [Index(5)]);
            var call := Call(bar, 0, true, Pointer(Point(205.0, 5.0), true, false, false, 0.0));
            !SameId(bounds, owner) && AllTyped(w.values, [call]) && Run(w, [call]) == World(Idle, [Index(5)])
  {
    var owner, bounds := Rect(0.0, 0.0, 100.0, 10.0), Rect(200.0, 0.0, 12.0, 100.0);
    var bar := Control.ScrollBar(bounds, 0, 10, SB.Style(true, 0, 0, 0, 16, 12));
    var w := World(Held(owner), [Index(5)]);
    var call := Call(bar, 0, true, Pointer(Point(205.0, 5.0), true, false, false, 0.0));
    assert Truncate(bounds.x) == 200 && Truncate(owner.x) == 0 && Truncate(bounds.width) == 12;
    assert Typed(w.values, call);
    assert Releases(bar, true, call.pointer);
    assert [call][1..] == [];
    assert Step(w, call) == World(Idle, [Index(5)]);
  }

  /** The hue stays in [0, 359], and is in the promised [0, 1] exactly in the first 360th of the bar. */
  lemma HueLeavesTheUnit(b: Rect, at: Point)
    ensures 0.0 <= HueAt(b, at) <= 359.0
    ensures b.height > 0.0 ==> (HueAt(b, at) <= 1.0 <==> (at.y - b.y) * 360.0 <= b.height)
    ensures b.height < 0.0 ==> (HueAt(b, at) <= 1.0 <==> (at.y - b.y) * 360.0 >= b.height)
    ensures HueAt(Rect(0.0, 0.0, 10.0, 360.0), Point(5.0, 180.0)) == 180.0
  {
    if b.height != 0.0 {
      var n := (at.y - b.y) * 360.0;
      var r := n / b.height;
      SB.Divide(n, b.height, r);
      if b.height > 0.0 { SB.Sign(r - 1.0, b.height); } else { SB.Sign(r - 1.0, -b.height); }
      assert (r - 1.0) * b.height == n - b.height;
      assert (r - 1.0) * -b.height == -((r - 1.0) * b.height);
    }
  }

  /** A run that starts with a grab and ends with another one, or none, contains a releasing call, and the owner keeps it until the first. */
  lemma {:induction false} OwnerChangesOnlyByRelease(w: World, calls: seq<Call>) returns (k: nat)
    requires w.grab.Held? && AllTyped(w.values, calls) && Run(w, calls).grab != w.grab
    ensures k < |calls| && Releases(calls[k].control, calls[k].enabled, calls[k].pointer)
    ensures AllTyped(w.values, calls[..k]) && Run(w, calls[..k]).grab == w.grab
    ensures NoRelease(calls[..k])
    decreases calls
  {
    hide Fits, Rest, Dragged, Touches, Releases, SameId, Pressed, Hovered;
    assert Typed(w.values, calls[0]) && AllTyped(w.values, calls[1..]);
    StepKeepsTypes(w, calls[0], calls[1..]);
    if Releases(calls[0].control, calls[0].enabled, calls[0].pointer) {
      k := 0;
    } else {
      var j := OwnerChangesOnlyByRelease(Step(w, calls[0]), calls[1..]);
      k := j + 1;
      assert calls[..k][1..] == calls[1..][..j];
      assert forall i :: 0 < i < k ==> calls[..k][i] == calls[1..][..j][i - 1];
      assert forall i :: 0 <= i < k ==> Typed(w.values, calls[..k][i]) by {
        assert forall i :: 0 <= i < k ==> Typed(w.values, calls[i]);
      }
    }
  }

  /** Once the button is up and not freshly pressed, a frame with at least one enabled drag control ends with nobody dragging. */
  lemma {:induction false} ButtonUpEndsDrag(w: World, calls: seq<Call>, p: Pointer)
    requires AllTyped(w.values, calls) && !p.down && !p.pressed
    requires forall k :: 0 <= k < |calls| ==> calls[k].pointer == p
    requires w.grab == Idle || exists k :: 0 <= k < |calls| && calls[k].enabled && Drags(calls[k].control)
    ensures Run(w, calls).grab == Idle
    decreases calls
  {
    hide Fits, Rest, Dragged, Touches, SameId, Pressed, Hovered;
    if calls != [] {
      assert Typed(w.values, calls[0]) && AllTyped(w.values, calls[1..]);
      StepKeepsTypes(w, calls[0], calls[1..]);
      assert forall k :: 0 < k < |calls| ==> calls[k] == calls[1..][k - 1];
      ButtonUpEndsDrag(Step(w, calls[0]), calls[1..], p);
    }
  }
}
