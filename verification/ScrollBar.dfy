/**
  The scroll bar's geometry and its two mappings: from a value to the place of the slider, and from
  the pointer to a value.
 */
module ScrollBar {
  import opened Geometry

  datatype Style = Style(arrows: bool, border: int, padding: int, sliderPadding: int, sliderSize: int, speed: int)

  /** Clamp as the C code does, the upper limit first. */
  function Normalize(value: int, min: int, max: int): (r: int)
    ensures min <= max ==> min <= r <= max
    ensures min <= value <= max ==> r == value
    ensures max < min ==> r == min
  {
    var v := if value > max then max else value;
    if v < min then min else v
  }

  function Range(min: int, max: int): (r: int)
    ensures r > 0
  {
    if max - min <= 0 then 1 else max - min
  }

  // ----- Rectangles -----

  predicate IsVertical(b: Rect) { !(b.width > b.height) }

  /** The side of the arrow buttons. */
  function Spinner(b: Rect, s: Style): int
  {
    if !s.arrows then 0 else Truncate(if IsVertical(b) then b.width else b.height) - 2 * s.border
  }

  function ArrowUpLeft(b: Rect, s: Style): Rect
  {
    Rect(b.x + s.border as real, b.y + s.border as real, Spinner(b, s) as real, Spinner(b, s) as real)
  }

  function ArrowDownRight(b: Rect, s: Style): Rect
  {
    var n := Spinner(b, s) as real;
    if IsVertical(b) then Rect(b.x + s.border as real, b.y + b.height - n - s.border as real, n, n)
    else Rect(b.x + b.width - n - s.border as real, b.y + s.border as real, n, n)
  }

  /** Where the track starts along the bar, and how long it is. */
  function TrackStart(b: Rect, s: Style): real
  {
    (if IsVertical(b) then b.y else b.x) + s.border as real + Spinner(b, s) as real
  }

  function TrackLength(b: Rect, s: Style): real
  {
    (if IsVertical(b) then b.height else b.width) - 2.0 * Spinner(b, s) as real - 2.0 * s.border as real
  }

  /** The slider's length: the styled size, at least one pixel, or the track less two pixels if that is too long. */
  function SliderLength(b: Rect, s: Style): (r: int)
    ensures r as real < TrackLength(b, s)
  {
    var size := if s.sliderSize < 1 then 1 else s.sliderSize;
    if size as real >= TrackLength(b, s) then Truncate(TrackLength(b, s)) - 2 else size
  }

  /** The room the slider moves in; positive for every bar and style, so the mapping never divides by zero. */
  function Room(b: Rect, s: Style): (r: real)
    ensures r > 0.0
  {
    TrackLength(b, s) - SliderLength(b, s) as real
  }

  // ----- The two mappings -----

  /** Pixels between the track's start and the slider's, for a value. */
  function SliderOffset(room: real, value: int, min: int, max: int): int
  {
    Truncate((value - min) as real / Range(min, max) as real * room)
  }

  /** The values that `offset` pixels stand for, before truncation. */
  function Scaled(room: real, offset: real, min: int, max: int): real
    requires room > 0.0
  {
    offset * Range(min, max) as real / room
  }

  /** The values one pixel stands for. */
  function PixelWorth(room: real, min: int, max: int): real
    requires room > 0.0
  {
    Range(min, max) as real / room
  }

  /** The value for a pointer whose distance to the track's start, less half a slider, is `offset`. */
  function ValueAt(room: real, offset: real, min: int, max: int): int
    requires room > 0.0
  {
    Truncate(Scaled(room, offset, min, max) + min as real)
  }

  function SliderRect(b: Rect, s: Style, value: int, min: int, max: int): Rect
  {
    var start := TrackStart(b, s) + SliderOffset(Room(b, s), value, min, max) as real;
    var side, length := (s.border + s.sliderPadding) as real, SliderLength(b, s) as real;
    if IsVertical(b) then Rect(b.x + side, start, b.width - 2.0 * side, length)
    else Rect(start, b.y + side, length, b.height - 2.0 * side)
  }

  function PointerValue(b: Rect, s: Style, at: Point, min: int, max: int): int
  {
    var m := if IsVertical(b) then at.y else at.x;
    ValueAt(Room(b, s), m - TrackStart(b, s) - SliderLength(b, s) as real / 2.0, min, max)
  }

  /** The middle of a rectangle. */
  function Center(r: Rect): Point { Point(r.x + r.width / 2.0, r.y + r.height / 2.0) }

  // ----- How far the mappings are apart -----

  /** A product with a positive number has the sign of the other factor. */
  lemma Sign(x: real, c: real)
    requires c > 0.0
    ensures x * c > 0.0 <==> x > 0.0
    ensures x * c < 0.0 <==> x < 0.0
  {
  }

  lemma Fraction(a: real, b: real, c: real) returns (q: real)
    requires 0.0 <= a <= b && b > 0.0 && c > 0.0
    ensures q == a / b * c && 0.0 <= q <= c && q * b == a * c
  {
    var f := a / b;
    assert f * b == a;
    Sign(f, b);
    Sign(f - 1.0, b);
    q := f * c;
    Sign(f, c);
    Sign(f - 1.0, c);
    assert q * b == (f * b) * c;
  }

  /** The slider never leaves the track. */
  lemma SliderStaysInTrack(b: Rect, s: Style, value: int, min: int, max: int)
    ensures 0.0 <= SliderOffset(Room(b, s), Normalize(value, min, max), min, max) as real <= Room(b, s)
  {
    hide Room, TrackLength, SliderLength;
    OffsetInRoom(Room(b, s), Normalize(value, min, max), min, max);
  }

  lemma OffsetInRoom(room: real, v: int, min: int, max: int)
    requires room > 0.0 && min <= v <= min + Range(min, max)
    ensures 0.0 <= SliderOffset(room, v, min, max) as real <= room
  {
    var q := Fraction((v - min) as real, Range(min, max) as real, room);
  }

  /** Dragging a freshly drawn slider by its middle never raises the value, and lowers it by less than one pixel's worth plus one. */
  lemma DragDrift(room: real, v: int, min: int, max: int)
    requires room > 0.0 && min < max && min <= v <= max
    ensures var w := ValueAt(room, SliderOffset(room, v, min, max) as real, min, max);
            min <= w <= v && (v - w) as real < 1.0 + PixelWorth(room, min, max)
  {
    hide ValueAt, Scaled, PixelWorth;
    var a := (v - min) as real;
    var q := Fraction(a, Range(min, max) as real, room);
    DriftAt(room, SliderOffset(room, v, min, max) as real, q, v, min, max);
  }

  lemma DriftAt(room: real, o: real, q: real, v: int, min: int, max: int)
    requires room > 0.0 && q * Range(min, max) as real == (v - min) as real * room
    requires 0.0 <= o && q - 1.0 < o <= q
    ensures var w := ValueAt(room, o, min, max); min <= w <= v && (v - w) as real < 1.0 + PixelWorth(room, min, max)
  {
    hide Truncate, Scaled, PixelWorth, Range;
    var p, x := PixelWorth(room, min, max), Scaled(room, o, min, max);
    WorthOf(room, o, q, (v - min) as real, min, max);
    Steps(o, q, p, (v - min) as real, x);
    WithinOne(x, p, v, min);
  }

  /** Pixels and values are in proportion. */
  lemma WorthOf(room: real, o: real, q: real, a: real, min: int, max: int)
    requires room > 0.0 && q * Range(min, max) as real == a * room
    ensures PixelWorth(room, min, max) > 0.0 && q * PixelWorth(room, min, max) == a
    ensures Scaled(room, o, min, max) == o * PixelWorth(room, min, max)
  {
    var p := PixelWorth(room, min, max);
    Divide(Range(min, max) as real, room, p);
    Sign(p, room);
    Regroup(q, p, room);
    Same(q * p, a, room);
    var x := Scaled(room, o, min, max);
    Divide(o * Range(min, max) as real, room, x);
    Regroup(o, p, room);
    Same(x, o * p, room);
  }

  /** A quotient times its divisor. */
  lemma Divide(n: real, d: real, q: real)
    requires d != 0.0 && q == n / d
    ensures q * d == n
  {
  }

  lemma Regroup(x: real, y: real, z: real)
    ensures (x * y) * z == x * (y * z)
  {
  }

  lemma Steps(o: real, q: real, p: real, a: real, x: real)
    requires p > 0.0 && q * p == a && 0.0 <= o && q - 1.0 < o <= q && x == o * p
    ensures 0.0 <= x <= a && a - p < x
  {
    Sign(o, p);
    Sign(q - o, p);
    Spread(q, o, p);
    Sign(o + 1.0 - q, p);
    Spread(o + 1.0, q, p);
    Spread(o, -1.0, p);
  }

  lemma Spread(x: real, y: real, p: real)
    ensures (x - y) * p == x * p - y * p
  {
  }

  lemma WithinOne(x: real, p: real, v: int, min: int)
    requires 0.0 <= x <= (v - min) as real && (v - min) as real - p < x
    ensures var w := Truncate(x + min as real); min <= w <= v && (v - w) as real < 1.0 + p
  {
  }

  /** The same on the bar itself: pressing the middle of the slider drawn for `v`. */
  lemma DragAtCenter(b: Rect, s: Style, v: int, min: int, max: int)
    requires min < max && min <= v <= max
    ensures var w := PointerValue(b, s, Center(SliderRect(b, s, v, min, max)), min, max);
            && min <= w <= v
            && (v - w) as real < 1.0 + (max - min) as real / Room(b, s)
  {
    DragDrift(Room(b, s), v, min, max);
    var m := if IsVertical(b) then Center(SliderRect(b, s, v, min, max)).y else Center(SliderRect(b, s, v, min, max)).x;
    assert m - TrackStart(b, s) - SliderLength(b, s) as real / 2.0 == SliderOffset(Room(b, s), v, min, max) as real;
  }

  /** With a whole number of pixels for every value, dragging by the middle changes nothing. */
  lemma WholePixelsDoNotDrift(room: real, pixels: int, v: int, min: int, max: int)
    requires min < max && min <= v <= max && pixels > 0 && room == pixels as real * (max - min) as real
    ensures room > 0.0 && ValueAt(room, SliderOffset(room, v, min, max) as real, min, max) == v
  {
    var a, b, k := (v - min) as real, (max - min) as real, pixels as real;
    Sign(k, b);
    var q := Fraction(a, b, room);
    WholeOffset(q, a, b, k, room);
    RealProduct(v - min, pixels);
    WholeIsKept((v - min) * pixels, q);
    assert Range(min, max) == max - min;
    assert SliderOffset(room, v, min, max) == Truncate(a / b * room);
    ValueBack(room, q, a, b, v, min, max);
  }

  lemma ValueBack(room: real, q: real, a: real, b: real, v: int, min: int, max: int)
    requires min < max && room > 0.0 && q * b == a * room && a == (v - min) as real && b == (max - min) as real
    ensures ValueAt(room, q, min, max) == v
  {
    var x := Scaled(room, q, min, max);
    Divide(q * Range(min, max) as real, room, x);
    assert Range(min, max) as real == b;
    Same(x, a, room);
    WholeIsKept(v, x + min as real);
  }

  lemma WholeIsKept(n: int, r: real)
    requires r == n as real
    ensures Truncate(r) == n
  {
  }

  lemma {:induction false} RealProduct(i: int, j: int)
    requires j >= 0
    ensures (i * j) as real == i as real * j as real
    decreases j
  {
    if j > 0 {
      RealProduct(i, j - 1);
      assert i * j == i * (j - 1) + i;
    }
  }

  lemma WholeOffset(q: real, a: real, b: real, k: real, room: real)
    requires room == k * b && q * b == a * room && b > 0.0
    ensures q == a * k
  {
    assert a * room == (a * k) * b;
    Same(q, a * k, b);
  }

  lemma Same(x: real, y: real, c: real)
    requires c != 0.0 && x * c == y * c
    ensures x == y
  {
  }

  // ----- Where the parts are on the bar -----

  /** A part's extent along a bar, from where it starts to where it ends. */
  datatype Extent = Extent(from: real, to: real)

  function Along(b: Rect, r: Rect): Extent { if b.width > b.height then Extent(r.x, r.x + r.width) else Extent(r.y, r.y + r.height) }

  function Across(b: Rect, r: Rect): Extent { if b.width > b.height then Extent(r.y, r.y + r.height) else Extent(r.x, r.x + r.width) }

  /** The arrows are squares at opposite ends of the bar, inside its border. */
  lemma ArrowsAtTheEnds(b: Rect, s: Style)
    ensures var up, down := ArrowUpLeft(b, s), ArrowDownRight(b, s);
            && Along(b, up).from == Along(b, b).from + s.border as real
            && Along(b, down).to == Along(b, b).to - s.border as real
            && up.width == up.height == down.width == down.height == Spinner(b, s) as real
            && Across(b, up) == Across(b, down)
            && Across(b, up).from == Across(b, b).from + s.border as real
            && (s.arrows && b.width >= 0.0 && b.height >= 0.0 ==>
                  Across(b, b).to - s.border as real - 1.0 < Across(b, up).to <= Across(b, b).to - s.border as real)
            && (!s.arrows ==> up.width == 0.0)
  {
  }

  /**
    The slider lies between the arrows, for every bar, style and value; it starts where the upper one ends for
    the least value, and ends less than a pixel before the lower one for the greatest; exactly at it if the
    track is a whole number of pixels long.
   */
  lemma SliderBetweenArrows(b: Rect, s: Style, value: int, min: int, max: int)
    ensures var up, down := Along(b, ArrowUpLeft(b, s)), Along(b, ArrowDownRight(b, s));
            var slider := Along(b, SliderRect(b, s, Normalize(value, min, max), min, max));
            var least, greatest := Along(b, SliderRect(b, s, min, min, max)), Along(b, SliderRect(b, s, max, min, max));
            && up.to <= slider.from && slider.to <= down.from
            && least.from == up.to
            && (min < max ==> down.from - 1.0 < greatest.to <= down.from)
            && (min < max && (down.from - up.to).Floor as real == down.from - up.to ==> greatest.to == down.from)
            && slider.to - slider.from == SliderLength(b, s) as real
  {
    hide SliderLength, Truncate, SliderOffset, Normalize;
    var room, track := Room(b, s), TrackLength(b, s);
    InRoom(room, Normalize(value, min, max), min, max);
    LeastOffset(room, min, max);
    if min < max { GreatestOffset(room, min, max); }
    if track.Floor as real == track { WholeIsKept(track.Floor - SliderLength(b, s), room); }
    TruncateNear(room);
    RoomIsPositive(room);
  }

  lemma RoomIsPositive(room: real)
    requires room > 0.0
    ensures Truncate(room) as real <= room
  {
  }

  lemma InRoom(room: real, v: int, min: int, max: int)
    requires room > 0.0 && v == Normalize(v, min, max)
    ensures 0.0 <= SliderOffset(room, v, min, max) as real <= room
  {
    OffsetInRoom(room, v, min, max);
  }

  lemma LeastOffset(room: real, min: int, max: int)
    ensures SliderOffset(room, min, min, max) == 0
  {
    assert 0.0 / Range(min, max) as real * room == 0.0;
  }

  lemma GreatestOffset(room: real, min: int, max: int)
    requires min < max
    ensures SliderOffset(room, max, min, max) == Truncate(room)
  {
    var n := Range(min, max) as real;
    Same(n / n, 1.0, n);
  }

  /** Across the bar the slider keeps border and padding on both sides; its length is the styled one where that fits. */
  lemma SliderAcross(b: Rect, s: Style, value: int, min: int, max: int)
    ensures var slider := SliderRect(b, s, value, min, max);
            && Across(b, slider).from == Across(b, b).from + (s.border + s.sliderPadding) as real
            && Across(b, slider).to == Across(b, b).to - (s.border + s.sliderPadding) as real
    ensures var room := Along(b, ArrowDownRight(b, s)).from - Along(b, ArrowUpLeft(b, s)).to;
            && (1 <= s.sliderSize && s.sliderSize as real < room ==> SliderLength(b, s) == s.sliderSize)
            && (s.sliderSize < 1 && 1.0 < room ==> SliderLength(b, s) == 1)
            && (s.sliderSize >= 1 && s.sliderSize as real >= room ==> SliderLength(b, s) == Truncate(room) - 2)
            && (room >= 3.0 ==> SliderLength(b, s) >= 1)
  {
  }

  /** A greater value is never drawn nearer to the start. */
  lemma SliderMonotone(b: Rect, s: Style, v: int, w: int, min: int, max: int)
    requires min <= v <= w
    ensures Along(b, SliderRect(b, s, v, min, max)).from <= Along(b, SliderRect(b, s, w, min, max)).from
  {
    hide SliderLength, Room;
    OffsetMonotone(Room(b, s), v, w, min, max);
  }

  lemma OffsetMonotone(room: real, v: int, w: int, min: int, max: int)
    requires min <= v <= w && room > 0.0
    ensures SliderOffset(room, v, min, max) <= SliderOffset(room, w, min, max)
  {
    hide Truncate, SliderOffset, ValueWorth;
    var worth := ValueWorth(room, min, max);
    WorthPositive(room, min, max);
    var x := OffsetIs(room, v, min, max, worth);
    var y := OffsetIs(room, w, min, max, worth);
    NoLessTimes((v - min) as real, (w - min) as real, worth, x, y);
    TruncateMonotone(x, y);
  }

  lemma NoLessTimes(a: real, b: real, c: real, x: real, y: real)
    requires a <= b && c > 0.0 && x == a * c && y == b * c
    ensures x <= y
  {
    if a < b { LessTimes(a, b, c); }
  }

  lemma Distributes(x: real, y: real, c: real)
    ensures (x - y) * c == x * c - y * c
  {
  }

  lemma TruncateMonotone(x: real, y: real)
    requires x <= y
    ensures Truncate(x) <= Truncate(y)
  {
  }

  // ----- From the pointer to the slider -----

  /** The pixels one value is worth. */
  function ValueWorth(room: real, min: int, max: int): real { room / Range(min, max) as real }

  /** Pressed in the track, the bar shows its slider with the middle at the pointer, up to a pixel and what one value is worth in pixels. */
  lemma SliderComesToThePointer(b: Rect, s: Style, at: Point, min: int, max: int)
    requires min < max
    requires var m := if b.width > b.height then at.x else at.y;
             var half := SliderLength(b, s) as real / 2.0;
             Along(b, ArrowUpLeft(b, s)).to <= m - half && m + half <= Along(b, ArrowDownRight(b, s)).from
    ensures var v := PointerValue(b, s, at, min, max);
            var slider := Along(b, SliderRect(b, s, v, min, max));
            var m := if b.width > b.height then at.x else at.y;
            var worth := ValueWorth(Room(b, s), min, max);
            && min <= v <= max
            && -(1.0 + worth) < (slider.from + slider.to) / 2.0 - m < 1.0 + worth
  {
    hide SliderLength;
    var m := if b.width > b.height then at.x else at.y;
    OffsetAndBack(Room(b, s), m - TrackStart(b, s) - SliderLength(b, s) as real / 2.0, min, max);
  }

  lemma OffsetAndBack(room: real, o: real, min: int, max: int)
    requires min < max && room > 0.0 && 0.0 <= o <= room
    ensures var v := ValueAt(room, o, min, max);
            && min <= v <= max
            && -(1.0 + ValueWorth(room, min, max)) < SliderOffset(room, v, min, max) as real - o < 1.0 + ValueWorth(room, min, max)
  {
    hide Truncate, Scaled, SliderOffset, ValueWorth;
    var v, x, w := ValueAt(room, o, min, max), Scaled(room, o, min, max), ValueWorth(room, min, max);
    var k := (v - min) as real;
    WorthPositive(room, min, max);
    ScaledIs(room, o, min, max, w);
    NearValue(x, v, min, max);
    var y := OffsetIs(room, v, min, max, w);
    Close(k, x, w, y, o);
    TruncateNear(y);
  }

  lemma WorthPositive(room: real, min: int, max: int)
    requires room > 0.0
    ensures ValueWorth(room, min, max) > 0.0 && ValueWorth(room, min, max) * Range(min, max) as real == room
  {
    var w := ValueWorth(room, min, max);
    Divide(room, Range(min, max) as real, w);
    Sign(w, Range(min, max) as real);
  }

  lemma ScaledBack(room: real, o: real, min: int, max: int)
    requires room > 0.0
    ensures Scaled(room, o, min, max) * room == o * Range(min, max) as real
  {
    Divide(o * Range(min, max) as real, room, Scaled(room, o, min, max));
  }

  lemma ScaledIs(room: real, o: real, min: int, max: int, w: real)
    requires room > 0.0 && 0.0 <= o <= room && min < max && w * Range(min, max) as real == room
    ensures Scaled(room, o, min, max) * w == o && 0.0 <= Scaled(room, o, min, max) <= (max - min) as real
  {
    var n, x := Range(min, max) as real, Scaled(room, o, min, max);
    ScaledBack(room, o, min, max);
    ScaledInRange(x, o, n, room);
    Regroup(x, w, n);
    Same3(x * w, o, n, x, room);
  }

  lemma OffsetIs(room: real, v: int, min: int, max: int, w: real) returns (y: real)
    requires w * Range(min, max) as real == room
    ensures y == (v - min) as real * w && SliderOffset(room, v, min, max) == Truncate(y)
  {
    var n := Range(min, max) as real;
    var f := (v - min) as real / n;
    Divide((v - min) as real, n, f);
    Same4(f, room, (v - min) as real, w, n);
    y := f * room;
  }

  lemma Close(k: real, x: real, w: real, y: real, o: real)
    requires w > 0.0 && -1.0 < k - x < 1.0 && y == k * w && o == x * w
    ensures -w < y - o < w
  {
    var d := k - x;
    Distributes(k, x, w);
    var e := d * w;
    assert e == y - o;
    Within(d, w, e);
  }

  lemma Within(d: real, w: real, e: real)
    requires w > 0.0 && -1.0 < d < 1.0 && e == d * w
    ensures -w < e < w
  {
    LessTimes(d, 1.0, w);
    LessTimes(-1.0, d, w);
  }

  lemma LessTimes(a: real, b: real, c: real)
    requires a < b && c > 0.0
    ensures a * c < b * c
  {
    Sign(b - a, c);
    Distributes(b, a, c);
  }

  lemma AtLeast(x: real, n: real, room: real, o: real)
    requires room > 0.0 && n > 0.0 && o >= room && x * room == o * n
    ensures x >= n
  {
    assert n * room == room * n;
    if x < n {
      LessTimes(x, n, room);
      if o > room { LessTimes(room, o, n); }
    }
  }

  lemma TruncateNear(y: real)
    ensures -1.0 < Truncate(y) as real - y < 1.0
  {
  }

  lemma Same3(p: real, o: real, n: real, x: real, room: real)
    requires n > 0.0 && x * room == o * n && p * n == x * room
    ensures p == o
  {
    Same(p, o, n);
  }

  lemma Same4(f: real, room: real, k: real, w: real, n: real)
    requires n > 0.0 && f * n == k && w * n == room
    ensures f * room == k * w
  {
    assert f * (w * n) == (f * n) * w;
  }

  lemma ScaledInRange(x: real, o: real, n: real, room: real)
    requires room > 0.0 && n > 0.0 && 0.0 <= o <= room && x * room == o * n
    ensures 0.0 <= x <= n
  {
    Sign(x, room);
    Sign(o, n);
    Sign(x - n, room);
    Distributes(x, n, room);
    Sign(o - room, n);
    Distributes(o, room, n);
    assert n * room == room * n;
  }

  lemma NearValue(x: real, v: int, min: int, max: int)
    requires 0.0 <= x <= (max - min) as real && v == Truncate(x + min as real)
    ensures min <= v <= max && -1.0 < (v - min) as real - x < 1.0
  {
  }

  /** Beyond the ends of the track the pointer stands for values the bar clamps to its own least and greatest. */
  lemma PointerBeyondTheTrack(b: Rect, s: Style, at: Point, min: int, max: int)
    requires min < max
    ensures var m := if b.width > b.height then at.x else at.y;
            var half := SliderLength(b, s) as real / 2.0;
            && (m - half <= Along(b, ArrowUpLeft(b, s)).to ==> Normalize(PointerValue(b, s, at, min, max), min, max) == min)
            && (m + half >= Along(b, ArrowDownRight(b, s)).from ==> Normalize(PointerValue(b, s, at, min, max), min, max) == max)
  {
    hide SliderLength;
    var m := if b.width > b.height then at.x else at.y;
    var o := m - TrackStart(b, s) - SliderLength(b, s) as real / 2.0;
    BeyondTheRoom(Room(b, s), o, min, max);
  }

  lemma BeyondTheRoom(room: real, o: real, min: int, max: int)
    requires min < max && room > 0.0
    ensures o <= 0.0 ==> ValueAt(room, o, min, max) <= min
    ensures o >= room ==> ValueAt(room, o, min, max) >= max
  {
    hide Truncate;
    var n, x := Range(min, max) as real, Scaled(room, o, min, max);
    ScaledBack(room, o, min, max);
    if o <= 0.0 {
      Sign(o, n);
      Sign(x, room);
      TruncateMonotone(x + min as real, min as real);
      WholeIsKept(min, min as real);
    }
    if o >= room {
      AtLeast(x, n, room, o);
      assert n == (max - min) as real;
      TruncateMonotone(max as real, x + min as real);
      WholeIsKept(max, max as real);
    }
  }
}
