/**
  `ConvertRGBtoHSV` and `ConvertHSVtoRGB` over the reals: which colours each direction gives back.
 */
module Hsv {
  import opened Geometry

  /** The C `Vector3`: red, green, blue, or hue in degrees, saturation, value. */
  datatype Vector3 = Vector3(x: real, y: real, z: real)

  /** Below this spread a colour counts as gray. */
  const THRESHOLD: real := 0.00001

  function Min(c: Vector3): real
  {
    var m := if c.x < c.y then c.x else c.y;
    if m < c.z then m else c.z
  }

  function Max(c: Vector3): real
  {
    var m := if c.x > c.y then c.x else c.y;
    if m > c.z then m else c.z
  }

  function Spread(c: Vector3): real { Max(c) - Min(c) }

  /** The hue before scaling: -1 to 5, in sectors of 60 degrees. */
  function Sector(rgb: Vector3, max: real, delta: real): real
    requires delta != 0.0
  {
    if rgb.x >= max then (rgb.y - rgb.z) / delta          // between yellow and magenta
    else if rgb.y >= max then 2.0 + (rgb.z - rgb.x) / delta  // between cyan and yellow
    else 4.0 + (rgb.x - rgb.y) / delta                    // between magenta and cyan
  }

  function ToHsv(rgb: Vector3): Vector3
  {
    var max := Max(rgb);
    var delta := max - Min(rgb);
    if delta < THRESHOLD then Vector3(0.0, 0.0, max)
    else if max > 0.0 then
      var degrees := Sector(rgb, max, delta) * 60.0;
      Vector3(if degrees < 0.0 then degrees + 360.0 else degrees, delta / max, max)
    else Vector3(0.0, 0.0, max)
  }

  /** The switch over the sector number. */
  function FromSector(hh: real, s: real, v: real): Vector3
  {
    var i := Truncate(hh);
    var ff := hh - i as real;
    var p := v * (1.0 - s);
    var q := v * (1.0 - s * ff);
    var t := v * (1.0 - s * (1.0 - ff));
    if i == 0 then Vector3(v, t, p)
    else if i == 1 then Vector3(q, v, p)
    else if i == 2 then Vector3(p, v, t)
    else if i == 3 then Vector3(p, q, v)
    else if i == 4 then Vector3(t, p, v)
    else Vector3(v, p, q)
  }

  function ToRgb(hsv: Vector3): Vector3
  {
    if hsv.y <= 0.0 then Vector3(hsv.z, hsv.z, hsv.z)
    else FromSector((if hsv.x >= 360.0 then 0.0 else hsv.x) / 60.0, hsv.y, hsv.z)
  }

  // ----- Colours by sector: `i` is the sixth of the hue circle, `m` how far the moving channel went -----

  /** The colour with value `v` and spread `d` whose moving channel is `m` from where it entered the sector. */
  function ColourAt(i: int, m: real, v: real, d: real): Vector3
  {
    var p, q, t := v - d, v - m, v - d + m;
    if i == 0 then Vector3(v, t, p)
    else if i == 1 then Vector3(q, v, p)
    else if i == 2 then Vector3(p, v, t)
    else if i == 3 then Vector3(p, q, v)
    else if i == 4 then Vector3(t, p, v)
    else Vector3(v, p, q)
  }

  lemma QuotientIs(c: real, b: real, q: real)
    requires b != 0.0 && q * b == c
    ensures c / b == q
  {
  }

  lemma Ratio(a: real, b: real) returns (r: real)
    requires b > 0.0
    ensures r == a / b && r * b == a
    ensures 0.0 <= a < b ==> 0.0 <= r < 1.0
    ensures (a - b) / b == r - 1.0
  {
    r := a / b;
    QuotientIs(a - b, b, r - 1.0);
    if r >= 1.0 { assert (r - 1.0) * b >= 0.0; }
  }

  /** `ToRgb` in terms of sector and spread; `f` is the position in the sector. */
  lemma ToRgbAt(i: int, f: real, s: real, v: real, d: real, m: real)
    requires 0 <= i < 6 && 0.0 <= f < 1.0 && s > 0.0 && s * v == d && f * d == m
    ensures ToRgb(Vector3((i as real + f) * 60.0, s, v)) == ColourAt(i, m, v, d)
  {
    hide FromSector;
    var hh := i as real + f;
    assert hh * 60.0 / 60.0 == hh;
    FromSectorAt(i, f, hh, s, v, d, m);
  }

  lemma FromSectorAt(i: int, f: real, hh: real, s: real, v: real, d: real, m: real)
    requires 0 <= i < 6 && 0.0 <= f < 1.0 && hh == i as real + f && s * v == d && f * d == m
    ensures FromSector(hh, s, v) == ColourAt(i, m, v, d)
  {
    assert Truncate(hh) == i;
    var g := 1.0 - f;
    assert g * d == d - f * d;
    Distribute(v, s, d, f, m);
    Distribute(v, s, d, g, d - m);
  }

  lemma Distribute(v: real, s: real, d: real, f: real, m: real)
    requires s * v == d && f * d == m
    ensures v * (1.0 - s) == v - d && v * (1.0 - s * f) == v - m
  {
    assert v * (s * f) == f * (s * v);
    assert v * (1.0 - s * f) == v - v * (s * f);
  }

  /** Every colour with a positive spread is the one at some sector and distance. */
  lemma SectorOf(rgb: Vector3) returns (i: int, m: real)
    requires Spread(rgb) > 0.0
    ensures 0 <= i < 6 && 0.0 <= m < Spread(rgb)
    ensures rgb == ColourAt(i, m, Max(rgb), Spread(rgb))
  {
    var v, d := Max(rgb), Spread(rgb);
    if rgb.x >= v {
      if rgb.y >= v { i, m := 1, 0.0; }
      else if rgb.y < rgb.z { i, m := 5, d + rgb.y - rgb.z; }
      else { i, m := 0, rgb.y - rgb.z; }
    } else if rgb.y >= v {
      if rgb.z >= v { i, m := 3, 0.0; }
      else if rgb.z < rgb.x { i, m := 1, d + rgb.z - rgb.x; }
      else { i, m := 2, rgb.z - rgb.x; }
    } else {
      if rgb.x < rgb.y { i, m := 3, d + rgb.x - rgb.y; } else { i, m := 4, rgb.x - rgb.y; }
    }
  }

  /** `ToHsv` undoes `ColourAt`, including on the edges between sectors, where two channels tie. */
  lemma ToHsvAt(i: int, m: real, v: real, d: real)
    requires 0 <= i < 6 && 0.0 <= m < d && d >= THRESHOLD && v > 0.0
    ensures Max(ColourAt(i, m, v, d)) == v && Spread(ColourAt(i, m, v, d)) == d
    ensures ToHsv(ColourAt(i, m, v, d)) == Vector3((i as real + m / d) * 60.0, d / v, v)
    ensures 0.0 <= ToHsv(ColourAt(i, m, v, d)).x < 360.0
  {
    hide Sector;
    var r := Ratio(m, d);
    SectorAt(i, m, v, d, r);
    var c := ColourAt(i, m, v, d);
    assert Max(c) == v && Min(c) == v - d;
  }

  lemma SectorAt(i: int, m: real, v: real, d: real, r: real)
    requires 0 <= i < 6 && 0.0 <= m < d && r == m / d && (m - d) / d == r - 1.0 && r * d == m
    ensures Sector(ColourAt(i, m, v, d), v, d) == if i == 5 then r - 1.0 else i as real + r
  {
    var c := ColourAt(i, m, v, d);
    if i == 0 { QuotientIs(c.y - c.z, d, r); }
    else if i == 1 { QuotientIs(c.z - c.x, d, r - 1.0); QuotientIs(d, d, 1.0); assert m == 0.0 ==> c.y - c.z == d; }
    else if i == 2 { QuotientIs(c.z - c.x, d, r); }
    else if i == 3 { QuotientIs(c.x - c.y, d, r - 1.0); QuotientIs(d, d, 1.0); assert m == 0.0 ==> c.z - c.x == d; }
    else if i == 4 { QuotientIs(c.x - c.y, d, r); }
    else { QuotientIs(c.y - c.z, d, r - 1.0); }
    if m == 0.0 { QuotientIs(m, d, 0.0); }
  }

  // ----- The round trips -----

  /** Out to HSV and back: exactly the grays, and the colours of positive maximum whose spread reaches the threshold. */
  lemma RgbRoundTrip(rgb: Vector3)
    ensures ToRgb(ToHsv(rgb)) == rgb <==> Spread(rgb) == 0.0 || (Spread(rgb) >= THRESHOLD && Max(rgb) > 0.0)
  {
    if Spread(rgb) >= THRESHOLD && Max(rgb) > 0.0 {
      hide Min, Max, ToRgb, ToHsv, ColourAt;
      var i, m := SectorOf(rgb);
      var v, d := Max(rgb), Spread(rgb);
      ToHsvAt(i, m, v, d);
      var f := Ratio(m, d);
      var s := Ratio(d, v);
      ToRgbAt(i, f, s, v, d, m);
    }
  }

  /** A colour below the threshold comes back as a gray, each channel off by less than the threshold. */
  lemma RgbRoundTripError(rgb: Vector3)
    requires Spread(rgb) < THRESHOLD
    ensures var r := ToRgb(ToHsv(rgb));
            && r.x == r.y == r.z == Max(rgb)
            && 0.0 <= r.x - rgb.x < THRESHOLD && 0.0 <= r.y - rgb.y < THRESHOLD && 0.0 <= r.z - rgb.z < THRESHOLD
  {
  }

  lemma HueInRange(rgb: Vector3)
    ensures 0.0 <= ToHsv(rgb).x < 360.0
  {
    if Spread(rgb) >= THRESHOLD && Max(rgb) > 0.0 {
      var i, m := SectorOf(rgb);
      ToHsvAt(i, m, Max(rgb), Spread(rgb));
    }
  }

  /** Back to RGB and out again: exactly the grays written with zero hue and saturation, and the
      hues in the circle whose saturation times value reaches the threshold. */
  lemma HsvRoundTrip(hsv: Vector3)
    ensures ToHsv(ToRgb(hsv)) == hsv <==>
            || (hsv.x == 0.0 && hsv.y == 0.0)
            || (0.0 <= hsv.x < 360.0 && hsv.y > 0.0 && hsv.y * hsv.z >= THRESHOLD)
  {
    if hsv.y <= 0.0 {
      assert ToHsv(ToRgb(hsv)) == Vector3(0.0, 0.0, hsv.z);
    } else if 0.0 <= hsv.x < 360.0 {
      HueRoundTrip(hsv);
    } else {
      HueInRange(ToRgb(hsv));
    }
  }

  lemma HueRoundTrip(hsv: Vector3)
    requires 0.0 <= hsv.x < 360.0 && hsv.y > 0.0
    ensures ToHsv(ToRgb(hsv)) == hsv <==> hsv.y * hsv.z >= THRESHOLD
  {
    hide ToRgb, ToHsv, ColourAt;
    var s, v, i := hsv.y, hsv.z, (hsv.x / 60.0).Floor;
    var f := hsv.x / 60.0 - i as real;
    assert (i as real + f) * 60.0 == hsv.x;
    SectorRoundTrip(i, f, s, v, s * v, f * (s * v));
  }

  lemma SectorRoundTrip(i: int, f: real, s: real, v: real, d: real, m: real)
    requires 0 <= i < 6 && 0.0 <= f < 1.0 && s > 0.0 && s * v == d && f * d == m
    ensures var hsv := Vector3((i as real + f) * 60.0, s, v);
            ToHsv(ToRgb(hsv)) == hsv <==> d >= THRESHOLD
  {
    hide ToRgb, ToHsv, ColourAt;
    ToRgbAt(i, f, s, v, d, m);
    Shrinks(f, d);
    if d >= THRESHOLD {
      PositiveFactor(s, v);
      ToHsvAt(i, m, v, d);
      QuotientIs(d, v, s);
      QuotientIs(m, d, f);
    } else {
      LowSpread(i, m, v, d);
    }
  }

  lemma PositiveFactor(s: real, v: real)
    requires s * v > 0.0 && s > 0.0
    ensures v > 0.0
  {
  }

  lemma Shrinks(f: real, d: real)
    requires 0.0 <= f < 1.0
    ensures d > 0.0 ==> 0.0 <= f * d < d
    ensures d <= 0.0 ==> d <= f * d <= 0.0
  {
  }

  /** Below the threshold the way out returns saturation zero or another value. */
  lemma LowSpread(i: int, m: real, v: real, d: real)
    requires d < THRESHOLD && (0.0 <= m <= d || d <= m <= 0.0)
    ensures ToHsv(ColourAt(i, m, v, d)).y == 0.0 || ToHsv(ColourAt(i, m, v, d)).z != v
  {
  }

  /** Hues from 360 degrees on all count as red. */
  lemma HueFromFullCircleOn(h: real, s: real, v: real)
    requires h >= 360.0
    ensures ToRgb(Vector3(h, s, v)) == ToRgb(Vector3(0.0, s, v))
  {
  }

  // ----- Which hue is which colour -----

  /** The six pure colours, and the grays between black and white. */
  lemma PureHues(gray: real)
    ensures ToHsv(Vector3(1.0, 0.0, 0.0)) == Vector3(0.0, 1.0, 1.0)     // red
    ensures ToHsv(Vector3(1.0, 1.0, 0.0)) == Vector3(60.0, 1.0, 1.0)    // yellow
    ensures ToHsv(Vector3(0.0, 1.0, 0.0)) == Vector3(120.0, 1.0, 1.0)   // green
    ensures ToHsv(Vector3(0.0, 1.0, 1.0)) == Vector3(180.0, 1.0, 1.0)   // cyan
    ensures ToHsv(Vector3(0.0, 0.0, 1.0)) == Vector3(240.0, 1.0, 1.0)   // blue
    ensures ToHsv(Vector3(1.0, 0.0, 1.0)) == Vector3(300.0, 1.0, 1.0)   // magenta
    ensures ToHsv(Vector3(gray, gray, gray)) == Vector3(0.0, 0.0, gray)
  {
    hide ToHsv;
    PureHue(0);
    PureHue(1);
    PureHue(2);
    PureHue(3);
    PureHue(4);
    PureHue(5);
    GrayHue(gray);
  }

  lemma PureHue(i: int)
    requires 0 <= i < 6
    ensures ToHsv(ColourAt(i, 0.0, 1.0, 1.0)) == Vector3(i as real * 60.0, 1.0, 1.0)
  {
    hide ToHsv, ColourAt;
    ToHsvAt(i, 0.0, 1.0, 1.0);
    QuotientIs(0.0, 1.0, 0.0);
    QuotientIs(1.0, 1.0, 1.0);
  }

  lemma GrayHue(gray: real)
    ensures ToHsv(Vector3(gray, gray, gray)) == Vector3(0.0, 0.0, gray)
  {
  }

  predicate Coloured(rgb: Vector3) { Spread(rgb) >= THRESHOLD && Max(rgb) > 0.0 }

  /** The value is the greatest channel; the saturation is the share of it by which the least falls short. */
  lemma ValueAndSaturation(rgb: Vector3)
    requires Coloured(rgb)
    ensures var hsv := ToHsv(rgb);
            && hsv.z >= rgb.x && hsv.z >= rgb.y && hsv.z >= rgb.z && (hsv.z == rgb.x || hsv.z == rgb.y || hsv.z == rgb.z)
            && var least := hsv.z - hsv.y * hsv.z;
               least <= rgb.x && least <= rgb.y && least <= rgb.z && (least == rgb.x || least == rgb.y || least == rgb.z)
  {
    hide ToHsv, ColourAt;
    var i, m := SectorOf(rgb);
    ToHsvAt(i, m, Max(rgb), Spread(rgb));
    var s := Ratio(Spread(rgb), Max(rgb));
  }

  /** From red towards yellow the hue goes from 0 to 60 degrees in proportion to green. */
  lemma RedToYellow(v: real, t: real, p: real)
    requires p <= t <= v && v - p >= THRESHOLD && v > 0.0
    ensures ToHsv(Vector3(v, t, p)).x * (v - p) == 60.0 * (t - p)
  {
    var d, m := v - p, t - p;
    if m < d {
      ToHsvAt(0, m, v, d);
      var r := Ratio(m, d);
      assert ColourAt(0, m, v, d) == Vector3(v, t, p);
      assert ToHsv(Vector3(v, t, p)).x == r * 60.0;
    } else {
      ToHsvAt(1, 0.0, v, d);
      QuotientIs(0.0, d, 0.0);
      assert ColourAt(1, 0.0, v, d) == Vector3(v, t, p);
    }
  }

  /** Moving every channel to the next one, red to green to blue to red, turns the hue by a third of the circle. */
  lemma RotatedHue(rgb: Vector3)
    requires Coloured(rgb)
    ensures var h, r := ToHsv(rgb), ToHsv(Vector3(rgb.z, rgb.x, rgb.y));
            r == Vector3(if h.x < 240.0 then h.x + 120.0 else h.x - 240.0, h.y, h.z)
  {
    hide ToHsv, ColourAt;
    var i, m := SectorOf(rgb);
    var v, d := Max(rgb), Spread(rgb);
    var f := Ratio(m, d);
    RotatedColour(i, m, v, d);
    ToHsvAt(i, m, v, d);
    ToHsvAt(if i < 4 then i + 2 else i - 4, m, v, d);
  }

  lemma RotatedColour(i: int, m: real, v: real, d: real)
    requires 0 <= i < 6
    ensures var c := ColourAt(i, m, v, d); ColourAt(if i < 4 then i + 2 else i - 4, m, v, d) == Vector3(c.z, c.x, c.y)
  {
  }

  /** Exchanging green and blue mirrors the hue. */
  lemma MirroredHue(rgb: Vector3)
    requires Coloured(rgb)
    ensures var h, r := ToHsv(rgb), ToHsv(Vector3(rgb.x, rgb.z, rgb.y));
            r == Vector3(if h.x == 0.0 then 0.0 else 360.0 - h.x, h.y, h.z)
  {
    hide ToHsv, ColourAt;
    var i, m := SectorOf(rgb);
    var v, d := Max(rgb), Spread(rgb);
    ToHsvAt(i, m, v, d);
    if m == 0.0 {
      MirroredEdge(i, v, d);
      ToHsvAt(if i == 0 then 0 else 6 - i, 0.0, v, d);
      QuotientIs(0.0, d, 0.0);
    } else {
      var f := Ratio(m, d);
      var g := Ratio(d - m, d);
      QuotientIs(d - m, d, 1.0 - f);
      MirroredInside(i, m, v, d);
      ToHsvAt(5 - i, d - m, v, d);
    }
  }

  lemma MirroredEdge(i: int, v: real, d: real)
    requires 0 <= i < 6
    ensures var c := ColourAt(i, 0.0, v, d); ColourAt(if i == 0 then 0 else 6 - i, 0.0, v, d) == Vector3(c.x, c.z, c.y)
  {
  }

  lemma MirroredInside(i: int, m: real, v: real, d: real)
    requires 0 <= i < 6
    ensures var c := ColourAt(i, m, v, d); ColourAt(5 - i, d - m, v, d) == Vector3(c.x, c.z, c.y)
  {
  }

  // ----- The colour picker -----

  datatype Color = Color(r: nat, g: nat, b: nat)

  predicate IsColor(c: Color) { c.r < 256 && c.g < 256 && c.b < 256 }

  function Normalized(c: Color): Vector3
  {
    Vector3(c.r as real / 255.0, c.g as real / 255.0, c.b as real / 255.0)
  }

  /** The C `roundf`: to the nearest integer, halves away from zero. */
  function Round(r: real): int
  {
    if r >= 0.0 then Truncate(r + 0.5) else Truncate(r - 0.5)
  }

  /** What `GuiColorPicker` writes back when neither the panel nor the hue bar was touched: through HSV and back, rounded. */
  function PickerBytes(c: Color): (int, int, int)
  {
    var rgb := ToRgb(ToHsv(Normalized(c)));
    (Round(rgb.x * 255.0), Round(rgb.y * 255.0), Round(rgb.z * 255.0))
  }

  /** Showing a colour picker does not drift the colour: every 8-bit colour is written back as it was. */
  lemma PickerKeepsColor(c: Color)
    requires IsColor(c)
    ensures PickerBytes(c) == (c.r, c.g, c.b)
  {
    hide ToRgb, ToHsv;
    var n := Normalized(c);
    RgbRoundTrip(n);
    Byte(c.r);
    Byte(c.g);
    Byte(c.b);
    BytesApart(c);
  }

  lemma Byte(k: nat)
    ensures Round(k as real / 255.0 * 255.0) == k
  {
    assert k as real / 255.0 * 255.0 == k as real;
    assert (k as real + 0.5).Floor == k;
  }

  lemma BytesApart(c: Color)
    requires IsColor(c)
    ensures var n := Normalized(c); Spread(n) == 0.0 || (Spread(n) >= THRESHOLD && Max(n) > 0.0)
  {
    var n := Normalized(c);
    assert forall i: int, j: int {:trigger i as real, j as real} :: i < j ==> j as real - i as real >= 1.0;
  }
}
