/** Points and rectangles of the pointer tests, over the reals, and the C conversions to integers. */
module Geometry {

  datatype Point = Point(x: real, y: real)
  datatype Rect = Rect(x: real, y: real, width: real, height: real)

  const NOWHERE := Rect(0.0, 0.0, 0.0, 0.0)

  /** `CheckCollisionPointRec`: edges included. */
  predicate Inside(p: Point, r: Rect)
  {
    r.x <= p.x <= r.x + r.width && r.y <= p.y <= r.y + r.height
  }

  /** A C conversion from floating point to integer: towards zero. */
  function Truncate(r: real): (i: int)
    ensures r >= 0.0 ==> i as real <= r < i as real + 1.0
    ensures r < 0.0 ==> i as real - 1.0 < r <= i as real
  {
    if r >= 0.0 then r.Floor else -((-r).Floor)
  }

  /** C integer division: towards zero. */
  function Quotient(a: int, b: int): (q: int)
    requires b != 0
    ensures a >= 0 && b > 0 ==> q >= 0
  {
    if a >= 0 then (if b > 0 then NonNegative(a, b); a / b else -(a / -b)) else if b > 0 then -(-a / b) else -a / -b
  }

  /** What is left over is smaller than the divisor and has the sign of the dividend. */
  lemma QuotientTruncates(a: int, b: int)
    requires b != 0
    ensures var rest := a - Quotient(a, b) * b;
            && (if b > 0 then -b < rest < b else b < rest < -b)
            && (a >= 0 ==> rest >= 0) && (a <= 0 ==> rest <= 0)
  {
    var p, q := if a >= 0 then a else -a, if b > 0 then b else -b;
    var n := p / q;
    assert Quotient(a, b) == if (a >= 0) == (b > 0) then n else -n;
    SignsCancel(n, q);
    Remainder(p, q, n);
  }

  lemma Remainder(p: int, q: int, n: int)
    requires p >= 0 && q > 0 && n == p / q
    ensures 0 <= p - n * q < q
  {
  }

  lemma SignsCancel(n: int, q: int)
    ensures (-n) * q == -(n * q) && n * -q == -(n * q) && (-n) * -q == n * q
  {
  }

  lemma NonNegative(a: int, b: int)
    requires a >= 0 && b > 0
    ensures a / b >= 0
  {
    var q := a / b;
    assert a == q * b + a % b;
    assert q <= -1 ==> q * b <= -b;
  }

  /** `CHECK_BOUNDS_ID`: two bounds identify the same control if their truncated corners and sizes agree. */
  predicate SameId(a: Rect, b: Rect)
  {
    Truncate(a.x) == Truncate(b.x) && Truncate(a.y) == Truncate(b.y)
    && Truncate(a.width) == Truncate(b.width) && Truncate(a.height) == Truncate(b.height)
  }

  /** The pointer in one call of a control. */
  datatype Pointer = Pointer(at: Point, down: bool, pressed: bool, released: bool, wheel: real)
}
