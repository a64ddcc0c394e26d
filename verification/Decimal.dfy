/** Whole numbers as text: what `%i` prints and what `TextToInteger` reads. */
module Decimal {

  const INT_MAX := 0x7fff_ffff
  const INT_MIN := -0x8000_0000

  /** A C `int`; every intermediate value of the reading loop must be one. */
  type Int32 = x: int | INT_MIN <= x <= INT_MAX

  predicate IsDigit(c: char) { '0' <= c <= '9' }

  predicate AllDigits(s: string) { forall k :: 0 <= k < |s| ==> IsDigit(s[k]) }

  function DigitValue(c: char): (r: int)
    requires IsDigit(c)
    ensures 0 <= r <= 9
  {
    c as int - '0' as int
  }

  function DigitChar(d: int): (c: char)
    requires 0 <= d <= 9
    ensures IsDigit(c) && DigitValue(c) == d
  {
    ('0' as int + d) as char
  }

  /** The number a digit string denotes. */
  function Magnitude(s: string): (r: nat)
    requires AllDigits(s)
  {
    if s == "" then 0 else 10 * Magnitude(s[..|s| - 1]) + DigitValue(s[|s| - 1])
  }

  function Digits(n: nat): (s: string)
    ensures s != "" && AllDigits(s)
  {
    if n < 10 then [DigitChar(n)] else Digits(n / 10) + [DigitChar(n % 10)]
  }

  /** What `%i` prints. */
  function Print(v: int): string { if v < 0 then "-" + Digits(-v) else Digits(v) }

  lemma MagnitudeAppend(s: string, c: char)
    requires AllDigits(s) && IsDigit(c)
    ensures Magnitude(s + [c]) == 10 * Magnitude(s) + DigitValue(c)
  {
    assert (s + [c])[..|s|] == s;
  }

  lemma {:induction false} MagnitudeOfDigits(n: nat)
    ensures Magnitude(Digits(n)) == n
  {
    if n < 10 {
      assert [DigitChar(n)][..0] == "";
    } else {
      MagnitudeOfDigits(n / 10);
      MagnitudeAppend(Digits(n / 10), DigitChar(n % 10));
    }
  }

  lemma {:induction false} DigitsAreFew(n: nat, k: nat, bound: nat)
    requires k > 0 && bound == TenTo(k) && n < bound
    ensures |Digits(n)| <= k
    decreases k
  {
    if n >= 10 { DigitsAreFew(n / 10, k - 1, TenTo(k - 1)); }
  }

  function TenTo(k: nat): (r: nat)
    ensures r > 0
  {
    if k == 0 then 1 else 10 * TenTo(k - 1)
  }

  /** The magnitude of an `int` has at most ten digits. */
  lemma IntHasTenDigits(n: nat)
    requires n <= -INT_MIN
    ensures |Digits(n)| <= 10
  {
    assert TenTo(10) == 10 * (10 * (10 * (10 * (10 * TenTo(5)))));
    assert TenTo(10) == 10000000000;
    DigitsAreFew(n, 10, TenTo(10));
  }

  /** A printed `int` has at most eleven characters. */
  lemma PrintIsShort(v: Int32)
    ensures 1 <= |Print(v)| <= 11
  {
    var m: int := v;
    IntHasTenDigits(if m < 0 then -m else m);
  }

  // ----- Reading -----

  predicate HasSign(text: string) { text != "" && (text[0] == '+' || text[0] == '-') }

  function Unsigned(text: string): string { if HasSign(text) then text[1..] else text }

  /** The digits a string starts with. */
  function LeadingDigits(s: string): (r: string)
    ensures AllDigits(r) && r <= s && (|r| < |s| ==> !IsDigit(s[|r|]))
  {
    if s == "" || !IsDigit(s[0]) then "" else [s[0]] + LeadingDigits(s[1..])
  }

  /** The number `TextToInteger` reads: an optional sign, then as many digits as there are. */
  function Number(text: string): int
  {
    var m: int := Magnitude(LeadingDigits(Unsigned(text)));
    if HasSign(text) && text[0] == '-' then -m else m
  }

  /** Reading stays within `int`: the digits denote at most its greatest value. */
  predicate Readable(text: string) { Magnitude(LeadingDigits(Unsigned(text))) <= INT_MAX }

  lemma {:induction false} MagnitudeMonotone(s: string, k: nat)
    requires AllDigits(s) && k <= |s|
    ensures Magnitude(s[..k]) <= Magnitude(s)
    decreases |s|
  {
    if k < |s| {
      MagnitudeMonotone(s[..|s| - 1], k);
      assert s[..|s| - 1][..k] == s[..k];
    } else {
      assert s[..k] == s;
    }
  }

  lemma NoDigits(digits: string)
    requires AllDigits(digits)
    ensures Magnitude(digits[..0]) == 0
  {
  }

  lemma NextDigit(digits: string, i: nat)
    requires AllDigits(digits) && i < |digits|
    ensures Magnitude(digits[..i + 1]) == 10 * Magnitude(digits[..i]) + DigitValue(digits[i]) <= Magnitude(digits)
  {
    hide Magnitude;
    MagnitudeAppend(digits[..i], digits[i]);
    assert digits[..i + 1] == digits[..i] + [digits[i]];
    MagnitudeMonotone(digits, i + 1);
  }

  /** Readable texts are exactly those on which no intermediate value of the loop leaves `int`. */
  lemma ReadableExactly(text: string)
    ensures Readable(text) <==>
              var digits := LeadingDigits(Unsigned(text)); forall k :: 0 <= k <= |digits| ==> Magnitude(digits[..k]) <= INT_MAX
  {
    hide Magnitude;
    var digits := LeadingDigits(Unsigned(text));
    assert digits[..|digits|] == digits;
    if Readable(text) {
      forall k | 0 <= k <= |digits| ensures Magnitude(digits[..k]) <= INT_MAX { MagnitudeMonotone(digits, k); }
    } else {
      assert Magnitude(digits[..|digits|]) > INT_MAX;
    }
  }

  /** The loop; every value it holds is an `int`. */
  method TextToInteger(text: string) returns (r: Int32)
    requires Readable(text)
    ensures r == Number(text)
  {
    hide Magnitude, LeadingDigits;
    var value: Int32, sign: Int32 := 0, 1;
    var rest := text;
    if text != "" && (text[0] == '+' || text[0] == '-') {
      if text[0] == '-' { sign := -1; }
      rest := text[1..];
    }
    ghost var digits := LeadingDigits(rest);
    var i := 0;
    NoDigits(digits);
    while i < |rest| && IsDigit(rest[i])
      invariant 0 <= i <= |digits|
      invariant value == Magnitude(digits[..i])
    {
      assert rest[i] == digits[i];
      NextDigit(digits, i);
      value := value * 10 + DigitValue(rest[i]);
      i := i + 1;
    }
    assert i == |digits| && digits[..i] == digits;
    r := value * sign;
  }

  lemma {:induction false} LeadingOfDigits(s: string, rest: string)
    requires AllDigits(s) && (rest != "" ==> !IsDigit(rest[0]))
    ensures LeadingDigits(s + rest) == s
  {
    if s == "" {
      assert s + rest == rest;
    } else {
      assert (s + rest)[1..] == s[1..] + rest;
      LeadingOfDigits(s[1..], rest);
    }
  }

  function Signed(negative: bool, s: string): string { if negative then "-" + s else s }

  /** A sign and digits, whatever non-digit follows, are read as their magnitude with that sign. */
  lemma NumberOf(negative: bool, digits: string, rest: string)
    requires AllDigits(digits) && (rest != "" ==> !IsDigit(rest[0]))
    requires digits == "" && !negative ==> rest == "" || (rest[0] != '+' && rest[0] != '-')
    ensures Number(Signed(negative, digits + rest)) == Negated(negative, Magnitude(digits))
    ensures Readable(Signed(negative, digits + rest)) <==> Magnitude(digits) <= INT_MAX
  {
    var text := Signed(negative, digits + rest);
    LeadingOfDigits(digits, rest);
    if negative {
      assert text[1..] == digits + rest;
    } else if digits != "" {
      assert text[0] == digits[0];
    } else if rest != "" {
      assert text[0] == rest[0];
    }
    assert Unsigned(text) == digits + rest;
  }

  /** A plus sign is read and changes nothing. */
  lemma PlusIsRead(digits: string, rest: string)
    requires AllDigits(digits) && (rest != "" ==> !IsDigit(rest[0]))
    ensures Number("+" + digits + rest) == Magnitude(digits)
  {
    hide Magnitude, LeadingDigits;
    LeadingOfDigits(digits, rest);
    assert Unsigned("+" + digits + rest) == digits + rest;
  }

  function Negated(negative: bool, m: int): int { if negative then -m else m }

  /** Reading inverts printing. */
  lemma NumberInvertsPrint(v: int)
    ensures Number(Print(v)) == v
  {
    var m := if v < 0 then -v else v;
    NumberOf(v < 0, Digits(m), "");
    MagnitudeOfDigits(m);
    assert Digits(m) + "" == Digits(m);
  }
}
