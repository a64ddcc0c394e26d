/** `GuiValueBox`: editing a number as text, against the arithmetic the keys stand for. */
module ValueBox {
  import opened Decimal
  import opened Geometry

  const MAX_CHARS := 32

  /** The keys of one frame.  `room`: the text with the sign in place is narrower than the box. */
  datatype Keys = Keys(minus: bool, key: int, backspace: bool, room: bool)

  predicate IsDigitKey(k: Keys) { k.room && 48 <= k.key <= 57 }

  predicate Edits(k: Keys) { k.minus || IsDigitKey(k) || k.backspace }

  // ----- What the keys mean -----

  /** The sign after the minus key. */
  function NegativeAfter(v: int, k: Keys): bool { if k.minus then v >= 0 else v < 0 }

  /** The magnitude after the digit and backspace keys: append a digit, drop the last. */
  function MagnitudeAfter(v: int, k: Keys): nat
  {
    var m := if v < 0 then -v else v;
    var typed := if IsDigitKey(k) then 10 * m + (k.key - 48) else m;
    if k.backspace then typed / 10 else typed
  }

  /** The value after one frame of editing. */
  function Edited(v: int, k: Keys): int
  {
    if Edits(k) then Negated(NegativeAfter(v, k), MagnitudeAfter(v, k)) else v
  }

  function Clamped(v: int, min: int, max: int): (r: int)
    ensures min <= max ==> min <= r <= max
    ensures min <= v <= max ==> r == v
    ensures min <= max && v < min ==> r == min
    ensures v > max ==> r == max
  {
    if v > max then max else if v < min then min else v
  }

  // ----- What the keys do to text -----

  function AfterMinus(s: string): string
  {
    if s != "" && s[0] == '-' then s[1..]
    else if |s| < MAX_CHARS then "-" + (if s == "" then "0" else s)
    else s
  }

  function AfterDigit(s: string, k: Keys): string
  {
    if |s| < MAX_CHARS && IsDigitKey(k) then s + [k.key as char] else s
  }

  function AfterBackspace(s: string): string { if s == "" then s else s[..|s| - 1] }

  function AfterKeys(s: string, k: Keys): string
  {
    var s1 := AfterDigit(if k.minus then AfterMinus(s) else s, k);
    if k.backspace then AfterBackspace(s1) else s1
  }

  /** The digits after the digit and backspace keys. */
  function DigitsAfter(d: string, k: Keys): (r: string)
    requires d != "" && AllDigits(d)
    ensures AllDigits(r)
  {
    var typed := if IsDigitKey(k) then d + [k.key as char] else d;
    if k.backspace then typed[..|typed| - 1] else typed
  }

  /** On a sign and digits the keys change sign and digits separately. */
  lemma KeysOnSigned(negative: bool, d: string, k: Keys)
    requires d != "" && AllDigits(d) && |d| <= 10
    ensures AfterKeys(Signed(negative, d), k) == Signed(if k.minus then !negative else negative, DigitsAfter(d, k))
  {
    hide AfterMinus, AfterDigit, AfterBackspace, Signed;
    var sign := if k.minus then !negative else negative;
    var typed := if IsDigitKey(k) then d + [k.key as char] else d;
    MinusOnSigned(negative, d);
    DigitOnSigned(sign, d, k);
    BackspaceOnSigned(sign, typed);
  }

  lemma MinusOnSigned(negative: bool, d: string)
    requires d != "" && AllDigits(d) && |d| <= 10
    ensures AfterMinus(Signed(negative, d)) == Signed(!negative, d)
  {
    assert IsDigit(d[0]);
  }

  lemma DigitOnSigned(negative: bool, d: string, k: Keys)
    requires |d| <= 10
    ensures AfterDigit(Signed(negative, d), k) == Signed(negative, if IsDigitKey(k) then d + [k.key as char] else d)
  {
  }

  lemma BackspaceOnSigned(negative: bool, d: string)
    requires d != ""
    ensures AfterBackspace(Signed(negative, d)) == Signed(negative, d[..|d| - 1])
  {
  }

  lemma MagnitudeOfDigitsAfter(d: string, k: Keys)
    requires d != "" && AllDigits(d)
    ensures var typed := if IsDigitKey(k) then 10 * Magnitude(d) + (k.key - 48) else Magnitude(d);
            Magnitude(DigitsAfter(d, k)) == if k.backspace then typed / 10 else typed
  {
    var typed := if IsDigitKey(k) then d + [k.key as char] else d;
    if IsDigitKey(k) { MagnitudeAppend(d, k.key as char); }
    if k.backspace { DropDigit(typed); }
  }

  lemma DropDigit(d: string)
    requires AllDigits(d) && d != ""
    ensures AllDigits(d[..|d| - 1]) && Magnitude(d[..|d| - 1]) == Magnitude(d) / 10
  {
  }

  /** On printed text the keys compute: the text after them reads as the edited value, and can be read exactly if the magnitude fits. */
  lemma KeysCompute(v: Int32, k: Keys)
    requires Edits(k)
    ensures Number(AfterKeys(Print(v), k)) == Edited(v, k)
    ensures Readable(AfterKeys(Print(v), k)) <==> MagnitudeAfter(v, k) <= INT_MAX
  {
    hide Magnitude, Number, Readable, LeadingDigits, Digits, DigitsAfter, AfterKeys;
    var x: int := v;
    var m: nat := if x < 0 then -x else x;
    PrintIsShort(v);
    PrintIsSigned(v);
    MagnitudeOfDigits(m);
    KeysOnSigned(x < 0, Digits(m), k);
    MagnitudeOfDigitsAfter(Digits(m), k);
    var d := DigitsAfter(Digits(m), k);
    NumberOf(NegativeAfter(v, k), d, "");
    assert d + "" == d;
  }

  lemma PrintIsSigned(v: Int32)
    ensures var x: int := v; var d := Digits(if x < 0 then -x else x);
            Print(v) == Signed(x < 0, d) && |d| <= 10
    ensures '\0' !in Print(v) && Print(v) != "" && AfterMinus(Print(v)) != "" && |AfterMinus(Print(v))| <= 12
  {
    var x: int := v;
    var m := if x < 0 then -x else x;
    PrintIsShort(v);
    IntHasTenDigits(m);
    var d := Digits(m);
    assert AllDigits(d) && d[0] != '-';
  }

  // ----- One key at a time -----

  /** C division by ten: towards zero. */
  function Tenth(v: int): int { if v < 0 then -(-v / 10) else v / 10 }

  /** One key in a frame is one operation on the number. */
  lemma SingleKeys(v: int, d: int)
    requires 0 <= d <= 9
    ensures Edited(v, Keys(false, 48 + d, false, true)) == if v < 0 then 10 * v - d else 10 * v + d
    ensures Edited(v, Keys(false, 0, true, true)) == Tenth(v)
    ensures Edited(v, Keys(true, 0, false, true)) == -v
  {
  }

  /** A digit and then Backspace in the next frame is nothing, for every value and digit. */
  lemma DigitThenBackspace(v: int, d: int)
    requires 0 <= d <= 9
    ensures Edited(Edited(v, Keys(false, 48 + d, false, true)), Keys(false, 0, true, true)) == v
  {
  }

  // ----- The buffer -----

  /** The buffer holds `s`, and terminators from its end on. */
  ghost predicate Holds(t: array<char>, s: string)
    reads t
  {
    t.Length == MAX_CHARS + 1 && |s| <= MAX_CHARS && t[..|s|] == s && forall i :: |s| <= i < t.Length ==> t[i] == '\0'
  }

  /** Insert or remove the sign, shifting the text by one. */
  method MinusKey(t: array<char>, count: nat, ghost s: string) returns (n: nat)
    requires Holds(t, s) && count == |s|
    modifies t
    ensures Holds(t, AfterMinus(s)) && n == |AfterMinus(s)|
  {
    n := count;
    assert s != "" ==> t[0] == t[..|s|][0];
    if t[0] == '-' {
      n := RemoveFirst(t, count, s);
    } else if count < MAX_CHARS {
      ghost var base := if s == "" then "0" else s;
      if n == 0 {
        t[0], t[1] := '0', '\0';
        n := n + 1;
      }
      assert Holds(t, base);
      n := PrependMinus(t, n, base);
    }
  }

  method RemoveFirst(t: array<char>, count: nat, ghost s: string) returns (n: nat)
    requires Holds(t, s) && count == |s| > 0
    modifies t
    ensures Holds(t, s[1..]) && n == count - 1
  {
    ghost var was := t[..];
    var i := 0;
    while i < count
      invariant 0 <= i <= count
      invariant forall j :: 0 <= j < i ==> t[j] == was[j + 1]
      invariant forall j :: i <= j < t.Length ==> t[j] == was[j]
    {
      t[i] := t[i + 1];
      i := i + 1;
    }
    n := count - 1;
    assert s == was[..count];
    assert t[..n] == s[1..];
  }

  method PrependMinus(t: array<char>, count: nat, ghost s: string) returns (n: nat)
    requires Holds(t, s) && count == |s| < MAX_CHARS
    modifies t
    ensures Holds(t, "-" + s) && n == count + 1
  {
    var i := count;
    while i > -1
      invariant -1 <= i <= count
      invariant forall j :: 0 <= j <= i ==> t[j] == old(t[j])
      invariant forall j :: i < j <= count ==> t[j + 1] == old(t[j])
      invariant forall j :: count + 1 < j < t.Length ==> t[j] == '\0'
    {
      t[i + 1] := t[i];
      i := i - 1;
    }
    t[0] := '-';
    n := count + 1;
    assert forall j :: 0 <= j < |s| ==> t[j + 1] == s[j] by { assert forall j :: 0 <= j < |s| ==> old(t[..|s|])[j] == s[j]; }
    assert t[..n] == "-" + s;
    assert t[count + 1] == old(t[count]);
  }

  /** One call; `editable`: the control is enabled, and nobody drags.  Enter, on either key, or a press outside the box ends editing. */
  method GuiValueBox(bounds: Rect, editable: bool, editMode: bool, k: Keys, enter: bool, p: Pointer, v: Int32, min: Int32, max: Int32)
    returns (r: Int32, pressed: bool)
    requires editable && editMode && Edits(k) ==> MagnitudeAfter(v, k) <= INT_MAX
    ensures r == if !editable then v
                 else if editMode then (if enter || (!Inside(p.at, bounds) && p.pressed) then Clamped(Edited(v, k), min, max) else Edited(v, k))
                 else Clamped(v, min, max)
    ensures pressed <==> editable && (if editMode then enter || (!Inside(p.at, bounds) && p.pressed) else Inside(p.at, bounds) && p.pressed)
  {
    r, pressed := v, false;
    if editable {
      if editMode {
        r := EditText(k, v);
        if enter || (!Inside(p.at, bounds) && p.pressed) {
          if r > max { r := max; } else if r < min { r := min; }
          pressed := true;
        }
      } else {
        if r > max { r := max; } else if r < min { r := min; }
        if Inside(p.at, bounds) {
          if p.pressed { pressed := true; }
        }
      }
    }
  }

  /** The editing part: print into a zeroed buffer, let the keys change the text, read it back if they did. */
  method EditText(k: Keys, v: Int32) returns (r: Int32)
    requires Edits(k) ==> MagnitudeAfter(v, k) <= INT_MAX
    ensures r == Edited(v, k)
  {
    hide Magnitude, Number, Readable, LeadingDigits, Print, Digits, Edited, MagnitudeAfter, AfterMinus;
    PrintIsSigned(v);
    ghost var s := Print(v);
    var textValue := PrintValue(v);
    var keyCount := TextLength(textValue, s);
    var changed := false;
    r := v;
    if k.minus {
      keyCount := MinusKey(textValue, keyCount, s);
      s := AfterMinus(s);
      changed := true;
    }
    assert |s| <= 12 && s != "" by { PrintIsShort(v); }
    if keyCount < MAX_CHARS && k.room {
      if 48 <= k.key <= 57 {
        textValue[keyCount] := k.key as char;
        assert textValue[..keyCount + 1] == s + [k.key as char];
        s := s + [k.key as char];
        keyCount := keyCount + 1;
        changed := true;
      }
    }
    if keyCount > 0 && k.backspace {
      keyCount := keyCount - 1;
      textValue[keyCount] := '\0';
      assert textValue[..keyCount] == s[..keyCount];
      s := s[..keyCount];
      changed := true;
    }
    if changed {
      KeysCompute(v, k);
      r := TextToInteger(textValue[..keyCount]);
    } else {
      NoEdit(v, k);
    }
  }

  lemma NoEdit(v: int, k: Keys)
    requires !Edits(k)
    ensures Edited(v, k) == v
  {
  }

  /** `snprintf` of `%i` into the zeroed buffer. */
  method PrintValue(v: Int32) returns (t: array<char>)
    ensures fresh(t) && Holds(t, Print(v))
  {
    PrintIsShort(v);
    t := new char[MAX_CHARS + 1](_ => '\0');
    var s := Print(v);
    forall i | 0 <= i < |s| { t[i] := s[i]; }
    assert t[..|s|] == s;
  }

  method TextLength(t: array<char>, ghost s: string) returns (n: nat)
    requires Holds(t, s) && '\0' !in s
    ensures n == |s|
  {
    n := 0;
    assert forall j :: 0 <= j < |s| ==> t[j] == t[..|s|][j];
    while t[n] != '\0'
      invariant n <= |s|
      decreases |s| - n
    {
      n := n + 1;
    }
  }
}
