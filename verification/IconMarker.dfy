/** The icon marker in front of a control's text: written by `GuiIconText`, read by `GetTextIcon` and by `GetLineWidth`. */
module IconMarker {
  import opened Options
  import opened Decimal
  import TS = TextSplit

  const MAX_ICONS := 512
  const BUFFER := 1024
  const ICON_BUFFER := 16
  const MARKER := 5       // where the text goes in the buffer

  // ----- Writing -----

  function Zeros(n: nat): (r: string)
    ensures |r| == n
  {
    if n == 0 then "" else "0" + Zeros(n - 1)
  }

  /** What `%03i` prints: at least three characters, zeros after the sign. */
  function Print03(v: int): (r: string)
    ensures |r| >= 3
  {
    if v < 0 then "-" + Padded(Digits(-v), 2) else Padded(Digits(v), 3)
  }

  function Padded(d: string, width: nat): (r: string)
    ensures |r| == if |d| < width then width else |d|
  {
    if |d| < width then Zeros(width - |d|) + d else d
  }

  /** The whole marker. */
  function Marker(id: int): (r: string)
    ensures |r| >= MARKER
  {
    "#" + Print03(id) + "#"
  }

  lemma {:induction false} ManyDigits(n: nat, k: nat)
    requires n >= TenTo(k)
    ensures |Digits(n)| > k
  {
    if n >= 10 && k > 0 { ManyDigits(n / 10, k - 1); }
  }

  lemma {:induction false} MagnitudeOfPadded(n: nat, d: string)
    requires AllDigits(d)
    ensures AllDigits(Zeros(n) + d) && Magnitude(Zeros(n) + d) == Magnitude(d) && |Zeros(n)| == n
    decreases n, |d|
  {
    hide Magnitude;
    if n > 0 {
      MagnitudeOfPadded(n - 1, d);
      LeadingZero(Zeros(n - 1) + d);
      assert Zeros(n) + d == "0" + (Zeros(n - 1) + d);
    } else {
      assert Zeros(0) + d == d;
    }
  }

  lemma {:induction false} LeadingZero(d: string)
    requires AllDigits(d)
    ensures AllDigits("0" + d) && Magnitude("0" + d) == Magnitude(d)
    decreases |d|
  {
    if d == "" {
      MagnitudeAppend("", '0');
      assert "" + ['0'] == "0" + d;
    } else {
      var front := d[..|d| - 1];
      LeadingZero(front);
      assert "0" + d == ("0" + front) + [d[|d| - 1]];
      MagnitudeAppend("0" + front, d[|d| - 1]);
      assert AllDigits("0" + d);
    }
  }

  /** The first five characters of a marker: complete for three-digit numbers, cut after the digits of longer ones. */
  lemma MarkerHead(id: int)
    ensures |Marker(id)| >= MARKER && Marker(id)[0] == '#'
    ensures id < 0 ==> Marker(id)[1] == '-'
    ensures id >= 1000 ==> forall k :: 1 <= k < MARKER ==> IsDigit(Marker(id)[k])
    ensures 0 <= id < 1000 ==>
              |Marker(id)| == MARKER && Marker(id)[4] == '#' && AllDigits(Marker(id)[1..4]) && Magnitude(Marker(id)[1..4]) == id
  {
    assert TenTo(3) == 1000 by { assert TenTo(3) == 10 * (10 * (10 * TenTo(0))); }
    if id < 0 {
      MagnitudeOfPadded(if |Digits(-id)| < 2 then 2 - |Digits(-id)| else 0, Digits(-id));
    } else {
      var d := Digits(id);
      if id >= 1000 {
        ManyDigits(id, 3);
        assert Marker(id)[1..|d| + 1] == d;
      } else {
        DigitsAreFew(id, 3, 1000);
        MagnitudeOfDigits(id);
        MagnitudeOfPadded(3 - |d|, d);
        assert Marker(id)[1..4] == Zeros(3 - |d|) + d;
      }
    }
  }

  /** The static buffers of `GuiIconText`. */
  class IconTextBuffer {
    const buffer: array<char>
    const iconBuffer: array<char>

    constructor ()
      ensures fresh(buffer) && buffer.Length == BUFFER
      ensures fresh(iconBuffer) && iconBuffer.Length == ICON_BUFFER && buffer != iconBuffer
    {
      buffer := new char[BUFFER];
      iconBuffer := new char[ICON_BUFFER];
    }

    /** Which buffer the caller gets, and what it reads as; the other one keeps its contents. */
    method GuiIconText(id: Int32, text: Option<string>) returns (r: array<char>)
      requires buffer.Length == BUFFER && iconBuffer.Length == ICON_BUFFER && buffer != iconBuffer
      requires text.Some? ==> '\0' !in text.value
      modifies buffer, iconBuffer
      ensures text == None ==> r == iconBuffer && buffer[..] == old(buffer[..]) && TS.CString(r[..], 0) == Marker(id)
      ensures text.Some? ==>
                && r == buffer && iconBuffer[..] == old(iconBuffer[..])
                && (TS.Ended(r[..], 0) <==> |text.value| <= BUFFER - MARKER - 1)
                && (|text.value| <= BUFFER - MARKER - 1 ==> TS.CString(r[..], 0) == Marker(id)[..MARKER] + text.value)
                && (|text.value| > BUFFER - MARKER - 1 ==> r[..] == Marker(id)[..MARKER] + text.value[..BUFFER - MARKER])
    {
      if text.Some? {
        WriteMarked(id, text.value);
        r := buffer;
      } else {
        WriteMarker(id);
        r := iconBuffer;
      }
    }

    /** Without a text: the whole marker, which always fits the small buffer. */
    method WriteMarker(id: Int32)
      requires iconBuffer.Length == ICON_BUFFER
      modifies iconBuffer
      ensures TS.CString(iconBuffer[..], 0) == Marker(id)
    {
      hide Marker;
      MarkerIsText(id);
      var m := Marker(id);
      forall i | 0 <= i < |m| { iconBuffer[i] := m[i]; }
      iconBuffer[|m|] := '\0';
      CStringIs(iconBuffer[..], 0, m);
    }

    /** Writes the marker, then the text over everything from the sixth character on. */
    method WriteMarked(id: Int32, text: string)
      requires buffer.Length == BUFFER && '\0' !in text
      modifies buffer
      ensures TS.Ended(buffer[..], 0) <==> |text| <= BUFFER - MARKER - 1
      ensures |text| <= BUFFER - MARKER - 1 ==> TS.CString(buffer[..], 0) == Marker(id)[..MARKER] + text
      ensures |text| > BUFFER - MARKER - 1 ==> buffer[..] == Marker(id)[..MARKER] + text[..BUFFER - MARKER]
    {
      hide Marker;
      MarkerHead(id);
      MarkerIsText(id);
      forall i | 0 <= i < BUFFER { buffer[i] := '\0'; }
      var m := Marker(id);
      forall i | 0 <= i < |m| { buffer[i] := m[i]; }
      var i := MARKER;
      while i < BUFFER
        invariant MARKER <= i <= BUFFER && i - MARKER <= |text|
        invariant forall j :: 0 <= j < MARKER ==> buffer[j] == m[j]
        invariant forall j :: MARKER <= j < i ==> buffer[j] == text[j - MARKER]
      {
        buffer[i] := TS.At(text, i - MARKER);
        if TS.At(text, i - MARKER) == '\0' { break; }
        i := i + 1;
      }
      if |text| <= BUFFER - MARKER - 1 {
        var s := m[..MARKER] + text;
        assert forall j :: 0 <= j < |s| ==> buffer[..][j] == s[j];
        CStringIs(buffer[..], 0, s);
        assert buffer[..][|s|] == '\0';
      } else {
        assert buffer[..] == m[..MARKER] + text[..BUFFER - MARKER];
        assert forall j :: 0 <= j < BUFFER ==> buffer[..][j] != '\0';
      }
    }
  }

  lemma MarkerIsText(id: Int32)
    ensures '\0' !in Marker(id) && |Marker(id)| <= 13
  {
    hide Magnitude, Digits;
    var x: int := id;
    var m := if x < 0 then -x else x;
    IntHasTenDigits(m);
    var d := Digits(m);
    MagnitudeOfPadded(if |d| < 2 then 2 - |d| else 0, d);
    MagnitudeOfPadded(if |d| < 3 then 3 - |d| else 0, d);
    assert AllDigits(d);
  }

  /** A buffer that holds `s` and then a terminator reads as `s`. */
  lemma {:induction false} CStringIs(buffer: seq<char>, i: nat, s: string)
    requires i + |s| < |buffer| && '\0' !in s && buffer[i + |s|] == '\0'
    requires forall j :: 0 <= j < |s| ==> buffer[i + j] == s[j]
    ensures TS.CString(buffer, i) == s
    decreases |s|
  {
    if s != "" {
      assert buffer[i + 0] == s[0];
      assert forall j :: 0 <= j < |s| - 1 ==> s[1..][j] == s[j + 1] && buffer[i + (j + 1)] == s[j + 1];
      CStringIs(buffer, i + 1, s[1..]);
    }
  }

  // ----- Reading -----

  /** Past the digits after the opening mark, at most three. */
  function DigitsEnd(s: string, pos: nat): (r: nat)
    requires 1 <= pos <= 4 && pos <= |s|
    ensures pos <= r <= 4 && r <= |s| && AllDigits(s[pos..r])
    ensures r < 4 && r < |s| ==> !IsDigit(s[r])
    decreases 4 - pos
  {
    if pos < 4 && IsDigit(TS.At(s, pos)) then DigitsEnd(s, pos + 1) else pos
  }

  /** The text starts with a mark, up to three digits and a mark. */
  predicate HasMarker(s: string) { s != "" && s[0] == '#' && TS.At(s, DigitsEnd(s, 1)) == '#' }

  /** The number between the marks; zero without digits. */
  function MarkerNumber(s: string): nat
    requires HasMarker(s)
  {
    Magnitude(s[1..DigitsEnd(s, 1)])
  }

  datatype Icon = Icon(id: int, skip: nat)

  /** The icon and how many characters it takes; no icon is -1 and takes none. */
  function IconOf(s: string): Icon
  {
    if HasMarker(s) && MarkerNumber(s) < MAX_ICONS then Icon(MarkerNumber(s), DigitsEnd(s, 1) + 1) else Icon(-1, 0)
  }

  method GetTextIcon(text: string) returns (iconId: int, skip: nat)
    ensures Icon(iconId, skip) == IconOf(text)
  {
    iconId, skip := -1, 0;
    if TS.At(text, 0) == '#' && text != "" {
      var iconValue := new char[4](_ => '\0');
      var pos := 1;
      while pos < 4 && '0' <= TS.At(text, pos) <= '9'
        invariant 1 <= pos <= 4 && pos <= |text|
        invariant DigitsEnd(text, 1) == DigitsEnd(text, pos)
        invariant iconValue[..pos - 1] == text[1..pos]
      {
        iconValue[pos - 1] := text[pos];
        assert iconValue[..pos] == text[1..pos] + [text[pos]];
        pos := pos + 1;
      }
      if TS.At(text, pos) == '#' {
        ThreeDigitsRead(iconValue[..pos - 1]);
        var rawIconId := TextToInteger(iconValue[..pos - 1]);
        if rawIconId < MAX_ICONS {
          iconId := rawIconId;
          if iconId >= 0 { skip := pos + 1; }
        }
      }
    }
  }

  lemma ThreeDigitsRead(s: string)
    requires AllDigits(s) && |s| <= 3
    ensures Readable(s) && Number(s) == Magnitude(s)
  {
    assert s + "" == s;
    NumberOf(false, s, "");
    Under(s, |s|);
    assert TenTo(3) == 10 * (10 * (10 * TenTo(0)));
  }

  lemma {:induction false} Under(s: string, k: nat)
    requires AllDigits(s) && |s| == k
    ensures Magnitude(s) < TenTo(k) && (k <= 3 ==> TenTo(k) <= 1000)
    decreases k
  {
    if k > 0 { Under(s[..k - 1], k - 1); }
  }

  /** How much of the line `GetLineWidth` takes for an icon. */
  method LineIconOffset(text: string) returns (offset: nat)
    ensures offset == if HasMarker(text) then DigitsEnd(text, 1) + 1 else 0
  {
    offset := 0;
    if TS.At(text, 0) == '#' && text != "" {
      var pos := 1;
      while pos < 4 && '0' <= TS.At(text, pos) <= '9'
        invariant 1 <= pos <= 4 && pos <= |text|
        invariant DigitsEnd(text, 1) == DigitsEnd(text, pos)
      {
        pos := pos + 1;
      }
      if TS.At(text, pos) == '#' { offset := pos + 1; }
    }
  }

  /** The width scanner skips what the icon reader skips exactly unless the marker's number is too big for an icon. */
  lemma WidthSkipsTheIcon(s: string, offset: nat)
    requires offset == if HasMarker(s) then DigitsEnd(s, 1) + 1 else 0
    ensures offset == IconOf(s).skip <==> !(HasMarker(s) && MarkerNumber(s) >= MAX_ICONS)
  {
  }

  // ----- Round trip -----

  /** Reading what `GuiIconText` writes gives back number and text exactly for the numbers of icons. */
  lemma MarkerRoundTrip(id: int, text: string)
    requires |text| <= BUFFER - MARKER - 1
    ensures var s := Marker(id)[..MARKER] + text;
            IconOf(s).id == id && s[IconOf(s).skip..] == text <==> 0 <= id < MAX_ICONS
  {
    hide Marker, Magnitude;
    MarkerHead(id);
    var m := Marker(id);
    var s := m[..MARKER] + text;
    assert forall k :: 0 <= k < MARKER ==> s[k] == m[k];
    if 0 <= id < 1000 {
      assert forall k :: 1 <= k < 4 ==> IsDigit(s[k]) by { assert forall k :: 1 <= k < 4 ==> m[1..4][k - 1] == m[k]; }
      assert DigitsEnd(s, 1) == DigitsEnd(s, 2) == DigitsEnd(s, 3) == DigitsEnd(s, 4) == 4;
      assert s[1..4] == m[1..4];
      assert HasMarker(s) && MarkerNumber(s) == id;
      assert s[5..] == text;
    } else if id >= 1000 {
      assert DigitsEnd(s, 1) == DigitsEnd(s, 2) == DigitsEnd(s, 3) == DigitsEnd(s, 4) == 4;
      assert !HasMarker(s);
    } else {
      assert DigitsEnd(s, 1) == 1;
      assert !HasMarker(s);
    }
    if IconOf(s).skip == 0 { assert |s[0..]| != |text|; }
  }

  /** A marker without text is read back exactly for the numbers of icons, too, and leaves nothing. */
  lemma BareMarkerRoundTrip(id: int)
    ensures IconOf(Marker(id)) == Icon(id, |Marker(id)|) <==> 0 <= id < MAX_ICONS
    ensures !(0 <= id < MAX_ICONS) ==> IconOf(Marker(id)) == Icon(-1, 0)
  {
    hide Marker, Magnitude;
    MarkerHead(id);
    var m := Marker(id);
    if 0 <= id < 1000 {
      assert forall k :: 1 <= k < 4 ==> IsDigit(m[k]) by { assert forall k :: 1 <= k < 4 ==> m[1..4][k - 1] == m[k]; }
      assert DigitsEnd(m, 1) == DigitsEnd(m, 2) == DigitsEnd(m, 3) == DigitsEnd(m, 4) == 4;
    } else if id >= 1000 {
      assert DigitsEnd(m, 1) == DigitsEnd(m, 2) == DigitsEnd(m, 3) == DigitsEnd(m, 4) == 4;
    } else {
      assert DigitsEnd(m, 1) == 1;
    }
  }

  /** A marker need not be padded: one to three digits between the marks are read, and the whole marker is skipped. */
  lemma UnpaddedMarker(id: nat, text: string)
    requires id < 1000
    ensures var s := "#" + Digits(id) + "#" + text;
            IconOf(s) == if id < MAX_ICONS then Icon(id, |Digits(id)| + 2) else Icon(-1, 0)
  {
    hide Digits, Magnitude;
    assert TenTo(3) == 1000 by { assert TenTo(3) == 10 * (10 * (10 * TenTo(0))); }
    DigitsAreFew(id, 3, 1000);
    MagnitudeOfDigits(id);
    var d := Digits(id);
    var s := "#" + d + "#" + text;
    assert forall k :: 0 <= k < |d| ==> s[k + 1] == d[k];
    assert s[|d| + 1] == '#';
    assert forall k :: 1 <= k <= |d| ==> IsDigit(s[k]) by { assert forall k :: 1 <= k <= |d| ==> s[k] == d[k - 1]; }
    assert DigitsEnd(s, |d| + 1) == |d| + 1;
    EndsAfter(s, 1, |d| + 1);
    assert s[1..|d| + 1] == d;
  }

  lemma {:induction false} EndsAfter(s: string, pos: nat, end: nat)
    requires 1 <= pos <= end <= 4 && end <= |s| && forall k :: pos <= k < end ==> IsDigit(s[k])
    ensures DigitsEnd(s, pos) == DigitsEnd(s, end)
    decreases end - pos
  {
    if pos < end { EndsAfter(s, pos + 1, end); }
  }
}
