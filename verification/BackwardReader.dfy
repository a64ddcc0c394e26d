/**
  A reader that goes back to the nearest byte that continues nothing, and what no reader can do: tell from a
  pointer alone where a text starts.
 */
module BackwardReader {
  import opened Options
  import opened Utf8
  import opened TextDoc
  import opened TextBytes

  /** How many bytes of `before` to step back to the nearest one that continues nothing; one more than there are if all do. */
  function StepSize(before: seq<Byte>): (n: nat)
    ensures 0 < n <= |before| + 1
    ensures forall k :: |before| - n < k < |before| ==> IsContinuation(before[k])
    ensures n <= |before| ==> !IsContinuation(before[|before| - n])
  {
    if before == [] || !IsContinuation(before[|before| - 1]) then 1 else 1 + StepSize(before[..|before| - 1])
  }

  /** The reader decodes there. */
  function Nearest(before: seq<Byte>, from: seq<Byte>): Glyph
  {
    var n := StepSize(before);
    if n <= |before| && Terminated(from) then Glyph(Next(before[|before| - n..] + from, 0).codepoint, n) else Glyph(0x3f, n)
  }

  /** It is a reader. */
  lemma NearestReadsBack()
    ensures ReadsBack(Nearest)
  {
    hide Next, Encode, Nearest, EncodeAll;
    forall before: seq<Byte>, c: Codepoint, rest: seq<Codepoint> | c != 0 && 0 !in rest
      ensures Nearest(before + Encode(c), Str(rest)) == Glyph(c, |Encode(c)|)
    {
      NearestAt(before, c, Str(rest));
    }
  }

  lemma NearestAt(before: seq<Byte>, c: Codepoint, from: seq<Byte>)
    requires Terminated(from)
    ensures Nearest(before + Encode(c), from) == Glyph(c, |Encode(c)|)
  {
    hide Next;
    var e := Encode(c);
    var b := before + e;
    EncodingShape(c);
    assert forall k :: 0 <= k < |e| ==> b[|before| + k] == e[k];
    var n := StepSize(b);
    assert !IsContinuation(b[|before|]);
    assert n == |e|;
    assert b[|b| - n..] == e;
    DecodeEncode(c, from);
  }

  lemma EncodingShape(c: Codepoint)
    ensures |Encode(c)| > 0 && !IsContinuation(Encode(c)[0])
    ensures forall k :: 0 < k < |Encode(c)| ==> IsContinuation(Encode(c)[k])
  {
  }

  /** With any memory below, a step stays in the text exactly if some byte in front of it continues nothing. */
  lemma StepStaysInText(below: seq<Byte>, s: seq<Byte>, i: nat)
    requires 0 < i <= |s|
    ensures StepBack(Reading(Nearest, below), s, i).Some? <==> exists k :: 0 <= k < i && !IsContinuation(s[k])
    ensures StepBack(Reading(Nearest, below), s, i).Some? ==>
              var j := StepBack(Reading(Nearest, below), s, i).value;
              j < i && !IsContinuation(s[j]) && forall k :: j < k < i ==> IsContinuation(s[k])
  {
    hide Next;
    var before := below + s[..i];
    var n := StepSize(before);
    assert forall k :: 0 <= k < i ==> before[|below| + k] == s[k];
    if n <= i {
      assert !IsContinuation(s[i - n]);
    } else {
      forall k | 0 <= k < i ensures IsContinuation(s[k]) { assert IsContinuation(before[|below| + k]); }
    }
  }

  /** In text that does not start with a continuation byte the word scans stay in the text, too. */
  lemma {:induction false} ScansStayInText(below: seq<Byte>, s: seq<Byte>, punct: bool, i: nat)
    requires i <= |s| && (i > 0 ==> !IsContinuation(s[0]))
    ensures ByteSkipSpaceBack(Reading(Nearest, below), s, i).Some?
    ensures ByteSkipKindBack(Reading(Nearest, below), s, punct, i).Some?
    decreases i
  {
    hide Next, Stops, IsSpace;
    var r := Reading(Nearest, below);
    if i > 0 {
      StepStaysInText(below, s, i);
      assert 0 < Behind(r, s, i).size;
      ScansStayInText(below, s, punct, i - Behind(r, s, i).size);
    }
  }

  lemma WordStartStaysInText(below: seq<Byte>, s: seq<Byte>, i: nat)
    requires i <= |s| && (i > 0 ==> !IsContinuation(s[0]))
    ensures ByteWordStart(Reading(Nearest, below), s, i).Some?
  {
    hide Next, Stops, IsSpace, Behind;
    var r := Reading(Nearest, below);
    ScansStayInText(below, s, false, i);
    var q := ByteSkipSpaceBack(r, s, i).value;
    if q > 0 { ScansStayInText(below, s, IsPunct(Behind(r, s, q).codepoint), q); }
  }
}
