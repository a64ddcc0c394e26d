/**
  The same cursor motions on the bytes of a NUL-terminated buffer, as the loops of the text box
  compute them, and their agreement with the abstract text at codepoint boundaries.
 */
module TextBytes {
  import opened Options
  import opened Utf8
  import opened TextDoc

  /** The bytes a text box shows for abstract text. */
  function Str(cs: seq<Codepoint>): seq<Byte> { EncodeAll(cs) + [0] }

  // ----- Forward scans, on arbitrary bytes -----

  function ByteSkipKind(s: seq<Byte>, punct: bool, i: nat): (j: nat)
    requires IsCString(s) && i < |s|
    ensures i <= j < |s|
    decreases |s| - i
  {
    if i < |s| - 1 && !Stops(punct, Next(s, i).codepoint) then ByteSkipKind(s, punct, i + Next(s, i).size) else i
  }

  function ByteSkipSpace(s: seq<Byte>, i: nat): (j: nat)
    requires IsCString(s) && i < |s|
    ensures i <= j < |s|
    decreases |s| - i
  {
    if i < |s| - 1 && IsSpace(Next(s, i).codepoint) then ByteSkipSpace(s, i + Next(s, i).size) else i
  }

  function ByteWordEnd(s: seq<Byte>, i: nat): (j: nat)
    requires IsCString(s) && i < |s|
    ensures i <= j < |s|
  {
    ByteSkipSpace(s, ByteSkipKind(s, IsPunct(Next(s, i).codepoint), i))
  }

  /** Bytes of clipboard text the counting loop accepts from `i` on, when `room` bytes are left. */
  function ByteTake(clip: seq<Byte>, room: int, i: nat): (j: nat)
    requires IsCString(clip) && i < |clip|
    ensures i <= j < |clip|
    ensures j < room || j == i
    decreases |clip| - i
  {
    var g := Next(clip, i);
    if i + g.size >= room || g.codepoint < 32 then i else ByteTake(clip, room, i + g.size)
  }

  // ----- Backward scans -----

  /**
    `GetCodepointPrevious`: the codepoint in front of a pointer, and how many bytes to step back.  All it is
    given is the pointer: the memory before it, as far down as it likes, and the string from it on.  It is
    not told where a text starts.
   */
  type Reader = (seq<Byte>, seq<Byte>) -> Glyph

  /** All that is asked of it: in front of the pointer it reads a codepoint whose encoding ends there. */
  ghost predicate ReadsBack(prev: Reader)
  {
    forall before: seq<Byte>, c: Codepoint, rest: seq<Codepoint> :: c != 0 && 0 !in rest ==>
      prev(before + Encode(c), Str(rest)) == Glyph(c, |Encode(c)|)
  }

  /** A reader at work on a text with some memory below it. */
  datatype Reading = Reading(prev: Reader, below: seq<Byte>)

  /** What it reads in front of byte `i`. */
  function Behind(r: Reading, s: seq<Byte>, i: nat): Glyph
    requires i <= |s|
  {
    r.prev(r.below + s[..i], s[i..])
  }

  // A scan comes to nothing where a step leads in front of the text, or leads nowhere and never ends.

  function ByteSkipKindBack(r: Reading, s: seq<Byte>, punct: bool, i: nat): (j: Option<nat>)
    requires i <= |s|
    ensures j.Some? ==> j.value <= i
  {
    if i == 0 || Stops(punct, Behind(r, s, i).codepoint) then Some(i)
    else if 0 < Behind(r, s, i).size <= i then ByteSkipKindBack(r, s, punct, i - Behind(r, s, i).size)
    else None
  }

  function ByteSkipSpaceBack(r: Reading, s: seq<Byte>, i: nat): (j: Option<nat>)
    requires i <= |s|
    ensures j.Some? ==> j.value <= i
  {
    if i == 0 || !IsSpace(Behind(r, s, i).codepoint) then Some(i)
    else if 0 < Behind(r, s, i).size <= i then ByteSkipSpaceBack(r, s, i - Behind(r, s, i).size)
    else None
  }

  function ByteWordStart(r: Reading, s: seq<Byte>, i: nat): (j: Option<nat>)
    requires i <= |s|
    ensures j.Some? ==> j.value <= i
  {
    var q := ByteSkipSpaceBack(r, s, i);
    if q == None || q == Some(0) then q else ByteSkipKindBack(r, s, IsPunct(Behind(r, s, q.value).codepoint), q.value)
  }

  /** One codepoint back. */
  function StepBack(r: Reading, s: seq<Byte>, i: nat): (j: Option<nat>)
    requires i <= |s|
    ensures j.Some? ==> j.value <= i
  {
    if Behind(r, s, i).size <= i then Some(i - Behind(r, s, i).size) else None
  }

  // ----- Agreement at boundaries -----

  /** A decode at boundary `p`, the boundary after it, and where both lie in the bytes. */
  lemma NextAt(cs: seq<Codepoint>, p: nat)
    requires 0 !in cs && p < |cs|
    ensures IsCString(Str(cs)) && Off(cs, p) < Off(cs, p + 1) <= |Str(cs)| - 1 == Off(cs, |cs|)
    ensures Next(Str(cs), Off(cs, p)) == Glyph(cs[p], Off(cs, p + 1) - Off(cs, p))
  {
    hide Encode, Next;
    NonZeroEncoding(cs);
    DecodeAt(cs, p, [0]);
    OffStep(cs, p);
    SplitAt(cs, p + 1);
    SplitAt(cs, |cs|);
    assert cs[..|cs|] == cs;
  }

  lemma AtEnd(cs: seq<Codepoint>)
    requires 0 !in cs
    ensures IsCString(Str(cs)) && Off(cs, |cs|) == |Str(cs)| - 1
  {
    hide Encode;
    NonZeroEncoding(cs);
    assert cs[..|cs|] == cs;
  }

  lemma {:induction false} OffMonotone(cs: seq<Codepoint>, p: nat, q: nat)
    requires 0 !in cs && p <= q <= |cs|
    ensures q - p <= Off(cs, q) - Off(cs, p) && Off(cs, q) < |Str(cs)|
    decreases q - p
  {
    hide Encode, Next;
    if p < q { NextAt(cs, p); OffMonotone(cs, p + 1, q); }
    else if q < |cs| { NextAt(cs, q); } else { AtEnd(cs); }
  }

  lemma {:induction false} SkipKindAgrees(cs: seq<Codepoint>, punct: bool, p: nat)
    requires 0 !in cs && p <= |cs|
    ensures IsCString(Str(cs)) && Off(cs, p) < |Str(cs)|
    ensures ByteSkipKind(Str(cs), punct, Off(cs, p)) == Off(cs, SkipKind(cs, punct, p))
    decreases |cs| - p
  {
    hide Encode, Next, Stops;
    if p == |cs| { AtEnd(cs); } else { NextAt(cs, p); SkipKindAgrees(cs, punct, p + 1); }
  }

  lemma {:induction false} SkipSpaceAgrees(cs: seq<Codepoint>, p: nat)
    requires 0 !in cs && p <= |cs|
    ensures IsCString(Str(cs)) && Off(cs, p) < |Str(cs)|
    ensures ByteSkipSpace(Str(cs), Off(cs, p)) == Off(cs, SkipSpace(cs, p))
    decreases |cs| - p
  {
    hide Encode, Next, IsSpace;
    if p == |cs| { AtEnd(cs); } else { NextAt(cs, p); SkipSpaceAgrees(cs, p + 1); }
  }

  /** The byte loops of word motion and word delete stop at the boundary of the abstract word end. */
  lemma WordEndAgrees(cs: seq<Codepoint>, p: nat)
    requires 0 !in cs && p < |cs|
    ensures IsCString(Str(cs)) && Off(cs, p) < |Str(cs)|
    ensures ByteWordEnd(Str(cs), Off(cs, p)) == Off(cs, WordEnd(cs, p))
  {
    hide Encode, Next, IsPunct, Stops, IsSpace;
    NextAt(cs, p);
    SkipKindAgrees(cs, IsPunct(cs[p]), p);
    SkipSpaceAgrees(cs, SkipKind(cs, IsPunct(cs[p]), p));
  }

  /** The counting loop of paste accepts the bytes of exactly the codepoints the abstract count accepts. */
  lemma {:induction false} TakeAgrees(clip: seq<Codepoint>, room: int, p: nat)
    requires 0 !in clip && p <= |clip| && Pastable(clip, room, p)
    ensures IsCString(Str(clip)) && Off(clip, p) < |Str(clip)|
    ensures ByteTake(Str(clip), room, Off(clip, p)) == Off(clip, PasteCount(clip, room, p))
    decreases |clip| - p
  {
    hide Encode, Next;
    if p == |clip| {
      AtEnd(clip);
      EndDecodesToZero(Str(clip));
    } else {
      NextAt(clip, p);
      if Off(clip, p + 1) < room && clip[p] >= 32 { TakeAgrees(clip, room, p + 1); }
    }
  }

  lemma EndDecodesToZero(s: seq<Byte>)
    requires Terminated(s)
    ensures Next(s, |s| - 1) == Glyph(0, 1)
  {
  }

  lemma FirstByteStarts(c: Codepoint)
    ensures |Encode(c)| > 0 && !IsContinuation(Encode(c)[0])
  {
  }

  /** The first byte of an encoded codepoint is a lead or single byte, the rest continue it. */
  lemma BytesAt(cs: seq<Codepoint>, p: nat)
    requires 0 !in cs && p < |cs|
    ensures Off(cs, p) < Off(cs, p + 1) < |Str(cs)|
    ensures !IsContinuation(Str(cs)[Off(cs, p)])
    ensures forall k :: Off(cs, p) < k < Off(cs, p + 1) ==> IsContinuation(Str(cs)[k])
  {
    hide Encode;
    NextAt(cs, p);
    SplitAt(cs, p);
    OffStep(cs, p);
    FirstByteStarts(cs[p]);
    assert Str(cs)[Off(cs, p)] == EncodeAll(cs[p..])[0];
  }

  /** At boundary `p`, whatever is below the text, a reader reads the codepoint in front of it. */
  lemma ReadAt(r: Reading, cs: seq<Codepoint>, p: nat)
    requires ReadsBack(r.prev) && 0 !in cs && 0 < p <= |cs|
    ensures IsCString(Str(cs)) && Off(cs, p - 1) < Off(cs, p) < |Str(cs)|
    ensures Behind(r, Str(cs), Off(cs, p)) == Glyph(cs[p - 1], Off(cs, p) - Off(cs, p - 1))
  {
    hide Encode, Next, EncodeAll, Off, ReadsBack;
    NextAt(cs, p - 1);
    OffStep(cs, p - 1);
    SplitBehind(cs, p);
    var s, i, front := Str(cs), Off(cs, p), EncodeAll(cs[..p - 1]);
    assert r.below + s[..i] == (r.below + front) + Encode(cs[p - 1]);
    UseReader(r.prev, r.below + front, cs[p - 1], cs[p..]);
  }

  lemma SplitBehind(cs: seq<Codepoint>, p: nat)
    requires 0 < p <= |cs|
    ensures Off(cs, p) < |Str(cs)|
    ensures Str(cs)[..Off(cs, p)] == EncodeAll(cs[..p - 1]) + Encode(cs[p - 1]) && Str(cs)[Off(cs, p)..] == Str(cs[p..])
  {
    hide Encode, EncodeAll, Off;
    SplitAt(cs, p);
    var e, i, c := EncodeAll(cs), Off(cs, p), cs[p - 1];
    assert cs[..p] == cs[..p - 1] + [c];
    EncodeAllAppend(cs[..p - 1], [c]);
    EncodeOne(c);
    assert Str(cs)[..i] == e[..i] && Str(cs)[i..] == e[i..] + [0];
  }

  lemma UseReader(prev: Reader, before: seq<Byte>, c: Codepoint, rest: seq<Codepoint>)
    requires ReadsBack(prev) && c != 0 && 0 !in rest
    ensures prev(before + Encode(c), Str(rest)) == Glyph(c, |Encode(c)|)
  {
  }

  lemma EncodeOne(c: Codepoint)
    ensures EncodeAll([]) == [] && EncodeAll([c]) == Encode(c)
  {
    hide Encode;
    assert [c][1..] == [];
  }

  lemma {:induction false} SkipKindBackAgrees(r: Reading, cs: seq<Codepoint>, punct: bool, p: nat)
    requires ReadsBack(r.prev) && 0 !in cs && p <= |cs|
    ensures Off(cs, p) < |Str(cs)|
    ensures ByteSkipKindBack(r, Str(cs), punct, Off(cs, p)) == Some(Off(cs, SkipKindBack(cs, punct, p)))
  {
    hide Encode, Next, Stops, ReadsBack, EncodeAll, Off, Behind;
    OffMonotone(cs, 0, p);
    AtEnd(cs);
    AtStart(cs);
    if p > 0 { ReadAt(r, cs, p); SkipKindBackAgrees(r, cs, punct, p - 1); }
  }

  lemma {:induction false} SkipSpaceBackAgrees(r: Reading, cs: seq<Codepoint>, p: nat)
    requires ReadsBack(r.prev) && 0 !in cs && p <= |cs|
    ensures Off(cs, p) < |Str(cs)|
    ensures ByteSkipSpaceBack(r, Str(cs), Off(cs, p)) == Some(Off(cs, SkipSpaceBack(cs, p)))
  {
    hide Encode, Next, IsSpace, ReadsBack, EncodeAll, Off, Behind;
    OffMonotone(cs, 0, p);
    AtEnd(cs);
    AtStart(cs);
    if p > 0 { ReadAt(r, cs, p); SkipSpaceBackAgrees(r, cs, p - 1); }
  }

  lemma AtStart(cs: seq<Codepoint>)
    ensures Off(cs, 0) == 0
  {
    assert cs[..0] == [];
  }

  /** The byte loops of Ctrl+Left and Ctrl+Backspace stop at the boundary of the abstract word start. */
  lemma WordStartAgrees(r: Reading, cs: seq<Codepoint>, p: nat)
    requires ReadsBack(r.prev) && 0 !in cs && 0 < p <= |cs|
    ensures 0 < Off(cs, p) < |Str(cs)|
    ensures ByteWordStart(r, Str(cs), Off(cs, p)) == Some(Off(cs, WordStart(cs, p)))
  {
    hide Encode, Next, IsPunct, Stops, IsSpace, EncodeAll, ReadsBack, Off, Behind, ByteSkipKindBack, ByteSkipSpaceBack;
    ReadAt(r, cs, p);
    AtStart(cs);
    SkipSpaceBackAgrees(r, cs, p);
    var q := SkipSpaceBack(cs, p);
    OffMonotone(cs, 0, q);
    if q > 0 { ReadAt(r, cs, q); SkipKindBackAgrees(r, cs, IsPunct(cs[q - 1]), q); }
  }

  // ----- Edits -----

  /** Replacing codepoints `a..b` by `ins` replaces the bytes between their offsets. */
  lemma SpliceAgrees(cs: seq<Codepoint>, a: nat, b: nat, ins: seq<Codepoint>)
    requires a <= b <= |cs|
    ensures Off(cs, a) <= |EncodeAll(cs)| && Off(cs, b) <= |EncodeAll(cs)|
    ensures EncodeAll(cs[..a] + ins + cs[b..]) == EncodeAll(cs)[..Off(cs, a)] + EncodeAll(ins) + EncodeAll(cs)[Off(cs, b)..]
    ensures Off(cs[..a] + ins + cs[b..], a) == Off(cs, a)
    ensures Off(cs[..a] + ins + cs[b..], a + |ins|) == Off(cs, a) + |EncodeAll(ins)|
  {
    hide Encode;
    SplitAt(cs, a);
    SplitAt(cs, b);
    EncodeAllAppend(cs[..a] + ins, cs[b..]);
    EncodeAllAppend(cs[..a], ins);
    var r := cs[..a] + ins + cs[b..];
    assert r[..a] == cs[..a] && r[..a + |ins|] == cs[..a] + ins;
  }
}
