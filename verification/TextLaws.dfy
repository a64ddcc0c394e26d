/** What a user relies on: laws that relate different keys and different frames of the text box. */
module TextLaws {
  import opened Options
  import opened Utf8
  import opened TextDoc
  import opened TextBytes
  import opened RawText
  import opened BackwardReader

  // ----- Word delete and word motion -----

  /** Ctrl+Delete removes exactly the codepoints Ctrl+Right would pass. */
  lemma DeleteWordIsWordRight(d: Doc, size: nat, clip: Option<seq<Codepoint>>, repeat: bool)
    requires Fits(d, size)
    ensures var right := KeyFrame(d, size, IDLE.(ctrl := true, pressRight := true), clip, repeat);
            && right.cs == d.cs && d.pos <= right.pos
            && KeyFrame(d, size, IDLE.(ctrl := true, pressDelete := true), clip, repeat)
               == Doc(d.cs[..d.pos] + d.cs[right.pos..], d.pos)
  {
    hide EncodeAll, Encode, WordEnd;
    if d.pos == |d.cs| { assert d.cs[..d.pos] + d.cs[d.pos..] == d.cs; }
  }

  /** Ctrl+Backspace removes exactly the codepoints Ctrl+Left would pass, and leaves the cursor where Ctrl+Left would. */
  lemma BackspaceWordIsWordLeft(d: Doc, size: nat, clip: Option<seq<Codepoint>>, repeat: bool)
    requires Fits(d, size)
    ensures var left := KeyFrame(d, size, IDLE.(ctrl := true, pressLeft := true), clip, repeat);
            && left.cs == d.cs && left.pos <= d.pos
            && KeyFrame(d, size, IDLE.(ctrl := true, pressBackspace := true), clip, repeat)
               == Doc(d.cs[..left.pos] + d.cs[d.pos..], left.pos)
  {
    hide EncodeAll, Encode, WordStart;
    if d.pos == 0 { assert d.cs[..d.pos] + d.cs[d.pos..] == d.cs; }
  }

  /** Is `p` the start of a word or of a run of punctuation? */
  predicate StartsRun(cs: seq<Codepoint>, p: nat)
    requires p < |cs|
  {
    !IsSpace(cs[p]) && (p == 0 || Stops(IsPunct(cs[p]), cs[p - 1]))
  }

  /** Ctrl+Left undoes Ctrl+Right exactly at the start of the text and at the start of a run. */
  lemma WordLeftUndoesWordRight(cs: seq<Codepoint>, p: nat)
    requires p < |cs|
    ensures WordStart(cs, WordEnd(cs, p)) == p <==> p == 0 || StartsRun(cs, p)
  {
    var punct := IsPunct(cs[p]);
    var m := SkipKind(cs, punct, p);
    var q := SkipSpace(cs, m);
    var b := SkipSpaceBack(cs, q);
    if IsSpace(cs[p]) {
      assert m == p;
      assert b <= p;
    } else {
      assert !Stops(punct, cs[m - 1]) && !IsSpace(cs[m - 1]);
      assert b == m;
      assert !Stops(punct, cs[m - 1]) && IsPunct(cs[m - 1]) == punct;
      var a := SkipKindBack(cs, punct, m);
      assert a <= p;
    }
  }

  // ----- Single keys -----

  /** Home goes to the start, End to the end; Left and Right pass one codepoint, and stay at the ends. */
  lemma MotionKeys(d: Doc, size: nat, clip: Option<seq<Codepoint>>, repeat: bool)
    requires Fits(d, size)
    ensures KeyFrame(d, size, IDLE.(pressHome := true), clip, repeat) == Doc(d.cs, 0)
    ensures KeyFrame(d, size, IDLE.(pressEnd := true), clip, repeat) == Doc(d.cs, |d.cs|)
    ensures KeyFrame(d, size, IDLE.(pressLeft := true), clip, repeat) == Doc(d.cs, if d.pos > 0 then d.pos - 1 else 0)
    ensures KeyFrame(d, size, IDLE.(pressRight := true), clip, repeat) == Doc(d.cs, if d.pos < |d.cs| then d.pos + 1 else d.pos)
    ensures KeyFrame(d, size, IDLE, clip, repeat) == d
  {
    hide EncodeAll, Encode;
  }

  /** Delete and Backspace take the codepoint after and before the cursor out of the text. */
  lemma DeletionKeys(d: Doc, size: nat, clip: Option<seq<Codepoint>>, repeat: bool)
    requires Fits(d, size)
    ensures d.pos < |d.cs| ==>
              KeyFrame(d, size, IDLE.(pressDelete := true), clip, repeat) == Doc(d.cs[..d.pos] + d.cs[d.pos + 1..], d.pos)
    ensures d.pos > 0 ==>
              KeyFrame(d, size, IDLE.(pressBackspace := true), clip, repeat) == Doc(d.cs[..d.pos - 1] + d.cs[d.pos..], d.pos - 1)
    ensures d.pos == |d.cs| ==> KeyFrame(d, size, IDLE.(pressDelete := true), clip, repeat) == d
    ensures d.pos == 0 ==> KeyFrame(d, size, IDLE.(pressBackspace := true), clip, repeat) == d
  {
    hide EncodeAll, Encode;
  }

  /** What is typed stands before the cursor, in order, and the rest of the text around it. */
  lemma TypingInserts(d: Doc, size: nat, c: Codepoint, clip: Option<seq<Codepoint>>)
    requires Fits(d, size) && c >= 32 && |EncodeAll(d.cs)| + |Encode(c)| < size
    ensures var r := KeyFrame(d, size, IDLE.(key := c), clip, false);
            && r.pos == d.pos + 1 && |r.cs| == |d.cs| + 1 && r.cs[d.pos] == c
            && r.cs[..d.pos] == d.cs[..d.pos] && r.cs[d.pos + 1..] == d.cs[d.pos..]
  {
    hide EncodeAll, Encode;
  }

  // Keys of one frame act in this order: typing, Home, End, Delete, Backspace, and one of the arrows, Left first.

  lemma TypingComesFirst(d: Doc, size: nat, c: Codepoint, clip: Option<seq<Codepoint>>)
    requires Fits(d, size)
    ensures c >= 32 && |EncodeAll(d.cs)| + |Encode(c)| < size ==>
              KeyFrame(d, size, IDLE.(key := c, pressHome := true), clip, false) == Doc(d.cs[..d.pos] + [c] + d.cs[d.pos..], 0)
    ensures KeyFrame(d, size, PASTE.(key := c), clip, false) == KeyFrame(d, size, PASTE, clip, false)
  {
    hide EncodeAll, Encode, PasteCount, WordEnd, WordStart;
  }

  lemma HomeAndEndComeNext(d: Doc, size: nat, clip: Option<seq<Codepoint>>)
    requires Fits(d, size)
    ensures KeyFrame(d, size, IDLE.(pressHome := true, pressEnd := true), clip, false) == Doc(d.cs, |d.cs|)
    ensures |d.cs| > 0 ==> KeyFrame(d, size, IDLE.(pressHome := true, pressDelete := true), clip, false) == Doc(d.cs[1..], 0)
    ensures |d.cs| > 0 ==>
              KeyFrame(d, size, IDLE.(pressEnd := true, pressBackspace := true), clip, false) == Doc(d.cs[..|d.cs| - 1], |d.cs| - 1)
  {
    hide EncodeAll, Encode, PasteCount, WordEnd, WordStart;
    if |d.cs| > 0 {
      assert d.cs[..0] + d.cs[1..] == d.cs[1..];
      assert d.cs[..|d.cs| - 1] + d.cs[|d.cs|..] == d.cs[..|d.cs| - 1];
    }
  }

  lemma BothSidesAreDeleted(d: Doc, size: nat, clip: Option<seq<Codepoint>>)
    requires Fits(d, size) && 0 < d.pos < |d.cs|
    ensures KeyFrame(d, size, IDLE.(pressDelete := true, pressBackspace := true), clip, false)
            == Doc(d.cs[..d.pos - 1] + d.cs[d.pos + 1..], d.pos - 1)
  {
    hide EncodeAll, Encode, PasteCount, WordEnd, WordStart;
    var e := d.cs[..d.pos] + d.cs[d.pos + 1..];
    assert e[..d.pos - 1] + e[d.pos..] == d.cs[..d.pos - 1] + d.cs[d.pos + 1..];
  }

  lemma ArrowsComeLast(d: Doc, size: nat, clip: Option<seq<Codepoint>>)
    requires Fits(d, size)
    ensures d.pos > 1 ==>
              KeyFrame(d, size, IDLE.(pressBackspace := true, pressLeft := true), clip, false)
              == Doc(d.cs[..d.pos - 1] + d.cs[d.pos..], d.pos - 2)
    ensures d.pos + 1 < |d.cs| ==>
              KeyFrame(d, size, IDLE.(pressDelete := true, pressRight := true), clip, false)
              == Doc(d.cs[..d.pos] + d.cs[d.pos + 1..], d.pos + 1)
    ensures d.pos > 0 ==> KeyFrame(d, size, IDLE.(pressLeft := true, pressRight := true), clip, false) == Doc(d.cs, d.pos - 1)
  {
    hide EncodeAll, Encode, PasteCount, WordEnd, WordStart;
  }

  /** Once keys repeat, holding one acts like pressing it; before that it does nothing. */
  lemma HeldKeysActLikePressed(d: Doc, size: nat, clip: Option<seq<Codepoint>>, repeat: bool)
    requires Fits(d, size)
    ensures KeyFrame(d, size, IDLE.(downLeft := true), clip, repeat) == if repeat then KeyFrame(d, size, IDLE.(pressLeft := true), clip, false) else d
    ensures KeyFrame(d, size, IDLE.(downRight := true), clip, repeat) == if repeat then KeyFrame(d, size, IDLE.(pressRight := true), clip, false) else d
    ensures KeyFrame(d, size, IDLE.(downDelete := true), clip, repeat) == if repeat then KeyFrame(d, size, IDLE.(pressDelete := true), clip, false) else d
    ensures KeyFrame(d, size, IDLE.(downBackspace := true), clip, repeat) == if repeat then KeyFrame(d, size, IDLE.(pressBackspace := true), clip, false) else d
  {
    hide EncodeAll, Encode;
  }

  /** A frame without a held key starts the count of key repetition over; Enter does too, and rewinds the cursor. */
  lemma CountStartsOver(s: Session, size: nat, f: Frame)
    requires Fits(s.doc, size)
    ensures var k := f.keys;
            !(k.downLeft || k.downRight || k.downUp || k.downDown || k.downBackspace || k.downDelete) || k.pressEnter ==>
              FrameStep(s, size, f).counter == 0
    ensures f.keys.pressEnter ==> FrameStep(s, size, f).doc.pos == 0
    ensures var k := f.keys;
            (k.downLeft || k.downRight || k.downUp || k.downDown || k.downBackspace || k.downDelete) && !k.pressEnter ==>
              FrameStep(s, size, f).counter == s.counter + 1
  {
    hide EncodeAll, Encode, KeyFrame;
  }

  /** A key that is held, from the frame it was pressed in on. */
  function Held(n: nat): seq<Frame>
  {
    if n == 0 then [] else [Frame(IDLE.(downRight := true), None)] + Held(n - 1)
  }

  /** Held for `n` frames, Right repeats from the 21st on, once a frame, until the end of the text. */
  lemma {:induction false} HoldingRepeats(s: Session, size: nat, n: nat)
    requires Fits(s.doc, size)
    ensures var moves := if s.counter + n <= COOLDOWN then 0 else if s.counter <= COOLDOWN then s.counter + n - COOLDOWN else n;
            var end := |s.doc.cs|;
            Run(s, size, Held(n)) == Session(Doc(s.doc.cs, if s.doc.pos + moves < end then s.doc.pos + moves else end), s.counter + n)
    decreases n
  {
    hide EncodeAll, Encode, FrameStep;
    if n > 0 {
      HeldStep(s, size);
      var r := FrameStep(s, size, Frame(IDLE.(downRight := true), None));
      assert Held(n)[1..] == Held(n - 1);
      HoldingRepeats(r, size, n - 1);
    }
  }

  lemma HeldStep(s: Session, size: nat)
    requires Fits(s.doc, size)
    ensures var r := FrameStep(s, size, Frame(IDLE.(downRight := true), None));
            && Fits(r.doc, size) && r.counter == s.counter + 1 && r.doc.cs == s.doc.cs
            && r.doc.pos == if s.counter + 1 > COOLDOWN && s.doc.pos < |s.doc.cs| then s.doc.pos + 1 else s.doc.pos
  {
    hide EncodeAll, Encode;
    FrameFits(s, size, Frame(IDLE.(downRight := true), None));
  }

  // ----- Undo -----

  /** Typing a codepoint and then Backspace restores text and cursor, whether or not the codepoint was accepted. */
  lemma TypeThenBackspace(d: Doc, size: nat, c: int, clip: Option<seq<Codepoint>>)
    requires Fits(d, size)
    ensures var typed := KeyFrame(d, size, IDLE.(key := c), clip, false);
            Fits(typed, size) &&
            var accepted := 32 <= c <= 0x10FFFF && |EncodeAll(d.cs)| + |Encode(c)| < size;
            if accepted then KeyFrame(typed, size, IDLE.(pressBackspace := true), clip, false) == d else typed == d
  {
    hide EncodeAll, Encode;
    KeyFrameFits(d, size, IDLE.(key := c), None, false);
    assert TypeStep(d, size, IDLE.(key := c), clip) == TypeStep(d, size, IDLE.(key := c), None);
    if 32 <= c <= 0x10FFFF {
      var t := Insert(d, [c]);
      assert t.cs[..t.pos - 1] + t.cs[t.pos..] == d.cs;
    }
  }

  /** Left then Delete is Backspace. */
  lemma LeftThenDeleteIsBackspace(d: Doc, size: nat, clip: Option<seq<Codepoint>>)
    requires Fits(d, size) && d.pos > 0
    ensures KeyFrame(KeyFrame(d, size, IDLE.(pressLeft := true), clip, false), size, IDLE.(pressDelete := true), clip, false)
            == KeyFrame(d, size, IDLE.(pressBackspace := true), clip, false)
  {
    hide EncodeAll, Encode;
  }

  // ----- Paste -----

  /** Paste takes the most clipboard codepoints that may be pasted. */
  lemma PasteTakesTheMost(clip: seq<Codepoint>, room: int, j: nat)
    requires 0 !in clip && room > 0 && j <= |clip| && Pastable(clip, room, j)
    ensures Pastable(clip, room, 0) && j <= PasteCount(clip, room, 0)
  {
    hide EncodeAll, Encode;
    AtStart(clip);
    var k := PasteCount(clip, room, 0);
    if k < j { OffMonotone(clip, k + 1, j); }
  }

  const BACKSPACE := IDLE.(pressBackspace := true)

  function Backspaces(n: nat): seq<Frame>
  {
    if n == 0 then [] else [Frame(BACKSPACE, None)] + Backspaces(n - 1)
  }

  lemma BackspaceRemoves(s: Session, size: nat)
    requires Fits(s.doc, size) && s.doc.pos > 0 && s.counter == 0
    ensures var r := Session(Remove(s.doc, s.doc.pos - 1, s.doc.pos), 0);
            FrameStep(s, size, Frame(BACKSPACE, None)) == r && Fits(r.doc, size)
  {
    hide EncodeAll, Encode;
    FrameFits(s, size, Frame(BACKSPACE, None));
  }

  /** As many Backspace frames as codepoints stand between `a` and the cursor remove exactly those. */
  lemma {:induction false} BackspacesRemove(s: Session, size: nat, a: nat)
    requires Fits(s.doc, size) && a <= s.doc.pos && s.counter == 0
    ensures Run(s, size, Backspaces(s.doc.pos - a)) == Session(Remove(s.doc, a, s.doc.pos), 0)
    decreases s.doc.pos
  {
    hide EncodeAll, Encode, FrameStep;
    var d := s.doc;
    if a == d.pos {
      assert d.cs[..a] + d.cs[a..] == d.cs;
    } else {
      var r := Session(Remove(d, d.pos - 1, d.pos), 0);
      BackspaceRemoves(s, size);
      BackspacesRemove(r, size, a);
      assert r.doc.cs[..a] + r.doc.cs[r.doc.pos..] == d.cs[..a] + d.cs[d.pos..];
      assert Backspaces(d.pos - a)[1..] == Backspaces(r.doc.pos - a);
    }
  }

  /** How many codepoints a paste inserts. */
  function Accepted(d: Doc, size: nat, clip: seq<Codepoint>): (n: nat)
    requires Fits(d, size)
    ensures n <= |clip|
  {
    PasteCount(clip, size - |EncodeAll(d.cs)|, 0)
  }

  const PASTE := IDLE.(ctrl := true, pressV := true)

  lemma PasteInserts(d: Doc, size: nat, clip: seq<Codepoint>)
    requires Fits(d, size) && 0 !in clip
    ensures var n := Accepted(d, size, clip);
            && FrameStep(Session(d, 0), size, Frame(PASTE, Some(clip))) == Session(Insert(d, clip[..n]), 0)
            && Fits(Insert(d, clip[..n]), size)
            && Insert(d, clip[..n]) == Doc(d.cs[..d.pos] + clip[..n] + d.cs[d.pos..], d.pos + n)
  {
    hide EncodeAll, Encode, PasteCount;
    FrameFits(Session(d, 0), size, Frame(PASTE, Some(clip)));
  }

  /** A paste is undone by one Backspace for each codepoint it inserted. */
  lemma PasteThenBackspaces(d: Doc, size: nat, clip: seq<Codepoint>)
    requires Fits(d, size) && 0 !in clip
    ensures Run(Session(d, 0), size, [Frame(PASTE, Some(clip))] + Backspaces(Accepted(d, size, clip))) == Session(d, 0)
  {
    hide EncodeAll, Encode, Accepted, FrameStep, Backspaces;
    var n := Accepted(d, size, clip);
    PasteInserts(d, size, clip);
    var r := Session(Insert(d, clip[..n]), 0);
    BackspacesRemove(r, size, d.pos);
    assert r.doc.cs[..d.pos] + r.doc.cs[r.doc.pos..] == d.cs;
    assert ([Frame(PASTE, Some(clip))] + Backspaces(n))[1..] == Backspaces(n);
  }

  // ----- Clipboards that are not well-formed -----

  /** A concatenation of encoder outputs without a terminator. */
  ghost predicate WellFormed(s: seq<Byte>)
  {
    exists cs: seq<Codepoint> :: 0 !in cs && EncodeAll(cs) == s
  }

  /** Equal encodings start with equal codepoints. */
  lemma {:induction false} CommonStart(a: seq<Codepoint>, rest: seq<Byte>, cs: seq<Codepoint>)
    requires 0 !in a && 0 !in cs && EncodeAll(a) + rest == EncodeAll(cs)
    ensures |a| <= |cs| && cs[..|a|] == a && rest == EncodeAll(cs[|a|..])
  {
    hide Encode, Next;
    if a != [] {
      AtStart(a);
      DecodeAt(a, 0, rest + [0]);
      assert EncodeAll(a) + (rest + [0]) == Str(cs);
      StartsEncoding(a);
      assert cs != [] by { assert |EncodeAll(cs)| > 0; }
      AtStart(cs);
      DecodeAt(cs, 0, [0]);
      assert a[0] == cs[0];
      DropFront(Encode(a[0]), EncodeAll(a[1..]), rest, EncodeAll(cs[1..]));
      CommonStart(a[1..], rest, cs[1..]);
      assert cs == [cs[0]] + cs[1..] && a == [a[0]] + a[1..];
      assert cs[|a|..] == cs[1..][|a[1..]|..];
    }
  }

  lemma StartsEncoding(a: seq<Codepoint>)
    requires a != []
    ensures EncodeAll(a) != [] && !IsContinuation(EncodeAll(a)[0])
  {
    hide Encode;
    FirstByteStarts(a[0]);
  }

  lemma DropFront(e: seq<Byte>, x: seq<Byte>, rest: seq<Byte>, y: seq<Byte>)
    requires (e + x) + rest == e + y
    ensures x + rest == y
  {
    assert (e + y)[|e|..] == y;
    assert ((e + x) + rest)[|e|..] == x + rest;
  }

  /** If encoded text ends with an encoding, what stands in front of it is encoded text. */
  lemma {:induction false} FrontIsEncoded(mid: seq<Byte>, b: seq<Codepoint>, cs: seq<Codepoint>, p: nat)
    requires 0 !in cs && p <= |cs| && mid + EncodeAll(b) == EncodeAll(cs) && Off(cs, p) <= |mid|
    ensures exists q: nat :: q <= |cs| && EncodeAll(cs[..q]) == mid
    decreases |cs| - p
  {
    hide Encode, Next;
    SplitAt(cs, p);
    if Off(cs, p) == |mid| {
      assert EncodeAll(cs[..p]) == mid;
    } else if p == |cs| {
      AtEnd(cs);
    } else {
      BytesAt(cs, p);
      OffStep(cs, p);
      if Off(cs, p + 1) > |mid| {
        assert Str(cs)[|mid|] == (mid + EncodeAll(b))[|mid|];
        assert b != [] && EncodeAll(b)[0] == Str(cs)[|mid|];
        StartsEncoding(b);
        assert false;
      }
      FrontIsEncoded(mid, b, cs, p + 1);
    }
  }

  lemma FrontIsWellFormed(mid: seq<Byte>, b: seq<Codepoint>, cs: seq<Codepoint>)
    requires 0 !in cs && mid + EncodeAll(b) == EncodeAll(cs)
    ensures WellFormed(mid)
  {
    hide Encode, EncodeAll;
    AtStart(cs);
    FrontIsEncoded(mid, b, cs, 0);
    var q: nat :| q <= |cs| && EncodeAll(cs[..q]) == mid;
    assert 0 !in cs[..q];
  }

  lemma ConcatIsWellFormed(a: seq<Codepoint>, m: seq<Codepoint>, b: seq<Codepoint>)
    requires 0 !in a && 0 !in m && 0 !in b
    ensures WellFormed(EncodeAll(a) + EncodeAll(m) + EncodeAll(b))
  {
    hide Encode, EncodeAll;
    EncodeAllAppend(a, m);
    EncodeAllAppend(a + m, b);
  }

  /** Bytes pasted at a boundary keep the text well-formed exactly when they are well-formed themselves. */
  lemma PasteKeepsWellFormed(a: seq<Codepoint>, mid: seq<Byte>, b: seq<Codepoint>)
    requires 0 !in a && 0 !in b
    ensures WellFormed(EncodeAll(a) + mid + EncodeAll(b)) <==> WellFormed(mid)
  {
    hide Encode, EncodeAll, Off;
    var whole := EncodeAll(a) + mid + EncodeAll(b);
    if WellFormed(mid) {
      var m: seq<Codepoint> :| 0 !in m && EncodeAll(m) == mid;
      ConcatIsWellFormed(a, m, b);
    }
    if WellFormed(whole) {
      var cs: seq<Codepoint> :| 0 !in cs && EncodeAll(cs) == whole;
      assert whole == EncodeAll(a) + (mid + EncodeAll(b));
      CommonStart(a, mid + EncodeAll(b), cs);
      var tail := cs[|a|..];
      FrontIsWellFormed(mid, b, tail);
    }
  }

  // ----- Backward steps in front of the text -----

  /** The paste loop counts a bad byte as a question mark, so a lone continuation byte gets into an empty text. */
  lemma ContinuationIsPasted(r: Reading, size: nat)
    requires size >= 2
    ensures RawFrame(r, Raw([0], 0), size, PASTE, Some([0x80, 0]), false) == Some(Raw([0x80, 0], 1))
  {
    var clip: seq<Byte> := [0x80, 0];
    assert Next(clip, 0) == Glyph(0x3f, 1) && Next(clip, 1) == Glyph(0, 1);
    assert ByteTake(clip, size, 1) == 1 && ByteTake(clip, size, 0) == 1;
    assert clip[..1] == [0x80];
    assert RawType(Raw([0], 0), size, PASTE, Some(clip)) == Raw([0x80, 0], 1);
    assert Cut([0x80, 0], 1, 1) == [0x80, 0];
  }

  /** For every reader there is memory with which pasting that byte and then Backspace steps in front of the text. */
  lemma EveryReaderOverruns(prev: Reader, size: nat)
    requires ReadsBack(prev) && size >= 2
    ensures var frames := [RawInput(PASTE, Some([0x80, 0]), []), RawInput(BACKSPACE, None, [0xC2])];
            Clips(frames) && RawRun(prev, Raw([0], 0), 0, size, frames) == None
  {
    hide RawFrame, ReadsBack;
    var r, s: seq<Byte> := Reading(prev, [0xC2]), [0x80, 0];
    assert r.below + s[..1] == [] + Encode(0x80) && s[1..] == Str([]);
    assert Behind(r, s, 1) == Glyph(0x80, 2) by { assert prev([] + Encode(0x80), Str([])) == Glyph(0x80, 2) by { UseReader(prev, [], 0x80, []); } }
    BackspaceFrame(r, Raw(s, 1), size);
    PasteThenBackspace(prev, size, [], [0xC2]);
  }

  /** The reader that goes back to the nearest byte that continues nothing does so with any memory. */
  lemma NearestOverruns(size: nat, below1: seq<Byte>, below2: seq<Byte>)
    requires size >= 2
    ensures var frames := [RawInput(PASTE, Some([0x80, 0]), below1), RawInput(BACKSPACE, None, below2)];
            Clips(frames) && RawRun(Nearest, Raw([0], 0), 0, size, frames) == None
  {
    hide RawFrame, Nearest;
    var s: seq<Byte> := [0x80, 0];
    StepStaysInText(below2, s, 1);
    BackspaceFrame(Reading(Nearest, below2), Raw(s, 1), size);
    PasteThenBackspace(Nearest, size, below1, below2);
  }

  lemma PasteThenBackspace(prev: Reader, size: nat, below1: seq<Byte>, below2: seq<Byte>)
    requires size >= 2 && RawFrame(Reading(prev, below2), Raw([0x80, 0], 1), size, BACKSPACE, None, false) == None
    ensures var frames := [RawInput(PASTE, Some([0x80, 0]), below1), RawInput(BACKSPACE, None, below2)];
            Clips(frames) && RawRun(prev, Raw([0], 0), 0, size, frames) == None
  {
    hide RawFrame;
    var frames := [RawInput(PASTE, Some([0x80, 0]), below1), RawInput(BACKSPACE, None, below2)];
    ContinuationIsPasted(Reading(prev, below1), size);
    assert Clips(frames);
    assert frames[1..] == [RawInput(BACKSPACE, None, below2)];
    assert RawRun(prev, Raw([0x80, 0], 1), 0, size, frames[1..]) == None;
  }

  /** A frame of nothing but Backspace takes one step back. */
  lemma BackspaceFrame(r: Reading, b: Raw, size: nat)
    requires InText(b, size)
    ensures RawFrame(r, b, size, BACKSPACE, None, false) == RawBackspace(r, b, BACKSPACE, false)
    ensures RawFrame(r, b, size, BACKSPACE, None, false) == None <==> b.cursor > 0 && StepBack(r, b.s, b.cursor) == None
  {
    hide IsCString, StepBack, Spliced, Cut;
    NothingChanges(b.s, b.cursor);
  }

  const LEFT := IDLE.(pressLeft := true)

  /** A frame of nothing but Left takes the same step. */
  lemma LeftFrame(r: Reading, b: Raw, size: nat)
    requires InText(b, size)
    ensures RawFrame(r, b, size, LEFT, None, false) == None <==> b.cursor > 0 && StepBack(r, b.s, b.cursor) == None
  {
    hide IsCString, StepBack, Spliced, Cut;
    NothingChanges(b.s, b.cursor);
  }

  /** So, with that reader and any memory, Backspace and Left leave the text exactly if all bytes before the cursor are continuation bytes. */
  lemma BackspaceOverrunsExactly(below: seq<Byte>, b: Raw, size: nat)
    requires InText(b, size)
    ensures RawFrame(Reading(Nearest, below), b, size, BACKSPACE, None, false) == None <==>
              b.cursor > 0 && forall k :: 0 <= k < b.cursor ==> IsContinuation(b.s[k])
    ensures RawFrame(Reading(Nearest, below), b, size, LEFT, None, false) == None <==>
              b.cursor > 0 && forall k :: 0 <= k < b.cursor ==> IsContinuation(b.s[k])
  {
    hide RawFrame, Nearest;
    BackspaceFrame(Reading(Nearest, below), b, size);
    LeftFrame(Reading(Nearest, below), b, size);
    if b.cursor > 0 { StepStaysInText(below, b.s, b.cursor); }
  }
}
