/**
  One frame of the text box on arbitrary bytes: what each stage does to a NUL-terminated string and a
  byte cursor, and its agreement with the abstract text when the bytes are well-formed.
 */
module RawText {
  import opened Options
  import opened Utf8
  import opened TextDoc
  import opened TextBytes
  import opened BackwardReader

  /** A string with its terminator, and a byte index in it. */
  datatype Raw = Raw(s: seq<Byte>, cursor: nat)

  predicate InText(b: Raw, size: nat) { IsCString(b.s) && b.cursor < |b.s| <= size }

  // ----- Splices -----

  function Spliced(s: seq<Byte>, c: nat, ins: seq<Byte>): seq<Byte>
    requires c <= |s|
  {
    s[..c] + ins + s[c..]
  }

  function Cut(s: seq<Byte>, a: nat, b: nat): seq<Byte>
    requires a <= b <= |s|
  {
    s[..a] + s[b..]
  }

  lemma NothingChanges(s: seq<Byte>, c: nat)
    requires c <= |s|
    ensures Spliced(s, c, []) == s && Cut(s, c, c) == s
  {
  }

  /** A string that agrees with `was` around position `c` and with `ins` at it is the spliced string. */
  lemma SplicedIs(now: seq<Byte>, was: seq<Byte>, ins: seq<Byte>, c: nat)
    requires c < |was| && |now| == |was| + |ins| && IsCString(was) && 0 !in ins
    requires forall j :: 0 <= j < c ==> now[j] == was[j]
    requires forall j :: c <= j < c + |ins| ==> now[j] == ins[j - c]
    requires forall j :: c + |ins| <= j < |now| ==> now[j] == was[j - |ins|]
    ensures now == Spliced(was, c, ins) && IsCString(now)
  {
    var r := Spliced(was, c, ins);
    assert forall j :: 0 <= j < |now| ==> now[j] == r[j] && (j < |now| - 1 ==> now[j] != 0);
  }

  /** A string that agrees with `was` before and, `acc` bytes earlier, after a gap is the cut string. */
  lemma CutIs(now: seq<Byte>, was: seq<Byte>, offset: nat, acc: nat)
    requires acc <= offset < |was| && |now| == |was| - acc && IsCString(was)
    requires forall j :: 0 <= j < offset - acc ==> now[j] == was[j]
    requires forall j :: offset - acc <= j < |now| ==> now[j] == was[j + acc]
    ensures now == Cut(was, offset - acc, offset) && IsCString(now)
  {
    var r := Cut(was, offset - acc, offset);
    assert forall j :: 0 <= j < |now| ==> now[j] == r[j] && (j < |now| - 1 ==> now[j] != 0);
  }

  lemma TextIsTerminated(s: seq<Byte>)
    requires IsCString(s)
    ensures Terminated(s)
  {
  }

  lemma SplicedIsText(s: seq<Byte>, c: nat, ins: seq<Byte>)
    requires IsCString(s) && c < |s| && 0 !in ins
    ensures IsCString(Spliced(s, c, ins))
  {
    var r := Spliced(s, c, ins);
    assert forall j :: 0 <= j < |r| - 1 ==> r[j] == if j < c then s[j] else if j < c + |ins| then ins[j - c] else s[j - |ins|];
  }

  lemma CutIsText(s: seq<Byte>, a: nat, b: nat)
    requires IsCString(s) && a <= b < |s|
    ensures IsCString(Cut(s, a, b))
  {
    var r := Cut(s, a, b);
    assert forall j :: 0 <= j < |r| - 1 ==> r[j] == if j < a then s[j] else s[j + (b - a)];
  }

  // ----- The stages -----

  /** The bytes typing or pasting inserts, when `room` bytes are left from the terminator on. */
  function Typed(room: int, k: Keys, clip: Option<seq<Byte>>): (ins: seq<Byte>)
    requires clip.Some? ==> IsCString(clip.value)
    requires room > 0
    ensures |ins| < room && 0 !in ins
  {
    hide Encode, Next;
    if k.pressV && k.ctrl then
      if clip == None then [] else clip.value[..ByteTake(clip.value, room, 0)]
    else if k.key >= 32 && |Encode(k.key)| < room then EncodingHasNoZero(k.key); Encode(k.key)
    else []
  }

  function RawType(b: Raw, size: nat, k: Keys, clip: Option<seq<Byte>>): (r: Raw)
    requires InText(b, size) && (clip.Some? ==> IsCString(clip.value))
    ensures InText(r, size)
  {
    hide IsCString, Typed;
    var ins := Typed(size - |b.s| + 1, k, clip);
    SplicedIsText(b.s, b.cursor, ins);
    Raw(Spliced(b.s, b.cursor, ins), b.cursor + |ins|)
  }

  function RawHomeEnd(b: Raw, k: Keys): (r: Raw)
    requires IsCString(b.s) && b.cursor < |b.s|
    ensures r.s == b.s && r.cursor < |r.s|
  {
    var c := if |b.s| - 1 > 0 && k.pressHome then 0 else b.cursor;
    Raw(b.s, if |b.s| - 1 > c && k.pressEnd then |b.s| - 1 else c)
  }

  /** Where the bytes the delete keys remove end. */
  function DeleteEnd(s: seq<Byte>, c: nat, k: Keys, repeat: bool): (j: nat)
    requires IsCString(s) && c < |s|
    ensures c <= j < |s|
  {
    if c < |s| - 1 && k.pressDelete && k.ctrl then ByteWordEnd(s, c)
    else if c < |s| - 1 && (k.pressDelete || (k.downDelete && repeat)) then c + Next(s, c).size
    else c
  }

  function RawDelete(b: Raw, k: Keys, repeat: bool): (r: Raw)
    requires IsCString(b.s) && b.cursor < |b.s|
    ensures IsCString(r.s) && r.cursor < |r.s| <= |b.s|
  {
    hide IsCString, DeleteEnd;
    var j := DeleteEnd(b.s, b.cursor, k, repeat);
    CutIsText(b.s, b.cursor, j);
    Raw(Cut(b.s, b.cursor, j), b.cursor)
  }

  /** Where the bytes the backspace keys remove start; nowhere if the scan leaves the text. */
  function BackspaceStart(r: Reading, s: seq<Byte>, c: nat, k: Keys, repeat: bool): (j: Option<nat>)
    requires c <= |s|
    ensures j.Some? ==> j.value <= c
  {
    if c > 0 && k.pressBackspace && k.ctrl then ByteWordStart(r, s, c)
    else if c > 0 && (k.pressBackspace || (k.downBackspace && repeat)) then StepBack(r, s, c)
    else Some(c)
  }

  function RawBackspace(r: Reading, b: Raw, k: Keys, repeat: bool): (res: Option<Raw>)
    requires IsCString(b.s) && b.cursor < |b.s|
    ensures res.Some? ==> IsCString(res.value.s) && res.value.cursor < |res.value.s| <= |b.s|
  {
    hide IsCString, BackspaceStart;
    match BackspaceStart(r, b.s, b.cursor, k, repeat)
    case None => None
    case Some(j) =>
      CutIsText(b.s, j, b.cursor);
      Some(Raw(Cut(b.s, j, b.cursor), j))
  }

  function RawMove(r: Reading, b: Raw, k: Keys, repeat: bool): (res: Option<Raw>)
    requires IsCString(b.s) && b.cursor < |b.s|
    ensures res.Some? ==> res.value.s == b.s && res.value.cursor < |b.s|
  {
    var c, n := b.cursor, |b.s| - 1;
    var j :=
      if c > 0 && k.pressLeft && k.ctrl then ByteWordStart(r, b.s, c)
      else if c > 0 && (k.pressLeft || (k.downLeft && repeat)) then StepBack(r, b.s, c)
      else if n > c && k.pressRight && k.ctrl then Some(ByteWordEnd(b.s, c))
      else if n > c && (k.pressRight || (k.downRight && repeat)) then Some(c + Next(b.s, c).size)
      else Some(c);
    if j == None then None else Some(Raw(b.s, j.value))
  }

  /** The stages that only look ahead: typing and pasting, Home and End, Delete. */
  function RawForward(b: Raw, size: nat, k: Keys, clip: Option<seq<Byte>>, repeat: bool): (res: Raw)
    requires InText(b, size) && (clip.Some? ==> IsCString(clip.value))
    ensures InText(res, size)
  {
    hide RawType, RawHomeEnd, RawDelete, IsCString;
    RawDelete(RawHomeEnd(RawType(b, size, k, clip), k), k, repeat)
  }

  /** The stages that may look back: Backspace and the arrows. */
  function RawBackward(r: Reading, b: Raw, size: nat, k: Keys, repeat: bool): (res: Option<Raw>)
    requires InText(b, size)
    ensures res.Some? ==> InText(res.value, size)
  {
    hide RawBackspace, RawMove, IsCString;
    match RawBackspace(r, b, k, repeat)
    case None => None
    case Some(b1) => RawMove(r, b1, k, repeat)
  }

  /** What the keyboard does in one frame of edit mode, on any text and any clipboard; nothing if a backward scan leaves the text. */
  function RawFrame(r: Reading, b: Raw, size: nat, k: Keys, clip: Option<seq<Byte>>, repeat: bool): (res: Option<Raw>)
    requires InText(b, size) && (clip.Some? ==> IsCString(clip.value))
    ensures res.Some? ==> InText(res.value, size)
  {
    hide RawForward, RawBackward, IsCString;
    RawBackward(r, RawForward(b, size, k, clip, repeat), size, k, repeat)
  }

  /** A frame without keys changes nothing. */
  lemma IdleFrame(r: Reading, b: Raw, size: nat, repeat: bool)
    requires InText(b, size)
    ensures RawFrame(r, b, size, IDLE, None, repeat) == Some(b)
  {
    hide IsCString, Spliced, Cut;
    NothingChanges(b.s, b.cursor);
  }

  /** A frame's keys and clipboard, and the memory in front of the buffer. */
  datatype RawInput = RawInput(keys: Keys, clip: Option<seq<Byte>>, below: seq<Byte>)

  predicate Clips(frames: seq<RawInput>) { forall f :: f in frames && f.clip.Some? ==> IsCString(f.clip.value) }

  /** Frames in a row, with the counter of key repetition. */
  function RawRun(prev: Reader, b: Raw, counter: nat, size: nat, frames: seq<RawInput>): (res: Option<(Raw, nat)>)
    requires InText(b, size) && Clips(frames)
    ensures res.Some? ==> InText(res.value.0, size)
    decreases |frames|
  {
    if frames == [] then Some((b, counter))
    else
      var f := frames[0];
      var held := RepeatCounter(counter, f.keys);
      match RawFrame(Reading(prev, f.below), b, size, f.keys, f.clip, held > COOLDOWN)
      case None => None
      case Some(b1) =>
        if f.keys.pressEnter then RawRun(prev, Raw(b1.s, 0), 0, size, frames[1..]) else RawRun(prev, b1, held, size, frames[1..])
  }

  lemma NothingAboveUnicode(c: int)
    requires c > 0x10FFFF
    ensures Encode(c) == []
  {
  }

  lemma EncodingHasNoZero(c: int)
    requires c >= 32
    ensures 0 !in Encode(c)
  {
  }

  // ----- Agreement with the abstract text -----

  /** The string and cursor of abstract text. */
  function Image(d: Doc): Raw
    requires d.pos <= |d.cs|
  {
    Raw(Str(d.cs), Off(d.cs, d.pos))
  }

  lemma ImageInText(d: Doc, size: nat)
    requires Fits(d, size)
    ensures InText(Image(d), size)
  {
    hide Encode, EncodeAll, Off;
    AtEnd(d.cs);
    OffMonotone(d.cs, d.pos, |d.cs|);
  }

  lemma OffZero(cs: seq<Codepoint>, p: nat)
    requires 0 !in cs && p <= |cs|
    ensures Off(cs, p) == 0 <==> p == 0
  {
    hide Encode;
    assert cs[..0] == [];
    OffMonotone(cs, 0, p);
  }

  /** Cutting the bytes between two boundaries leaves the text without the codepoints between them. */
  lemma CutAgrees(cs: seq<Codepoint>, a: nat, b: nat)
    requires 0 !in cs && a <= b <= |cs|
    ensures Off(cs, a) <= Off(cs, b) < |Str(cs)|
    ensures Cut(Str(cs), Off(cs, a), Off(cs, b)) == Str(cs[..a] + cs[b..]) && 0 !in cs[..a] + cs[b..]
    ensures Off(cs[..a] + cs[b..], a) == Off(cs, a)
    ensures |Str(cs[..a] + cs[b..])| == |Str(cs)| - (Off(cs, b) - Off(cs, a))
  {
    hide Encode, EncodeAll, Off;
    OffMonotone(cs, a, b);
    SpliceAgrees(cs, a, b, []);
    assert cs[..a] + [] + cs[b..] == cs[..a] + cs[b..];
    assert EncodeAll([]) == [] by { EncodeOne(0); }
    var e := EncodeAll(cs);
    assert Str(cs)[..Off(cs, a)] == e[..Off(cs, a)] && Str(cs)[Off(cs, b)..] == e[Off(cs, b)..] + [0];
  }

  /** Inserting an encoding at a boundary inserts its codepoints. */
  lemma InsertAgrees(cs: seq<Codepoint>, p: nat, ins: seq<Codepoint>)
    requires 0 !in cs && p <= |cs|
    ensures Off(cs, p) < |Str(cs)|
    ensures Spliced(Str(cs), Off(cs, p), EncodeAll(ins)) == Str(cs[..p] + ins + cs[p..])
    ensures Off(cs[..p] + ins + cs[p..], p + |ins|) == Off(cs, p) + |EncodeAll(ins)|
  {
    hide Encode, EncodeAll, Off;
    OffMonotone(cs, p, p);
    SpliceAgrees(cs, p, p, ins);
    var o, e := Off(cs, p), EncodeAll(cs);
    assert Str(cs)[..o] == e[..o] && Str(cs)[o..] == e[o..] + [0];
  }

  function Bytes(clip: Option<seq<Codepoint>>): Option<seq<Byte>>
  {
    if clip.Some? then Some(Str(clip.value)) else None
  }

  /** The bytes typing or pasting inserts are the encoding of the codepoints the abstract step inserts. */
  lemma TypedAgrees(d: Doc, size: nat, k: Keys, clip: Option<seq<Codepoint>>) returns (ins: seq<Codepoint>)
    requires Fits(d, size) && (clip.Some? ==> 0 !in clip.value)
    ensures clip.Some? ==> IsCString(Str(clip.value))
    ensures Typed(size - |EncodeAll(d.cs)|, k, Bytes(clip)) == EncodeAll(ins)
    ensures TypeStep(d, size, k, clip) == Insert(d, ins) && 0 !in ins
  {
    hide Encode, Next, EncodeAll, Off, ByteTake, PasteCount;
    ins := [];
    assert EncodeAll([]) == [] by { EncodeOne(0); }
    var room := size - |EncodeAll(d.cs)|;
    assert Insert(d, []) == d by { assert d.cs[..d.pos] + [] + d.cs[d.pos..] == d.cs; }
    if clip.Some? { AtEnd(clip.value); }
    if k.pressV && k.ctrl {
      if clip.Some? {
        OffZero(clip.value, 0);
        var j := PasteCount(clip.value, room, 0);
        TakeAgrees(clip.value, room, 0);
        SplitAt(clip.value, j);
        assert Str(clip.value)[..Off(clip.value, j)] == EncodeAll(clip.value)[..Off(clip.value, j)];
        ins := clip.value[..j];
      }
    } else if k.key > 0x10FFFF {
      NothingAboveUnicode(k.key);
    } else if k.key >= 32 && |Encode(k.key)| < room {
      ins := [k.key];
      EncodeOne(k.key);
    }
  }

  lemma TypeAgrees(d: Doc, size: nat, k: Keys, clip: Option<seq<Codepoint>>)
    requires Fits(d, size) && (clip.Some? ==> 0 !in clip.value)
    ensures InText(Image(d), size) && (clip.Some? ==> IsCString(Str(clip.value))) && Fits(TypeStep(d, size, k, clip), size)
    ensures RawType(Image(d), size, k, Bytes(clip)) == Image(TypeStep(d, size, k, clip))
  {
    hide Encode, EncodeAll, Off, Typed, TypeStep, IsCString;
    ImageInText(d, size);
    var ins := TypedAgrees(d, size, k, clip);
    InsertAgrees(d.cs, d.pos, ins);
  }

  lemma HomeEndAgrees(d: Doc, size: nat, k: Keys)
    requires Fits(d, size)
    ensures InText(Image(d), size) && Fits(HomeEndStep(d, k), size)
    ensures RawHomeEnd(Image(d), k) == Image(HomeEndStep(d, k))
  {
    hide Encode, EncodeAll, Off, IsCString;
    ImageInText(d, size);
    AtStart(d.cs);
    AtEnd(d.cs);
    OffMonotone(d.cs, 0, |d.cs|);
    OffMonotone(d.cs, d.pos, |d.cs|);
  }

  lemma DeleteAgrees(d: Doc, size: nat, k: Keys, repeat: bool)
    requires Fits(d, size)
    ensures InText(Image(d), size) && Fits(DeleteStep(d, k, repeat), size)
    ensures RawDelete(Image(d), k, repeat) == Image(DeleteStep(d, k, repeat))
  {
    hide Encode, EncodeAll, Off, Next, IsCString, ByteWordEnd, WordEnd;
    ImageInText(d, size);
    AtEnd(d.cs);
    OffMonotone(d.cs, d.pos, |d.cs|);
    assert Cut(Str(d.cs), Off(d.cs, d.pos), Off(d.cs, d.pos)) == Str(d.cs);
    if d.pos < |d.cs| {
      WordEndAgrees(d.cs, d.pos);
      CutAgrees(d.cs, d.pos, WordEnd(d.cs, d.pos));
      NextAt(d.cs, d.pos);
      CutAgrees(d.cs, d.pos, d.pos + 1);
    }
  }

  lemma BackspaceAgrees(r: Reading, d: Doc, size: nat, k: Keys, repeat: bool)
    requires ReadsBack(r.prev) && Fits(d, size)
    ensures InText(Image(d), size) && Fits(BackspaceStep(d, k, repeat), size)
    ensures RawBackspace(r, Image(d), k, repeat) == Some(Image(BackspaceStep(d, k, repeat)))
  {
    hide Encode, EncodeAll, Off, Next, IsCString, ReadsBack, ByteWordStart, WordStart, Behind;
    ImageInText(d, size);
    OffZero(d.cs, d.pos);
    assert Cut(Str(d.cs), Off(d.cs, d.pos), Off(d.cs, d.pos)) == Str(d.cs);
    if d.pos > 0 {
      WordStartAgrees(r, d.cs, d.pos);
      CutAgrees(d.cs, WordStart(d.cs, d.pos), d.pos);
      ReadAt(r, d.cs, d.pos);
      CutAgrees(d.cs, d.pos - 1, d.pos);
    }
  }

  lemma MoveAgrees(r: Reading, d: Doc, size: nat, k: Keys, repeat: bool)
    requires ReadsBack(r.prev) && Fits(d, size)
    ensures InText(Image(d), size) && Fits(MoveStep(d, k, repeat), size)
    ensures RawMove(r, Image(d), k, repeat) == Some(Image(MoveStep(d, k, repeat)))
  {
    hide Encode, EncodeAll, Off, Next, IsCString, ReadsBack, ByteWordStart, WordStart, ByteWordEnd, WordEnd, Behind;
    ImageInText(d, size);
    OffZero(d.cs, d.pos);
    AtEnd(d.cs);
    OffMonotone(d.cs, d.pos, |d.cs|);
    if d.pos > 0 {
      WordStartAgrees(r, d.cs, d.pos);
      ReadAt(r, d.cs, d.pos);
    }
    if d.pos < |d.cs| {
      WordEndAgrees(d.cs, d.pos);
      NextAt(d.cs, d.pos);
    }
  }

  /** One frame on the bytes of well-formed text, with a well-formed clipboard and any memory below, is the abstract frame. */
  lemma FrameAgrees(r: Reading, d: Doc, size: nat, k: Keys, clip: Option<seq<Codepoint>>, repeat: bool)
    requires ReadsBack(r.prev) && Fits(d, size) && (clip.Some? ==> 0 !in clip.value)
    ensures InText(Image(d), size) && (clip.Some? ==> IsCString(Str(clip.value))) && Fits(KeyFrame(d, size, k, clip, repeat), size)
    ensures RawFrame(r, Image(d), size, k, Bytes(clip), repeat) == Some(Image(KeyFrame(d, size, k, clip, repeat)))
  {
    hide Fits, Image, InText, IsCString, ReadsBack, RawType, RawHomeEnd, RawDelete, RawBackspace, RawMove,
         TypeStep, HomeEndStep, DeleteStep, BackspaceStep, MoveStep, EncodeAll;
    TypeAgrees(d, size, k, clip);
    var d1 := TypeStep(d, size, k, clip);
    HomeEndAgrees(d1, size, k);
    var d2 := HomeEndStep(d1, k);
    DeleteAgrees(d2, size, k, repeat);
    var d3 := DeleteStep(d2, k, repeat);
    BackspaceAgrees(r, d3, size, k, repeat);
    MoveAgrees(r, BackspaceStep(d3, k, repeat), size, k, repeat);
  }

  /** The raw frame of a frame of the abstract editor. */
  predicate Shows(raw: RawInput, f: Frame) { raw.keys == f.keys && raw.clip == Bytes(f.clip) }

  /** A raw run with the same keys, the clipboards in bytes, and any memory below. */
  predicate ShowsAll(raw: seq<RawInput>, frames: seq<Frame>)
  {
    |raw| == |frames| && forall i :: 0 <= i < |raw| ==> Shows(raw[i], frames[i])
  }

  lemma ClipsAreText(raw: seq<RawInput>, frames: seq<Frame>)
    requires ShowsAll(raw, frames) && forall f :: f in frames && f.clip.Some? ==> 0 !in f.clip.value
    ensures Clips(raw)
  {
    hide IsCString, EncodeAll, Str;
    forall f | f in raw && f.clip.Some? ensures IsCString(f.clip.value) {
      var i :| 0 <= i < |raw| && raw[i] == f;
      assert frames[i] in frames && Shows(raw[i], frames[i]);
      AtEnd(frames[i].clip.value);
    }
  }

  /** So is any run of frames. */
  lemma {:induction false} RunAgrees(prev: Reader, s: Session, size: nat, frames: seq<Frame>, raw: seq<RawInput>)
    requires ReadsBack(prev) && Fits(s.doc, size) && ShowsAll(raw, frames)
    requires forall f :: f in frames && f.clip.Some? ==> 0 !in f.clip.value
    ensures InText(Image(s.doc), size) && Clips(raw)
    ensures var r := Run(s, size, frames);
            Fits(r.doc, size) && RawRun(prev, Image(s.doc), s.counter, size, raw) == Some((Image(r.doc), r.counter))
    decreases |frames|
  {
    hide Encode, EncodeAll, Off, IsCString, KeyFrame, RawFrame, ReadsBack;
    ClipsAreText(raw, frames);
    ImageInText(s.doc, size);
    if frames != [] {
      var f := frames[0];
      assert Shows(raw[0], f);
      FrameAgrees(Reading(prev, raw[0].below), s.doc, size, f.keys, f.clip, RepeatCounter(s.counter, f.keys) > COOLDOWN);
      var next := FrameStep(s, size, f);
      AtStart(next.doc.cs);
      assert ShowsAll(raw[1..], frames[1..]);
      RunAgrees(prev, next, size, frames[1..], raw[1..]);
    }
  }

  // ----- Consequences for the abstract text -----

  lemma FrameFits(s: Session, size: nat, f: Frame)
    requires Fits(s.doc, size) && (f.clip.Some? ==> 0 !in f.clip.value)
    ensures Fits(FrameStep(s, size, f).doc, size)
  {
    hide EncodeAll, Encode, KeyFrame;
    KeyFrameFits(s.doc, size, f.keys, f.clip, RepeatCounter(s.counter, f.keys) > COOLDOWN);
  }

  /** Every frame leaves text that fits the buffer, without a terminator inside, and the cursor in it. */
  lemma KeyFrameFits(d: Doc, size: nat, k: Keys, clip: Option<seq<Codepoint>>, repeat: bool)
    requires Fits(d, size) && (clip.Some? ==> 0 !in clip.value)
    ensures Fits(KeyFrame(d, size, k, clip, repeat), size)
  {
    hide Fits, KeyFrame, ReadsBack;
    NearestReadsBack();
    FrameAgrees(Reading(Nearest, []), d, size, k, clip, repeat);
  }
}
