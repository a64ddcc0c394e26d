/**
  The single-line editor of the text box on its abstract text: a sequence of codepoints and
  a cursor between two of them.  One step per stage of a frame, in the order of the C code.
 */
module TextDoc {
  import opened Options
  import opened Utf8

  datatype Doc = Doc(cs: seq<Codepoint>, pos: nat)

  /** The text fits its buffer, holds no terminator, and the cursor is inside it. */
  predicate Fits(d: Doc, size: nat)
  {
    d.pos <= |d.cs| && 0 !in d.cs && |EncodeAll(d.cs)| < size
  }

  /** The keys one frame reads.  `key` is the typed codepoint, 0 when there is none. */
  datatype Keys = Keys(
    key: int, ctrl: bool,
    pressV: bool, pressHome: bool, pressEnd: bool, pressEnter: bool,
    pressDelete: bool, pressBackspace: bool, pressLeft: bool, pressRight: bool,
    downDelete: bool, downBackspace: bool, downLeft: bool, downRight: bool, downUp: bool, downDown: bool)

  const IDLE := Keys(0, false, false, false, false, false, false, false, false, false,
                     false, false, false, false, false, false)

  const COOLDOWN := 20

  /** The frame counter behind key repetition: reset unless an editing or arrow key is held. */
  function RepeatCounter(counter: nat, k: Keys): nat
  {
    if k.downLeft || k.downRight || k.downUp || k.downDown || k.downBackspace || k.downDelete then counter + 1 else 0
  }

  // ----- Character kinds: only the low byte of a codepoint is looked at -----

  predicate IsSpace(c: int) { 9 <= c % 256 <= 13 || c % 256 == 32 }

  predicate IsPunct(c: int)
  {
    33 <= c % 256 <= 47 || 58 <= c % 256 <= 64 || 91 <= c % 256 <= 96 || 123 <= c % 256 <= 126
  }

  /** A run of punctuation ends at anything else; a run of other characters at space or punctuation. */
  predicate Stops(punct: bool, c: int)
  {
    (punct && !IsPunct(c)) || (!punct && (IsSpace(c) || IsPunct(c)))
  }

  // ----- Word motion -----

  function SkipKind(cs: seq<Codepoint>, punct: bool, p: nat): (q: nat)
    requires p <= |cs|
    ensures p <= q <= |cs|
    ensures forall k :: p <= k < q ==> !Stops(punct, cs[k])
    ensures q < |cs| ==> Stops(punct, cs[q])
    decreases |cs| - p
  {
    if p < |cs| && !Stops(punct, cs[p]) then SkipKind(cs, punct, p + 1) else p
  }

  function SkipSpace(cs: seq<Codepoint>, p: nat): (q: nat)
    requires p <= |cs|
    ensures p <= q <= |cs|
    ensures forall k :: p <= k < q ==> IsSpace(cs[k])
    ensures q < |cs| ==> !IsSpace(cs[q])
    decreases |cs| - p
  {
    if p < |cs| && IsSpace(cs[p]) then SkipSpace(cs, p + 1) else p
  }

  function SkipKindBack(cs: seq<Codepoint>, punct: bool, p: nat): (q: nat)
    requires p <= |cs|
    ensures q <= p
    ensures forall k :: q <= k < p ==> !Stops(punct, cs[k])
    ensures q > 0 ==> Stops(punct, cs[q - 1])
  {
    if p > 0 && !Stops(punct, cs[p - 1]) then SkipKindBack(cs, punct, p - 1) else p
  }

  function SkipSpaceBack(cs: seq<Codepoint>, p: nat): (q: nat)
    requires p <= |cs|
    ensures q <= p
    ensures forall k :: q <= k < p ==> IsSpace(cs[k])
    ensures q > 0 ==> !IsSpace(cs[q - 1])
  {
    if p > 0 && IsSpace(cs[p - 1]) then SkipSpaceBack(cs, p - 1) else p
  }

  /** Where Ctrl+Right goes: over the run under the cursor, then over the space behind it. */
  function WordEnd(cs: seq<Codepoint>, p: nat): (q: nat)
    requires p < |cs|
    ensures p < q <= |cs|
  {
    SkipSpace(cs, SkipKind(cs, IsPunct(cs[p]), p))
  }

  /** Where Ctrl+Left goes: back over space, then over the run in front of it. */
  function WordStart(cs: seq<Codepoint>, p: nat): (q: nat)
    requires 0 < p <= |cs|
    ensures q < p
  {
    var q := SkipSpaceBack(cs, p);
    if q == 0 then 0 else SkipKindBack(cs, IsPunct(cs[q - 1]), q)
  }

  // ----- The stages of a frame -----

  function Remove(d: Doc, a: nat, b: nat): Doc
    requires a <= b <= |d.cs|
  {
    Doc(d.cs[..a] + d.cs[b..], if d.pos <= a then d.pos else a)
  }

  function Insert(d: Doc, ins: seq<Codepoint>): Doc
    requires d.pos <= |d.cs|
  {
    Doc(d.cs[..d.pos] + ins + d.cs[d.pos..], d.pos + |ins|)
  }

  /** A clipboard prefix of `j` codepoints may be pasted into `room` bytes of which the last holds the terminator. */
  predicate Pastable(clip: seq<Codepoint>, room: int, j: nat)
    requires j <= |clip|
  {
    Off(clip, j) < room && forall i :: 0 <= i < j ==> clip[i] >= 32
  }

  /** How many clipboard codepoints the counting loop accepts: the most that may be pasted. */
  function PasteCount(clip: seq<Codepoint>, room: int, k: nat): (j: nat)
    requires k <= |clip| && Pastable(clip, room, k)
    ensures k <= j <= |clip| && Pastable(clip, room, j)
    ensures j < |clip| ==> clip[j] < 32 || Off(clip, j + 1) >= room
    decreases |clip| - k
  {
    if k < |clip| && Off(clip, k + 1) < room && clip[k] >= 32 then PasteCount(clip, room, k + 1) else k
  }

  function TypeStep(d: Doc, size: nat, k: Keys, clip: Option<seq<Codepoint>>): (r: Doc)
    requires Fits(d, size)
    ensures r.pos <= |r.cs|
  {
    if k.pressV && k.ctrl then
      if clip == None then d
      else Insert(d, clip.value[..PasteCount(clip.value, size - |EncodeAll(d.cs)|, 0)])
    else if 32 <= k.key <= 0x10FFFF && |EncodeAll(d.cs)| + |Encode(k.key)| < size then Insert(d, [k.key])
    else d
  }

  function HomeEndStep(d: Doc, k: Keys): (r: Doc)
    requires d.pos <= |d.cs|
    ensures r.pos <= |r.cs|
  {
    var d1 := if |d.cs| > 0 && k.pressHome then d.(pos := 0) else d;
    if |d1.cs| > d1.pos && k.pressEnd then d1.(pos := |d1.cs|) else d1
  }

  function DeleteStep(d: Doc, k: Keys, repeat: bool): (r: Doc)
    requires d.pos <= |d.cs|
    ensures r.pos <= |r.cs|
  {
    if d.pos < |d.cs| && k.pressDelete && k.ctrl then Remove(d, d.pos, WordEnd(d.cs, d.pos))
    else if d.pos < |d.cs| && (k.pressDelete || (k.downDelete && repeat)) then Remove(d, d.pos, d.pos + 1)
    else d
  }

  function BackspaceStep(d: Doc, k: Keys, repeat: bool): (r: Doc)
    requires d.pos <= |d.cs|
    ensures r.pos <= |r.cs|
  {
    if d.pos > 0 && k.pressBackspace && k.ctrl then Remove(d, WordStart(d.cs, d.pos), d.pos)
    else if d.pos > 0 && (k.pressBackspace || (k.downBackspace && repeat)) then Remove(d, d.pos - 1, d.pos)
    else d
  }

  function MoveStep(d: Doc, k: Keys, repeat: bool): (r: Doc)
    requires d.pos <= |d.cs|
    ensures r.pos <= |r.cs|
  {
    if d.pos > 0 && k.pressLeft && k.ctrl then d.(pos := WordStart(d.cs, d.pos))
    else if d.pos > 0 && (k.pressLeft || (k.downLeft && repeat)) then d.(pos := d.pos - 1)
    else if d.pos < |d.cs| && k.pressRight && k.ctrl then d.(pos := WordEnd(d.cs, d.pos))
    else if d.pos < |d.cs| && (k.pressRight || (k.downRight && repeat)) then d.(pos := d.pos + 1)
    else d
  }

  /** What the keyboard does to the text in one frame of edit mode. */
  function KeyFrame(d: Doc, size: nat, k: Keys, clip: Option<seq<Codepoint>>, repeat: bool): (r: Doc)
    requires Fits(d, size)
    ensures r.pos <= |r.cs|
  {
    hide TypeStep, HomeEndStep, DeleteStep, BackspaceStep, MoveStep;
    var d1 := HomeEndStep(TypeStep(d, size, k, clip), k);
    MoveStep(BackspaceStep(DeleteStep(d1, k, repeat), k, repeat), k, repeat)
  }

  // ----- Runs of frames -----

  datatype Frame = Frame(keys: Keys, clip: Option<seq<Codepoint>>)

  /** What lives from frame to frame: the text with its cursor, and the key-repeat counter. */
  datatype Session = Session(doc: Doc, counter: nat)

  /** One frame in edit mode; Enter ends editing, which rewinds the shared cursor and the counter. */
  function FrameStep(s: Session, size: nat, f: Frame): Session
    requires Fits(s.doc, size)
  {
    var held := RepeatCounter(s.counter, f.keys);
    var d := KeyFrame(s.doc, size, f.keys, f.clip, held > COOLDOWN);
    if f.keys.pressEnter then Session(d.(pos := 0), 0) else Session(d, held)
  }

  /** A run stops being followed if a frame ever left text that does not fit; `FrameFits` shows none does. */
  function Run(s: Session, size: nat, frames: seq<Frame>): Session
    decreases frames
  {
    if frames == [] || !Fits(s.doc, size) then s else Run(FrameStep(s, size, frames[0]), size, frames[1..])
  }
}
