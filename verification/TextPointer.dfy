/**
  The pointer in a text box: which byte the visible text starts at, and which index a click chooses.
  Glyph and text widths come from the font; they are functions of a byte offset here.
 */
module TextPointer {
  import opened Options
  import opened Utf8
  import opened TextDoc
  import opened TextBytes

  /** The pointer in one frame, and what the font makes of the text. */
  datatype Mouse = Mouse(
    overText: bool, overBounds: bool, pressed: bool,
    x: real,                    // distance of the pointer from the left edge of the text area
    left: real,                 // where that edge is on the screen
    box: real,                  // width of the text area
    width: nat -> int,          // width of the text from this byte on, before the frame's edits
    widthAfter: nat -> int,     // and after them
    glyph: nat -> real,         // width of the glyph at this byte
    spacing: real)              // between glyphs

  const NO_MOUSE := Mouse(false, true, false, 0.0, 0.0, 1.0, _ => 0, _ => 0, _ => 0.0, 0.0)

  // ----- Where the visible text starts -----

  /** Does the text from byte `i` to the cursor leave room in the box? */
  predicate Shown(m: Mouse, cursor: nat, i: nat) { (m.width(i) - m.width(cursor)) as real < m.box }

  /** The first offset, glyph by glyph from `i`, from which the cursor is in the box; none if the scan leaves the string. */
  function FirstShown(s: seq<Byte>, m: Mouse, cursor: nat, i: nat): (r: Option<nat>)
    requires IsCString(s) && i < |s|
    ensures r.Some? ==> i <= r.value < |s| && Shown(m, cursor, r.value)
    decreases |s| - i
  {
    if Shown(m, cursor, i) then Some(i)
    else if i == |s| - 1 then None
    else FirstShown(s, m, cursor, i + Next(s, i).size)
  }

  /** From a boundary on the scan tries the boundaries in turn: it finds the first shown one, or leaves the string if there is none. */
  lemma {:induction false} FirstShownIsFirst(cs: seq<Codepoint>, m: Mouse, cursor: nat, q: nat)
    requires 0 !in cs && q <= |cs|
    ensures IsCString(Str(cs)) && Off(cs, q) < |Str(cs)|
    ensures var r := FirstShown(Str(cs), m, cursor, Off(cs, q));
            && (r.Some? ==> exists p: nat :: q <= p <= |cs| && Off(cs, p) == r.value && forall k :: q <= k < p ==> !Shown(m, cursor, Off(cs, k)))
            && (r == None <==> forall k :: q <= k <= |cs| ==> !Shown(m, cursor, Off(cs, k)))
    decreases |cs| - q
  {
    hide Encode, EncodeAll, Next, Shown, Off, IsCString;
    AtEnd(cs);
    OffMonotone(cs, q, |cs|);
    if q < |cs| {
      NextAt(cs, q);
      FirstShownIsFirst(cs, m, cursor, q + 1);
    }
    if Shown(m, cursor, Off(cs, q)) { assert q <= q <= |cs| && Off(cs, q) == Off(cs, q); }
  }

  /** In a box of positive width the scan ends, at a boundary not behind the cursor. */
  lemma ScrollsToTheCursor(cs: seq<Codepoint>, m: Mouse, p: nat)
    requires 0 !in cs && p <= |cs| && m.box > 0.0
    ensures IsCString(Str(cs)) && 0 < |Str(cs)|
    ensures var r := FirstShown(Str(cs), m, Off(cs, p), 0);
            r.Some? && r.value <= Off(cs, p) && IsBoundary(cs, r.value)
  {
    hide Encode, EncodeAll, Next, Off, IsCString;
    AtStart(cs);
    AtEnd(cs);
    FirstShownIsFirst(cs, m, Off(cs, p), 0);
    assert Shown(m, Off(cs, p), Off(cs, p));
    var r := FirstShown(Str(cs), m, Off(cs, p), 0);
    var q: nat :| q <= |cs| && Off(cs, q) == r.value && forall k :: 0 <= k < q ==> !Shown(m, Off(cs, p), Off(cs, k));
    assert q <= p;
    OffMonotone(cs, q, p);
  }

  /** With the cursor at the end of text that nowhere has a negative width, the scan passes the terminator exactly in a box without width. */
  lemma ScrollsPastTheEnd(cs: seq<Codepoint>, m: Mouse)
    requires 0 !in cs && forall k: nat :: k <= |cs| ==> m.width(Off(cs, k)) >= m.width(Off(cs, |cs|))
    ensures IsCString(Str(cs)) && 0 < |Str(cs)|
    ensures FirstShown(Str(cs), m, Off(cs, |cs|), 0) == None <==> m.box <= 0.0
  {
    hide Encode, EncodeAll, Next, Off, IsCString;
    AtStart(cs);
    AtEnd(cs);
    var n := Off(cs, |cs|);
    FirstShownIsFirst(cs, m, n, 0);
    if m.box > 0.0 { assert Shown(m, n, Off(cs, |cs|)); }
  }

  // ----- Where a click goes -----

  /** Where the scan for the pointer stopped: the glyph it found, how far right that starts, and how wide the last glyph was that it looked at. */
  datatype Hit = Hit(index: Option<nat>, at: real, last: real)

  /** The first glyph, scanning from byte `i`, whose middle is not left of the pointer. */
  function GlyphUnder(s: seq<Byte>, m: Mouse, i: nat, at: real, last: real): (r: Hit)
    requires IsCString(s)
    ensures r.index.Some? ==> i <= r.index.value < |s| - 1
    decreases |s| - i
  {
    if i >= |s| - 1 then Hit(None, at, last)
    else if m.x <= at + m.glyph(i) / 2.0 then Hit(Some(i), at, m.glyph(i))
    else GlyphUnder(s, m, i + Next(s, i).size, at + (m.glyph(i) + m.spacing), m.glyph(i))
  }

  /** The cursor after the pointer's turn. */
  function Placed(s: seq<Byte>, cursor: nat, m: Mouse, scroll: nat): (r: nat)
    requires IsCString(s) && cursor < |s|
    ensures r < |s|
    ensures !(m.overText && m.pressed) ==> r == cursor
  {
    var h, end := GlyphUnder(s, m, scroll, 0.0, 0.0), m.widthAfter(scroll) as real;
    if !(m.overText && m.pressed) then cursor
    else if m.x >= end - h.last / 2.0 then (if m.left + end >= 0.0 then |s| - 1 else cursor)
    else if h.index.Some? && m.left + h.at >= 0.0 then h.index.value
    else cursor
  }

  /** Byte `i` starts a codepoint or is the terminator. */
  ghost predicate IsBoundary(cs: seq<Codepoint>, i: nat)
  {
    exists p: nat :: p <= |cs| && Off(cs, p) == i
  }

  lemma BoundaryStep(cs: seq<Codepoint>, i: nat)
    requires 0 !in cs && IsBoundary(cs, i) && i < |Str(cs)| - 1
    ensures IsCString(Str(cs)) && IsBoundary(cs, i + Next(Str(cs), i).size)
  {
    hide Encode, Next;
    var p: nat :| p <= |cs| && Off(cs, p) == i;
    AtEnd(cs);
    NextAt(cs, p);
  }

  lemma {:induction false} GlyphOnBoundary(cs: seq<Codepoint>, m: Mouse, i: nat, at: real, last: real)
    requires 0 !in cs && (IsBoundary(cs, i) || i >= |Str(cs)| - 1)
    ensures IsCString(Str(cs))
    ensures var r := GlyphUnder(Str(cs), m, i, at, last).index; r.Some? ==> IsBoundary(cs, r.value)
    decreases |Str(cs)| - i
  {
    hide Encode, EncodeAll, Next, Off, IsCString, IsBoundary;
    AtEnd(cs);
    if i < |Str(cs)| - 1 && !(m.x <= at + m.glyph(i) / 2.0) {
      BoundaryStep(cs, i);
      GlyphOnBoundary(cs, m, i + Next(Str(cs), i).size, at + (m.glyph(i) + m.spacing), m.glyph(i));
    }
  }

  /** A click lands on a boundary if the scan started on one, or behind the text. */
  lemma ClickOnBoundary(cs: seq<Codepoint>, p: nat, m: Mouse, scroll: nat)
    requires 0 !in cs && p <= |cs| && (IsBoundary(cs, scroll) || scroll >= |Str(cs)| - 1)
    ensures IsCString(Str(cs)) && Off(cs, p) < |Str(cs)|
    ensures IsBoundary(cs, Placed(Str(cs), Off(cs, p), m, scroll))
  {
    hide Encode, EncodeAll, Next, Off, IsCString;
    AtEnd(cs);
    OffMonotone(cs, p, |cs|);
    GlyphOnBoundary(cs, m, scroll, 0.0, 0.0);
    assert IsBoundary(cs, Off(cs, p)) && IsBoundary(cs, Off(cs, |cs|));
  }

  /** The scan starts where the text was shown from before the frame's edits; if they left the text alone, a click lands on a boundary. */
  lemma ClickWithoutEdit(cs: seq<Codepoint>, p: nat, q: nat, m: Mouse)
    requires 0 !in cs && p <= |cs| && q <= |cs| && m.box > 0.0
    ensures IsCString(Str(cs)) && Off(cs, q) < |Str(cs)| && FirstShown(Str(cs), m, Off(cs, p), 0).Some?
    ensures IsBoundary(cs, Placed(Str(cs), Off(cs, q), m, FirstShown(Str(cs), m, Off(cs, p), 0).value))
  {
    hide Encode, EncodeAll, Next, Off, IsCString, IsBoundary;
    ScrollsToTheCursor(cs, m, p);
    ClickOnBoundary(cs, q, m, FirstShown(Str(cs), m, Off(cs, p), 0).value);
  }

  // ----- Which boundary a click chooses -----

  /** How far right of boundary `a` boundary `b` is, for glyphs side by side. */
  function Edge(cs: seq<Codepoint>, m: Mouse, a: nat, b: nat): real
    requires a <= b <= |cs|
  {
    if a == b then 0.0 else Edge(cs, m, a, b - 1) + m.glyph(Off(cs, b - 1))
  }

  /** The glyphs of the text have widths, no space between them, and the text from boundary `a` on is as wide as they are together. */
  ghost predicate SideBySide(cs: seq<Codepoint>, m: Mouse, a: nat)
    requires a <= |cs|
  {
    && m.spacing == 0.0
    && (forall k :: a <= k < |cs| ==> m.glyph(Off(cs, k)) >= 0.0)
    && m.widthAfter(Off(cs, a)) as real == Edge(cs, m, a, |cs|)
  }

  lemma {:induction false} EdgesAscend(cs: seq<Codepoint>, m: Mouse, a: nat, p: nat, q: nat)
    requires a <= p <= q <= |cs| && SideBySide(cs, m, a)
    ensures Edge(cs, m, a, p) <= Edge(cs, m, a, q)
    decreases q
  {
    if p < q { EdgesAscend(cs, m, a, p, q - 1); }
  }

  /** The middle of the glyph between boundaries `q` and `q + 1`. */
  function Middle(cs: seq<Codepoint>, m: Mouse, a: nat, q: nat): real
    requires a <= q < |cs|
  {
    Edge(cs, m, a, q) + m.glyph(Off(cs, q)) / 2.0
  }

  /** The scan stops at the first middle that is not left of the pointer, or at the end. */
  lemma {:induction false} ScanStopsAt(cs: seq<Codepoint>, m: Mouse, a: nat, q: nat) returns (p: nat)
    requires 0 !in cs && a <= q <= |cs| && m.spacing == 0.0
    ensures IsCString(Str(cs)) && q <= p <= |cs|
    ensures forall k :: q <= k < p ==> m.x > Middle(cs, m, a, k)
    ensures p < |cs| ==> m.x <= Middle(cs, m, a, p)
    ensures var last := if q > a then m.glyph(Off(cs, q - 1)) else 0.0;
            GlyphUnder(Str(cs), m, Off(cs, q), Edge(cs, m, a, q), last)
            == if p < |cs| then Hit(Some(Off(cs, p)), Edge(cs, m, a, p), m.glyph(Off(cs, p)))
               else Hit(None, Edge(cs, m, a, p), if p > a then m.glyph(Off(cs, p - 1)) else 0.0)
    decreases |cs| - q
  {
    hide Encode, EncodeAll, Next, Off, IsCString;
    AtEnd(cs);
    p := q;
    if q < |cs| {
      NextAt(cs, q);
      if m.x > Middle(cs, m, a, q) { p := ScanStopsAt(cs, m, a, q + 1); }
    }
  }

  function Distance(x: real, y: real): real { if x < y then y - x else x - y }

  /** Of all boundaries the one between the middles left and right of the pointer is nearest. */
  lemma BetweenMiddlesIsNearest(cs: seq<Codepoint>, m: Mouse, a: nat, p: nat, q: nat)
    requires a <= p <= |cs| && a <= q <= |cs| && SideBySide(cs, m, a)
    requires p > a ==> m.x >= Middle(cs, m, a, p - 1)
    requires p < |cs| ==> m.x <= Middle(cs, m, a, p)
    ensures Distance(m.x, Edge(cs, m, a, p)) <= Distance(m.x, Edge(cs, m, a, q))
  {
    hide Off;
    if q < p {
      EdgesAscend(cs, m, a, q, p - 1);
      EdgesAscend(cs, m, a, p - 1, p);
      assert Edge(cs, m, a, p) == Edge(cs, m, a, p - 1) + m.glyph(Off(cs, p - 1));
    } else if q > p {
      EdgesAscend(cs, m, a, p + 1, q);
      EdgesAscend(cs, m, a, p, p + 1);
      assert Edge(cs, m, a, p + 1) == Edge(cs, m, a, p) + m.glyph(Off(cs, p));
    }
  }

  /**
    A press over the text takes the cursor to the boundary nearest to the pointer, among those from the first
    one shown on; to the end if the pointer is past it.
   */
  lemma ClickIsNearest(cs: seq<Codepoint>, cursor: nat, m: Mouse, a: nat) returns (p: nat)
    requires 0 !in cs && a <= |cs| && cursor < |Str(cs)| && SideBySide(cs, m, a)
    requires m.overText && m.pressed && m.left >= 0.0 && m.x >= 0.0
    ensures IsCString(Str(cs)) && a <= p <= |cs| && Placed(Str(cs), cursor, m, Off(cs, a)) == Off(cs, p)
    ensures forall q :: a <= q <= |cs| ==> Distance(m.x, Edge(cs, m, a, p)) <= Distance(m.x, Edge(cs, m, a, q))
    ensures m.x >= Edge(cs, m, a, |cs|) ==> p == |cs|
  {
    hide Encode, EncodeAll, Next, Off, IsCString, Middle;
    AtEnd(cs);
    var stop := ScanStopsAt(cs, m, a, a);
    EdgesAscend(cs, m, a, a, stop);
    EdgesAscend(cs, m, a, a, |cs|);
    EndOrMiddle(cs, m, a, stop);
    p := if m.x >= Edge(cs, m, a, |cs|) - GlyphUnder(Str(cs), m, Off(cs, a), 0.0, 0.0).last / 2.0 then |cs| else stop;
    forall q | a <= q <= |cs| ensures Distance(m.x, Edge(cs, m, a, p)) <= Distance(m.x, Edge(cs, m, a, q)) {
      BetweenMiddlesIsNearest(cs, m, a, stop, q);
    }
  }

  /** If the scan stopped at a glyph and the pointer still counts as past the end, it is as near to the end as to the glyph. */
  lemma EndOrMiddle(cs: seq<Codepoint>, m: Mouse, a: nat, p: nat)
    requires a <= p <= |cs| && SideBySide(cs, m, a)
    requires forall k :: a <= k < p ==> m.x > Middle(cs, m, a, k)
    requires p < |cs| ==> m.x <= Middle(cs, m, a, p)
    ensures p < |cs| && m.x >= Edge(cs, m, a, |cs|) - m.glyph(Off(cs, p)) / 2.0 ==>
              Distance(m.x, Edge(cs, m, a, |cs|)) <= Distance(m.x, Edge(cs, m, a, p))
    ensures p == |cs| && p > a ==> m.x >= Edge(cs, m, a, |cs|) - m.glyph(Off(cs, p - 1)) / 2.0
    ensures p < |cs| && m.x >= Edge(cs, m, a, |cs|) ==> m.x >= Edge(cs, m, a, |cs|) - m.glyph(Off(cs, p)) / 2.0
  {
    hide Off;
    if p < |cs| {
      EdgesAscend(cs, m, a, p + 1, |cs|);
      assert Edge(cs, m, a, p + 1) == Edge(cs, m, a, p) + m.glyph(Off(cs, p));
    }
    if p == |cs| && p > a {
      assert m.x > Middle(cs, m, a, p - 1);
    }
  }
}
