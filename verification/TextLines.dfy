/** The two scanners that find a text's lines: `GetTextLines`, which points at them, and `GuiGetTextWidth`, which measures them. */
module TextLines {
  import TS = TextSplit

  const MAX_LINES := 128
  const MAX_LINE_BUFFER := 256

  /** Line starts because of a line break at `i` or later; a break at the very end starts none. */
  function StartsFrom(text: string, i: nat): (r: seq<nat>)
    ensures forall k :: 0 <= k < |r| ==> i < r[k] < |text|
    decreases |text| - i
  {
    if i + 1 >= |text| then []
    else if text[i] == '\n' then [i + 1] + StartsFrom(text, i + 1)
    else StartsFrom(text, i + 1)
  }

  /** All line starts; the empty text has one line. */
  function LineStarts(text: string): seq<nat> { [0] + StartsFrom(text, 0) }

  function Line(text: string, s: nat): string { TS.Item(text, '\n', s) }

  function Lines(text: string): seq<string> { TS.ItemsAt(text, '\n', LineStarts(text)) }

  /** The text less one trailing line break. */
  function Trimmed(text: string): string
  {
    if text != "" && text[|text| - 1] == '\n' then text[..|text| - 1] else text
  }

  lemma {:induction false} TrimmedStarts(text: string, i: nat)
    requires i <= |Trimmed(text)|
    ensures StartsFrom(text, i) == TS.StartsFrom(Trimmed(text), '\n', i)
    ensures Line(text, i) == TS.Item(Trimmed(text), '\n', i)
    decreases |text| - i
  {
    if i < |Trimmed(text)| { TrimmedStarts(text, i + 1); }
  }

  /** The lines hold no line break, and joining them by line breaks gives the text less one trailing line break. */
  lemma LinesAreTheText(text: string)
    ensures forall k :: 0 <= k < |Lines(text)| ==> '\n' !in Lines(text)[k]
    ensures TS.Join(Lines(text), '\n') == Trimmed(text)
  {
    hide TS.Join, TS.Item;
    var t := Trimmed(text);
    TrimmedStarts(text, 0);
    TS.ItemsAreTheText(t, '\n');
    assert LineStarts(text) == TS.Starts(t, '\n');
    forall k | 0 <= k < |LineStarts(text)| ensures Lines(text)[k] == TS.Items(t, '\n')[k] {
      TrimmedStarts(text, LineStarts(text)[k]);
    }
    assert Lines(text) == TS.Items(t, '\n');
    assert TS.Unified(t, '\n') == t;
  }

  // ----- GetTextLines -----

  /** The first lines of a text, as many as there are pointers. */
  function PointedLines(text: string): seq<nat>
  {
    var all := LineStarts(text);
    if |all| <= MAX_LINES then all else all[..MAX_LINES]
  }

  lemma StartsStep(text: string, i: nat)
    requires i <= |text|
    ensures StartsFrom(text, i) ==
              if i == |text| then []
              else if text[i] == '\n' && i + 1 < |text| then [i + 1] + StartsFrom(text, i + 1)
              else StartsFrom(text, i + 1)
  {
  }

  class LineTable {
    const lines: array<nat>    // offsets of line starts

    constructor ()
      ensures lines.Length == MAX_LINES && fresh(lines)
    {
      lines := new nat[MAX_LINES];
    }

    method GetTextLines(text: string) returns (count: nat)
      requires lines.Length == MAX_LINES
      modifies lines
      ensures count <= MAX_LINES && lines[..count] == PointedLines(text)
    {
      hide StartsFrom;
      lines[0] := 0;
      count := 1;
      var i := 0;
      assert lines[..1] == [0];
      while i < |text| && count < MAX_LINES
        invariant 0 <= i <= |text| && 1 <= count <= MAX_LINES
        invariant LineStarts(text) == lines[..count] + StartsFrom(text, i)
      {
        StartsStep(text, i);
        if text[i] == '\n' && i + 1 < |text| {
          ghost var found := lines[..count];
          lines[count] := i + 1;
          count := count + 1;
          assert lines[..count] == found + [i + 1];
        }
        i := i + 1;
      }
      if i == |text| { StartsStep(text, i); }
    }
  }

  // ----- GuiGetTextWidth -----

  /** The greatest of some line widths, zero for none. */
  function Widest(starts: seq<nat>, width: nat -> int): (r: int)
    ensures r >= 0
  {
    if starts == [] then 0
    else
      var r, w := Widest(starts[..|starts| - 1], width), width(starts[|starts| - 1]);
      if w > r then w else r
  }

  /** The lines from offset `p` on, when a line starts there. */
  function LinesFrom(text: string, p: nat): seq<nat>
  {
    if p < |text| then [p] + StartsFrom(text, p) else []
  }

  /** The lines of a list up to the first that starts past the line buffer. */
  function InBuffer(all: seq<nat>): seq<nat>
  {
    if all == [] || all[0] >= MAX_LINE_BUFFER then [] else [all[0]] + InBuffer(all[1..])
  }

  /** The lines `GuiGetTextWidth` measures. */
  function MeasuredLines(text: string): seq<nat> { InBuffer(LinesFrom(text, 0)) }

  /** A prefix of a line list, cut where the line buffer ends. */
  ghost predicate CutAtBuffer(measured: seq<nat>, all: seq<nat>)
  {
    && measured <= all
    && (forall k :: 0 <= k < |measured| ==> measured[k] < MAX_LINE_BUFFER)
    && (forall k :: |measured| <= k < |all| ==> all[k] >= MAX_LINE_BUFFER)
  }

  lemma {:induction false} CutIsInBuffer(measured: seq<nat>, all: seq<nat>)
    requires CutAtBuffer(measured, all)
    ensures InBuffer(all) == measured
  {
    if measured != [] {
      assert all[0] == measured[0];
      CutIsInBuffer(measured[1..], all[1..]);
    }
  }

  ghost predicate Ascending(s: seq<nat>) { forall j, k :: 0 <= j < k < |s| ==> s[j] < s[k] }

  lemma {:induction false} StartsAscend(text: string, i: nat)
    ensures Ascending(StartsFrom(text, i))
    decreases |text| - i
  {
    if i + 1 < |text| {
      StartsAscend(text, i + 1);
      if text[i] == '\n' { AscendFrom(i + 1, StartsFrom(text, i + 1)); }
    }
  }

  lemma AscendFrom(first: nat, rest: seq<nat>)
    requires Ascending(rest) && forall k :: 0 <= k < |rest| ==> first < rest[k]
    ensures Ascending([first] + rest)
  {
    var s := [first] + rest;
    assert forall k :: 0 < k < |s| ==> s[k] == rest[k - 1];
  }

  lemma {:induction false} InBufferIsCut(all: seq<nat>)
    requires Ascending(all)
    ensures CutAtBuffer(InBuffer(all), all)
  {
    if all != [] && all[0] < MAX_LINE_BUFFER { InBufferIsCut(all[1..]); }
  }

  /** They are exactly the lines that start below the limit, in order. */
  lemma MeasuredLinesAreThoseBelow(text: string)
    ensures MeasuredLines(text) <= LinesFrom(text, 0)
    ensures forall k :: 0 <= k < |LinesFrom(text, 0)| ==> (k < |MeasuredLines(text)| <==> LinesFrom(text, 0)[k] < MAX_LINE_BUFFER)
  {
    StartsAscend(text, 0);
    AscendFrom(0, StartsFrom(text, 0));
    InBufferIsCut(LinesFrom(text, 0));
    var m := MeasuredLines(text);
    assert forall k :: 0 <= k < |m| ==> m[k] == LinesFrom(text, 0)[k];
  }

  /** The width of the widest line among those that start inside the line buffer. */
  method GuiGetTextWidth(text: string, width: nat -> int) returns (max: int)
    ensures max == Widest(MeasuredLines(text), width)
  {
    hide Widest, Scanned, StartsFrom, LinesFrom, InBuffer, CutAtBuffer;
    max := 0;
    ghost var measured: seq<nat> := [];
    WidestOfNone(width);
    var p := 0;
    ghost var rest := LinesFrom(text, 0);
    ScanBegins(text);
    while p < |text| && p < MAX_LINE_BUFFER
      invariant 0 <= p <= |text| && max == Widest(measured, width)
      invariant Scanned(text, measured, rest, p)
      decreases |text| - p
    {
      var lineWidth := width(p);
      if lineWidth > max { max := lineWidth; }
      WidestStep(measured, p, width);
      LineFound(text, measured, rest, p);
      measured, rest := measured + [p], StartsFrom(text, p);
      while p < |text| && text[p] != '\n' && p < MAX_LINE_BUFFER
        invariant 0 <= p <= |text|
        invariant rest == StartsFrom(text, p)
      {
        NoBreak(text, p);
        p := p + 1;
      }
      LineEnds(text, measured, rest, p);
      if p < |text| && text[p] == '\n' { p := p + 1; }
    }
    ScanStops(text, measured, rest, p);
    CutIsInBuffer(measured, LinesFrom(text, 0));
  }

  /** What the scanner knows at the start of a line, or past the limit: the lines still to come are at `p` or later. */
  ghost predicate Scanned(text: string, measured: seq<nat>, rest: seq<nat>, p: nat)
  {
    && LinesFrom(text, 0) == measured + rest
    && (p < MAX_LINE_BUFFER ==> rest == LinesFrom(text, p))
    && (forall k :: 0 <= k < |rest| ==> p <= rest[k])
    && (forall k :: 0 <= k < |measured| ==> measured[k] < MAX_LINE_BUFFER)
  }

  lemma ScanBegins(text: string)
    ensures Scanned(text, [], LinesFrom(text, 0), 0)
  {
  }

  lemma LineFound(text: string, measured: seq<nat>, rest: seq<nat>, p: nat)
    requires Scanned(text, measured, rest, p) && p < |text| && p < MAX_LINE_BUFFER
    ensures LinesFrom(text, 0) == (measured + [p]) + StartsFrom(text, p)
    ensures forall k :: 0 <= k < |measured + [p]| ==> (measured + [p])[k] < MAX_LINE_BUFFER
  {
    hide StartsFrom;
  }

  lemma NoBreak(text: string, p: nat)
    requires p < |text| && text[p] != '\n'
    ensures StartsFrom(text, p) == StartsFrom(text, p + 1)
  {
  }

  lemma LineEnds(text: string, measured: seq<nat>, rest: seq<nat>, p: nat)
    requires LinesFrom(text, 0) == measured + rest && rest == StartsFrom(text, p) && p <= |text|
    requires p == |text| || text[p] == '\n' || p >= MAX_LINE_BUFFER
    requires forall k :: 0 <= k < |measured| ==> measured[k] < MAX_LINE_BUFFER
    ensures Scanned(text, measured, rest, if p < |text| && text[p] == '\n' then p + 1 else p)
  {
  }

  lemma ScanStops(text: string, measured: seq<nat>, rest: seq<nat>, p: nat)
    requires Scanned(text, measured, rest, p) && (p >= |text| || p >= MAX_LINE_BUFFER)
    ensures CutAtBuffer(measured, LinesFrom(text, 0))
  {
  }

  lemma WidestOfNone(width: nat -> int)
    ensures Widest([], width) == 0
  {
  }

  lemma WidestStep(starts: seq<nat>, p: nat, width: nat -> int)
    ensures Widest(starts + [p], width) == if width(p) > Widest(starts, width) then width(p) else Widest(starts, width)
  {
    assert (starts + [p])[..|starts|] == starts;
  }

  /**
    Both scanners find the same lines exactly if the text is not empty and their limits cut alike: the last
    line pointed at starts inside the line buffer, the next one, if there is one, outside.  On texts up to the
    size of that buffer with at most as many lines as pointers they do, and miss none.
   */
  lemma ScannersAgree(text: string)
    ensures MeasuredLines(text) == PointedLines(text) <==>
              text != "" &&
              var s := LineStarts(text);
              if |s| <= MAX_LINES then s[|s| - 1] < MAX_LINE_BUFFER else s[MAX_LINES - 1] < MAX_LINE_BUFFER <= s[MAX_LINES]
    ensures text != "" && |text| <= MAX_LINE_BUFFER && |LineStarts(text)| <= MAX_LINES ==>
              MeasuredLines(text) == LineStarts(text) == PointedLines(text)
  {
    MeasuredLinesAreThoseBelow(text);
    var s, m := LineStarts(text), MeasuredLines(text);
    if text != "" {
      assert LinesFrom(text, 0) == s;
      StartsAscend(text, 0);
      AscendFrom(0, StartsFrom(text, 0));
      SamePrefix(m, s, if |s| <= MAX_LINES then |s| else MAX_LINES);
    }
  }

  /** A list cut at the line buffer has length `n` exactly if the buffer ends between line `n - 1` and line `n`. */
  lemma SamePrefix(m: seq<nat>, s: seq<nat>, n: nat)
    requires m <= s && 0 < n <= |s| && Ascending(s)
    requires forall k :: 0 <= k < |s| ==> (k < |m| <==> s[k] < MAX_LINE_BUFFER)
    ensures m == s[..n] <==> s[n - 1] < MAX_LINE_BUFFER && (n < |s| ==> s[n] >= MAX_LINE_BUFFER)
  {
    assert m == s[..|m|];
    assert m == s[..n] <==> |m| == n;
  }

  /** For any text one scanner sees a prefix of what the other sees. */
  lemma OneIsPrefixOfTheOther(text: string)
    ensures MeasuredLines(text) <= PointedLines(text) || PointedLines(text) <= MeasuredLines(text)
  {
    MeasuredLinesAreThoseBelow(text);
  }

  /** The widest line is at least as wide as each line measured, and is one of them or zero. */
  lemma {:induction false} WidestIsMax(starts: seq<nat>, width: nat -> int)
    ensures forall k :: 0 <= k < |starts| ==> width(starts[k]) <= Widest(starts, width)
    ensures Widest(starts, width) == 0 || exists k :: 0 <= k < |starts| && width(starts[k]) == Widest(starts, width)
  {
    if starts != [] {
      var front := starts[..|starts| - 1];
      WidestIsMax(front, width);
      forall k | 0 <= k < |starts| ensures width(starts[k]) <= Widest(starts, width) {
        if k < |front| { assert width(front[k]) <= Widest(front, width); }
      }
      if Widest(starts, width) != 0 {
        if Widest(starts, width) == width(starts[|starts| - 1]) {
        } else {
          var k :| 0 <= k < |front| && width(front[k]) == Widest(front, width);
          assert starts[k] == front[k];
        }
      }
    }
  }
}
