/**
  The word keys as their comments promise them, with ASCII space and ASCII punctuation only, and exactly
  when they do what the code does.  The code looks at the low byte of a codepoint, so beyond ASCII it
  takes some letters for space or punctuation.
 */
module AsciiWords {
  import opened Utf8
  import opened TextDoc

  predicate AsciiSpace(c: Codepoint) { 9 <= c <= 13 || c == 32 }

  predicate AsciiPunct(c: Codepoint) { 33 <= c <= 47 || 58 <= c <= 64 || 91 <= c <= 96 || 123 <= c <= 126 }

  predicate AsciiStops(punct: bool, c: Codepoint)
  {
    (punct && !AsciiPunct(c)) || (!punct && (AsciiSpace(c) || AsciiPunct(c)))
  }

  /** The code and the comments put the codepoint into different classes. */
  predicate Misread(c: Codepoint) { c >= 128 && (IsSpace(c) || IsPunct(c)) }

  // ----- The promised word motion -----

  function AsciiSkipKind(cs: seq<Codepoint>, punct: bool, p: nat): (q: nat)
    requires p <= |cs|
    ensures p <= q <= |cs|
    ensures forall k :: p <= k < q ==> !AsciiStops(punct, cs[k])
    ensures q < |cs| ==> AsciiStops(punct, cs[q])
    decreases |cs| - p
  {
    if p < |cs| && !AsciiStops(punct, cs[p]) then AsciiSkipKind(cs, punct, p + 1) else p
  }

  function AsciiSkipSpace(cs: seq<Codepoint>, p: nat): (q: nat)
    requires p <= |cs|
    ensures p <= q <= |cs|
    ensures forall k :: p <= k < q ==> AsciiSpace(cs[k])
    ensures q < |cs| ==> !AsciiSpace(cs[q])
    decreases |cs| - p
  {
    if p < |cs| && AsciiSpace(cs[p]) then AsciiSkipSpace(cs, p + 1) else p
  }

  function AsciiSkipKindBack(cs: seq<Codepoint>, punct: bool, p: nat): (q: nat)
    requires p <= |cs|
    ensures q <= p
    ensures forall k :: q <= k < p ==> !AsciiStops(punct, cs[k])
    ensures q > 0 ==> AsciiStops(punct, cs[q - 1])
  {
    if p > 0 && !AsciiStops(punct, cs[p - 1]) then AsciiSkipKindBack(cs, punct, p - 1) else p
  }

  function AsciiSkipSpaceBack(cs: seq<Codepoint>, p: nat): (q: nat)
    requires p <= |cs|
    ensures q <= p
    ensures forall k :: q <= k < p ==> AsciiSpace(cs[k])
    ensures q > 0 ==> !AsciiSpace(cs[q - 1])
  {
    if p > 0 && AsciiSpace(cs[p - 1]) then AsciiSkipSpaceBack(cs, p - 1) else p
  }

  function AsciiWordEnd(cs: seq<Codepoint>, p: nat): (q: nat)
    requires p < |cs|
    ensures p < q <= |cs|
  {
    AsciiSkipSpace(cs, AsciiSkipKind(cs, AsciiPunct(cs[p]), p))
  }

  function AsciiWordStart(cs: seq<Codepoint>, p: nat): (q: nat)
    requires 0 < p <= |cs|
    ensures q < p
  {
    var q := AsciiSkipSpaceBack(cs, p);
    if q == 0 then 0 else AsciiSkipKindBack(cs, AsciiPunct(cs[q - 1]), q)
  }

  // ----- When code and comments agree -----

  predicate Proper(cs: seq<Codepoint>, a: nat, b: nat)
    requires a <= b <= |cs|
  {
    forall k :: a <= k < b ==> !Misread(cs[k])
  }

  predicate NoPunct(cs: seq<Codepoint>, a: nat, b: nat)
    requires a <= b <= |cs|
  {
    forall k :: a <= k < b ==> !AsciiPunct(cs[k])
  }

  /** Nothing but ASCII space after an ASCII space. */
  predicate SpacesLast(cs: seq<Codepoint>, a: nat, b: nat)
    requires a <= b <= |cs|
  {
    forall j, k :: a <= j < k < b && AsciiSpace(cs[j]) ==> AsciiSpace(cs[k])
  }

  /**
    The codepoints passed by Ctrl+Right, a run up to `m` and space up to `q`, read alike.  From ASCII
    punctuation on nothing may be misread.  From anything else on misread codepoints do no harm while they
    only lengthen the run: no ASCII punctuation in it, the misread space before all ASCII space, and, if there
    is none of that, an end that ASCII classes see too.
   */
  predicate SameEnd(cs: seq<Codepoint>, p: nat)
    requires p < |cs|
  {
    var m, q := SkipKind(cs, IsPunct(cs[p]), p), WordEnd(cs, p);
    if AsciiPunct(cs[p]) then Proper(cs, p, q)
    else NoPunct(cs, p, m) && SpacesLast(cs, m, q) && (AsciiSpace(cs[q - 1]) || q == |cs| || AsciiPunct(cs[q]))
  }

  /** Ctrl+Right and Ctrl+Delete do what the comments say exactly if the codepoints passed, and the next one, read alike. */
  lemma WordEndIsAscii(cs: seq<Codepoint>, p: nat)
    requires p < |cs|
    ensures WordEnd(cs, p) == AsciiWordEnd(cs, p) <==> SameEnd(cs, p)
  {
    hide IsSpace, IsPunct, AsciiSpace, AsciiPunct, Misread;
    ClassesOf(cs);
  }

  lemma ClassesOf(cs: seq<Codepoint>)
    ensures forall k :: 0 <= k < |cs| ==> (IsSpace(cs[k]) ==> !IsPunct(cs[k]))
    ensures forall k :: 0 <= k < |cs| ==> (AsciiSpace(cs[k]) <==> IsSpace(cs[k]) && !Misread(cs[k]))
    ensures forall k :: 0 <= k < |cs| ==> (AsciiPunct(cs[k]) <==> IsPunct(cs[k]) && !Misread(cs[k]))
  {
  }

  /**
    The same for Ctrl+Left, which passes space back to `m` and a run back to `q`.  Here misread space must
    stand in front of all ASCII space too, and a run that is not ASCII punctuation must start where ASCII
    classes see its start.
   */
  predicate SameStart(cs: seq<Codepoint>, p: nat)
    requires 0 < p <= |cs|
  {
    var m, q := SkipSpaceBack(cs, p), WordStart(cs, p);
    if m > 0 && AsciiPunct(cs[m - 1]) then Proper(cs, q, p)
    else NoPunct(cs, q, m) && SpacesLast(cs, m, p) && (q == 0 || AsciiSpace(cs[q - 1]) || AsciiPunct(cs[q - 1]))
  }

  /** Ctrl+Left and Ctrl+Backspace do what the comments say exactly if the codepoints passed, and the one before, read alike. */
  lemma WordStartIsAscii(cs: seq<Codepoint>, p: nat)
    requires 0 < p <= |cs|
    ensures WordStart(cs, p) == AsciiWordStart(cs, p) <==> SameStart(cs, p)
  {
    hide IsSpace, IsPunct, AsciiSpace, AsciiPunct, Misread;
    ClassesOf(cs);
  }

  /** In text without misread codepoints all word keys do what the comments say. */
  lemma ProperTextIsAscii(cs: seq<Codepoint>, p: nat)
    requires p <= |cs| && Proper(cs, 0, |cs|)
    ensures p < |cs| ==> WordEnd(cs, p) == AsciiWordEnd(cs, p)
    ensures p > 0 ==> WordStart(cs, p) == AsciiWordStart(cs, p)
  {
    hide IsSpace, IsPunct, AsciiSpace, AsciiPunct, Misread;
    ClassesOf(cs);
    if p < |cs| { WordEndIsAscii(cs, p); }
    if p > 0 { WordStartIsAscii(cs, p); }
  }

  /** U+4E20 ends with the byte of a blank: it counts as space, so both word keys stop inside the word around it. */
  lemma IdeographSplitsWord()
    ensures var cs: seq<Codepoint> := [0x61, 0x4E20, 0x62];
            IsSpace(cs[1]) && WordEnd(cs, 0) == 2 && AsciiWordEnd(cs, 0) == 3 && WordStart(cs, 3) == 2 && AsciiWordStart(cs, 3) == 0
  {
    var cs: seq<Codepoint> := [0x61, 0x4E20, 0x62];
    assert SkipKind(cs, false, 1) == 1 && SkipSpace(cs, 2) == 2;
    assert AsciiSkipKind(cs, false, 2) == 3;
    assert SkipKindBack(cs, false, 2) == 2;
    assert AsciiSkipKindBack(cs, false, 1) == 0;
  }

  /** U+0121, a letter, ends with the byte of an exclamation mark: it counts as punctuation. */
  lemma LetterCountsAsPunctuation()
    ensures var cs: seq<Codepoint> := [0x61, 0x0121, 0x62];
            IsPunct(cs[1]) && WordEnd(cs, 0) == 1 && AsciiWordEnd(cs, 0) == 3 && WordStart(cs, 3) == 2 && AsciiWordStart(cs, 3) == 0
  {
    var cs: seq<Codepoint> := [0x61, 0x0121, 0x62];
    assert SkipKind(cs, false, 1) == 1 && SkipSpace(cs, 1) == 1;
    assert AsciiSkipKind(cs, false, 2) == 3;
    assert SkipKindBack(cs, false, 2) == 2;
    assert AsciiSkipKindBack(cs, false, 1) == 0;
  }
}
