/** `GuiTextSplit`: cutting a control's text into items, inside two static buffers. */
module TextSplit {

  const MAX_ITEMS := 128
  const MAX_TEXT := 1024

  /** The character a C string of these contents holds at `i`. */
  function At(text: string, i: nat): char { if i < |text| then text[i] else '\0' }

  predicate IsSeparator(c: char, delimiter: char) { c == delimiter || c == '\n' }

  function Separators(text: string, delimiter: char): nat
  {
    if text == "" then 0
    else (if IsSeparator(text[0], delimiter) then 1 else 0) + Separators(text[1..], delimiter)
  }

  /** The text from `s` up to the next separator. */
  function Item(text: string, delimiter: char, s: nat): string
    decreases |text| - s
  {
    if s >= |text| || IsSeparator(text[s], delimiter) then "" else [text[s]] + Item(text, delimiter, s + 1)
  }

  /** Where items start because of a separator at `i` or later. */
  function StartsFrom(text: string, delimiter: char, i: nat): seq<nat>
    decreases |text| - i
  {
    if i >= |text| then []
    else if IsSeparator(text[i], delimiter) then [i + 1] + StartsFrom(text, delimiter, i + 1)
    else StartsFrom(text, delimiter, i + 1)
  }

  function Starts(text: string, delimiter: char): seq<nat> { [0] + StartsFrom(text, delimiter, 0) }

  function ItemsAt(text: string, delimiter: char, starts: seq<nat>): seq<string>
  {
    seq(|starts|, k requires 0 <= k < |starts| => Item(text, delimiter, starts[k]))
  }

  /** All items of a text. */
  function Items(text: string, delimiter: char): seq<string> { ItemsAt(text, delimiter, Starts(text, delimiter)) }

  // ----- What the items are -----

  function Join(items: seq<string>, delimiter: char): string
  {
    if items == [] then ""
    else if |items| == 1 then items[0]
    else items[0] + [delimiter] + Join(items[1..], delimiter)
  }

  /** The text with line breaks read as delimiters. */
  function Unified(text: string, delimiter: char): string
  {
    seq(|text|, i requires 0 <= i < |text| => if text[i] == '\n' then delimiter else text[i])
  }

  lemma {:induction false} ItemIsFree(text: string, delimiter: char, s: nat)
    ensures delimiter !in Item(text, delimiter, s) && '\n' !in Item(text, delimiter, s)
    decreases |text| - s
  {
    if s < |text| && !IsSeparator(text[s], delimiter) { ItemIsFree(text, delimiter, s + 1); }
  }

  lemma {:induction false} CountStarts(text: string, delimiter: char, i: nat)
    requires i <= |text|
    ensures |StartsFrom(text, delimiter, i)| == Separators(text[i..], delimiter)
    decreases |text| - i
  {
    if i < |text| {
      CountStarts(text, delimiter, i + 1);
      assert text[i..][1..] == text[i + 1..];
    }
  }

  lemma JoinEmptyFirst(items: seq<string>, delimiter: char)
    requires items != []
    ensures Join([""] + items, delimiter) == [delimiter] + Join(items, delimiter)
  {
    assert ([""] + items)[1..] == items;
  }

  lemma JoinLongerFirst(c: char, first: string, rest: seq<string>, delimiter: char)
    ensures Join([[c] + first] + rest, delimiter) == [c] + Join([first] + rest, delimiter)
  {
    assert ([[c] + first] + rest)[1..] == rest && ([first] + rest)[1..] == rest;
  }

  lemma UnifiedStep(text: string, delimiter: char, s: nat)
    requires s < |text|
    ensures Unified(text[s..], delimiter)
            == [if IsSeparator(text[s], delimiter) then delimiter else text[s]] + Unified(text[s + 1..], delimiter)
  {
  }

  lemma {:induction false} JoinFrom(text: string, delimiter: char, s: nat)
    requires s <= |text|
    ensures Join([Item(text, delimiter, s)] + ItemsAt(text, delimiter, StartsFrom(text, delimiter, s)), delimiter)
            == Unified(text[s..], delimiter)
    decreases |text| - s
  {
    hide Unified, Join;
    var rest := ItemsAt(text, delimiter, StartsFrom(text, delimiter, s));
    if s == |text| {
      assert [Item(text, delimiter, s)] + rest == [""];
      JoinNothing(text[s..], delimiter);
    } else {
      JoinFrom(text, delimiter, s + 1);
      UnifiedStep(text, delimiter, s);
      var item1, rest1 := Item(text, delimiter, s + 1), ItemsAt(text, delimiter, StartsFrom(text, delimiter, s + 1));
      if IsSeparator(text[s], delimiter) {
        assert rest == [item1] + rest1;
        JoinEmptyFirst([item1] + rest1, delimiter);
      } else {
        assert rest == rest1;
        JoinLongerFirst(text[s], item1, rest1, delimiter);
      }
    }
  }

  lemma JoinNothing(text: string, delimiter: char)
    requires text == ""
    ensures Join([""], delimiter) == Unified(text, delimiter)
  {
  }

  /** One item more than separators, no separator in any item, and joining them gives the text back. */
  lemma ItemsAreTheText(text: string, delimiter: char)
    ensures |Items(text, delimiter)| == 1 + Separators(text, delimiter)
    ensures forall k :: 0 <= k < |Items(text, delimiter)| ==>
              delimiter !in Items(text, delimiter)[k] && '\n' !in Items(text, delimiter)[k]
    ensures Join(Items(text, delimiter), delimiter) == Unified(text, delimiter)
  {
    CountStarts(text, delimiter, 0);
    assert text[0..] == text;
    forall k | 0 <= k < |Items(text, delimiter)|
      ensures delimiter !in Items(text, delimiter)[k] && '\n' !in Items(text, delimiter)[k]
    {
      ItemIsFree(text, delimiter, Starts(text, delimiter)[k]);
    }
    JoinFrom(text, delimiter, 0);
    assert Items(text, delimiter) == [Item(text, delimiter, 0)] + ItemsAt(text, delimiter, StartsFrom(text, delimiter, 0));
  }

  // ----- The function and its buffers -----

  /** The C string that starts at `i` of a buffer. */
  function CString(buffer: seq<char>, i: nat): string
    decreases |buffer| - i
  {
    if i >= |buffer| || buffer[i] == '\0' then "" else [buffer[i]] + CString(buffer, i + 1)
  }

  /** The first `i` characters with terminators in place of separators, zeros after them. */
  ghost predicate Copied(buffer: seq<char>, text: string, delimiter: char, i: nat)
  {
    i <= |buffer| && forall j :: 0 <= j < |buffer| ==>
      buffer[j] == if j >= i || j >= |text| || IsSeparator(text[j], delimiter) then '\0' else text[j]
  }

  lemma {:induction false} CopiedItem(buffer: seq<char>, text: string, delimiter: char, i: nat, s: nat)
    requires Copied(buffer, text, delimiter, i) && '\0' !in text
    requires s >= i || SeparatorIn(text, delimiter, s, i) || (i >= |text| && |text| < |buffer|)
    ensures s < i ==> CString(buffer, s) == Item(text, delimiter, s)
    ensures s >= i ==> CString(buffer, s) == ""
    decreases |text| - s
  {
    if s < |text| && s < i && !IsSeparator(text[s], delimiter) {
      if !(i >= |text| && |text| < |buffer|) {
        var j :| s <= j < i && j < |text| && IsSeparator(text[j], delimiter);
        assert s + 1 <= j;
      }
      CopiedItem(buffer, text, delimiter, i, s + 1);
    }
  }

  predicate SeparatorIn(text: string, delimiter: char, s: nat, i: nat)
  {
    exists j :: s <= j < i && j < |text| && IsSeparator(text[j], delimiter)
  }

  /** What the loop knows before looking at character `i`: the last item has no separator yet, all others have. */
  ghost predicate Scanned(buffer: seq<char>, ptrs: seq<nat>, text: string, delimiter: char, i: nat)
  {
    && Copied(buffer, text, delimiter, i)
    && Starts(text, delimiter) == ptrs + StartsFrom(text, delimiter, i)
    && (forall k :: 0 <= k < |ptrs| ==> ptrs[k] <= i)
    && (forall k :: 0 <= k < |ptrs| - 1 ==> SeparatorIn(text, delimiter, ptrs[k], i))
    && (ptrs != [] ==> !SeparatorIn(text, delimiter, ptrs[|ptrs| - 1], i))
  }

  lemma ScanStarts(buffer: seq<char>, text: string, delimiter: char)
    requires forall j :: 0 <= j < |buffer| ==> buffer[j] == '\0'
    ensures Scanned(buffer, [0], text, delimiter, 0)
  {
  }

  lemma ScanOther(before: seq<char>, after: seq<char>, ptrs: seq<nat>, text: string, delimiter: char, i: nat)
    requires Scanned(before, ptrs, text, delimiter, i) && i < |before| && i < |text| && !IsSeparator(text[i], delimiter)
    requires after == before[i := text[i]]
    ensures Scanned(after, ptrs, text, delimiter, i + 1)
  {
  }

  lemma ScanSeparator(before: seq<char>, after: seq<char>, ptrs: seq<nat>, text: string, delimiter: char, i: nat)
    requires Scanned(before, ptrs, text, delimiter, i) && i < |before| && i < |text| && IsSeparator(text[i], delimiter)
    requires after == before[i := '\0']
    ensures Scanned(after, ptrs + [i + 1], text, delimiter, i + 1)
  {
    assert ptrs + StartsFrom(text, delimiter, i) == ptrs + [i + 1] + StartsFrom(text, delimiter, i + 1);
  }

  // ----- The result -----

  /** Inside the buffer there is a terminator at `s` or later. */
  predicate Ended(buffer: seq<char>, s: nat) { exists j :: s <= j < |buffer| && buffer[j] == '\0' }

  /** The texts all of whose items get a terminator: those shorter than the buffer, and those whose 128th item starts inside it. */
  predicate AllEnd(text: string, delimiter: char)
  {
    |text| < MAX_TEXT || (|Starts(text, delimiter)| >= MAX_ITEMS && Starts(text, delimiter)[MAX_ITEMS - 1] < MAX_TEXT)
  }

  /** The pointers and the buffer after the loop. */
  ghost predicate IsSplit(buffer: seq<char>, ptrs: seq<nat>, text: string, delimiter: char)
  {
    var items, starts := Items(text, delimiter), Starts(text, delimiter);
    var n := |ptrs|;
    && 1 <= n <= |items| && n <= MAX_ITEMS && ptrs == starts[..n]
    && (n < MAX_ITEMS ==> forall k :: n <= k < |starts| ==> starts[k] > MAX_TEXT)
    && (forall k :: 0 <= k < n - 1 ==> Ended(buffer, ptrs[k]) && CString(buffer, ptrs[k]) == items[k])
    && (Ended(buffer, ptrs[n - 1]) <==> AllEnd(text, delimiter))
    && (AllEnd(text, delimiter) ==> CString(buffer, ptrs[n - 1]) == if |items| < MAX_ITEMS then items[n - 1] else "")
  }

  lemma {:induction false} StartsAfter(text: string, delimiter: char, i: nat)
    ensures forall k :: 0 <= k < |StartsFrom(text, delimiter, i)| ==> StartsFrom(text, delimiter, i)[k] > i
    decreases |text| - i
  {
    if i < |text| { StartsAfter(text, delimiter, i + 1); }
  }

  /** All items but the last are items of the text. */
  lemma ClosedItems(buffer: seq<char>, ptrs: seq<nat>, text: string, delimiter: char, i: nat)
    requires Scanned(buffer, ptrs, text, delimiter, i) && '\0' !in text
    ensures |ptrs| <= |Items(text, delimiter)| && ptrs == Starts(text, delimiter)[..|ptrs|]
    ensures forall k :: 0 <= k < |ptrs| - 1 ==> Ended(buffer, ptrs[k]) && CString(buffer, ptrs[k]) == Items(text, delimiter)[k]
  {
    hide CString, Item;
    forall k | 0 <= k < |ptrs| - 1 ensures Ended(buffer, ptrs[k]) && CString(buffer, ptrs[k]) == Items(text, delimiter)[k] {
      var j :| ptrs[k] <= j < i && j < |text| && IsSeparator(text[j], delimiter);
      assert buffer[j] == '\0';
      CopiedItem(buffer, text, delimiter, i, ptrs[k]);
    }
  }

  /** The loop stops at the text's terminator. */
  lemma ScanEnds(before: seq<char>, after: seq<char>, ptrs: seq<nat>, text: string, delimiter: char, i: nat)
    requires Scanned(before, ptrs, text, delimiter, i) && i < |before| == MAX_TEXT && i == |text| && '\0' !in text
    requires after == before[i := '\0'] && 1 <= |ptrs| < MAX_ITEMS
    ensures IsSplit(after, ptrs, text, delimiter)
  {
    hide CString, Item;
    assert after == before;
    ClosedItems(after, ptrs, text, delimiter, i);
    assert StartsFrom(text, delimiter, i) == [];
    var last := ptrs[|ptrs| - 1];
    assert last <= i && after[i] == '\0';
    CopiedItem(after, text, delimiter, i, last);
    if last == i { assert Item(text, delimiter, i) == "" by { ItemAtEnd(text, delimiter); } }
  }

  lemma ItemAtEnd(text: string, delimiter: char)
    ensures Item(text, delimiter, |text|) == ""
  {
  }

  /** The pointers run out: the last one points at zeros, or past the buffer. */
  lemma SplitIsFull(buffer: seq<char>, ptrs: seq<nat>, text: string, delimiter: char, i: nat)
    requires Scanned(buffer, ptrs, text, delimiter, i) && '\0' !in text && |ptrs| == MAX_ITEMS && ptrs[MAX_ITEMS - 1] == i
    requires |buffer| == MAX_TEXT && 0 < i <= |text|
    ensures IsSplit(buffer, ptrs, text, delimiter)
  {
    hide CString, Item;
    ClosedItems(buffer, ptrs, text, delimiter, i);
    assert Starts(text, delimiter)[MAX_ITEMS - 1] == i;
    CopiedItem(buffer, text, delimiter, i, i);
    if i < MAX_TEXT { assert buffer[i] == '\0'; }
  }

  /** The buffer runs out: the last item has no terminator. */
  lemma BufferIsFull(buffer: seq<char>, ptrs: seq<nat>, text: string, delimiter: char)
    requires Scanned(buffer, ptrs, text, delimiter, MAX_TEXT) && '\0' !in text && 1 <= |ptrs| < MAX_ITEMS
    requires |buffer| == MAX_TEXT <= |text|
    ensures IsSplit(buffer, ptrs, text, delimiter)
  {
    hide CString, Item;
    ClosedItems(buffer, ptrs, text, delimiter, MAX_TEXT);
    StartsAfter(text, delimiter, MAX_TEXT);
    var last := ptrs[|ptrs| - 1];
    forall j | last <= j < |buffer| ensures buffer[j] != '\0' {
      assert !IsSeparator(text[j], delimiter);
    }
  }

  class Splitter {
    const buffer: array<char>
    const itemPtrs: array<nat>    // offsets into buffer

    constructor ()
      ensures buffer.Length == MAX_TEXT && itemPtrs.Length == MAX_ITEMS && fresh(buffer) && fresh(itemPtrs)
    {
      buffer := new char[MAX_TEXT];
      itemPtrs := new nat[MAX_ITEMS];
    }

    /**
      For every text: the items are the first of the text's, as many as there are pointers and room.  All but
      the last are complete; the last has a terminator exactly if `AllEnd`, and is complete then, or empty if
      the pointers ran out.
     */
    method GuiTextSplit(text: string, delimiter: char) returns (count: nat)
      requires buffer.Length == MAX_TEXT && itemPtrs.Length == MAX_ITEMS && '\0' !in text
      modifies buffer, itemPtrs
      ensures count <= MAX_ITEMS && IsSplit(buffer[..], itemPtrs[..count], text, delimiter)
    {
      hide Scanned, Items, StartsFrom, CString, IsSplit;
      forall i | 0 <= i < buffer.Length { buffer[i] := '\0'; }
      itemPtrs[0] := 0;
      count := 1;
      var i := 0;
      assert itemPtrs[..1] == [0];
      ScanStarts(buffer[..], text, delimiter);
      while i < MAX_TEXT
        invariant 0 <= i <= MAX_TEXT && i <= |text| && 1 <= count < MAX_ITEMS
        invariant Scanned(buffer[..], itemPtrs[..count], text, delimiter, i)
      {
        ghost var before, ptrs := buffer[..], itemPtrs[..count];
        buffer[i] := At(text, i);
        if buffer[i] == '\0' {
          assert buffer[..] == before[i := '\0'];
          ScanEnds(before, buffer[..], ptrs, text, delimiter, i);
          return;
        } else if buffer[i] == delimiter || buffer[i] == '\n' {
          itemPtrs[count] := i + 1;
          buffer[i] := '\0';
          count := count + 1;
          assert buffer[..] == before[i := '\0'] && itemPtrs[..count] == ptrs + [i + 1];
          ScanSeparator(before, buffer[..], ptrs, text, delimiter, i);
          if count >= MAX_ITEMS {
            SplitIsFull(buffer[..], itemPtrs[..count], text, delimiter, i + 1);
            return;
          }
        } else {
          assert buffer[..] == before[i := text[i]];
          ScanOther(before, buffer[..], ptrs, text, delimiter, i);
        }
        i := i + 1;
      }
      BufferIsFull(buffer[..], itemPtrs[..count], text, delimiter);
    }
  }

  /** In particular below 1024 characters all items are the text's, unless there are more than pointers. */
  lemma ShortTextsSplit(buffer: seq<char>, ptrs: seq<nat>, text: string, delimiter: char)
    requires IsSplit(buffer, ptrs, text, delimiter) && |text| < MAX_TEXT
    ensures var items := Items(text, delimiter);
            && |ptrs| == (if |items| < MAX_ITEMS then |items| else MAX_ITEMS)
            && (forall k :: 0 <= k < |ptrs| ==>
                  CString(buffer, ptrs[k]) == if k == MAX_ITEMS - 1 then "" else items[k])
  {
    hide CString, Item;
    StartsInText(text, delimiter, 0);
    var n, starts := |ptrs|, Starts(text, delimiter);
    assert n < |starts| ==> starts[n] == StartsFrom(text, delimiter, 0)[n - 1] <= |text|;
  }

  lemma {:induction false} StartsInText(text: string, delimiter: char, i: nat)
    ensures forall k :: 0 <= k < |StartsFrom(text, delimiter, i)| ==> StartsFrom(text, delimiter, i)[k] <= |text|
    decreases |text| - i
  {
    if i < |text| { StartsInText(text, delimiter, i + 1); }
  }
}
