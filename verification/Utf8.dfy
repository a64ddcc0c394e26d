/**
  The UTF-8 codec that the text box, the paste loop and the width scanners share:
  `CodepointToUTF8` and `GetCodepointNext`.

  Bytes and codepoints are integers.  The masks and shifts of the C code are written as
  divisions and remainders; `Words` states the correspondence on machine words.
 */
module Utf8 {

  type Byte = b: int | 0 <= b < 256
  type Codepoint = c: int | 0 <= c <= 0x10FFFF

  /** A decoded codepoint and the number of bytes it was read from. */
  datatype Glyph = Glyph(codepoint: int, size: nat)

  // ----- Bit patterns -----

  predicate IsSingle(b: Byte) { b < 128 }               // (b & 0x80) == 0x00
  predicate IsContinuation(b: Byte) { 128 <= b < 192 }  // (b & 0xC0) == 0x80
  predicate IsLead2(b: Byte) { 192 <= b < 224 }         // (b & 0xE0) == 0xC0
  predicate IsLead3(b: Byte) { 224 <= b < 240 }         // (b & 0xF0) == 0xE0
  predicate IsLead4(b: Byte) { 240 <= b < 248 }         // (b & 0xF8) == 0xF0

  // ----- Encoding -----

  /** The bytes `CodepointToUTF8` reports for a codepoint; none above the Unicode range. */
  function Encode(c: int): (r: seq<Byte>)
  {
    var h := c / 64;
    var i := h / 64;
    if c <= 0x7f then [c % 256]
    else if c <= 0x7ff then [192 + h, 128 + c % 64]
    else if c <= 0xffff then [224 + i, 128 + h % 64, 128 + c % 64]
    else if c <= 0x10ffff then [240 + i / 64, 128 + i % 64, 128 + h % 64, 128 + c % 64]
    else []
  }

  function EncodeAll(cs: seq<Codepoint>): (r: seq<Byte>)
  {
    if cs == [] then [] else Encode(cs[0]) + EncodeAll(cs[1..])
  }

  /** The static buffer that `CodepointToUTF8` writes into. */
  class Encoder {
    const utf8: array<Byte>

    constructor ()
      ensures fresh(utf8) && utf8.Length == 6
    {
      utf8 := new Byte[6];
    }

    method CodepointToUTF8(c: int) returns (size: nat)
      requires utf8.Length == 6
      modifies utf8
      ensures size <= 4 && utf8[..size] == Encode(c)
      ensures forall k :: size <= k < 6 ==> utf8[k] == old(utf8[k])
    {
      size := 0;
      if c <= 0x7f {
        utf8[0] := c % 256;
        size := 1;
      } else if c <= 0x7ff {
        utf8[0] := 192 + c / 64;
        utf8[1] := 128 + c % 64;
        size := 2;
      } else if c <= 0xffff {
        utf8[0] := 224 + c / 64 / 64;
        utf8[1] := 128 + c / 64 % 64;
        utf8[2] := 128 + c % 64;
        size := 3;
      } else if c <= 0x10ffff {
        utf8[0] := 240 + c / 64 / 64 / 64;
        utf8[1] := 128 + c / 64 / 64 % 64;
        utf8[2] := 128 + c / 64 % 64;
        utf8[3] := 128 + c % 64;
        size := 4;
      }
    }
  }

  // ----- Decoding -----

  /** The bytes of a C string up to and including its terminator; `GetCodepointNext` asks no more. */
  predicate Terminated(s: seq<Byte>) { |s| > 0 && s[|s| - 1] == 0 }

  /** A terminated string whose length, as `strlen` counts it, is `|s| - 1`. */
  predicate IsCString(s: seq<Byte>) { Terminated(s) && forall k :: 0 <= k < |s| - 1 ==> s[k] != 0 }

  /**
    `GetCodepointNext`.  Every read stays inside the string: a continuation test fails at the
    terminator, so nothing after the terminator is read or stepped over.
   */
  function Next(s: seq<Byte>, i: nat): (g: Glyph)
    requires Terminated(s) && i < |s|
    ensures 1 <= g.size <= 4 && i + g.size <= |s|
    ensures s[i] != 0 ==> i + g.size < |s|
    ensures forall k :: i < k < i + g.size ==> IsContinuation(s[k])
    ensures s[i] == 0 <==> g == Glyph(0, 1)
  {
    var b0: int := s[i];
    if IsLead4(b0) then
      if !IsContinuation(s[i + 1]) || !IsContinuation(s[i + 2]) || !IsContinuation(s[i + 3]) then Glyph(0x3f, 1)
      else
        var b1: int, b2: int, b3: int := s[i + 1], s[i + 2], s[i + 3];
        Glyph((b0 - 240) * 262144 + (b1 - 128) * 4096 + (b2 - 128) * 64 + (b3 - 128), 4)
    else if IsLead3(b0) then
      if !IsContinuation(s[i + 1]) || !IsContinuation(s[i + 2]) then Glyph(0x3f, 1)
      else
        var b1: int, b2: int := s[i + 1], s[i + 2];
        Glyph((b0 - 224) * 4096 + (b1 - 128) * 64 + (b2 - 128), 3)
    else if IsLead2(b0) then
      if !IsContinuation(s[i + 1]) then Glyph(0x3f, 1)
      else
        var b1: int := s[i + 1];
        Glyph((b0 - 192) * 64 + (b1 - 128), 2)
    else if IsSingle(b0) then Glyph(b0, 1)
    else Glyph(0x3f, 1)
  }

  /** The continuation bytes a lead byte asks for. */
  function Asked(b: Byte): nat { if IsLead2(b) then 1 else if IsLead3(b) then 2 else if IsLead4(b) then 3 else 0 }

  /** A byte that starts nothing, or whose continuation breaks off, reads as one question mark of one byte. */
  lemma MalformedIsQuestionMark(s: seq<Byte>, i: nat, j: nat)
    requires Terminated(s) && i < |s|
    requires IsContinuation(s[i]) || s[i] >= 248 || (1 <= j <= Asked(s[i]) && (i + j >= |s| || !IsContinuation(s[i + j])))
    ensures Next(s, i) == Glyph(0x3f, 1)
  {
    assert !(IsContinuation(s[i]) || s[i] >= 248) ==> j == 1 || j == 2 || j == 3;
  }

  function TotalSize(gs: seq<Glyph>): nat
  {
    if gs == [] then 0 else gs[0].size + TotalSize(gs[1..])
  }

  /**
    The scan every width and cursor loop runs: decode and step until the length is reached.
    On arbitrary bytes it stops exactly at the terminator.
   */
  function Scan(s: seq<Byte>, i: nat): (gs: seq<Glyph>)
    requires IsCString(s) && i < |s|
    ensures TotalSize(gs) == |s| - 1 - i
    decreases |s| - i
  {
    if i == |s| - 1 then [] else [Next(s, i)] + Scan(s, i + Next(s, i).size)
  }

  // ----- Round trip -----

  /** Decoding reads only the bytes from its start on. */
  lemma NextIgnoresPrefix(pre: seq<Byte>, s: seq<Byte>, i: nat)
    requires Terminated(s) && i < |s|
    ensures Terminated(pre + s) && Next(pre + s, |pre| + i) == Next(s, i)
  {
    var t := pre + s;
    assert forall k :: 0 <= k < |s| ==> t[|pre| + k] == s[k];
    var j := |pre| + i;
    assert t[j] == s[i];
    if i + 1 < |s| { assert t[j + 1] == s[i + 1]; }
    if i + 2 < |s| { assert t[j + 2] == s[i + 2]; }
    if i + 3 < |s| { assert t[j + 3] == s[i + 3]; }
  }

  /** One codepoint survives encoding and decoding, whatever bytes follow it. */
  lemma DecodeEncode(c: Codepoint, rest: seq<Byte>)
    requires Terminated(rest)
    ensures Next(Encode(c) + rest, 0) == Glyph(c, |Encode(c)|)
  {
    hide Next;
    var s := Encode(c) + rest;
    assert forall k :: 0 <= k < |Encode(c)| ==> s[k] == Encode(c)[k];
    var h := c / 64;
    if c >= 0x80 { DecodeBytes(s, c, h, h / 64, h / 64 / 64); } else { DecodeByte(s, c); }
  }

  lemma DecodeByte(s: seq<Byte>, c: Codepoint)
    requires Terminated(s) && c < 0x80 && s[0] == c
    ensures Next(s, 0) == Glyph(c, 1)
  {
  }

  lemma DecodeBytes(s: seq<Byte>, c: Codepoint, h: int, i: int, j: int)
    requires Terminated(s) && c >= 0x80 && h == c / 64 && i == h / 64 && j == i / 64
    requires var n := if c < 0x800 then 2 else if c < 0x1_0000 then 3 else 4;
             |s| > n && s[n - 1] == 128 + c % 64
             && (n == 2 ==> s[0] == 192 + h)
             && (n == 3 ==> s[0] == 224 + i && s[1] == 128 + h % 64)
             && (n == 4 ==> s[0] == 240 + j && s[1] == 128 + i % 64 && s[2] == 128 + h % 64)
    ensures Next(s, 0) == Glyph(c, if c < 0x800 then 2 else if c < 0x1_0000 then 3 else 4)
  {
    var x, y, z := c % 64, h % 64, i % 64;
    assert c == 64 * h + x && h == 64 * i + y && i == 64 * j + z;
    assert 0 <= x < 64 && 0 <= y < 64 && 0 <= z < 64;
  }

  /** No bytes that decode to a codepoint are fewer than its encoding; so the encoding has one to four bytes by size. */
  lemma EncodingIsShortest(c: Codepoint, s: seq<Byte>)
    requires Terminated(s) && Next(s, 0).codepoint == c
    ensures |Encode(c)| <= Next(s, 0).size
    ensures |Encode(c)| == if c < 0x80 then 1 else if c < 0x800 then 2 else if c < 0x1_0000 then 3 else 4
  {
  }

  /** The byte offset of codepoint `p`. */
  function Off(cs: seq<Codepoint>, p: nat): nat
    requires p <= |cs|
  {
    |EncodeAll(cs[..p])|
  }

  lemma {:induction false} EncodeAllAppend(a: seq<Codepoint>, b: seq<Codepoint>)
    ensures EncodeAll(a + b) == EncodeAll(a) + EncodeAll(b)
  {
    if a == [] {
      assert a + b == b;
    } else {
      assert (a + b)[1..] == a[1..] + b;
      EncodeAllAppend(a[1..], b);
    }
  }

  /** The text splits around codepoint `p`. */
  lemma SplitAt(cs: seq<Codepoint>, p: nat)
    requires p <= |cs|
    ensures Off(cs, p) <= |EncodeAll(cs)|
    ensures EncodeAll(cs)[..Off(cs, p)] == EncodeAll(cs[..p])
    ensures EncodeAll(cs)[Off(cs, p)..] == EncodeAll(cs[p..])
  {
    assert cs == cs[..p] + cs[p..];
    EncodeAllAppend(cs[..p], cs[p..]);
  }

  lemma OffStep(cs: seq<Codepoint>, p: nat)
    requires p < |cs|
    ensures Off(cs, p + 1) == Off(cs, p) + |Encode(cs[p])| && EncodeAll(cs[p..]) == Encode(cs[p]) + EncodeAll(cs[p + 1..])
  {
    assert cs[..p + 1] == cs[..p] + [cs[p]];
    EncodeAllAppend(cs[..p], [cs[p]]);
    assert [cs[p]][1..] == [];
    assert cs[p..][1..] == cs[p + 1..];
  }

  /** Decoding at a codepoint boundary of encoded text yields that codepoint and its size. */
  lemma DecodeAt(cs: seq<Codepoint>, p: nat, tail: seq<Byte>)
    requires p < |cs| && Terminated(tail)
    ensures Off(cs, p) <= |EncodeAll(cs)|
    ensures Next(EncodeAll(cs) + tail, Off(cs, p)) == Glyph(cs[p], |Encode(cs[p])|)
  {
    hide Encode, Next;
    SplitAt(cs, p);
    OffStep(cs, p);
    var pre, e, rest := EncodeAll(cs[..p]), Encode(cs[p]), EncodeAll(cs[p + 1..]) + tail;
    assert EncodeAll(cs) + tail == pre + (e + rest);
    DecodeEncode(cs[p], rest);
    NextIgnoresPrefix(pre, e + rest, 0);
  }

  /** The glyphs a scan reads from encoded text: the same codepoints, each with its encoded size. */
  function Glyphs(cs: seq<Codepoint>): seq<Glyph>
  {
    if cs == [] then [] else [Glyph(cs[0], |Encode(cs[0])|)] + Glyphs(cs[1..])
  }

  lemma {:induction false} NonZeroEncoding(cs: seq<Codepoint>)
    requires 0 !in cs
    ensures 0 !in EncodeAll(cs)
  {
    if cs != [] { NonZeroEncoding(cs[1..]); }
  }

  lemma OffEnd(cs: seq<Codepoint>)
    ensures Off(cs, |cs|) == |EncodeAll(cs)|
  {
    assert cs[..|cs|] == cs;
  }

  lemma FirstOfRest(cs: seq<Codepoint>, p: nat)
    requires p < |cs|
    ensures |Encode(cs[p])| > 0 && Off(cs, p) < |EncodeAll(cs)|
  {
    hide Encode;
    assert |Encode(cs[p])| > 0 by { EncodeSome(cs[p]); }
    SplitAt(cs, p);
    OffStep(cs, p);
    assert |EncodeAll(cs[p..])| > 0;
  }

  lemma EncodeSome(c: Codepoint)
    ensures |Encode(c)| > 0
  {
  }

  /** Scanning the concatenated encodings of a codepoint sequence returns that sequence, from any boundary on. */
  lemma {:induction false} ScanInvertsEncodeAll(cs: seq<Codepoint>, p: nat)
    requires 0 !in cs && p <= |cs|
    ensures Off(cs, p) <= |EncodeAll(cs)| && IsCString(EncodeAll(cs) + [0])
    ensures Scan(EncodeAll(cs) + [0], Off(cs, p)) == Glyphs(cs[p..])
    decreases |cs| - p
  {
    hide Encode, Next, EncodeAll, Off;
    NonZeroEncoding(cs);
    SplitAt(cs, p);
    var s := EncodeAll(cs) + [0];
    if p == |cs| {
      assert Off(cs, p) == |EncodeAll(cs)| by { OffEnd(cs); }
      assert cs[p..] == [];
    } else {
      DecodeAt(cs, p, [0]);
      OffStep(cs, p);
      SplitAt(cs, p + 1);
      ScanInvertsEncodeAll(cs, p + 1);
      assert cs[p..][1..] == cs[p + 1..];
      FirstOfRest(cs, p);
    }
  }
}
