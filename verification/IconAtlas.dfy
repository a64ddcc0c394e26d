/**
  `GuiFontIconBaking`, which appends the icons to the font atlas, and `GuiDrawIcon`, which draws an
  icon either from the atlas or bit by bit.
 */
module IconAtlas {
  import opened IconLayout

  /** A gray+alpha pixel: gray in the low byte, alpha in the high byte. */
  type Pixel = p: int | 0 <= p < 0x10000

  const OPAQUE_WHITE: Pixel := 0xffff
  const CLEAR_WHITE: Pixel := 0x00ff

  predicate IsOpaque(p: Pixel) { p / 256 != 0 }

  /** Vertical extent of a glyph in the atlas; the files store whole numbers. */
  datatype GlyphRec = GlyphRec(y: int, height: int)

  /** `BIT_CHECK` on a data word. */
  predicate BitCheck(word: bv32, k: nat)
    requires k < 32
  {
    word & ((1 as bv32) << k) != 0
  }

  /** Bit `16y + x` of an icon's eight data words. */
  predicate IconBit(icons: seq<bv32>, id: nat, x: nat, y: nat)
    requires (id + 1) * WORDS <= |icons| && x < ICON && y < ICON
  {
    BitCheck(icons[id * WORDS + (ICON * y + x) / 32], (ICON * y + x) % 32)
  }

  /** Bit `k` of data word `i` belongs to column `k % 16` of row `2i + k / 16`: two rows of pixels for each word, from its low bit on. */
  lemma WordBit(icons: seq<bv32>, id: nat, i: nat, k: nat)
    requires (id + 1) * WORDS <= |icons| && i < WORDS && k < 32
    ensures k % 16 < ICON && 2 * i + k / 16 < ICON
    ensures IconBit(icons, id, k % 16, 2 * i + k / 16) <==> BitCheck(icons[id * WORDS + i], k)
  {
    hide BitCheck;
    Position(i, k);
  }

  lemma Position(i: nat, k: nat)
    requires k < 32
    ensures (ICON * (2 * i + k / 16) + k % 16) / 32 == i && (ICON * (2 * i + k / 16) + k % 16) % 32 == k
  {
    assert ICON * (2 * i + k / 16) + k % 16 == 32 * i + k;
  }

  /** Bit `k` of data word `i` of an icon is set. */
  predicate HasBit(icons: seq<bv32>, id: nat, i: nat, k: nat)
    requires (id + 1) * WORDS <= |icons| && i < WORDS && k < 32
  {
    icons[id * WORDS + i] & ((1 as bv32) << k) != 0
  }

  lemma HasBitIs(icons: seq<bv32>, id: nat, i: nat, k: nat)
    requires (id + 1) * WORDS <= |icons| && i < WORDS && k < 32
    ensures HasBit(icons, id, i, k) <==> BitCheck(icons[id * WORDS + i], k)
  {
  }

  function IconPixel(icons: seq<bv32>, id: nat, x: nat, y: nat): Pixel
    requires (id + 1) * WORDS <= |icons| && x < ICON && y < ICON
  {
    if IconBit(icons, id, x, y) then OPAQUE_WHITE else CLEAR_WHITE
  }

  // ----- The glyphs -----

  function LowestGlyph(recs: seq<GlyphRec>): (r: nat)
  {
    if recs == [] then 0
    else
      var r, g := LowestGlyph(recs[..|recs| - 1]), recs[|recs| - 1];
      if g.y + g.height > r then g.y + g.height else r
  }

  /** The lowest glyph bottom: no glyph reaches below it, and it is a glyph's bottom or the top of the atlas. */
  lemma {:induction false} LowestGlyphIsLowest(recs: seq<GlyphRec>)
    ensures forall g :: g in recs ==> g.y + g.height <= LowestGlyph(recs)
    ensures LowestGlyph(recs) == 0 || exists g :: g in recs && LowestGlyph(recs) == g.y + g.height
  {
    if recs != [] {
      var front, last := recs[..|recs| - 1], recs[|recs| - 1];
      LowestGlyphIsLowest(front);
      assert forall g :: g in recs <==> g in front || g == last;
    }
  }

  method MaxGlyphRecY(recs: seq<GlyphRec>) returns (max: nat)
    ensures max == LowestGlyph(recs)
  {
    max := 0;
    var i := 0;
    while i < |recs|
      invariant 0 <= i <= |recs|
      invariant max == LowestGlyph(recs[..i])
    {
      if recs[i].y + recs[i].height > max { max := recs[i].y + recs[i].height; }
      assert recs[..i + 1][..i] == recs[..i];
      i := i + 1;
    }
    assert recs[..i] == recs;
  }

  // ----- The image -----

  /** Where the baker leaves a white pixel: nowhere if the image did not have to grow. */
  datatype White = Zero | WhiteAt(x: int, y: int)

  /** What baking comes to. */
  datatype Baking = Undefined | Appended(iconOffsetY: nat, white: White)

  /** The pixels of an image as the loops address them: row by row. */
  class Image {
    var width: nat
    var height: nat
    var pixels: array2<Pixel>

    ghost predicate Valid()
      reads this
    {
      pixels.Length0 == height && pixels.Length1 == width
    }

    constructor (w: nat, h: nat)
      ensures Valid() && width == w && height == h && fresh(pixels)
    {
      width, height := w, h;
      pixels := new Pixel[h, w];
    }

    /** The doubling loop. */
    method RoundToPowerOfTwo(need: nat) returns (h: nat)
      ensures h == GrownHeight(need)
    {
      h := 1;
      ghost var k := 0;
      while h < need
        invariant h == Power(k) && (k > 0 ==> Power(k - 1) < need)
        invariant LeastExponent(need, 0) == LeastExponent(need, k)
        decreases need - h
      {
        h := 2 * h;
        k := k + 1;
      }
    }

    /** Replace the pixels by a taller copy; the old corner cleared by the C code must lie inside the image. */
    method Grow(h: nat)
      requires Valid() && height < h && 4 <= height && 4 <= width
      modifies this
      ensures Valid() && width == old(width) && height == h && fresh(pixels)
      ensures forall x, y :: 0 <= x < width && 0 <= y < h ==>
                pixels[y, x] == if h - 3 <= y && width - 3 <= x then OPAQUE_WHITE
                                else if y >= old(height) || (old(height) - 4 <= y && width - 4 <= x) then 0
                                else old(pixels[y, x])
    {
      var data := new Pixel[h, width]((y, x) => 0);
      CopyRows(data);
      for y := 0 to 4
        modifies data
        invariant forall i, j :: 0 <= i < h && 0 <= j < width ==>
                    data[i, j] == if height - y <= i < height && width - 4 <= j then 0 else if i < height then pixels[i, j] else 0
      {
        for x := 0 to 4
          modifies data
          invariant forall i, j :: 0 <= i < h && 0 <= j < width ==>
                      data[i, j] == if (height - y <= i < height && width - 4 <= j) || (i == height - y - 1 && width - x <= j) then 0
                                    else if i < height then pixels[i, j] else 0
        {
          data[height - y - 1, width - x - 1] := 0;
        }
      }
      for y := 0 to 3
        modifies data
        invariant forall i, j :: 0 <= i < h && 0 <= j < width ==>
                    data[i, j] == if h - y <= i && width - 3 <= j then OPAQUE_WHITE
                                  else if height - 4 <= i < height && width - 4 <= j then 0
                                  else if i < height then pixels[i, j] else 0
      {
        for x := 0 to 3
          modifies data
          invariant forall i, j :: 0 <= i < h && 0 <= j < width ==>
                      data[i, j] == if (h - y <= i && width - 3 <= j) || (i == h - y - 1 && width - x <= j) then OPAQUE_WHITE
                                    else if height - 4 <= i < height && width - 4 <= j then 0
                                    else if i < height then pixels[i, j] else 0
        {
          data[h - y - 1, width - x - 1] := OPAQUE_WHITE;
        }
      }
      pixels, height := data, h;
    }

    method CopyRows(data: array2<Pixel>)
      requires Valid() && data.Length1 == width && height <= data.Length0 && data != pixels
      modifies data
      ensures forall x, y :: 0 <= x < width && 0 <= y < data.Length0 ==>
                data[y, x] == if y < height then pixels[y, x] else old(data[y, x])
    {
      forall y, x | 0 <= y < height && 0 <= x < width {
        data[y, x] := pixels[y, x];
      }
    }

    /** The bit-to-pixel walk of one icon: two rows of sixteen pixels for each data word. */
    method BakeIcon(icons: seq<bv32>, id: nat, left: nat, top: nat)
      requires Valid() && left + ICON <= width && top + ICON <= height && (id + 1) * WORDS <= |icons|
      modifies pixels
      ensures Walked(icons, id, left, top, ICON * ICON, old(Rows()))
      ensures forall i, k :: 0 <= i < WORDS && 0 <= k < 32 ==>
                pixels[top + 2 * i + k / 16, left + k % 16] == if HasBit(icons, id, i, k) then OPAQUE_WHITE else CLEAR_WHITE
    {
      hide Walked, HasBit;
      ghost var was := Rows();
      WalkBegins(icons, id, left, top);
      var row := 0;
      for i := 0 to WORDS
        invariant row == 2 * i && Walked(icons, id, left, top, 32 * i, was)
      {
        row := BakeWord(icons, id, left, top, i, was);
      }
      BlockBits(icons, id, left, top, was);
    }

    lemma BlockBits(icons: seq<bv32>, id: nat, left: nat, top: nat, was: seq<seq<Pixel>>)
      requires Valid() && left + ICON <= width && top + ICON <= height && (id + 1) * WORDS <= |icons|
      requires Walked(icons, id, left, top, ICON * ICON, was)
      ensures forall i, k :: 0 <= i < WORDS && 0 <= k < 32 ==>
                pixels[top + 2 * i + k / 16, left + k % 16] == if HasBit(icons, id, i, k) then OPAQUE_WHITE else CLEAR_WHITE
    {
      hide IconBit, BitCheck, HasBit, Walked;
      forall i, k | 0 <= i < WORDS && 0 <= k < 32
        ensures pixels[top + 2 * i + k / 16, left + k % 16] == if HasBit(icons, id, i, k) then OPAQUE_WHITE else CLEAR_WHITE
      {
        WordBit(icons, id, i, k);
        HasBitIs(icons, id, i, k);
        WalkedAt(icons, id, left, top, was, k % 16, 2 * i + k / 16);
      }
    }

    lemma WalkedAt(icons: seq<bv32>, id: nat, left: nat, top: nat, was: seq<seq<Pixel>>, x: nat, y: nat)
      requires Valid() && left + ICON <= width && top + ICON <= height && (id + 1) * WORDS <= |icons| && x < ICON && y < ICON
      requires Walked(icons, id, left, top, ICON * ICON, was)
      ensures pixels[top + y, left + x] == IconPixel(icons, id, x, y)
    {
      hide IconPixel;
      assert left + x - left == x && top + y - top == y;
    }

    method BakeWord(icons: seq<bv32>, id: nat, left: nat, top: nat, i: nat, ghost was: seq<seq<Pixel>>) returns (row: nat)
      requires Valid() && left + ICON <= width && top + ICON <= height && (id + 1) * WORDS <= |icons| && i < WORDS
      requires Walked(icons, id, left, top, 32 * i, was)
      modifies pixels
      ensures row == 2 * i + 2 && Walked(icons, id, left, top, 32 * i + 32, was)
    {
      hide Walked, BitCheck, IconBit;
      row := 2 * i;
      var data := icons[id * WORDS + i];
      for k := 0 to 32
        invariant row == 2 * i + k / 16 && Walked(icons, id, left, top, 32 * i + k, was)
      {
        WordBit(icons, id, i, k);
        SetBit(icons, id, left, top, k % 16, row, if BitCheck(data, k) then OPAQUE_WHITE else CLEAR_WHITE, was);
        if k == 15 || k == 31 { row := row + 1; }
      }
    }

    /** The assignment of the walk, for column `x` of row `y`. */
    method SetBit(icons: seq<bv32>, id: nat, left: nat, top: nat, x: nat, y: nat, v: Pixel, ghost was: seq<seq<Pixel>>)
      requires Valid() && left + ICON <= width && top + ICON <= height && (id + 1) * WORDS <= |icons| && x < ICON && y < ICON
      requires Walked(icons, id, left, top, ICON * y + x, was) && v == IconPixel(icons, id, x, y)
      modifies pixels
      ensures Walked(icons, id, left, top, ICON * y + x + 1, was)
    {
      hide IconPixel;
      pixels[top + y, left + x] := v;
    }

    /** The pixels row by row, as a value. */
    ghost function Rows(): seq<seq<Pixel>>
      requires Valid()
      reads this, pixels
    {
      seq(height, y requires 0 <= y < height reads this, pixels requires Valid() =>
        seq(width, x requires 0 <= x < width && 0 <= y < height reads this, pixels requires Valid() => pixels[y, x]))
    }

    /** The first `n` bits of the icon are in its block; every other pixel is as it was. */
    ghost predicate Walked(icons: seq<bv32>, id: nat, left: nat, top: nat, n: nat, was: seq<seq<Pixel>>)
      requires Valid() && (id + 1) * WORDS <= |icons|
      reads this, pixels
    {
      && |was| == height && (forall y :: 0 <= y < height ==> |was[y]| == width)
      && forall x, y :: 0 <= x < width && 0 <= y < height ==>
           pixels[y, x] == if left <= x < left + ICON && top <= y < top + ICON && ICON * (y - top) + (x - left) < n
                           then IconPixel(icons, id, x - left, y - top) else was[y][x]
    }

    lemma WalkBegins(icons: seq<bv32>, id: nat, left: nat, top: nat)
      requires Valid() && (id + 1) * WORDS <= |icons|
      ensures Walked(icons, id, left, top, 0, Rows())
    {
    }

    // ----- Baking all icons -----

    /** The pixels of icons `0..n` hold their bits. */
    ghost predicate Baked(icons: seq<bv32>, offset: nat, n: nat)
      requires Valid() && width >= CELL && n * WORDS <= |icons|
      reads this, pixels
    {
      forall id: nat, x: nat, y: nat :: id < n && InIcon(width, offset, id, x, y) ==>
        x < width && y < height && pixels[y, x] == IconPixel(icons, id, x - Left(width, id), y - Top(width, offset, id))
    }

    /** Grow the image if it is not as high as needed. */
    method MakeRoom(need: nat) returns (white: White)
      requires Valid() && width >= CELL && (need > height ==> height >= 4)
      modifies this
      ensures Valid() && width == old(width) && height == FinalHeight(old(height), need) && old(height) <= height
      ensures (need > old(height) <==> height > old(height)) && (pixels == old(pixels) || fresh(pixels))
      ensures forall x, y :: 0 <= x < width && 0 <= y < height ==>
                pixels[y, x] == if need > old(height) && height - 3 <= y && width - 3 <= x then OPAQUE_WHITE
                                else if y >= old(height) || (need > old(height) && old(height) - 4 <= y && width - 4 <= x) then 0
                                else old(pixels[y, x])
      ensures white == if need > old(height) then WhiteAt(width - 2, height - 2) else Zero
    {
      white := Zero;
      GrownHeightIsLeast(need, 0);
      if need > height {
        var h := RoundToPowerOfTwo(need);
        Grow(h);
        white := WhiteAt(width - 2, height - 2);
      }
    }

    /**
      The C code checks none of its bounds.  The model stops with `Undefined` where the C code would divide
      by zero or write outside the image, and nowhere else.  Old pixels stay, except under the icons and in the
      corner the growing image clears; new pixels are zero, except for the icons and a white corner.
     */
    method GuiFontIconBaking(recs: seq<GlyphRec>, icons: seq<bv32>) returns (r: Baking)
      requires Valid() && BAKED * WORDS <= |icons|
      modifies this, pixels
      ensures r.Undefined? <==> !StaysInside(old(width), old(height), LowestGlyph(recs))
      ensures r.Appended? ==>
                var need := LowestGlyph(recs) + ReservedHeight(old(width));
                var grows := need > old(height);
                && Valid() && width == old(width) && height == FinalHeight(old(height), need) && old(height) <= height
                && (grows <==> height > old(height))
                && r.iconOffsetY == FirstRow(LowestGlyph(recs)) && Baked(icons, r.iconOffsetY, BAKED)
                && (forall x: nat, y: nat :: x < width && y < height && Free(width, r.iconOffsetY, BAKED, x, y) ==>
                      pixels[y, x] == if grows && height - 3 <= y && width - 3 <= x then OPAQUE_WHITE
                                      else if y >= old(height) || (grows && old(height) - 4 <= y && width - 4 <= x) then 0
                                      else old(pixels[y, x]))
                && r.white == (if grows then WhiteAt(width - 2, height - 2) else Zero)
                && (r.white.WhiteAt? ==> pixels[r.white.y, r.white.x] == OPAQUE_WHITE)
      ensures r.Appended? ==>  // the glyphs stay
                forall x: nat, y: nat :: x < width && y < old(height) && y < LowestGlyph(recs) ==>
                  pixels[y, x] == old(pixels[y, x])
                  || (height > old(height) && old(height) - 4 <= y && width - 4 <= x)
    {
      hide IconPixel, InIcon, Left, Top, Bottom, FirstRow, Baked, Free;
      r := Undefined;
      var max := MaxGlyphRecY(recs);
      var maxIconsPerLine := width / CELL;
      if maxIconsPerLine == 0 { return; }
      assert ReservedHeight(width) == LinesReserved(width) * CELL;
      var reqIconLines := BAKED / maxIconsPerLine + BAKED % maxIconsPerLine + 1;
      var need := max + reqIconLines * CELL;
      if need > height && height < 4 { return; }
      var white := MakeRoom(need);
      var n := BakeAll(icons, max, FirstRow(max));
      if n < BAKED { return; }
      if white != Zero { WhitePixelIsFree(width, max, LeastExponent(need, 0)); }
      forall x: nat, y: nat | x < width && y < max ensures Free(width, FirstRow(max), BAKED, x, y) {
        GlyphRowsAreFree(width, max, x, y);
      }
      r := Appended(FirstRow(max), white);
    }

    /**
      The style loader's call: it takes the baker's white rectangle for the font's own one exactly if the
      baked icons are in use, also when the baker left none because the image did not grow.
     */
    method BakeFont(recs: seq<GlyphRec>, icons: seq<bv32>, fontWhiteRec: White) returns (r: Baking, white: White)
      requires Valid() && BAKED * WORDS <= |icons|
      modifies this, pixels
      ensures r.Undefined? <==> !StaysInside(old(width), old(height), LowestGlyph(recs))
      ensures r.Appended? ==>
                var need := LowestGlyph(recs) + ReservedHeight(old(width));
                && r.iconOffsetY == FirstRow(LowestGlyph(recs))
                && white == if LowestGlyph(recs) == 0 then fontWhiteRec
                            else if need > old(height) then WhiteAt(old(width) - 2, FinalHeight(old(height), need) - 2) else Zero
    {
      white := fontWhiteRec;
      r := GuiFontIconBaking(recs, icons);
      if r.Appended? && r.iconOffsetY > 0 { white := r.white; }
    }

    /** The baking loop; it stops at the first icon that does not end above the image's end. */
    method BakeAll(icons: seq<bv32>, ghost max: nat, iconOffsetY: nat) returns (n: nat)
      requires Valid() && width >= CELL && BAKED * WORDS <= |icons| && iconOffsetY == FirstRow(max)
      modifies pixels
      ensures n <= BAKED && Baked(icons, iconOffsetY, n)
      ensures n < BAKED ==> Top(width, iconOffsetY, n) + ICON > height
      ensures n == BAKED <==> Bottom(width, max) <= height
      ensures forall x: nat, y: nat :: x < width && y < height && Free(width, iconOffsetY, n, x, y) ==>
                pixels[y, x] == old(pixels[y, x])
    {
      hide IconPixel, InIcon, Left, Top, FirstRow;
      var offsetX, offsetY := PADDING, iconOffsetY + PADDING;
      n := 0;
      while n < BAKED
        invariant n <= BAKED
        invariant n == 0 ==> offsetX == PADDING && offsetY == iconOffsetY + PADDING
        invariant n > 0 ==> offsetX == Left(width, n - 1) + CELL && offsetY == Top(width, iconOffsetY, n - 1)
        invariant n == BAKED ==> Bottom(width, max) <= height
        invariant Baked(icons, iconOffsetY, n)
        invariant forall x: nat, y: nat :: x < width && y < height && Free(width, iconOffsetY, n, x, y) ==>
                    pixels[y, x] == old(pixels[y, x])
      {
        StepCell(width, iconOffsetY, n);
        if offsetX + CELL > width {
          offsetX := PADDING;
          offsetY := offsetY + CELL;
        }
        assert offsetX == Left(width, n) && offsetY == Top(width, iconOffsetY, n);
        IconInside(width, max, n);
        if offsetY + ICON > height { return; }
        BakeNext(icons, iconOffsetY, n);
        offsetX := offsetX + CELL;
        n := n + 1;
      }
    }

    /** One more icon: those already baked stay, because no two share a pixel. */
    method BakeNext(icons: seq<bv32>, offset: nat, id: nat)
      requires Valid() && width >= CELL && (id + 1) * WORDS <= |icons| && Baked(icons, offset, id)
      requires Left(width, id) + ICON <= width && Top(width, offset, id) + ICON <= height
      modifies pixels
      ensures Baked(icons, offset, id + 1)
      ensures forall x: nat, y: nat :: x < width && y < height && !InIcon(width, offset, id, x, y) ==>
                pixels[y, x] == old(pixels[y, x])
    {
      hide IconPixel, Left, Top;
      BakeIcon(icons, id, Left(width, id), Top(width, offset, id));
      forall j: nat, x: nat, y: nat | j < id && InIcon(width, offset, j, x, y)
        ensures !InIcon(width, offset, id, x, y)
      {
        if InIcon(width, offset, id, x, y) { IconsAreDisjoint(width, offset, j, id, x, y); }
      }
    }
  }

  /** The pixel belongs to none of the first `n` icons. */
  predicate Free(w: nat, offset: nat, n: nat, x: nat, y: nat)
    requires w >= CELL
  {
    forall id: nat :: id < n ==> !InIcon(w, offset, id, x, y)
  }

  /** The wrap test of the baking loop leads from one cell to the next. */
  lemma StepCell(w: nat, offset: nat, id: nat)
    requires w >= CELL
    ensures id == 0 ==> Left(w, 0) == PADDING && Top(w, offset, 0) == offset + PADDING + if PADDING + CELL > w then CELL else 0
    ensures id > 0 && Left(w, id - 1) + CELL + CELL > w ==>
              Left(w, id) == PADDING && Top(w, offset, id) == Top(w, offset, id - 1) + CELL
    ensures id > 0 && Left(w, id - 1) + CELL + CELL <= w ==>
              Left(w, id) == Left(w, id - 1) + CELL && Top(w, offset, id) == Top(w, offset, id - 1)
  {
    if id > 0 { NextCell(w, id - 1); }
  }

  // ----- What baking leaves alone -----

  /** Rows above the cells, the glyphs among them, belong to no icon. */
  lemma GlyphRowsAreFree(w: nat, maxGlyphY: nat, x: nat, y: nat)
    requires w >= CELL && y < maxGlyphY
    ensures Free(w, FirstRow(maxGlyphY), BAKED, x, y)
  {
  }

  /**
    The pixel that `whiteRec` points at in a grown atlas is still white if the icons fit: at a width of one
    cell no icon reaches its row, which is two above a power of two, at others none reaches its column.
   */
  lemma WhitePixelIsFree(w: nat, maxGlyphY: nat, k: nat)
    requires w >= CELL && k > 0 && Bottom(w, maxGlyphY) <= Power(k)
    ensures Power(k) >= 2 && Free(w, FirstRow(maxGlyphY), BAKED, w - 2, Power(k) - 2)
  {
    hide Top, Left, FirstRow, Bottom;
    assert Power(k) == 2 * Power(k - 1);
    var offset, x, y := FirstRow(maxGlyphY), w - 2, Power(k) - 2;
    forall id: nat | id < BAKED
      ensures !InIcon(w, offset, id, x, y)
    {
      if PerLine(w) > 0 { RightEnd(w, id); } else { IconInside(w, maxGlyphY, id); LastRow(w, maxGlyphY, k); }
    }
  }

  lemma RightEnd(w: nat, id: nat)
    requires w >= CELL && PerLine(w) > 0
    ensures Left(w, id) + ICON <= w - 2
  {
    var p := PerLine(w);
    assert id % p <= p - 1;
  }

  /** The icons end one row short of a multiple of a cell, and no power of two is one or follows one by one. */
  lemma LastRow(w: nat, maxGlyphY: nat, k: nat)
    requires w >= CELL && k > 0 && Bottom(w, maxGlyphY) <= Power(k)
    ensures Bottom(w, maxGlyphY) <= Power(k) - 2
  {
    hide Bottom;
    var j := BottomIsCells(w, maxGlyphY);
    PowerIsNoThird(k, 6 * j);
    assert Power(k) == 2 * Power(k - 1);
    NotBeside(Bottom(w, maxGlyphY), j, Power(k), Power(k - 1));
  }

  lemma BottomIsCells(w: nat, maxGlyphY: nat) returns (j: nat)
    requires w >= CELL
    ensures Bottom(w, maxGlyphY) == CELL * j - 1
  {
    hide Bottom, LinesUsed;
    BottomIs(w, maxGlyphY);
    j := (maxGlyphY + CELL - 1) / CELL + LinesUsed(w);
  }

  lemma NotBeside(b: int, j: int, p: int, half: int)
    requires b == CELL * j - 1 && p == 2 * half && p != 3 * (6 * j) && b <= p
    ensures b <= p - 2
  {
  }

  lemma {:induction false} PowerIsNoThird(k: nat, i: int)
    ensures Power(k) != 3 * i
  {
    if k > 0 { PowerIsNoThird(k - 1, Power(k - 1) - i); }
  }

  // ----- Drawing an icon -----

  /** A position in the 16 by 16 grid of an icon. */
  datatype Dot = Dot(x: int, y: int)

  /** The dots of an icon, by its bits. */
  function IconDots(icons: seq<bv32>, id: nat): set<Dot>
    requires (id + 1) * WORDS <= |icons|
  {
    set x, y | 0 <= x < ICON && 0 <= y < ICON && IconBit(icons, id, x, y) :: Dot(x, y)
  }

  /** The visible dots of the source rectangle at `left`, `top` of the atlas texture. */
  function TextureDots(im: Image, left: nat, top: nat): set<Dot>
    requires im.Valid() && left + ICON <= im.width && top + ICON <= im.height
    reads im, im.pixels
  {
    set x, y | 0 <= x < ICON && 0 <= y < ICON && IsOpaque(im.pixels[top + y, left + x]) :: Dot(x, y)
  }

  /** May the painter take the icon from the atlas? */
  predicate UsesAtlas(offset: nat, id: nat) { offset > 0 && id < BAKED }

  /** `GuiDrawIcon` up to position, scale and colour: the dots of the 16 by 16 grid it paints. */
  method GuiDrawIcon(im: Image, offset: nat, icons: seq<bv32>, id: nat) returns (dots: set<Dot>)
    requires (id + 1) * WORDS <= |icons|
    requires UsesAtlas(offset, id) ==>
               && im.Valid() && im.width >= CELL
               && LookupLeft(im.width, id) + ICON <= im.width && LookupTop(im.width, offset, id) + ICON <= im.height
    ensures dots == if UsesAtlas(offset, id) then TextureDots(im, LookupLeft(im.width, id), LookupTop(im.width, offset, id))
                    else IconDots(icons, id)
    ensures offset == 0 || id >= BAKED ==>  // without baked icons, and for icons that are not baked: by the bits
              forall i, k :: 0 <= i < WORDS && 0 <= k < 32 ==> (Dot(k % 16, 2 * i + k / 16) in dots <==> HasBit(icons, id, i, k))
  {
    hide BitCheck, HasBit, IconBit, IconDots, TextureDots;
    if offset > 0 && id < BAKED {
      var maxIconsPerLine := im.width / CELL;
      var x, y := id % maxIconsPerLine, id / maxIconsPerLine;
      dots := TextureDots(im, x * CELL + PADDING, offset + y * CELL + PADDING);
    } else {
      dots := DrawBits(icons, id);
    }
  }

  /** The branch that paints a rectangle for every set bit. */
  method DrawBits(icons: seq<bv32>, id: nat) returns (dots: set<Dot>)
    requires (id + 1) * WORDS <= |icons|
    ensures dots == IconDots(icons, id)
    ensures forall i, k :: 0 <= i < WORDS && 0 <= k < 32 ==>
              (Dot(k % 16, 2 * i + k / 16) in dots <==> HasBit(icons, id, i, k))
    ensures forall d :: d in dots ==> 0 <= d.x < ICON && 0 <= d.y < ICON
  {
    hide BitCheck, HasBit, IconBit;
    dots := {};
    var row := 0;
    for i := 0 to ICON * ICON / 32
      invariant row == 2 * i
      invariant forall x, y :: Dot(x, y) in dots <==> 0 <= x < ICON && 0 <= y < ICON && IconBit(icons, id, x, y) && ICON * y + x < 32 * i
    {
      for k := 0 to 32
        invariant row == 2 * i + k / 16
        invariant forall x, y :: Dot(x, y) in dots <==>
                    0 <= x < ICON && 0 <= y < ICON && IconBit(icons, id, x, y) && ICON * y + x < 32 * i + k
      {
        WordBit(icons, id, i, k);
        if BitCheck(icons[id * WORDS + i], k) {
          dots := dots + {Dot(k % ICON, row)};
        }
        if k == 15 || k == 31 { row := row + 1; }
      }
    }
    forall x: int, y: int
      ensures Dot(x, y) in dots <==> Dot(x, y) in IconDots(icons, id)
    {
      if 0 <= x < ICON && 0 <= y < ICON { assert ICON * y + x < 32 * 8; }
    }
    SameDots(dots, IconDots(icons, id));
    DotsOfWords(icons, id);
  }

  /** The dots of an icon, read off its words. */
  lemma DotsOfWords(icons: seq<bv32>, id: nat)
    requires (id + 1) * WORDS <= |icons|
    ensures forall i, k :: 0 <= i < WORDS && 0 <= k < 32 ==>
              (Dot(k % 16, 2 * i + k / 16) in IconDots(icons, id) <==> HasBit(icons, id, i, k))
  {
    hide IconBit, BitCheck, HasBit;
    forall i, k | 0 <= i < WORDS && 0 <= k < 32
      ensures Dot(k % 16, 2 * i + k / 16) in IconDots(icons, id) <==> HasBit(icons, id, i, k)
    {
      WordBit(icons, id, i, k);
      HasBitIs(icons, id, i, k);
    }
  }

  lemma SameDots(a: set<Dot>, b: set<Dot>)
    requires forall x, y :: Dot(x, y) in a <==> Dot(x, y) in b
    ensures a == b
  {
    forall p
      ensures p in a <==> p in b
    {
      assert p == Dot(p.x, p.y);
    }
  }

  /**
    The cache agrees with the simple form: on a baked atlas the texture branch finds its cell inside the
    image and paints exactly the dots the bit branch would, for every icon whose lookup matches.
   */
  lemma AtlasAgreesWithBits(im: Image, icons: seq<bv32>, maxGlyphY: nat, id: nat)
    requires im.Valid() && im.width >= CELL && BAKED * WORDS <= |icons| && id < BAKED
    requires Bottom(im.width, maxGlyphY) <= im.height && im.Baked(icons, FirstRow(maxGlyphY), BAKED)
    requires LookupMatches(im.width, id)
    ensures LookupLeft(im.width, id) + ICON <= im.width && LookupTop(im.width, FirstRow(maxGlyphY), id) + ICON <= im.height
    ensures TextureDots(im, LookupLeft(im.width, id), LookupTop(im.width, FirstRow(maxGlyphY), id)) == IconDots(icons, id)
  {
    hide BitCheck, HasBit, IconBit, FirstRow, Bottom, LookupLeft, LookupTop, LookupMatches;
    var offset := FirstRow(maxGlyphY);
    LookupIsBaked(im.width, offset, id);
    IconInside(im.width, maxGlyphY, id);
    var left, top := Left(im.width, id), Top(im.width, offset, id);
    forall x, y | 0 <= x < ICON && 0 <= y < ICON
      ensures IsOpaque(im.pixels[top + y, left + x]) <==> IconBit(icons, id, x, y)
    {
      assert InIcon(im.width, offset, id, left + x, top + y);
    }
  }

  /** On a baked atlas `GuiDrawIcon` paints the icon's own dots for every icon there is, baked or not, whose lookup matches. */
  lemma DrawnIsTheIcon(im: Image, icons: seq<bv32>, maxGlyphY: nat, id: nat, dots: set<Dot>)
    requires im.Valid() && im.width >= CELL && BAKED * WORDS <= |icons| && (id + 1) * WORDS <= |icons|
    requires Bottom(im.width, maxGlyphY) <= im.height && im.Baked(icons, FirstRow(maxGlyphY), BAKED)
    requires LookupMatches(im.width, id)
    requires UsesAtlas(FirstRow(maxGlyphY), id) ==>
               && LookupLeft(im.width, id) + ICON <= im.width && LookupTop(im.width, FirstRow(maxGlyphY), id) + ICON <= im.height
               && dots == TextureDots(im, LookupLeft(im.width, id), LookupTop(im.width, FirstRow(maxGlyphY), id))
    requires !UsesAtlas(FirstRow(maxGlyphY), id) ==> dots == IconDots(icons, id)
    ensures forall i, k :: 0 <= i < WORDS && 0 <= k < 32 ==>
              (Dot(k % 16, 2 * i + k / 16) in dots <==> HasBit(icons, id, i, k))
  {
    hide BitCheck, HasBit, IconBit, FirstRow, Bottom, LookupLeft, LookupTop, LookupMatches, TextureDots, IconDots;
    if id < BAKED { AtlasAgreesWithBits(im, icons, maxGlyphY, id); }
    DotsOfWords(icons, id);
  }

  /** The pixels of a baked icon, read off its words. */
  lemma BakedWords(im: Image, icons: seq<bv32>, offset: nat, id: nat, i: nat, k: nat)
    requires im.Valid() && im.width >= CELL && BAKED * WORDS <= |icons| && id < BAKED && i < WORDS && k < 32
    requires im.Baked(icons, offset, BAKED)
    ensures var x, y := Left(im.width, id) + k % 16, Top(im.width, offset, id) + 2 * i + k / 16;
            x < im.width && y < im.height
            && im.pixels[y, x] == if HasBit(icons, id, i, k) then OPAQUE_WHITE else CLEAR_WHITE
  {
    hide IconBit, BitCheck, HasBit, Left, Top;
    WordBit(icons, id, i, k);
    HasBitIs(icons, id, i, k);
    var left, top := Left(im.width, id), Top(im.width, offset, id);
    var x, y := left + k % 16, top + (2 * i + k / 16);
    assert InIcon(im.width, offset, id, x, y);
    assert x - left == k % 16 && y - top == 2 * i + k / 16;
  }
}
