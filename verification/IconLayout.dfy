/**
  Where the icon baker puts an icon in the font atlas, where the icon painter looks for it, and
  when the two places are the same.
 */
module IconLayout {

  const ICON := 16        // pixels per icon side
  const PADDING := 1      // pixels around a baked icon
  const CELL := 18        // ICON + 2*PADDING
  const BAKED := 257      // icons baked into the atlas
  const WORDS := 8        // data words per icon

  // ----- Where the baker writes -----

  /** Icons the baker fits in a line: it wraps when the next cell would pass the right edge. */
  function PerLine(w: nat): nat
    requires w >= CELL
  {
    (w - 1) / CELL
  }

  /** Column and line of a baked icon.  At a width of one cell the baker wraps before every icon, the first included. */
  function Col(w: nat, id: nat): nat
    requires w >= CELL
  {
    if PerLine(w) == 0 then 0 else id % PerLine(w)
  }

  function Line(w: nat, id: nat): nat
    requires w >= CELL
  {
    if PerLine(w) == 0 then id + 1 else id / PerLine(w)
  }

  /** Left column of a baked icon's pixels. */
  function Left(w: nat, id: nat): nat
    requires w >= CELL
  {
    PADDING + CELL * Col(w, id)
  }

  /** Top row of a baked icon's pixels, for cells starting at row `offset`. */
  function Top(w: nat, offset: nat, id: nat): nat
    requires w >= CELL
  {
    offset + PADDING + CELL * Line(w, id)
  }

  predicate InIcon(w: nat, offset: nat, id: nat, x: nat, y: nat)
    requires w >= CELL
  {
    Left(w, id) <= x < Left(w, id) + ICON && Top(w, offset, id) <= y < Top(w, offset, id) + ICON
  }

  /** Division by `p` is the only way to write a number as a multiple of `p` and a rest below it. */
  lemma DivisionIsUnique(n: nat, p: nat, q: nat, r: nat)
    requires p > 0 && r < p && n == q * p + r
    ensures n / p == q && n % p == r
  {
    var d := n / p - q;
    assert n == n / p * p + n % p;
    assert d * p == r - n % p;
    Multiple(d, p);
  }

  lemma Multiple(d: int, p: int)
    requires p > 0
    ensures d >= 1 ==> d * p >= p
    ensures d <= -1 ==> d * p <= -p
  {
  }

  /** The cell after `id` is the next column, or the first column of the next line when the line is full. */
  lemma NextCell(w: nat, id: nat)
    requires w >= CELL
    ensures Col(w, id) < w / CELL
    ensures Left(w, id) + ICON <= w
    ensures Left(w, id) + CELL + CELL > w ==> Col(w, id + 1) == 0 && Line(w, id + 1) == Line(w, id) + 1
    ensures Left(w, id) + CELL + CELL <= w ==> Col(w, id + 1) == Col(w, id) + 1 && Line(w, id + 1) == Line(w, id)
  {
    var p := PerLine(w);
    if p > 0 { NextQuotient(id, p); }
  }

  lemma NextQuotient(id: nat, p: nat)
    requires p > 0
    ensures id % p + 1 == p ==> (id + 1) / p == id / p + 1 && (id + 1) % p == 0
    ensures id % p + 1 < p ==> (id + 1) / p == id / p && (id + 1) % p == id % p + 1
  {
    var q, r := id / p, id % p;
    assert id == q * p + r;
    if r + 1 == p {
      assert (q + 1) * p == q * p + p;
      DivisionIsUnique(id + 1, p, q + 1, 0);
    } else {
      DivisionIsUnique(id + 1, p, q, r + 1);
    }
  }

  /** No pixel belongs to two icons. */
  lemma IconsAreDisjoint(w: nat, offset: nat, i: nat, j: nat, x: nat, y: nat)
    requires w >= CELL && InIcon(w, offset, i, x, y) && InIcon(w, offset, j, x, y)
    ensures i == j
  {
    assert Col(w, i) == Col(w, j) && Line(w, i) == Line(w, j);
    var p := PerLine(w);
    if p > 0 {
      assert i == i / p * p + i % p;
      assert j == j / p * p + j % p;
    }
  }

  // ----- Where the painter looks -----

  /** Left column and top row of the source rectangle `GuiDrawIcon` asks the texture for. */
  function LookupLeft(w: nat, id: nat): nat
    requires w >= CELL
  {
    id % (w / CELL) * CELL + PADDING
  }

  function LookupTop(w: nat, offset: nat, id: nat): nat
    requires w >= CELL
  {
    offset + id / (w / CELL) * CELL + PADDING
  }

  /** Baker and painter count the icons of a line alike, or the icon is on the first line of both. */
  predicate LookupMatches(w: nat, id: nat)
  {
    w % CELL != 0 || id + 1 < w / CELL
  }

  /** The painter looks where the baker wrote exactly if the width is no multiple of a cell or the icon is in the baker's first line. */
  lemma LookupIsBaked(w: nat, offset: nat, id: nat)
    requires w >= CELL
    ensures LookupLeft(w, id) == Left(w, id) && LookupTop(w, offset, id) == Top(w, offset, id) <==> LookupMatches(w, id)
  {
    var m, p := w / CELL, PerLine(w);
    if w % CELL != 0 {
      assert p == m;
    } else {
      assert p == m - 1;
      if p > 0 {
        if id < p {
          DivisionIsUnique(id, p, 0, id);
          DivisionIsUnique(id, m, 0, id);
        } else {
          var q := id / m;
          assert id == q * m + id % m && id == id / p * p + id % p;
          assert q * m == q * p + q;
          assert id / p * p > 0;
        }
      }
    }
  }

  /** All baked icons are found exactly at widths that are no multiple of a cell, and at those too wide for a second line. */
  lemma AllLookupsMatch(w: nat)
    requires w >= CELL
    ensures (forall id: nat :: id < BAKED ==> LookupMatches(w, id)) <==> w % CELL != 0 || w >= CELL * (BAKED + 1)
  {
    assert BAKED - 1 < BAKED;
    if w % CELL == 0 && w < CELL * (BAKED + 1) {
      assert !LookupMatches(w, BAKED - 1);
    }
  }

  /** At the other widths the painter looks for one icon in a corner where the baker puts none. */
  lemma MissedCellIsFree(w: nat, offset: nat, id: nat)
    requires CELL <= w < CELL * (BAKED + 1) && w % CELL == 0
    ensures var missed := w / CELL - 1;
            missed < BAKED && !InIcon(w, offset, id, LookupLeft(w, missed), LookupTop(w, offset, missed))
  {
    var m, missed := w / CELL, w / CELL - 1;
    DivisionIsUnique(missed, m, 0, missed);
    assert LookupLeft(w, missed) == missed * CELL + PADDING && LookupTop(w, offset, missed) == offset + PADDING;
    assert PerLine(w) == missed;
    if missed > 0 { assert id % missed <= missed - 1; }
  }

  // ----- How much room is needed -----

  /** The first row of cells: the next multiple of a cell below the glyphs. */
  function FirstRow(maxGlyphY: nat): nat { (maxGlyphY + CELL - 1) / CELL * CELL }

  /** The height the baker reserves: whole lines, plus a line for every icon of an incomplete one, plus one more. */
  function ReservedHeight(w: nat): nat
    requires w >= CELL
  {
    LinesReserved(w) * CELL
  }

  /** The row below the last baked icon's pixels. */
  function Bottom(w: nat, maxGlyphY: nat): nat
    requires w >= CELL
  {
    Top(w, FirstRow(maxGlyphY), BAKED - 1) + ICON
  }

  /** Lines of cells down to the last icon's, the baker's skipped line included. */
  function LinesUsed(w: nat): nat
    requires w >= CELL
  {
    Line(w, BAKED - 1) + 1
  }

  function LinesReserved(w: nat): nat
    requires w >= CELL
  {
    BAKED / (w / CELL) + BAKED % (w / CELL) + 1
  }

  /** The reserved height holds every cell exactly if fewer lines are used than reserved, or as many and the cells start at most a row below the glyphs. */
  lemma ReservedIsEnoughExactly(w: nat, maxGlyphY: nat)
    requires w >= CELL
    ensures Bottom(w, maxGlyphY) <= maxGlyphY + ReservedHeight(w) <==>
              LinesUsed(w) < LinesReserved(w) || (LinesUsed(w) == LinesReserved(w) && FirstRow(maxGlyphY) <= maxGlyphY + 1)
  {
    hide Bottom, LinesUsed, LinesReserved;
    assert maxGlyphY <= FirstRow(maxGlyphY) <= maxGlyphY + CELL - 1;
    BottomIs(w, maxGlyphY);
    assert ReservedHeight(w) == CELL * LinesReserved(w);
  }

  lemma BottomIs(w: nat, maxGlyphY: nat)
    requires w >= CELL
    ensures Bottom(w, maxGlyphY) == FirstRow(maxGlyphY) + CELL * LinesUsed(w) - 1
  {
  }

  /** At the widths where lookups match, the reserved height holds every cell, with room to spare below the last icon. */
  lemma ReservedIsEnough(w: nat, maxGlyphY: nat)
    requires w >= CELL && (w % CELL != 0 || w >= CELL * (BAKED + 1))
    ensures Bottom(w, maxGlyphY) + 2 <= maxGlyphY + ReservedHeight(w)
  {
    var m, p := w / CELL, PerLine(w);
    assert FirstRow(maxGlyphY) <= maxGlyphY + CELL - 1;
    if w % CELL != 0 {
      assert p == m;
      LastLine(m);
    } else {
      assert m >= BAKED + 1 && p == m - 1;
      DivisionIsUnique(BAKED - 1, p, 0, BAKED - 1);
      DivisionIsUnique(BAKED, m, 0, BAKED);
    }
  }

  lemma LastLine(m: nat)
    requires m > 0
    ensures (BAKED - 1) / m + 1 <= BAKED / m + BAKED % m
  {
    var q, r := BAKED / m, BAKED % m;
    assert BAKED == q * m + r;
    if r == 0 {
      assert BAKED - 1 == (q - 1) * m + (m - 1) by { assert (q - 1) * m == q * m - m; }
      assert q > 0;
      DivisionIsUnique(BAKED - 1, m, q - 1, m - 1);
    } else {
      DivisionIsUnique(BAKED - 1, m, q, r - 1);
    }
  }

  /** Every icon is above the bottom, inside the width, and below every glyph. */
  lemma IconInside(w: nat, maxGlyphY: nat, id: nat)
    requires w >= CELL && id < BAKED
    ensures Top(w, FirstRow(maxGlyphY), id) + ICON <= Bottom(w, maxGlyphY)
    ensures Left(w, id) + ICON <= w
    ensures maxGlyphY < Top(w, FirstRow(maxGlyphY), id)
  {
    NextCell(w, id);
    var p := PerLine(w);
    if p > 0 { DivisionMonotone(id, BAKED - 1, p); }
  }

  lemma DivisionMonotone(a: nat, b: nat, p: nat)
    requires a <= b && p > 0
    ensures a / p <= b / p
  {
    var d := b / p - a / p;
    Multiple(d, p);
    assert a == a / p * p + a % p && b == b / p * p + b % p;
    assert d * p == b / p * p - a / p * p;
  }

  // ----- The growing atlas -----

  function Power(k: nat): (r: nat)
    ensures r > 0
  {
    if k == 0 then 1 else 2 * Power(k - 1)
  }

  lemma {:induction false} PowerMonotone(j: nat, k: nat)
    requires j <= k
    ensures Power(j) <= Power(k)
  {
    if j < k { PowerMonotone(j, k - 1); }
  }

  /** The exponent of the least power of two that is at least `need`, starting from `Power(k)`. */
  function LeastExponent(need: nat, k: nat): (r: nat)
    requires k > 0 ==> Power(k - 1) < need
    ensures Power(r) >= need && (r > 0 ==> Power(r - 1) < need)
    decreases need - Power(k)
  {
    if Power(k) >= need then k else LeastExponent(need, k + 1)
  }

  /** The height the atlas grows to. */
  function GrownHeight(need: nat): nat { Power(LeastExponent(need, 0)) }

  /** It is the least power of two that is large enough, and less than twice what is needed. */
  lemma GrownHeightIsLeast(need: nat, k: nat)
    ensures GrownHeight(need) >= need
    ensures Power(k) >= need ==> GrownHeight(need) <= Power(k)
    ensures need > 1 ==> GrownHeight(need) < 2 * need
  {
    var r := LeastExponent(need, 0);
    if k < r { PowerMonotone(k, r - 1); } else { PowerMonotone(r, k); }
  }

  // ----- When the baker stays inside the image -----

  /** The height the image has when baking starts. */
  function FinalHeight(height: nat, need: nat): nat { if need > height then GrownHeight(need) else height }

  /** What the baker needs and does not check: a cell's width to divide by, four rows to clear when it grows, and the last icon above the end. */
  predicate StaysInside(w: nat, height: nat, maxGlyphY: nat)
  {
    && w >= CELL
    && var need := maxGlyphY + ReservedHeight(w);
       (need > height ==> height >= 4) && Bottom(w, maxGlyphY) <= FinalHeight(height, need)
  }

  /** All icons end above the image's end exactly if the last one does. */
  lemma AllIconsFit(w: nat, maxGlyphY: nat, height: nat)
    requires w >= CELL
    ensures (forall id: nat :: id < BAKED ==> Top(w, FirstRow(maxGlyphY), id) + ICON <= height) <==> Bottom(w, maxGlyphY) <= height
  {
    hide Top, FirstRow;
    if Bottom(w, maxGlyphY) <= height {
      forall id: nat | id < BAKED ensures Top(w, FirstRow(maxGlyphY), id) + ICON <= height { IconInside(w, maxGlyphY, id); }
    } else {
      assert BAKED - 1 < BAKED && Top(w, FirstRow(maxGlyphY), BAKED - 1) + ICON > height;
    }
  }

  /** At widths that are no multiple of a cell the icons always fit, whatever the glyphs and the image's height. */
  lemma UsualWidthsFit(w: nat, height: nat, maxGlyphY: nat)
    requires w >= CELL && w % CELL != 0
    ensures StaysInside(w, height, maxGlyphY) <==> height >= 4 || maxGlyphY + ReservedHeight(w) <= height
  {
    hide Bottom, ReservedHeight;
    ReservedIsEnough(w, maxGlyphY);
    GrownHeightIsLeast(maxGlyphY + ReservedHeight(w), 0);
  }

  /** At a width of one cell the baker wraps before every icon, and has just the lines for that; below it there is nothing to divide by. */
  lemma OneCellFits(w: nat, height: nat)
    ensures StaysInside(CELL, height, 0) <==> height >= 4
    ensures w < CELL ==> !StaysInside(w, height, 0)
  {
    GrownHeightIsLeast(ReservedHeight(CELL), 0);
  }

  /** A width of two cells: one icon a line, but half the lines reserved.  Without glyphs every image below 4625 rows is overrun. */
  lemma TwoCellsOverrun(height: nat)
    ensures ReservedHeight(2 * CELL) == 2340 && Bottom(2 * CELL, 0) == 4625
    ensures height < 2340 ==> FinalHeight(height, 2340) == 4096
    ensures StaysInside(2 * CELL, height, 0) <==> height >= 4625
  {
    assert Power(12) == 2 * Power(11) && Power(11) == 2 * Power(10) && Power(10) == 2 * Power(9) && Power(9) == 2 * Power(8);
    assert Power(8) == 2 * Power(7) && Power(7) == 2 * Power(6) && Power(6) == 2 * Power(5) && Power(5) == 32;
    GrownHeightIsLeast(2340, 12);
    var r := LeastExponent(2340, 0);
    PowerMonotone(if r < 12 then r else 11, 11);
  }
}
