/**
  Runs of font and icon loads.  The painter's atlas branch reads whatever texture the current font has,
  at the row the last baking left behind; nothing else keeps the two together.
 */
module IconRuns {
  import opened IconLayout
  import opened IconAtlas

  /** A font's texture as the painter samples it.  `standard`: it is the one of the default font. */
  datatype Texture = Texture(standard: bool, width: nat, lit: (int, int) -> bool)

  /** The globals behind icons: the font's texture, the row of the baked icons, the icon data. */
  datatype Painter = Painter(texture: Texture, offset: nat, icons: seq<bv32>)

  datatype Op =
    | LoadFont(texture: Texture, glyphBottom: nat)  // a style with a font: its atlas with the icons baked below the glyphs
    | SetFont(texture: Texture)
    | LoadIcons(icons: seq<bv32>)
    | DefaultStyle(texture: Texture)                // back to the default font, unless it is the current one

  /** The texture has the icons where the baker puts them. */
  ghost predicate HoldsIcons(t: Texture, icons: seq<bv32>, offset: nat)
  {
    && t.width >= CELL && BAKED * WORDS <= |icons|
    && forall id: nat, x: nat, y: nat :: id < BAKED && x < ICON && y < ICON ==>
         (t.lit(Left(t.width, id) + x, Top(t.width, offset, id) + y) <==> IconBit(icons, id, x, y))
  }

  /** Both branches of the painter paint the same dots, for every icon it takes from the atlas. */
  ghost predicate Agrees(p: Painter)
  {
    p.offset > 0 ==>
      && p.texture.width >= CELL && BAKED * WORDS <= |p.icons|
      && forall id: nat, x: nat, y: nat :: id < BAKED && x < ICON && y < ICON ==>
           (p.texture.lit(LookupLeft(p.texture.width, id) + x, LookupTop(p.texture.width, p.offset, id) + y) <==> IconBit(p.icons, id, x, y))
  }

  function Step(p: Painter, op: Op): Painter
  {
    match op
    case LoadFont(t, glyphBottom) => Painter(t, FirstRow(glyphBottom), p.icons)
    case SetFont(t) => p.(texture := t)
    case LoadIcons(icons) => p.(icons := icons)
    case DefaultStyle(t) => if p.texture.standard then p else Painter(t, 0, p.icons)
  }

  function Run(p: Painter, ops: seq<Op>): Painter
  {
    if ops == [] then p else Step(Run(p, ops[..|ops| - 1]), ops[|ops| - 1])
  }

  /** What a load can bring: an atlas of any width with the icons baked into it, and data for all icons. */
  ghost predicate Possible(p: Painter, op: Op)
  {
    match op
    case LoadFont(t, glyphBottom) => HoldsIcons(t, p.icons, FirstRow(glyphBottom))
    case SetFont(t) => true
    case LoadIcons(icons) => BAKED * WORDS <= |icons|
    case DefaultStyle(t) => t.standard
  }

  /** The widths at which the painter finds all icons. */
  predicate AllMatch(w: nat) { w >= CELL && (w % CELL != 0 || w >= CELL * (BAKED + 1)) }

  ghost predicate Admissible(p: Painter, ops: seq<Op>)
  {
    ops == [] || (Admissible(p, ops[..|ops| - 1]) && Possible(Run(p, ops[..|ops| - 1]), ops[|ops| - 1]))
  }

  /** Since the last baking nothing replaced the font or the icons, or no baked icons are in use. */
  predicate Current(p: Painter, ops: seq<Op>)
  {
    if ops == [] then p.offset == 0
    else
      var front := ops[..|ops| - 1];
      match ops[|ops| - 1]
      case LoadFont(_, _) => true
      case DefaultStyle(_) => !Run(p, front).texture.standard || Current(p, front)
      case _ => Run(p, front).offset == 0
  }

  // ----- Baked atlases -----

  /** The pixels of an image, as a texture. */
  function TextureOf(rows: seq<seq<Pixel>>, width: nat): Texture
  {
    Texture(false, width, (x, y) => 0 <= y < |rows| && 0 <= x < |rows[y]| && IsOpaque(rows[y][x]))
  }

  /** What the baker leaves is a texture that holds the icons. */
  lemma BakedIsHeld(im: Image, icons: seq<bv32>, offset: nat)
    requires im.Valid() && im.width >= CELL && BAKED * WORDS <= |icons| && im.Baked(icons, offset, BAKED)
    ensures HoldsIcons(TextureOf(im.Rows(), im.width), icons, offset)
  {
    hide IconBit, Left, Top;
    var t, w := TextureOf(im.Rows(), im.width), im.width;
    forall id: nat, x: nat, y: nat | id < BAKED && x < ICON && y < ICON
      ensures t.lit(Left(w, id) + x, Top(w, offset, id) + y) <==> IconBit(icons, id, x, y)
    {
      assert InIcon(w, offset, id, Left(w, id) + x, Top(w, offset, id) + y);
    }
  }

  lemma HeldAgrees(p: Painter)
    requires AllMatch(p.texture.width) && HoldsIcons(p.texture, p.icons, p.offset)
    ensures Agrees(p)
  {
    hide IconBit, Left, Top, LookupLeft, LookupTop;
    forall id: nat | id < BAKED
      ensures LookupLeft(p.texture.width, id) == Left(p.texture.width, id)
      ensures LookupTop(p.texture.width, p.offset, id) == Top(p.texture.width, p.offset, id)
    {
      LookupIsBaked(p.texture.width, p.offset, id);
    }
  }

  // ----- Runs -----

  lemma {:induction false} CurrentIsHeld(p: Painter, ops: seq<Op>)
    requires Admissible(p, ops) && Current(p, ops)
    ensures var r := Run(p, ops); r.offset == 0 || HoldsIcons(r.texture, r.icons, r.offset)
  {
    hide HoldsIcons;
    if ops != [] {
      var front, last := ops[..|ops| - 1], ops[|ops| - 1];
      if last.DefaultStyle? && Run(p, front).texture.standard { CurrentIsHeld(p, front); }
    }
  }

  /** The same operation, perhaps with other pixels or bits. */
  predicate SameKind(a: Op, b: Op)
  {
    match a
    case LoadFont(t, glyphBottom) => b.LoadFont? && SameShape(t, b.texture) && glyphBottom == b.glyphBottom
    case SetFont(t) => b.SetFont? && SameShape(t, b.texture)
    case LoadIcons(_) => b.LoadIcons?
    case DefaultStyle(t) => b.DefaultStyle? && SameShape(t, b.texture)
  }

  predicate SameShape(a: Texture, b: Texture) { a.standard == b.standard && a.width == b.width }

  predicate SameKinds(a: seq<Op>, b: seq<Op>)
  {
    |a| == |b| && forall i :: 0 <= i < |a| ==> SameKind(a[i], b[i])
  }

  /** Pixels and bits do not steer a run. */
  lemma {:induction false} SameCourse(p: Painter, a: seq<Op>, b: seq<Op>)
    requires SameKinds(a, b)
    ensures Run(p, a).offset == Run(p, b).offset && SameShape(Run(p, a).texture, Run(p, b).texture)
    ensures Current(p, a) <==> Current(p, b)
  {
    if a != [] {
      var n := |a| - 1;
      assert SameKinds(a[..n], b[..n]);
      assert SameKind(a[n], b[n]);
      SameCourse(p, a[..n], b[..n]);
    }
  }

  /** With the icons in the atlas, other pixels than a font's or other bits than a file's make the branches disagree. */
  lemma TouchCanDisagree(p: Painter, op: Op) returns (other: Op)
    requires p.offset > 0 && BAKED * WORDS <= |p.icons| && (op.SetFont? || op.LoadIcons?) && Possible(p, op)
    ensures SameKind(op, other) && Possible(p, other) && !Agrees(Step(p, other))
  {
    hide BitCheck;
    if op.SetFont? {
      var bit := IconBit(p.icons, 0, 0, 0);
      other := SetFont(op.texture.(lit := (x, y) => !bit));
    } else {
      var w := p.texture.width;
      var lit := w >= CELL && p.texture.lit(LookupLeft(w, 0), LookupTop(w, p.offset, 0));
      var word: bv32 := if lit then 0 else 1;
      FirstBit();
      other := LoadIcons(op.icons[0 := word]);
      assert IconBit(other.icons, 0, 0, 0) <==> !lit;
      assert w >= CELL ==> p.texture.lit(LookupLeft(w, 0) + 0, LookupTop(w, p.offset, 0) + 0) == lit;
    }
    var q := Step(p, other);
    assert !(q.texture.width >= CELL && (q.texture.lit(LookupLeft(q.texture.width, 0) + 0, LookupTop(q.texture.width, q.offset, 0) + 0)
                                         <==> IconBit(q.icons, 0, 0, 0)));
  }

  lemma FirstBit()
    ensures !BitCheck(0, 0) && BitCheck(1, 0)
  {
  }

  lemma {:induction false} IconsStayLoaded(p: Painter, ops: seq<Op>)
    requires BAKED * WORDS <= |p.icons| && Admissible(p, ops)
    ensures BAKED * WORDS <= |Run(p, ops).icons|
  {
    hide HoldsIcons;
    if ops != [] { IconsStayLoaded(p, ops[..|ops| - 1]); }
  }

  lemma {:induction false} StaleCanDisagree(p: Painter, ops: seq<Op>) returns (other: seq<Op>)
    requires p.offset == 0 && BAKED * WORDS <= |p.icons| && Admissible(p, ops) && !Current(p, ops)
    ensures SameKinds(ops, other) && Admissible(p, other) && !Agrees(Run(p, other))
  {
    hide HoldsIcons, Agrees;
    var n := |ops| - 1;
    var front, last := ops[..n], ops[n];
    if last.DefaultStyle? {
      var o := StaleCanDisagree(p, front);
      SameCourse(p, front, o);
      other := o + [last];
      assert other[..n] == o;
    } else {
      IconsStayLoaded(p, front);
      var o := TouchCanDisagree(Run(p, front), last);
      other := front + [o];
      assert other[..n] == front;
    }
  }

  /** A baked atlas of another width with one pixel changed where the painter looks and no icon is. */
  lemma MismatchedAtlasCanDisagree(p: Painter, t: Texture, glyphBottom: nat) returns (other: Texture)
    requires FirstRow(glyphBottom) > 0 && HoldsIcons(t, p.icons, FirstRow(glyphBottom)) && !AllMatch(t.width)
    ensures SameShape(t, other) && HoldsIcons(other, p.icons, FirstRow(glyphBottom))
    ensures !Agrees(Step(p, LoadFont(other, glyphBottom)))
  {
    hide IconBit, Left, Top, LookupLeft, LookupTop, FirstRow;
    var w, offset, missed := t.width, FirstRow(glyphBottom), t.width / CELL - 1;
    MissedCellIsFree(w, offset, 0);
    var bit, x0, y0 := IconBit(p.icons, missed, 0, 0), LookupLeft(w, missed), LookupTop(w, offset, missed);
    other := t.(lit := (x, y) => if x == x0 && y == y0 then !bit else t.lit(x, y));
    forall id: nat, x: nat, y: nat | id < BAKED && x < ICON && y < ICON
      ensures other.lit(Left(w, id) + x, Top(w, offset, id) + y) <==> IconBit(p.icons, id, x, y)
    {
      MissedCellIsFree(w, offset, id);
      assert InIcon(w, offset, id, Left(w, id) + x, Top(w, offset, id) + y);
    }
    assert other.lit(x0 + 0, y0 + 0) == !bit;
  }

  lemma {:induction false} MismatchCanDisagree(p: Painter, ops: seq<Op>) returns (other: seq<Op>)
    requires p.offset == 0 && Admissible(p, ops) && Current(p, ops)
    requires Run(p, ops).offset > 0 && !AllMatch(Run(p, ops).texture.width)
    ensures SameKinds(ops, other) && Admissible(p, other) && !Agrees(Run(p, other))
  {
    hide HoldsIcons, AllMatch, Agrees, FirstRow;
    var n := |ops| - 1;
    var front, last := ops[..n], ops[n];
    if last.LoadFont? {
      var t := MismatchedAtlasCanDisagree(Run(p, front), last.texture, last.glyphBottom);
      other := front + [LoadFont(t, last.glyphBottom)];
      assert other[..n] == front;
    } else {
      assert last.DefaultStyle? && Run(p, front).texture.standard;
      var o := MismatchCanDisagree(p, front);
      SameCourse(p, front, o);
      other := o + [last];
      assert other[..n] == o;
    }
  }

  /**
    The branches agree after a run, whatever pixels and bits the loads bring, exactly if no font and no
    icons were set since the last baking while baked icons were in use, and all lookups match at the
    current font's width.
   */
  lemma AgreesExactlyIfCurrent(p: Painter, ops: seq<Op>)
    requires p.offset == 0 && BAKED * WORDS <= |p.icons| && Admissible(p, ops)
    ensures (forall other :: SameKinds(ops, other) && Admissible(p, other) ==> Agrees(Run(p, other))) <==>
              Current(p, ops) && (Run(p, ops).offset == 0 || AllMatch(Run(p, ops).texture.width))
  {
    hide HoldsIcons, AllMatch, Admissible, Run, Current;
    if !Current(p, ops) {
      var other := StaleCanDisagree(p, ops);
    } else if Run(p, ops).offset > 0 && !AllMatch(Run(p, ops).texture.width) {
      var other := MismatchCanDisagree(p, ops);
    } else {
      forall other | SameKinds(ops, other) && Admissible(p, other)
        ensures Agrees(Run(p, other))
      {
        SameCourse(p, ops, other);
        CurrentIsHeld(p, other);
        if Run(p, other).offset > 0 { HeldAgrees(Run(p, other)); }
      }
    }
  }
}
