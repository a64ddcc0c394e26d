/** The flat table of style properties: writing with propagation, loading a file of properties, and the controls that rewrite properties for a while. */
module StyleTable {

  const CONTROLS := 16
  const BASE := 16        // properties every control has
  const PROPS := 24       // BASE plus eight extended ones
  const CELLS := 384      // CONTROLS * PROPS

  // Controls
  const DEFAULT := 0
  const LABEL := 1
  const BUTTON := 2
  const TOGGLE := 3
  const SLIDER := 4
  const TEXTBOX := 9
  const VALUEBOX := 10
  const TABBAR := 11
  const SCROLLBAR := 14
  const STATUSBAR := 15

  // Properties
  const BORDER_WIDTH := 12
  const TEXT_PADDING := 13
  const TEXT_ALIGNMENT := 14
  const SLIDER_WIDTH := 16
  const TAB_CLOSE_BUTTON := 17
  const SCROLL_SLIDER_SIZE := 19
  const SCROLL_SPEED := 21

  const TEXT_ALIGN_LEFT := 0
  const TEXT_ALIGN_CENTER := 1

  const TAB_PADDING := 8

  type Table = s: seq<int> | |s| == CELLS witness seq(CELLS, _ => 0)

  function Cell(c: nat, p: nat): (k: nat)
    requires c < CONTROLS && p < PROPS
    ensures k < CELLS && k / PROPS == c && k % PROPS == p
  {
    c * PROPS + p
  }

  /** The C code addresses the flat table and checks nothing: any pair of numbers whose cell is inside is accepted. */
  predicate InTable(c: int, p: int) { 0 <= c * PROPS + p < CELLS }

  /** Writing property `p` of control `c` changes cell `k`: its own, and for a base property of DEFAULT everybody's. */
  predicate Writes(c: int, p: int, k: nat)
  {
    k == c * PROPS + p || (c == DEFAULT && p < BASE && k % PROPS == p)
  }

  /** The table after writing one property. */
  function Put(s: Table, c: int, p: int, v: int): (r: Table)
    requires InTable(c, p)
    ensures forall k :: 0 <= k < CELLS ==> r[k] == if Writes(c, p, k) then v else s[k]
  {
    seq(CELLS, k requires 0 <= k < CELLS => if Writes(c, p, k) then v else s[k])
  }

  /** Writing a property and then its saved value restores the table exactly if the write does not spread, or all controls agreed before it. */
  lemma RestoringRestores(s: Table, c: nat, p: nat, x: int)
    requires c < CONTROLS && p < PROPS
    ensures Put(Put(s, c, p, x), c, p, s[Cell(c, p)]) == s <==>
              c != DEFAULT || p >= BASE || forall j: nat :: j < CONTROLS ==> s[Cell(j, p)] == s[Cell(DEFAULT, p)]
  {
    hide Cell;
    var r := Put(Put(s, c, p, x), c, p, s[Cell(c, p)]);
    if c == DEFAULT && p < BASE {
      forall j: nat | j < CONTROLS ensures r[Cell(j, p)] == s[Cell(DEFAULT, p)] {
        assert Writes(c, p, Cell(j, p));
      }
      if forall j: nat :: j < CONTROLS ==> s[Cell(j, p)] == s[Cell(DEFAULT, p)] {
        forall k | 0 <= k < CELLS ensures r[k] == s[k] {
          if Writes(c, p, k) { CellOf(k); assert s[Cell(k / PROPS, p)] == s[Cell(DEFAULT, p)]; }
        }
      }
    } else {
      forall k | 0 <= k < CELLS ensures r[k] == s[k] {
        if Writes(c, p, k) { CellOf(k); }
      }
    }
  }

  lemma CellOf(k: nat)
    requires k < CELLS
    ensures k / PROPS < CONTROLS && Cell(k / PROPS, k % PROPS) == k
  {
  }

  // ----- Loading a file -----

  datatype Entry = Entry(control: int, property: int, value: int)

  predicate InRange(e: Entry) { InTable(e.control, e.property) }

  function Loaded(s: Table, entries: seq<Entry>): Table
    requires forall e :: e in entries ==> InRange(e)
  {
    if entries == [] then s
    else
      var e := entries[|entries| - 1];
      assert InRange(e);
      Put(Loaded(s, entries[..|entries| - 1]), e.control, e.property, e.value)
  }

  /** Entry `i` is the last one in the file that writes cell `k`. */
  predicate LastWriter(entries: seq<Entry>, i: nat, k: nat)
  {
    && i < |entries|
    && Writes(entries[i].control, entries[i].property, k)
    && forall j :: i < j < |entries| ==> !Writes(entries[j].control, entries[j].property, k)
  }

  /** Every cell holds what the last entry that writes it says; a cell no entry writes keeps its value. */
  lemma {:induction false} LastWriterWins(s: Table, entries: seq<Entry>, k: nat)
    requires (forall e :: e in entries ==> InRange(e)) && k < CELLS
    ensures forall i: nat :: LastWriter(entries, i, k) ==> Loaded(s, entries)[k] == entries[i].value
    ensures (exists i: nat :: LastWriter(entries, i, k)) ||
            (Loaded(s, entries)[k] == s[k] && forall j :: 0 <= j < |entries| ==> !Writes(entries[j].control, entries[j].property, k))
  {
    if entries != [] {
      var n := |entries| - 1;
      var front, e := entries[..n], entries[n];
      assert InRange(e);
      if Writes(e.control, e.property, k) {
        assert LastWriter(entries, n, k);
        assert Writes(entries[n].control, entries[n].property, k);
        assert forall i: nat :: LastWriter(entries, i, k) ==> i == n;
      } else {
        LastWriterWins(s, front, k);
        forall i: nat
          ensures LastWriter(entries, i, k) <==> LastWriter(front, i, k)
        {
          if LastWriter(front, i, k) {
            forall j | i < j < |entries| ensures !Writes(entries[j].control, entries[j].property, k) {
              if j < n { assert entries[j] == front[j]; }
            }
          }
        }
      }
    }
  }

  // ----- Programs of save, write, draw, restore -----

  type ControlId = c: nat | c < CONTROLS
  type PropertyId = p: nat | p < PROPS

  /** What a control does to the table while it draws: parts drawn, one after the other, inside balanced brackets that write a property and put it back. */
  datatype Program =
    | Nothing
    | Draw
    | Both(first: Program, second: Program)
    | Bracket(c: ControlId, p: PropertyId, v: int, body: Program)

  /** The table a program leaves. */
  function After(s: Table, g: Program): Table
    decreases g
  {
    match g
    case Both(a, b) => After(After(s, a), b)
    case Bracket(c, p, v, body) => Put(After(Put(s, c, p, v), body), c, p, s[Cell(c, p)])
    case _ => s
  }

  /** The tables its parts are drawn with. */
  function Drawn(s: Table, g: Program): seq<Table>
    decreases g
  {
    match g
    case Nothing => []
    case Draw => [s]
    case Both(a, b) => Drawn(s, a) + Drawn(After(s, a), b)
    case Bracket(c, p, v, body) => Drawn(Put(s, c, p, v), body)
  }

  /** The cell belongs to a bracket that spreads over all controls, and no bracket around that one puts it back. */
  predicate Spread(g: Program, k: nat)
  {
    match g
    case Both(a, b) => Spread(a, k) || Spread(b, k)
    case Bracket(c, p, _, body) => if c == DEFAULT && p < BASE then k % PROPS == p || Spread(body, k) else Spread(body, k) && k != Cell(c, p)
    case _ => false
  }

  lemma {:induction false} SpreadIsBase(g: Program, k: nat)
    requires Spread(g, k)
    ensures k % PROPS < BASE
  {
    match g
    case Both(a, b) => if Spread(a, k) { SpreadIsBase(a, k); } else { SpreadIsBase(b, k); }
    case Bracket(c, p, _, body) => if Spread(body, k) { SpreadIsBase(body, k); }
    case _ =>
  }

  /** What any program leaves: DEFAULT's value in the cells spread over, the old one everywhere else. */
  lemma {:induction false} ProgramLeaves(s: Table, g: Program, k: nat)
    requires k < CELLS
    ensures After(s, g)[k] == if Spread(g, k) then s[k % PROPS] else s[k]
    decreases g
  {
    hide Put, Cell, After, Spread;
    match g
    case Both(a, b) =>
      BothOf(s, a, b, k);
      ProgramLeaves(After(s, a), b, k);
      ProgramLeaves(s, a, k);
      ProgramLeaves(s, a, k % PROPS);
    case Bracket(c, p, v, body) =>
      ProgramLeaves(Put(s, c, p, v), body, k);
      if Spread(body, k) { SpreadIsBase(body, k); }
      BracketLeaves(s, c, p, v, body, k);
    case _ =>
      SingleOf(s, g, k);
  }

  lemma BothOf(s: Table, a: Program, b: Program, k: nat)
    ensures After(s, Both(a, b)) == After(After(s, a), b)
    ensures Spread(Both(a, b), k) <==> Spread(a, k) || Spread(b, k)
  {
  }

  lemma SingleOf(s: Table, g: Program, k: nat)
    requires g == Nothing || g == Draw
    ensures After(s, g) == s && !Spread(g, k)
  {
  }

  lemma BracketLeaves(s: Table, c: ControlId, p: PropertyId, v: int, body: Program, k: nat)
    requires k < CELLS && (Spread(body, k) ==> k % PROPS < BASE)
    requires var t := Put(s, c, p, v); After(t, body)[k] == if Spread(body, k) then t[k % PROPS] else t[k]
    ensures var g := Bracket(c, p, v, body); After(s, g)[k] == if Spread(g, k) then s[k % PROPS] else s[k]
  {
    hide Put, Writes, Cell, After, Spread;
    var t := Put(s, c, p, v);
    var u := After(t, body);
    assert k % PROPS % PROPS == k % PROPS;
    BracketOf(s, c, p, v, body, k);
    if c == DEFAULT && p < BASE {
      PutSpreads(s, p, v, k);
      PutSpreads(s, p, v, k % PROPS);
      PutSpreads(u, p, s[Cell(c, p)], k);
      assert Cell(c, p) == p by { CellIs(c, p); }
    } else {
      CellIs(c, p);
      PutElsewhere(s, c, p, v, k);
      PutElsewhere(s, c, p, v, k % PROPS);
      PutElsewhere(u, c, p, s[Cell(c, p)], k);
    }
  }

  lemma BracketOf(s: Table, c: ControlId, p: PropertyId, v: int, body: Program, k: nat)
    ensures After(s, Bracket(c, p, v, body)) == Put(After(Put(s, c, p, v), body), c, p, s[Cell(c, p)])
    ensures Spread(Bracket(c, p, v, body), k) <==>
              if c == DEFAULT && p < BASE then k % PROPS == p || Spread(body, k) else Spread(body, k) && k != Cell(c, p)
  {
  }

  lemma CellIs(c: ControlId, p: PropertyId)
    ensures Cell(c, p) == c * PROPS + p
  {
  }

  lemma PutSpreads(s: Table, p: PropertyId, v: int, i: nat)
    requires p < BASE && i < CELLS
    ensures Put(s, DEFAULT, p, v)[i] == if i % PROPS == p then v else s[i]
  {
  }

  lemma PutElsewhere(s: Table, c: ControlId, p: PropertyId, v: int, i: nat)
    requires !(c == DEFAULT && p < BASE) && i < CELLS
    ensures Put(s, c, p, v)[i] == if i == c * PROPS + p then v else s[i]
  {
  }

  /** A program restores the table exactly if every cell it spreads over agreed with DEFAULT before. */
  lemma RestoresExactly(s: Table, g: Program)
    ensures After(s, g) == s <==> forall k: nat :: k < CELLS && Spread(g, k) ==> s[k] == s[k % PROPS]
  {
    forall k: nat | k < CELLS
      ensures After(s, g)[k] == if Spread(g, k) then s[k % PROPS] else s[k]
    {
      ProgramLeaves(s, g, k);
    }
  }

  /** A program restores every table exactly if it spreads over no control's cell. */
  lemma RestoresEveryTable(g: Program)
    ensures (forall s: Table :: After(s, g) == s) <==> forall k: nat :: PROPS <= k < CELLS ==> !Spread(g, k)
  {
    hide After, Spread;
    if forall k: nat :: PROPS <= k < CELLS ==> !Spread(g, k) {
      forall s: Table ensures After(s, g) == s { RestoresExactly(s, g); }
    } else {
      var k: nat :| PROPS <= k < CELLS && Spread(g, k);
      var s: Table := seq(CELLS, i => i);
      ProgramLeaves(s, g, k);
      assert After(s, g)[k] == k % PROPS != s[k];
    }
  }

  /** No bracket writes a base property of DEFAULT. */
  predicate Plain(g: Program)
  {
    match g
    case Both(a, b) => Plain(a) && Plain(b)
    case Bracket(c, p, _, body) => !(c == DEFAULT && p < BASE) && Plain(body)
    case _ => true
  }

  lemma {:induction false} PlainSpreadsNothing(g: Program, k: nat)
    requires Plain(g)
    ensures !Spread(g, k)
  {
    match g
    case Both(a, b) => PlainSpreadsNothing(a, k); PlainSpreadsNothing(b, k);
    case Bracket(_, _, _, body) => PlainSpreadsNothing(body, k);
    case _ =>
  }

  /** Plain programs, however nested, restore every table. */
  lemma PlainRestores(s: Table, g: Program)
    requires Plain(g)
    ensures After(s, g) == s
  {
    forall k: nat | k < CELLS ensures !Spread(g, k) { PlainSpreadsNothing(g, k); }
    RestoresExactly(s, g);
  }

  lemma TwoBrackets(s: Table, c: ControlId, p: PropertyId, v: int, d: ControlId, q: PropertyId, w: int, body: Program)
    ensures Drawn(s, Bracket(c, p, v, Bracket(d, q, w, body))) == Drawn(Put(Put(s, c, p, v), d, q, w), body)
  {
  }

  lemma InTurn(s: Table, a: Program, b: Program)
    requires Plain(a)
    ensures After(s, Both(a, b)) == After(s, b) && Drawn(s, Both(a, b)) == Drawn(s, a) + Drawn(s, b)
  {
    PlainRestores(s, a);
  }

  // ----- The programs of the library's controls -----

  /** A tooltip: a panel, and a centred label without padding. */
  function Tooltip(shown: bool): (g: Program)
    ensures Plain(g)
  {
    if shown then Both(Draw, Bracket(LABEL, TEXT_PADDING, 0, Bracket(LABEL, TEXT_ALIGNMENT, TEXT_ALIGN_CENTER, Draw))) else Nothing
  }

  function Simple(tooltip: bool): (g: Program)
    ensures Plain(g)
  {
    Both(Draw, Tooltip(tooltip))
  }

  function Centered(border: int, body: Program): (g: Program)
    ensures Plain(g) <==> Plain(body)
  {
    Bracket(BUTTON, BORDER_WIDTH, border, Bracket(BUTTON, TEXT_ALIGNMENT, TEXT_ALIGN_CENTER, body))
  }

  /** Panel, status bar, close button. */
  function WindowBox(tooltip: bool): (g: Program)
    ensures Plain(g)
  {
    Both(Both(Draw, Bracket(STATUSBAR, TEXT_ALIGNMENT, TEXT_ALIGN_LEFT, Draw)), Centered(1, Simple(tooltip)))
  }

  function ComboBox(tooltip: bool): (g: Program)
    ensures Plain(g)
  {
    Both(Draw, Centered(1, Simple(tooltip)))
  }

  /** Two buttons and the value box; the styles forced after them come too late, for nothing is drawn under them. */
  function Spinner(leftTooltip: bool, rightTooltip: bool, border: int): (g: Program)
    ensures Plain(g)
  {
    Both(Both(Both(Simple(leftTooltip), Simple(rightTooltip)), Draw), Centered(border, Nothing))
  }

  function SliderBar(): (g: Program)
    ensures Plain(g)
  {
    Bracket(SLIDER, SLIDER_WIDTH, 0, Draw)
  }

  function ListViewBar(sliderSize: int, speed: int): (g: Program)
    ensures Plain(g)
  {
    Bracket(SCROLLBAR, SCROLL_SLIDER_SIZE, sliderSize, Bracket(SCROLLBAR, SCROLL_SPEED, speed, Draw))
  }

  function Bar(visible: bool, slider: int): (g: Program)
    ensures Plain(g)
  {
    if visible then Bracket(SCROLLBAR, SCROLL_SLIDER_SIZE, slider, Draw) else Nothing
  }

  lemma BarDraws(s: Table, visible: bool, slider: int)
    ensures After(s, Bar(visible, slider)) == s
    ensures Drawn(s, Bar(visible, slider)) == if visible then [Put(s, SCROLLBAR, SCROLL_SLIDER_SIZE, slider)] else []
  {
    PlainRestores(s, Bar(visible, slider));
  }

  function Face(tooltip: bool): (g: Program)
    ensures Plain(g)
  {
    Bracket(TOGGLE, TEXT_ALIGNMENT, TEXT_ALIGN_LEFT, Bracket(TOGGLE, TEXT_PADDING, TAB_PADDING, Simple(tooltip)))
  }

  function Tab(visible: bool, tooltip: bool, close: bool, closeTooltip: bool): (g: Program)
    ensures Plain(g)
  {
    if !visible then Nothing
    else
      Both(Face(tooltip),
           if close then Centered(1, Simple(closeTooltip)) else Nothing)
  }

  function Tabs(count: nat, visible: nat -> bool, tooltip: nat -> bool, close: bool): (g: Program)
    ensures Plain(g)
  {
    if count == 0 then Nothing
    else
      var i := count - 1;
      Both(Tabs(i, visible, tooltip, close), Tab(visible(i), tooltip(2 * i), close, tooltip(2 * i + 1)))
  }

  function Buttons(count: nat, tooltip: nat -> bool): (g: Program)
    ensures Plain(g)
  {
    if count == 0 then Nothing else Both(Buttons(count - 1, tooltip), Simple(tooltip(count)))
  }

  function ButtonRow(count: nat, tooltip: nat -> bool): (g: Program)
    ensures Plain(g)
  {
    Bracket(BUTTON, TEXT_ALIGNMENT, TEXT_ALIGN_CENTER, Buttons(count, tooltip))
  }

  function Message(shown: bool): (g: Program)
    ensures Plain(g)
  {
    if shown then Bracket(LABEL, TEXT_ALIGNMENT, TEXT_ALIGN_CENTER, Draw) else Nothing
  }

  function MessageBox(buttonCount: nat, tooltip: nat -> bool): (g: Program)
    ensures Plain(g)
  {
    Both(Both(WindowBox(tooltip(0)), Message(true)), ButtonRow(buttonCount, tooltip))
  }

  /** The text box, and the toggle that shows a secret. */
  function TextInput(secret: bool, tooltip: bool, secretTooltip: bool): (g: Program)
    ensures Plain(g)
  {
    Bracket(TEXTBOX, TEXT_ALIGNMENT, TEXT_ALIGN_LEFT, Both(Simple(tooltip), if secret then Simple(secretTooltip) else Nothing))
  }

  function TextInputBox(message: bool, secret: bool, buttonCount: nat, tooltip: nat -> bool): (g: Program)
    ensures Plain(g)
  {
    Both(Both(Both(WindowBox(tooltip(0)), Message(message)),
              TextInput(secret, tooltip(buttonCount + 1), tooltip(buttonCount + 2))),
         ButtonRow(buttonCount, tooltip))
  }

  // ----- What the parts look like -----

  /** The table with some cells changed. */
  function With(s: Table, changes: map<nat, int>): (r: Table)
    ensures forall k: nat :: k < CELLS ==> r[k] == if k in changes then changes[k] else s[k]
  {
    seq(CELLS, k requires 0 <= k < CELLS => if k in changes then changes[k] else s[k])
  }

  lemma PutIsWith(s: Table, c: ControlId, p: PropertyId, v: int, d: ControlId, q: PropertyId, w: int)
    requires c != DEFAULT && d != DEFAULT && (c, p) != (d, q)
    ensures Put(s, c, p, v) == With(s, map[c * PROPS + p := v])
    ensures Put(Put(s, c, p, v), d, q, w) == With(s, map[c * PROPS + p := v, d * PROPS + q := w])
  {
  }

  /** A tooltip is a panel as styled, and a label with no padding, centred. */
  lemma TooltipLooks(s: Table)
    ensures Drawn(s, Tooltip(false)) == []
    ensures Drawn(s, Tooltip(true)) == [s, With(s, map[LABEL * PROPS + TEXT_PADDING := 0, LABEL * PROPS + TEXT_ALIGNMENT := TEXT_ALIGN_CENTER])]
  {
    PutIsWith(s, LABEL, TEXT_PADDING, 0, LABEL, TEXT_ALIGNMENT, TEXT_ALIGN_CENTER);
    TwoBrackets(s, LABEL, TEXT_PADDING, 0, LABEL, TEXT_ALIGNMENT, TEXT_ALIGN_CENTER, Draw);
  }

  /** The button inside a window's bar, a combo box or a tab: its border forced and its text centred, everything else as styled; its tooltip sees the same. */
  function ForcedButton(s: Table, border: int): Table
  {
    With(s, map[BUTTON * PROPS + BORDER_WIDTH := border, BUTTON * PROPS + TEXT_ALIGNMENT := TEXT_ALIGN_CENTER])
  }

  lemma CenteredLooks(s: Table, border: int, tooltip: bool)
    ensures Drawn(s, Centered(border, Simple(tooltip))) == [ForcedButton(s, border)] + Drawn(ForcedButton(s, border), Tooltip(tooltip))
    ensures After(s, Centered(border, Simple(tooltip))) == s
  {
    hide Tooltip;
    PutIsWith(s, BUTTON, BORDER_WIDTH, border, BUTTON, TEXT_ALIGNMENT, TEXT_ALIGN_CENTER);
    TwoBrackets(s, BUTTON, BORDER_WIDTH, border, BUTTON, TEXT_ALIGNMENT, TEXT_ALIGN_CENTER, Simple(tooltip));
    PlainRestores(s, Centered(border, Simple(tooltip)));
    InTurn(ForcedButton(s, border), Draw, Tooltip(tooltip));
  }

  /** A window: the panel as styled, the status bar to the left, the close button with a border of one. */
  lemma WindowBoxLooks(s: Table)
    ensures Drawn(s, WindowBox(false)) == [s, With(s, map[STATUSBAR * PROPS + TEXT_ALIGNMENT := TEXT_ALIGN_LEFT]), ForcedButton(s, 1)]
  {
    var bar := Bracket(STATUSBAR, TEXT_ALIGNMENT, TEXT_ALIGN_LEFT, Draw);
    PutIsWith(s, STATUSBAR, TEXT_ALIGNMENT, TEXT_ALIGN_LEFT, BUTTON, TEXT_ALIGNMENT, 0);
    CenteredLooks(s, 1, false);
    TooltipLooks(ForcedButton(s, 1));
    InTurn(s, Draw, bar);
    InTurn(s, Both(Draw, bar), Centered(1, Simple(false)));
  }

  /** A combo box: its own face as styled, the selector with a border of one.  A spinner: everything as styled. */
  lemma ComboBoxAndSpinnerLook(s: Table, border: int)
    ensures Drawn(s, ComboBox(false)) == [s, ForcedButton(s, 1)]
    ensures Drawn(s, Spinner(false, false, border)) == [s, s, s]
  {
    CenteredLooks(s, 1, false);
    TooltipLooks(ForcedButton(s, 1));
    TooltipLooks(s);
    InTurn(s, Draw, Centered(1, Simple(false)));
    var buttons := Both(Simple(false), Simple(false));
    InTurn(s, Simple(false), Simple(false));
    InTurn(s, Draw, Tooltip(false));
    InTurn(s, buttons, Draw);
    InTurn(s, Both(buttons, Draw), Centered(border, Nothing));
    TwoBrackets(s, BUTTON, BORDER_WIDTH, border, BUTTON, TEXT_ALIGNMENT, TEXT_ALIGN_CENTER, Nothing);
  }

  /** A slider bar is a slider with a knob of no width; the bars of lists and panels have the slider their contents need. */
  lemma BarsLook(s: Table, size: int, speed: int)
    ensures Drawn(s, SliderBar()) == [With(s, map[SLIDER * PROPS + SLIDER_WIDTH := 0])]
    ensures Drawn(s, ListViewBar(size, speed)) == [With(s, map[SCROLLBAR * PROPS + SCROLL_SLIDER_SIZE := size, SCROLLBAR * PROPS + SCROLL_SPEED := speed])]
    ensures Drawn(s, Bar(true, size)) == [With(s, map[SCROLLBAR * PROPS + SCROLL_SLIDER_SIZE := size])] && Drawn(s, Bar(false, size)) == []
  {
    PutIsWith(s, SLIDER, SLIDER_WIDTH, 0, SCROLLBAR, SCROLL_SPEED, speed);
    PutIsWith(s, SCROLLBAR, SCROLL_SLIDER_SIZE, size, SCROLLBAR, SCROLL_SPEED, speed);
    TwoBrackets(s, SCROLLBAR, SCROLL_SLIDER_SIZE, size, SCROLLBAR, SCROLL_SPEED, speed, Draw);
    BarDraws(s, true, size);
    BarDraws(s, false, size);
  }

  /** A tab: to the left with a padding of eight, and its close button if the style asks for one. */
  lemma TabLooks(s: Table, close: bool)
    ensures Drawn(s, Tab(false, false, close, false)) == []
    ensures Drawn(s, Tab(true, false, close, false))
            == [With(s, map[TOGGLE * PROPS + TEXT_ALIGNMENT := TEXT_ALIGN_LEFT, TOGGLE * PROPS + TEXT_PADDING := 8])]
               + if close then [ForcedButton(s, 1)] else []
  {
    hide With, Put, Drawn, After;
    TabFace(s);
    TabParts(s, close);
  }

  lemma TabFace(s: Table)
    ensures Drawn(s, Face(false)) == [With(s, map[TOGGLE * PROPS + TEXT_ALIGNMENT := TEXT_ALIGN_LEFT, TOGGLE * PROPS + TEXT_PADDING := 8])]
  {
    hide With, Put, After;
    PutIsWith(s, TOGGLE, TEXT_ALIGNMENT, TEXT_ALIGN_LEFT, TOGGLE, TEXT_PADDING, 8);
    TwoBrackets(s, TOGGLE, TEXT_ALIGNMENT, TEXT_ALIGN_LEFT, TOGGLE, TEXT_PADDING, TAB_PADDING, Simple(false));
    SimpleLooks(Put(Put(s, TOGGLE, TEXT_ALIGNMENT, TEXT_ALIGN_LEFT), TOGGLE, TEXT_PADDING, TAB_PADDING));
  }

  lemma SimpleLooks(s: Table)
    ensures Drawn(s, Simple(false)) == [s]
  {
    InTurn(s, Draw, Tooltip(false));
  }

  lemma TabParts(s: Table, close: bool)
    ensures Drawn(s, Tab(false, false, close, false)) == []
    ensures Drawn(s, Tab(true, false, close, false)) == Drawn(s, Face(false)) + if close then [ForcedButton(s, 1)] else []
  {
    hide With, Put, ForcedButton;
    CenteredLooks(s, 1, false);
    TooltipLooks(ForcedButton(s, 1));
    InTurn(s, Face(false), if close then Centered(1, Simple(false)) else Nothing);
  }

  /** As many tabs as are visible, all alike. */
  lemma {:induction false} TabsLook(s: Table, count: nat, visible: nat -> bool, tooltip: nat -> bool, close: bool)
    requires forall i :: !tooltip(i)
    ensures var tabs := Drawn(s, Tabs(count, visible, tooltip, close));
            && |tabs| == (if close then 2 else 1) * VisibleTabs(count, visible)
            && forall t :: t in tabs ==> t in Drawn(s, Tab(true, false, close, false))
  {
    hide Tab, TAB_PADDING, With, ForcedButton;
    if count > 0 {
      TabsLook(s, count - 1, visible, tooltip, close);
      InTurn(s, Tabs(count - 1, visible, tooltip, close), Tab(visible(count - 1), false, close, false));
      TabLooks(s, close);
    }
  }

  function VisibleTabs(count: nat, visible: nat -> bool): nat
  {
    if count == 0 then 0 else VisibleTabs(count - 1, visible) + if visible(count - 1) then 1 else 0
  }

  /** A row of buttons, a message and an input line: centred buttons, a centred label, a text box to the left. */
  lemma {:induction false} ButtonsLook(s: Table, count: nat, tooltip: nat -> bool)
    requires forall i :: !tooltip(i)
    ensures |Drawn(s, Buttons(count, tooltip))| == count && forall t :: t in Drawn(s, Buttons(count, tooltip)) ==> t == s
  {
    if count > 0 {
      ButtonsLook(s, count - 1, tooltip);
      InTurn(s, Buttons(count - 1, tooltip), Simple(false));
      InTurn(s, Draw, Tooltip(false));
    }
  }

  lemma BoxesLook(s: Table, count: nat, tooltip: nat -> bool, message: bool, secret: bool)
    requires forall i :: !tooltip(i)
    ensures var button := With(s, map[BUTTON * PROPS + TEXT_ALIGNMENT := TEXT_ALIGN_CENTER]);
            && |Drawn(s, ButtonRow(count, tooltip))| == count && forall t :: t in Drawn(s, ButtonRow(count, tooltip)) ==> t == button
    ensures Drawn(s, Message(message)) == if message then [With(s, map[LABEL * PROPS + TEXT_ALIGNMENT := TEXT_ALIGN_CENTER])] else []
    ensures var line := With(s, map[TEXTBOX * PROPS + TEXT_ALIGNMENT := TEXT_ALIGN_LEFT]);
            Drawn(s, TextInput(secret, false, false)) == if secret then [line, line] else [line]
    ensures Drawn(s, MessageBox(count, tooltip)) == Drawn(s, WindowBox(false)) + Drawn(s, Message(true)) + Drawn(s, ButtonRow(count, tooltip))
    ensures Drawn(s, TextInputBox(message, secret, count, tooltip))
            == Drawn(s, WindowBox(false)) + Drawn(s, Message(message)) + Drawn(s, TextInput(secret, false, false)) + Drawn(s, ButtonRow(count, tooltip))
  {
    hide WindowBox, ButtonRow, Message, TextInput, MessageBox, TextInputBox, With, Put, Drawn, After;
    RowLooks(s, count, tooltip);
    LinesLook(s, message, secret);
    BoxesInTurn(s, count, tooltip, message, secret);
  }

  lemma LinesLook(s: Table, message: bool, secret: bool)
    ensures Drawn(s, Message(message)) == if message then [With(s, map[LABEL * PROPS + TEXT_ALIGNMENT := TEXT_ALIGN_CENTER])] else []
    ensures var line := With(s, map[TEXTBOX * PROPS + TEXT_ALIGNMENT := TEXT_ALIGN_LEFT]);
            Drawn(s, TextInput(secret, false, false)) == if secret then [line, line] else [line]
  {
    hide With, Put;
    PutIsWith(s, LABEL, TEXT_ALIGNMENT, TEXT_ALIGN_CENTER, BUTTON, TEXT_ALIGNMENT, 0);
    PutIsWith(s, TEXTBOX, TEXT_ALIGNMENT, TEXT_ALIGN_LEFT, BUTTON, TEXT_ALIGNMENT, 0);
    var t := Put(s, TEXTBOX, TEXT_ALIGNMENT, TEXT_ALIGN_LEFT);
    SimpleLooks(t);
    InTurn(t, Simple(false), if secret then Simple(false) else Nothing);
  }

  lemma RowLooks(s: Table, count: nat, tooltip: nat -> bool)
    requires forall i :: !tooltip(i)
    ensures var button := With(s, map[BUTTON * PROPS + TEXT_ALIGNMENT := TEXT_ALIGN_CENTER]);
            && |Drawn(s, ButtonRow(count, tooltip))| == count && forall t :: t in Drawn(s, ButtonRow(count, tooltip)) ==> t == button
  {
    PutIsWith(s, BUTTON, TEXT_ALIGNMENT, TEXT_ALIGN_CENTER, LABEL, TEXT_ALIGNMENT, 0);
    ButtonsLook(Put(s, BUTTON, TEXT_ALIGNMENT, TEXT_ALIGN_CENTER), count, tooltip);
  }

  lemma BoxesInTurn(s: Table, count: nat, tooltip: nat -> bool, message: bool, secret: bool)
    requires forall i :: !tooltip(i)
    ensures Drawn(s, MessageBox(count, tooltip)) == Drawn(s, WindowBox(false)) + Drawn(s, Message(true)) + Drawn(s, ButtonRow(count, tooltip))
    ensures Drawn(s, TextInputBox(message, secret, count, tooltip))
            == Drawn(s, WindowBox(false)) + Drawn(s, Message(message)) + Drawn(s, TextInput(secret, false, false)) + Drawn(s, ButtonRow(count, tooltip))
  {
    hide WindowBox, Message, TextInput, ButtonRow;
    var w, row := WindowBox(false), ButtonRow(count, tooltip);
    InTurn(s, w, Message(true));
    InTurn(s, Both(w, Message(true)), row);
    InTurn(s, w, Message(message));
    InTurn(s, Both(w, Message(message)), TextInput(secret, false, false));
    InTurn(s, Both(Both(w, Message(message)), TextInput(secret, false, false)), row);
  }

  // ----- The table and the controls on it -----

  class Styles {
    const guiStyle: array<int>

    constructor ()
      ensures guiStyle.Length == CELLS && fresh(guiStyle)
    {
      guiStyle := new int[CELLS](_ => 0);
    }

    ghost function Now(): Table
      requires guiStyle.Length == CELLS
      reads guiStyle
    {
      guiStyle[..]
    }

    method GuiSetStyle(c: int, p: int, v: int)
      requires guiStyle.Length == CELLS && InTable(c, p)
      modifies guiStyle
      ensures Now() == Put(old(Now()), c, p, v)
      ensures 0 <= c < CONTROLS && 0 <= p < PROPS ==>
                forall d, q :: 0 <= d < CONTROLS && 0 <= q < PROPS ==>
                  GuiGetStyle(d, q) == if q == p && (d == c || (c == DEFAULT && p < BASE)) then v else old(GuiGetStyle(d, q))
    {
      guiStyle[c * PROPS + p] := v;
      if c == DEFAULT && p < BASE {
        for i := 1 to CONTROLS
          invariant forall k :: 0 <= k < CELLS ==>
                      guiStyle[k] == if k % PROPS == p && k / PROPS < i then v else old(guiStyle[k])
        {
          guiStyle[i * PROPS + p] := v;
        }
      }
    }

    function GuiGetStyle(c: nat, p: nat): int
      requires guiStyle.Length == CELLS && c < CONTROLS && p < PROPS
      reads guiStyle
    {
      guiStyle[c * PROPS + p]
    }

    /** The property loop of the binary style loader; the model stops where the C code would write outside the table. */
    method LoadProperties(entries: seq<Entry>) returns (n: nat)
      requires guiStyle.Length == CELLS
      modifies guiStyle
      ensures n <= |entries| && (forall e :: e in entries[..n] ==> InRange(e)) && (n < |entries| ==> !InRange(entries[n]))
      ensures Now() == Loaded(old(Now()), entries[..n])
    {
      hide Put, InTable;
      n := 0;
      while n < |entries|
        invariant n <= |entries| && forall e :: e in entries[..n] ==> InRange(e)
        invariant Now() == Loaded(old(Now()), entries[..n])
      {
        var e := entries[n];
        if !InTable(e.control, e.property) { return; }
        ghost var part := entries[..n + 1];
        assert part[..n] == entries[..n] && part[n] == e;
        LoadOne(e);
        n := n + 1;
      }
    }

    method LoadOne(e: Entry)
      requires guiStyle.Length == CELLS && InRange(e)
      modifies guiStyle
      ensures Now() == Put(old(Now()), e.control, e.property, e.value)
    {
      if e.control == DEFAULT {
        GuiSetStyle(DEFAULT, e.property, e.value);
        if e.property < BASE {
          SpreadAgain(e.property, e.value);
        }
      } else {
        GuiSetStyle(e.control, e.property, e.value);
      }
    }

    /** The loader writes a DEFAULT property to every control a second time. */
    method SpreadAgain(p: nat, v: int)
      requires guiStyle.Length == CELLS && p < BASE
      requires forall k :: 0 <= k < CELLS && k % PROPS == p ==> guiStyle[k] == v
      modifies guiStyle
      ensures Now() == old(Now())
    {
      for j := 1 to CONTROLS
        invariant Now() == old(Now())
      {
        GuiSetStyle(j, p, v);
      }
    }

    // ----- Controls that rewrite styles for a while -----
    // Each performs its program: it returns the tables its parts were drawn with, in order, and leaves what the program leaves.

    twostate predicate Performs(g: Program, drawn: seq<Table>)
      reads guiStyle
    {
      guiStyle.Length == CELLS && Now() == After(old(Now()), g) == old(Now()) && drawn == Drawn(old(Now()), g)
    }

    /** Tooltip under a focused control; `shown`: tooltips are on, set, and nobody drags. */
    method GuiTooltip(shown: bool) returns (ghost drawn: seq<Table>)
      requires guiStyle.Length == CELLS
      modifies guiStyle
      ensures Performs(Tooltip(shown), drawn)
    {
      drawn := [];
      if shown {
        drawn := [Now()];
        var textPadding := GuiGetStyle(LABEL, TEXT_PADDING);
        var textAlignment := GuiGetStyle(LABEL, TEXT_ALIGNMENT);
        GuiSetStyle(LABEL, TEXT_PADDING, 0);
        GuiSetStyle(LABEL, TEXT_ALIGNMENT, TEXT_ALIGN_CENTER);
        drawn := drawn + [Now()];
        GuiSetStyle(LABEL, TEXT_ALIGNMENT, textAlignment);
        GuiSetStyle(LABEL, TEXT_PADDING, textPadding);
      }
      PlainRestores(old(Now()), Tooltip(shown));
    }

    /** Button, toggle, text box: read styles, and show a tooltip when focused. */
    method SimpleControl(tooltip: bool) returns (ghost drawn: seq<Table>)
      requires guiStyle.Length == CELLS
      modifies guiStyle
      ensures Performs(Simple(tooltip), drawn)
    {
      ghost var own := Now();
      drawn := GuiTooltip(tooltip);
      drawn := [own] + drawn;
    }

    method GuiWindowBox(tooltip: bool) returns (ghost drawn: seq<Table>)
      requires guiStyle.Length == CELLS
      modifies guiStyle
      ensures Performs(WindowBox(tooltip), drawn)
    {
      hide Simple;
      ghost var panel := Now();
      var tempTextAlignment := GuiGetStyle(STATUSBAR, TEXT_ALIGNMENT);
      GuiSetStyle(STATUSBAR, TEXT_ALIGNMENT, TEXT_ALIGN_LEFT);
      ghost var statusBar := Now();
      GuiSetStyle(STATUSBAR, TEXT_ALIGNMENT, tempTextAlignment);
      assert Now() == old(Now());
      drawn := CenteredButton(1, tooltip, true);
      drawn := [panel, statusBar] + drawn;
      PlainRestores(old(Now()), Bracket(STATUSBAR, TEXT_ALIGNMENT, TEXT_ALIGN_LEFT, Draw));
      PlainRestores(old(Now()), WindowBox(tooltip));
    }

    /**
      The block around an inner button: border and alignment forced, and put back in either order.
      The combo box and the tab bar put them back in opposite orders.
     */
    method CenteredButton(border: int, tooltip: bool, borderFirst: bool) returns (ghost drawn: seq<Table>)
      requires guiStyle.Length == CELLS
      modifies guiStyle
      ensures Performs(Centered(border, Simple(tooltip)), drawn)
    {
      hide Simple;
      var tempBorderWidth := GuiGetStyle(BUTTON, BORDER_WIDTH);
      var tempTextAlign := GuiGetStyle(BUTTON, TEXT_ALIGNMENT);
      GuiSetStyle(BUTTON, BORDER_WIDTH, border);
      GuiSetStyle(BUTTON, TEXT_ALIGNMENT, TEXT_ALIGN_CENTER);
      drawn := SimpleControl(tooltip);
      if borderFirst {
        GuiSetStyle(BUTTON, BORDER_WIDTH, tempBorderWidth);
        GuiSetStyle(BUTTON, TEXT_ALIGNMENT, tempTextAlign);
      } else {
        GuiSetStyle(BUTTON, TEXT_ALIGNMENT, tempTextAlign);
        GuiSetStyle(BUTTON, BORDER_WIDTH, tempBorderWidth);
      }
      TwoBrackets(old(Now()), BUTTON, BORDER_WIDTH, border, BUTTON, TEXT_ALIGNMENT, TEXT_ALIGN_CENTER, Simple(tooltip));
      PlainRestores(old(Now()), Centered(border, Simple(tooltip)));
    }

    method GuiComboBox(tooltip: bool) returns (ghost drawn: seq<Table>)
      requires guiStyle.Length == CELLS
      modifies guiStyle
      ensures Performs(ComboBox(tooltip), drawn)
    {
      hide Centered, Simple;
      drawn := CenteredButton(1, tooltip, false);
      drawn := [Now()] + drawn;
    }

    method GuiSpinner(leftTooltip: bool, rightTooltip: bool) returns (ghost drawn: seq<Table>)
      requires guiStyle.Length == CELLS
      modifies guiStyle
      ensures Performs(Spinner(leftTooltip, rightTooltip, GuiGetStyle(VALUEBOX, BORDER_WIDTH)), drawn)
    {
      hide Simple;
      ghost var left := SimpleControl(leftTooltip);
      ghost var right := SimpleControl(rightTooltip);
      drawn := left + right + [Now()];
      var tempBorderWidth := GuiGetStyle(BUTTON, BORDER_WIDTH);
      var tempTextAlign := GuiGetStyle(BUTTON, TEXT_ALIGNMENT);
      var border := GuiGetStyle(VALUEBOX, BORDER_WIDTH);
      GuiSetStyle(BUTTON, BORDER_WIDTH, border);
      GuiSetStyle(BUTTON, TEXT_ALIGNMENT, TEXT_ALIGN_CENTER);
      GuiSetStyle(BUTTON, TEXT_ALIGNMENT, tempTextAlign);
      GuiSetStyle(BUTTON, BORDER_WIDTH, tempBorderWidth);
      assert Now() == old(Now());
      TwoBrackets(old(Now()), BUTTON, BORDER_WIDTH, border, BUTTON, TEXT_ALIGNMENT, TEXT_ALIGN_CENTER, Nothing);
      InTurn(old(Now()), Simple(leftTooltip), Simple(rightTooltip));
      InTurn(old(Now()), Both(Simple(leftTooltip), Simple(rightTooltip)), Draw);
      InTurn(old(Now()), Both(Both(Simple(leftTooltip), Simple(rightTooltip)), Draw), Centered(border, Nothing));
      PlainRestores(old(Now()), Spinner(leftTooltip, rightTooltip, border));
    }

    method GuiSliderBar() returns (ghost drawn: seq<Table>)
      requires guiStyle.Length == CELLS
      modifies guiStyle
      ensures Performs(SliderBar(), drawn)
    {
      var preSliderWidth := GuiGetStyle(SLIDER, SLIDER_WIDTH);
      GuiSetStyle(SLIDER, SLIDER_WIDTH, 0);
      drawn := [Now()];
      GuiSetStyle(SLIDER, SLIDER_WIDTH, preSliderWidth);
      PlainRestores(old(Now()), SliderBar());
    }

    method GuiListViewBar(sliderSize: int, speed: int) returns (ghost drawn: seq<Table>)
      requires guiStyle.Length == CELLS
      modifies guiStyle
      ensures Performs(ListViewBar(sliderSize, speed), drawn)
    {
      var prevSliderSize := GuiGetStyle(SCROLLBAR, SCROLL_SLIDER_SIZE);
      var prevScrollSpeed := GuiGetStyle(SCROLLBAR, SCROLL_SPEED);
      GuiSetStyle(SCROLLBAR, SCROLL_SLIDER_SIZE, sliderSize);
      GuiSetStyle(SCROLLBAR, SCROLL_SPEED, speed);
      drawn := [Now()];
      GuiSetStyle(SCROLLBAR, SCROLL_SPEED, prevScrollSpeed);
      GuiSetStyle(SCROLLBAR, SCROLL_SLIDER_SIZE, prevSliderSize);
      TwoBrackets(old(Now()), SCROLLBAR, SCROLL_SLIDER_SIZE, sliderSize, SCROLLBAR, SCROLL_SPEED, speed, Draw);
      PlainRestores(old(Now()), ListViewBar(sliderSize, speed));
    }

    /** Either bar may be there; each rewrites the slider size, which is put back once at the end. */
    method GuiScrollPanel(horizontal: bool, vertical: bool, widthSlider: int, heightSlider: int) returns (ghost drawn: seq<Table>)
      requires guiStyle.Length == CELLS
      modifies guiStyle
      ensures Performs(Both(Bar(horizontal, widthSlider), Bar(vertical, heightSlider)), drawn)
    {
      drawn := [];
      var slider := GuiGetStyle(SCROLLBAR, SCROLL_SLIDER_SIZE);
      if horizontal {
        GuiSetStyle(SCROLLBAR, SCROLL_SLIDER_SIZE, widthSlider);
        drawn := drawn + [Now()];
      }
      if vertical {
        GuiSetStyle(SCROLLBAR, SCROLL_SLIDER_SIZE, heightSlider);
        assert Now() == Put(old(Now()), SCROLLBAR, SCROLL_SLIDER_SIZE, heightSlider);
        drawn := drawn + [Now()];
      }
      GuiSetStyle(SCROLLBAR, SCROLL_SLIDER_SIZE, slider);
      assert Now() == old(Now());
      BarDraws(old(Now()), horizontal, widthSlider);
      BarDraws(old(Now()), vertical, heightSlider);
      InTurn(old(Now()), Bar(horizontal, widthSlider), Bar(vertical, heightSlider));
    }

    /** One toggle per visible tab, and a close button when the style asks for it. */
    method GuiTabBarEx(count: nat, visible: nat -> bool, tooltip: nat -> bool) returns (ghost drawn: seq<Table>)
      requires guiStyle.Length == CELLS
      modifies guiStyle
      ensures Performs(Tabs(count, visible, tooltip, GuiGetStyle(TABBAR, TAB_CLOSE_BUTTON) != 0), drawn)
    {
      hide Tab;
      drawn := [];
      for i := 0 to count
        invariant Performs(Tabs(i, visible, tooltip, GuiGetStyle(TABBAR, TAB_CLOSE_BUTTON) != 0), drawn)
      {
        ghost var tab := OneTab(visible(i), tooltip(2 * i), tooltip(2 * i + 1));
        drawn := drawn + tab;
      }
    }

    method OneTab(visible: bool, tooltip: bool, closeTooltip: bool) returns (ghost drawn: seq<Table>)
      requires guiStyle.Length == CELLS
      modifies guiStyle
      ensures Performs(Tab(visible, tooltip, GuiGetStyle(TABBAR, TAB_CLOSE_BUTTON) != 0, closeTooltip), drawn)
    {
      hide Simple, Centered, Face;
      drawn := [];
      if visible {
        drawn := LeftToggle(tooltip);
        if GuiGetStyle(TABBAR, TAB_CLOSE_BUTTON) != 0 {
          ghost var close := CenteredButton(1, closeTooltip, true);
          drawn := drawn + close;
          InTurn(old(Now()), Face(tooltip), Centered(1, Simple(closeTooltip)));
        } else {
          InTurn(old(Now()), Face(tooltip), Nothing);
        }
      }
    }

    method LeftToggle(tooltip: bool) returns (ghost drawn: seq<Table>)
      requires guiStyle.Length == CELLS
      modifies guiStyle
      ensures Performs(Face(tooltip), drawn)
    {
      hide Simple;
      var textAlignment := GuiGetStyle(TOGGLE, TEXT_ALIGNMENT);
      var textPadding := GuiGetStyle(TOGGLE, TEXT_PADDING);
      GuiSetStyle(TOGGLE, TEXT_ALIGNMENT, TEXT_ALIGN_LEFT);
      GuiSetStyle(TOGGLE, TEXT_PADDING, TAB_PADDING);
      drawn := SimpleControl(tooltip);
      GuiSetStyle(TOGGLE, TEXT_PADDING, textPadding);
      GuiSetStyle(TOGGLE, TEXT_ALIGNMENT, textAlignment);
      TwoBrackets(old(Now()), TOGGLE, TEXT_ALIGNMENT, TEXT_ALIGN_LEFT, TOGGLE, TEXT_PADDING, TAB_PADDING, Simple(tooltip));
      PlainRestores(old(Now()), Face(tooltip));
    }

    /** A window box, a centred label, and centred buttons. */
    method GuiMessageBox(buttonCount: nat, tooltip: nat -> bool) returns (ghost drawn: seq<Table>)
      requires guiStyle.Length == CELLS
      modifies guiStyle
      ensures Performs(MessageBox(buttonCount, tooltip), drawn)
    {
      hide WindowBox, Message, ButtonRow;
      ghost var window := GuiWindowBox(tooltip(0));
      ghost var labels := CenteredLabel(true);
      ghost var buttons := CenteredButtons(buttonCount, tooltip);
      drawn := window + labels + buttons;
      InTurn(old(Now()), WindowBox(tooltip(0)), Message(true));
      InTurn(old(Now()), Both(WindowBox(tooltip(0)), Message(true)), ButtonRow(buttonCount, tooltip));
    }

    method CenteredLabel(shown: bool) returns (ghost drawn: seq<Table>)
      requires guiStyle.Length == CELLS
      modifies guiStyle
      ensures Performs(Message(shown), drawn)
    {
      drawn := [];
      if shown {
        var prevTextAlignment := GuiGetStyle(LABEL, TEXT_ALIGNMENT);
        GuiSetStyle(LABEL, TEXT_ALIGNMENT, TEXT_ALIGN_CENTER);
        drawn := [Now()];
        GuiSetStyle(LABEL, TEXT_ALIGNMENT, prevTextAlignment);
      }
      PlainRestores(old(Now()), Message(shown));
    }

    method CenteredButtons(buttonCount: nat, tooltip: nat -> bool) returns (ghost drawn: seq<Table>)
      requires guiStyle.Length == CELLS
      modifies guiStyle
      ensures Performs(ButtonRow(buttonCount, tooltip), drawn)
    {
      hide Simple;
      var prevTextAlignment := GuiGetStyle(BUTTON, TEXT_ALIGNMENT);
      GuiSetStyle(BUTTON, TEXT_ALIGNMENT, TEXT_ALIGN_CENTER);
      ghost var during := Now();
      drawn := [];
      for i := 0 to buttonCount
        invariant Now() == during == After(during, Buttons(i, tooltip)) && drawn == Drawn(during, Buttons(i, tooltip))
      {
        ghost var button := SimpleControl(tooltip(i + 1));
        drawn := drawn + button;
      }
      GuiSetStyle(BUTTON, TEXT_ALIGNMENT, prevTextAlignment);
      PlainRestores(old(Now()), ButtonRow(buttonCount, tooltip));
    }

    method GuiTextInputBox(message: bool, secret: bool, buttonCount: nat, tooltip: nat -> bool) returns (ghost drawn: seq<Table>)
      requires guiStyle.Length == CELLS
      modifies guiStyle
      ensures Performs(TextInputBox(message, secret, buttonCount, tooltip), drawn)
    {
      hide WindowBox, Message, TextInput, ButtonRow;
      ghost var window := GuiWindowBox(tooltip(0));
      ghost var labels := CenteredLabel(message);
      ghost var input := LeftTextBox(secret, tooltip(buttonCount + 1), tooltip(buttonCount + 2));
      ghost var buttons := CenteredButtons(buttonCount, tooltip);
      drawn := window + labels + input + buttons;
      ghost var top := Both(WindowBox(tooltip(0)), Message(message));
      ghost var field := TextInput(secret, tooltip(buttonCount + 1), tooltip(buttonCount + 2));
      InTurn(old(Now()), WindowBox(tooltip(0)), Message(message));
      InTurn(old(Now()), top, field);
      InTurn(old(Now()), Both(top, field), ButtonRow(buttonCount, tooltip));
    }

    method LeftTextBox(secret: bool, tooltip: bool, secretTooltip: bool) returns (ghost drawn: seq<Table>)
      requires guiStyle.Length == CELLS
      modifies guiStyle
      ensures Performs(TextInput(secret, tooltip, secretTooltip), drawn)
    {
      hide Simple;
      var prevTextBoxAlignment := GuiGetStyle(TEXTBOX, TEXT_ALIGNMENT);
      GuiSetStyle(TEXTBOX, TEXT_ALIGNMENT, TEXT_ALIGN_LEFT);
      drawn := SimpleControl(tooltip);
      if secret {
        ghost var toggle := SimpleControl(secretTooltip);
        drawn := drawn + toggle;
      }
      GuiSetStyle(TEXTBOX, TEXT_ALIGNMENT, prevTextBoxAlignment);
      PlainRestores(old(Now()), TextInput(secret, tooltip, secretTooltip));
    }
  }
}
