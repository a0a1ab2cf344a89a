/** What a caption page says, and the JSON tree that libsubtitle/utils/ClosedCaptionJson.c writes for it. */
module CaptionPages {
  import opened Bytes
  import opened Json
  import opened CompactJsons
  import opened CaptionWriters
  import opened JsonTexts

  /** The fields of a vbi_char that the writer looks at. */
  datatype Cell = Cell(unicode: nat, foreground: nat, background: nat, opacity: nat,
                       underline: bool, italic: bool, flash: bool)

  datatype Page = Page(number: int, rows: nat, columns: nat, text: seq<Cell>, colors: seq<nat>)
  {
    ghost predicate Valid() {
      && |text| == rows * columns
      && |colors| > 0
      && forall i | 0 <= i < |text| :: CellOk(text[i])
    }

    predicate CellOk(c: Cell) {
      c.unicode < 0x1_0000 && c.foreground < |colors| && c.background < |colors|
    }

    function Row(i: nat): (r: seq<Cell>)
      requires Valid() && i < rows
      ensures |r| == columns
    {
      RowBounds(i, rows, columns);
      text[i * columns..i * columns + columns]
    }
  }

  lemma RowBounds(i: nat, rows: nat, columns: nat)
    requires i < rows
    ensures 0 <= i * columns <= i * columns + columns <= rows * columns
  {
    assert (i + 1) * columns <= rows * columns;
  }

  const NO_STYLE := Cell(0, 0, 0, 0, false, false, false)

  /** A stretch of a row in one style. */
  datatype Run = Run(style: Cell, text: seq<byte>)

  // ---- The text of a row --------------------------------------------------------------------

  /** The characters of a row: from the first non-zero column to the next zero one. */
  function Shown(cells: seq<Cell>, going: bool): seq<byte>
    requires AllCells(cells)
  {
    if cells == [] then []
    else if cells[0].unicode != 0 then Utf8(cells[0].unicode) + Shown(cells[1..], true)
    else if going then []
    else Shown(cells[1..], false)
  }

  /** The same characters as code points. */
  function ShownChars(cells: seq<Cell>, going: bool): seq<nat> {
    if cells == [] then []
    else if cells[0].unicode != 0 then [cells[0].unicode] + ShownChars(cells[1..], true)
    else if going then []
    else ShownChars(cells[1..], false)
  }

  /** The bytes determine the characters. */
  lemma {:induction false} ShownDecodes(cells: seq<Cell>, going: bool)
    requires AllCells(cells)
    ensures CodePoints(Shown(cells, going)) == (ShownChars(cells, going), [])
  {
    hide Utf8, ReadUtf8;
    if cells == [] || (cells[0].unicode == 0 && going) {
      NothingToRead();
    } else {
      ShownDecodes(cells[1..], going || cells[0].unicode != 0);
      if cells[0].unicode != 0 {
        Utf8Decodes(cells[0].unicode, Shown(cells[1..], true));
      }
    }
  }

  function LeadingZeros(cells: seq<Cell>): nat {
    if cells == [] || cells[0].unicode != 0 then 0 else 1 + LeadingZeros(cells[1..])
  }

  /** vbi_style_cmp: a blank on a background that does not show takes any style. */
  predicate Differs(s: Cell, c: Cell) {
    !(c.unicode == 0x20 && (c.opacity == 0 || c.background == 0)) &&
    (s.foreground != c.foreground || s.background != c.background || s.opacity != c.opacity ||
     s.underline != c.underline || s.italic != c.italic || s.flash != c.flash)
  }

  function Flush(style: Cell, pending: seq<byte>): seq<Run> {
    if pending == [] then [] else [Run(style, pending)]
  }

  /** One column: the runs it completes, and the style and pending text it leaves. */
  function Turn(style: Cell, pending: seq<byte>, c: Cell): (seq<Run>, Cell, seq<byte>) {
    if Differs(style, c) then (Flush(style, pending), c, []) else ([], style, pending)
  }

  predicate AllCells(cells: seq<Cell>) {
    forall i | 0 <= i < |cells| :: cells[i].unicode < 0x1_0000
  }

  /** The runs a row is cut into, and the style it leaves for the next row. */
  function Runs(cells: seq<Cell>, style: Cell, pending: seq<byte>, going: bool): (seq<Run>, Cell)
    requires AllCells(cells)
  {
    if cells == [] then (Flush(style, pending), style)
    else
      var c := cells[0];
      var (done, s, p) := Turn(style, pending, c);
      if c.unicode == 0 && going then (done + Flush(s, p), s)
      else
        var p' := if c.unicode == 0 then p else p + Utf8(c.unicode);
        var (more, last) := Runs(cells[1..], s, p', going || c.unicode != 0);
        (done + more, last)
  }

  function Texts(runs: seq<Run>): seq<byte> {
    if runs == [] then [] else runs[0].text + Texts(runs[1..])
  }

  lemma {:induction false} TextsJoin(a: seq<Run>, b: seq<Run>)
    ensures Texts(a + b) == Texts(a) + Texts(b)
  {
    if a == [] {
      assert a + b == b;
    } else {
      TextsJoin(a[1..], b);
      assert (a + b)[1..] == a[1..] + b;
      Assoc(a[0].text, Texts(a[1..]), Texts(b));
    }
  }

  lemma FlushText(style: Cell, pending: seq<byte>)
    ensures Texts(Flush(style, pending)) == pending
  {
    if pending != [] {
      assert Texts([Run(style, pending)]) == pending + Texts([]);
    }
  }

  /** Whatever style changes cut the row, its runs together hold its characters. */
  lemma {:induction false} RunsHoldText(cells: seq<Cell>, style: Cell, pending: seq<byte>, going: bool)
    requires AllCells(cells)
    ensures Texts(Runs(cells, style, pending, going).0) == pending + Shown(cells, going)
    decreases |cells|
  {
    hide Flush, Utf8, Turn, Texts, AllCells;
    if cells == [] {
      FlushText(style, pending);
      assert pending + [] == pending;
    } else {
      var c := cells[0];
      var (done, s, p) := Turn(style, pending, c);
      TurnText(style, pending, c);
      assert AllCells(cells[1..]) && c.unicode < 0x1_0000 by { CellsTail(cells); }
      if c.unicode == 0 && going {
        TextsJoin(done, Flush(s, p));
        FlushText(s, p);
        assert pending + [] == pending;
      } else if c.unicode == 0 {
        RunsHoldText(cells[1..], s, p, going);
        TextsJoin(done, Runs(cells[1..], s, p, going).0);
        Assoc(Texts(done), p, Shown(cells[1..], going));
      } else {
        var u := Utf8(c.unicode);
        RunsHoldText(cells[1..], s, p + u, true);
        TextsJoin(done, Runs(cells[1..], s, p + u, true).0);
        var rest := Shown(cells[1..], true);
        Assoc(p, u, rest);
        Assoc(Texts(done), p, u + rest);
      }
    }
  }

  lemma CellsTail(cells: seq<Cell>)
    requires AllCells(cells) && cells != []
    ensures AllCells(cells[1..]) && cells[0].unicode < 0x1_0000
  {
  }

  lemma TurnText(style: Cell, pending: seq<byte>, c: Cell)
    ensures var (done, s, p) := Turn(style, pending, c); Texts(done) + p == pending
  {
    hide Flush, Differs;
    if Differs(style, c) {
      FlushText(style, pending);
      assert pending + [] == pending;
    } else {
      assert Texts([]) + pending == pending;
    }
  }

  // ---- The tree -----------------------------------------------------------------------------

  /** Six bits out of a colour. */
  function ColorValue(col: nat): (v: nat)
    ensures v < 64
  {
    col % 0x100 / 0x40 * 0x10 + col / 0x100 % 0x100 / 0x40 * 4 + col / 0x1_0000 % 0x100 / 0x40
  }

  const TRANSPARENT_SPACE := 0
  const SEMI_TRANSPARENT := 2
  const OPAQUE := 3

  function OpacityText(v: nat): seq<byte> {
    if v == TRANSPARENT_SPACE then Ascii("transparent")
    else if v == SEMI_TRANSPARENT then Ascii("translucent")
    else Ascii("solid")
  }

  function Spaces(n: nat): (s: seq<byte>)
    ensures |s| == n && forall i | 0 <= i < n :: s[i] == SPACE
  {
    seq(n, i => SPACE)
  }

  /** The flashing text of a run is blank in the dark half of the second. */
  predicate Blanked(run: Run, dark: bool) {
    run.style.flash && dark
  }

  function Data(run: Run, dark: bool): seq<byte> {
    if Blanked(run, dark) then Spaces(|run.text|) else run.text
  }

  function Flag(b: bool): Json {
    if b then True else False
  }

  function RunMembers(run: Run, colors: seq<nat>, dark: bool): seq<Member>
    requires run.style.foreground < |colors| && run.style.background < |colors|
  {
    [ Member(Ascii("fg_color"), Number(ColorValue(colors[run.style.foreground]))),
      Member(Ascii("bg_color"), Number(ColorValue(colors[run.style.background]))),
      Member(Ascii("fg_opacity"), String(OpacityText(if Blanked(run, dark) then TRANSPARENT_SPACE else OPAQUE))),
      Member(Ascii("bg_opacity"), String(OpacityText(run.style.opacity))),
      Member(Ascii("underline"), Flag(run.style.underline)),
      Member(Ascii("italics"), Flag(run.style.italic)),
      Member(Ascii("data"), String(Data(run, dark))) ]
  }

  predicate RunOk(run: Run, colors: seq<nat>) {
    && run.style.foreground < |colors| && run.style.background < |colors|
    && IsText(run.text)
  }

  predicate RunsOk(runs: seq<Run>, colors: seq<nat>) {
    forall i | 0 <= i < |runs| :: RunOk(runs[i], colors)
  }

  function RunTree(run: Run, colors: seq<nat>, dark: bool): Json
    requires RunOk(run, colors)
  {
    Object(RunMembers(run, colors, dark))
  }

  function RunTrees(runs: seq<Run>, colors: seq<nat>, dark: bool): (ts: seq<Json>)
    requires RunsOk(runs, colors)
    ensures |ts| == |runs|
    ensures forall i | 0 <= i < |runs| :: ts[i] == RunTree(runs[i], colors, dark)
  {
    seq(|runs|, i requires 0 <= i < |runs| => RunTree(runs[i], colors, dark))
  }

  predicate StyleOk(style: Cell, colors: seq<nat>) {
    style.foreground < |colors| && style.background < |colors|
  }

  predicate CellsOk(cells: seq<Cell>, colors: seq<nat>) {
    forall i | 0 <= i < |cells| :: cells[i].unicode < 0x1_0000 && StyleOk(cells[i], colors)
  }

  lemma Utf8IsText(uc: nat)
    requires 0 < uc < 0x1_0000
    ensures IsText(Utf8(uc)) && 1 <= |Utf8(uc)| <= 3
  {
  }

  lemma {:induction false} RunsAreOk(cells: seq<Cell>, style: Cell, pending: seq<byte>, going: bool,
                                     colors: seq<nat>)
    requires CellsOk(cells, colors) && StyleOk(style, colors) && IsText(pending)
    ensures RunsOk(Runs(cells, style, pending, going).0, colors)
    ensures StyleOk(Runs(cells, style, pending, going).1, colors)
    decreases |cells|
  {
    hide Utf8, Differs, IsText;
    if cells != [] {
      var c := cells[0];
      var (done, s, p) := Turn(style, pending, c);
      assert IsText([]) by { EmptyIsText(); }
      if !(c.unicode == 0 && going) {
        var p' := if c.unicode == 0 then p else p + Utf8(c.unicode);
        if c.unicode != 0 {
          Utf8IsText(c.unicode);
          TextJoin(p, Utf8(c.unicode));
        }
        RunsAreOk(cells[1..], s, p', going || c.unicode != 0, colors);
      }
    }
  }

  function RowRuns(cells: seq<Cell>, style: Cell): seq<Run>
    requires AllCells(cells)
  {
    Runs(cells, style, [], false).0
  }

  function RowStyle(cells: seq<Cell>, style: Cell): Cell
    requires AllCells(cells)
  {
    Runs(cells, style, [], false).1
  }

  lemma RowIsOk(cells: seq<Cell>, style: Cell, colors: seq<nat>)
    requires CellsOk(cells, colors) && StyleOk(style, colors)
    ensures RunsOk(RowRuns(cells, style), colors) && StyleOk(RowStyle(cells, style), colors)
  {
    RunsAreOk(cells, style, [], false, colors);
  }

  function RowMembers(cells: seq<Cell>, style: Cell, colors: seq<nat>, dark: bool): seq<Member>
    requires CellsOk(cells, colors) && StyleOk(style, colors)
  {
    RowIsOk(cells, style, colors);
    [ Member(Ascii("content"), Array(RunTrees(RowRuns(cells, style), colors, dark))),
      Member(Ascii("row_start"), Number(LeadingZeros(cells))) ]
  }

  lemma RowCells(pg: Page, i: nat)
    requires pg.Valid() && i < pg.rows
    ensures CellsOk(pg.Row(i), pg.colors)
  {
    RowBounds(i, pg.rows, pg.columns);
  }

  /** The rows from number i on, the style running through them. */
  function RowTrees(pg: Page, i: nat, style: Cell, dark: bool): seq<Json>
    requires pg.Valid() && i <= pg.rows && StyleOk(style, pg.colors)
    decreases pg.rows - i
  {
    if i == pg.rows then []
    else
      RowCells(pg, i);
      RowIsOk(pg.Row(i), style, pg.colors);
      [Object(RowMembers(pg.Row(i), style, pg.colors, dark))]
      + RowTrees(pg, i + 1, RowStyle(pg.Row(i), style), dark)
  }

  /** Text mode needs a black background. */
  function FillOpacity(number: int): seq<byte> {
    if 5 <= number <= 8 then Ascii("solid") else Ascii("transparent")
  }

  function WindowAnchors(): seq<Member> {
    [ Member(Ascii("anchor_point"), Number(0)),
      Member(Ascii("anchor_horizontal"), Number(0)),
      Member(Ascii("anchor_vertical"), Number(0)),
      Member(Ascii("anchor_relative"), Flag(false)),
      Member(Ascii("row_count"), Number(15)),
      Member(Ascii("column_count"), Number(42)),
      Member(Ascii("row_lock"), Flag(true)),
      Member(Ascii("column_lock"), Flag(true)) ]
  }

  function WindowLook(): seq<Member> {
    [ Member(Ascii("justify"), String(Ascii("left"))),
      Member(Ascii("print_direction"), String(Ascii("left_right"))),
      Member(Ascii("scroll_direction"), String(Ascii("bottom_top"))),
      Member(Ascii("wordwrap"), Flag(true)),
      Member(Ascii("display_effect"), String(Ascii("snap"))),
      Member(Ascii("effect_direction"), String(Ascii("left_right"))) ]
  }

  function WindowFill(number: int): seq<Member> {
    [ Member(Ascii("effect_speed"), Number(0)),
      Member(Ascii("fill_opacity"), String(FillOpacity(number))),
      Member(Ascii("fill_color"), Number(0)),
      Member(Ascii("border_type"), String(Ascii("none"))),
      Member(Ascii("border_color"), Number(0)) ]
  }

  function WindowMembers(pg: Page, dark: bool): (ms: seq<Member>)
    requires pg.Valid()
    ensures |ms| == 20
  {
    WindowAnchors() + WindowLook() + WindowFill(pg.number)
    + [Member(Ascii("rows"), Array(RowTrees(pg, 0, NO_STYLE, dark)))]
  }

  function PageTree(pg: Page, dark: bool): Json
    requires pg.Valid()
  {
    Object([ Member(Ascii("type"), String(Ascii("cea608"))),
             Member(Ascii("windows"), Array([Object(WindowMembers(pg, dark))])) ])
  }
}
