/** What the page's JSON tells of each character: the run object that holds it carries the character's own colours,
    opacity and attributes, at the place where the row shows it. */
module CaptionStyles {
  import opened Bytes
  import W = Wrappers
  import opened Json
  import opened CompactJsons
  import opened CaptionWriters
  import opened CaptionPages
  import opened CaptionJsons
  import opened CaptionReaders
  import opened CaptionRoundTrips

  // ---- The cells of a row that are shown ----------------------------------------------------

  /** Column j holds a character, and since the first one (since the beginning, if going) no column was empty. */
  ghost predicate ShownAt(cells: seq<Cell>, going: bool, j: nat) {
    && j < |cells| && cells[j].unicode != 0
    && (forall i | 0 <= i < j :: going ==> cells[i].unicode != 0)
    && (forall i, k | 0 <= i < k < j :: cells[i].unicode != 0 ==> cells[k].unicode != 0)
  }

  function Unicodes(cells: seq<Cell>): seq<nat> {
    seq(|cells|, i requires 0 <= i < |cells| => cells[i].unicode)
  }

  /** Columns a to b are the first stretch of characters of the row. */
  ghost predicate FirstStretch(cells: seq<Cell>, a: int, b: nat) {
    && 0 <= a <= b <= |cells|
    && (forall i | 0 <= i < a :: cells[i].unicode == 0)
    && (forall i | a <= i < b :: cells[i].unicode != 0)
    && (b < |cells| ==> cells[b].unicode == 0)
    && (a == b ==> a == |cells|)
  }

  lemma {:induction false} GoingStretch(cells: seq<Cell>) returns (b: nat)
    ensures b <= |cells| && (forall i | 0 <= i < b :: cells[i].unicode != 0)
    ensures b < |cells| ==> cells[b].unicode == 0
    ensures ShownChars(cells, true) == Unicodes(cells[..b])
  {
    if cells == [] || cells[0].unicode == 0 {
      b := 0;
    } else {
      var b' := GoingStretch(cells[1..]);
      b := b' + 1;
      assert cells[..b] == [cells[0]] + cells[1..][..b'];
      assert Unicodes(cells[..b]) == [cells[0].unicode] + Unicodes(cells[1..][..b']);
    }
  }

  /** The shown characters are exactly that stretch, and the leading zeros are the columns before it. */
  lemma {:induction false} ShownStretch(cells: seq<Cell>) returns (a: nat, b: nat)
    ensures FirstStretch(cells, a, b)
    ensures ShownChars(cells, false) == Unicodes(cells[a..b]) && LeadingZeros(cells) == a
  {
    if cells == [] {
      a, b := 0, 0;
    } else if cells[0].unicode == 0 {
      var a', b' := ShownStretch(cells[1..]);
      a, b := a' + 1, b' + 1;
      assert cells[a..b] == cells[1..][a'..b'];
    } else {
      a := 0;
      var b' := GoingStretch(cells[1..]);
      b := b' + 1;
      assert cells[0..b] == [cells[0]] + cells[1..][..b'];
      assert Unicodes(cells[0..b]) == [cells[0].unicode] + Unicodes(cells[1..][..b']);
    }
  }

  // ---- The run of a cell --------------------------------------------------------------------

  predicate SameLook(s: Cell, c: Cell) {
    && s.foreground == c.foreground && s.background == c.background && s.opacity == c.opacity
    && s.underline == c.underline && s.italic == c.italic && s.flash == c.flash
  }

  /** A space whose background does not show may stand in any run. */
  predicate HiddenSpace(c: Cell) {
    c.unicode == 0x20 && (c.opacity == 0 || c.background == 0)
  }

  /** Run k holds the bytes of a character from its byte number at on, before bytes into the row. */
  ghost predicate Holds(runs: seq<Run>, k: nat, at: nat, before: nat, c: Cell)
    requires c.unicode < 0x1_0000
  {
    var u := Utf8(c.unicode);
    && k < |runs| && at + |u| <= |runs[k].text| && runs[k].text[at..at + |u|] == u
    && |Texts(runs[..k])| + at == before
    && (HiddenSpace(c) || SameLook(runs[k].style, c))
  }

  /** Pending text is the beginning of the first run, in the style it is pending in. */
  lemma {:induction false} PendingFirst(cells: seq<Cell>, style: Cell, pending: seq<byte>, going: bool)
    requires AllCells(cells) && pending != []
    ensures var runs := Runs(cells, style, pending, going).0;
            runs != [] && runs[0].style == style && pending <= runs[0].text
    decreases |cells|
  {
    hide Utf8, Differs, AllCells;
    if cells != [] {
      var c := cells[0];
      assert AllCells(cells[1..]) && c.unicode < 0x1_0000 by { CellsTail(cells); }
      var (done, s, p) := Turn(style, pending, c);
      if !Differs(style, c) && !(c.unicode == 0 && going) {
        var p' := if c.unicode == 0 then p else p + Utf8(c.unicode);
        PendingFirst(cells[1..], s, p', going || c.unicode != 0);
        var more := Runs(cells[1..], s, p', going || c.unicode != 0).0;
        assert [] + more == more;
      }
    }
  }

  lemma {:induction false} TextsLength(a: seq<Run>, b: seq<Run>, k: nat)
    requires k <= |b|
    ensures |Texts((a + b)[..|a| + k])| == |Texts(a)| + |Texts(b[..k])|
  {
    assert (a + b)[..|a| + k] == a + b[..k];
    TextsJoin(a, b[..k]);
  }

  lemma {:induction false} CellInRun(cells: seq<Cell>, style: Cell, pending: seq<byte>, going: bool, j: nat)
      returns (k: nat, at: nat)
    requires AllCells(cells) && ShownAt(cells, going, j)
    ensures AllCells(cells[..j]) && cells[j].unicode < 0x1_0000
    ensures Holds(Runs(cells, style, pending, going).0, k, at, |pending| + |Shown(cells[..j], going)|, cells[j])
    decreases |cells|
  {
    hide Utf8, Differs, Texts, Turn, Flush, Runs, Shown;
    var c := cells[0];
    assert AllCells(cells[1..]) && c.unicode < 0x1_0000 by { CellsTail(cells); }
    var (done, s, p) := Turn(style, pending, c);
    TurnText(style, pending, c);
    RunsCons(cells, style, pending, going);
    ShownCons(cells, going, j);
    var p' := if c.unicode == 0 then p else p + Utf8(c.unicode);
    var going' := going || c.unicode != 0;
    var more := Runs(cells[1..], s, p', going').0;
    if j == 0 {
      PendingFirst(cells[1..], s, p', going');
      k, at := |done|, |p|;
      var u := Utf8(c.unicode);
      assert more[0].text[..|p'|] == p' && p'[|p|..] == u;
      assert more[0].text[|p|..|p| + |u|] == u;
      assert (done + more)[k] == more[0];
      TextsLength(done, more, 0);
      assert Texts(more[..0]) == [] by { NoTexts(); }
      assert HiddenSpace(c) || SameLook(s, c) by { TurnLook(style, pending, c); }
    } else {
      var k', at' := CellInRun(cells[1..], s, p', going', j - 1);
      k, at := |done| + k', at';
      assert (done + more)[k] == more[k'];
      TextsLength(done, more, k');
    }
  }

  /** The character of the next column stands in the same run, right behind, if it looks as the run does or is a
      hidden space. */
  lemma {:induction false} NeighbourInRun(cells: seq<Cell>, style: Cell, pending: seq<byte>, going: bool, j: nat)
      returns (k: nat, at: nat)
    requires AllCells(cells) && ShownAt(cells, going, j) && ShownAt(cells, going, j + 1)
    ensures AllCells(cells[..j]) && cells[j].unicode < 0x1_0000 && cells[j + 1].unicode < 0x1_0000
    ensures var runs := Runs(cells, style, pending, going).0;
            var before := |pending| + |Shown(cells[..j], going)|;
            var next := at + |Utf8(cells[j].unicode)|;
            && Holds(runs, k, at, before, cells[j])
            && (HiddenSpace(cells[j + 1]) || SameLook(runs[k].style, cells[j + 1]) ==>
                  Holds(runs, k, next, before + |Utf8(cells[j].unicode)|, cells[j + 1]))
    decreases |cells|
  {
    hide Utf8, Differs, Texts, Turn, Flush, Runs, Shown;
    var c := cells[0];
    assert AllCells(cells[1..]) && c.unicode < 0x1_0000 by { CellsTail(cells); }
    var (done, s, p) := Turn(style, pending, c);
    RunsCons(cells, style, pending, going);
    ShownCons(cells, going, j);
    ShownCons(cells, going, j + 1);
    var p' := if c.unicode == 0 then p else p + Utf8(c.unicode);
    var going' := going || c.unicode != 0;
    var more := Runs(cells[1..], s, p', going').0;
    if j == 0 {
      k, at := HeadInRun(cells, style, pending, going);
    } else {
      TurnText(style, pending, c);
      var k', at' := NeighbourInRun(cells[1..], s, p', going', j - 1);
      k, at := |done| + k', at';
      assert (done + more)[k] == more[k'];
      TextsLength(done, more, k');
    }
  }

  lemma HeadInRun(cells: seq<Cell>, style: Cell, pending: seq<byte>, going: bool) returns (k: nat, at: nat)
    requires AllCells(cells) && |cells| >= 2 && cells[0].unicode != 0 && cells[1].unicode != 0
    ensures cells[0].unicode < 0x1_0000 && cells[1].unicode < 0x1_0000
    ensures var runs := Runs(cells, style, pending, going).0;
            var u := Utf8(cells[0].unicode);
            && Holds(runs, k, at, |pending|, cells[0])
            && (HiddenSpace(cells[1]) || SameLook(runs[k].style, cells[1]) ==>
                  Holds(runs, k, at + |u|, |pending| + |u|, cells[1]))
  {
    hide Utf8, Texts, Turn, Runs, Differs;
    var c, d := cells[0], cells[1];
    assert AllCells(cells[1..]) by { CellsTail(cells); }
    var (done, s, p) := Turn(style, pending, c);
    TurnText(style, pending, c);
    TurnLook(style, pending, c);
    RunsCons(cells, style, pending, going);
    var u := Utf8(c.unicode);
    var more := Runs(cells[1..], s, p + u, true).0;
    PendingFirst(cells[1..], s, p + u, true);
    k, at := |done|, |p|;
    assert (done + more)[k] == more[0];
    TextsLength(done, more, 0);
    assert Texts(more[..0]) == [] by { NoTexts(); }
    PrefixSlice(p, u, more[0].text);
    if HiddenSpace(d) || SameLook(s, d) {
      NextPending(cells[1..], s, p + u);
      PrefixSlice(p + u, Utf8(d.unicode), more[0].text);
    }
  }

  lemma NextPending(cells: seq<Cell>, s: Cell, p: seq<byte>)
    requires AllCells(cells) && cells != [] && cells[0].unicode != 0 && p != []
    requires HiddenSpace(cells[0]) || SameLook(s, cells[0])
    ensures cells[0].unicode < 0x1_0000
    ensures var runs := Runs(cells, s, p, true).0;
            runs != [] && p + Utf8(cells[0].unicode) <= runs[0].text
  {
    hide Utf8, Runs;
    RunsCons(cells, s, p, true);
    var q := p + Utf8(cells[0].unicode);
    PendingFirst(cells[1..], s, q, true);
    var last := Runs(cells[1..], s, q, true).0;
    assert [] + last == last;
  }

  lemma PrefixSlice(p: seq<byte>, u: seq<byte>, t: seq<byte>)
    requires p + u <= t
    ensures t[|p|..|p| + |u|] == u
  {
    assert t[..|p| + |u|] == p + u;
    assert (p + u)[|p|..] == u;
  }

  lemma NoTexts()
    ensures Texts([]) == []
  {
  }

  lemma TurnLook(style: Cell, pending: seq<byte>, c: Cell)
    ensures HiddenSpace(c) || SameLook(Turn(style, pending, c).1, c)
  {
  }

  /** A column that does not end the row. */
  lemma RunsCons(cells: seq<Cell>, style: Cell, pending: seq<byte>, going: bool)
    requires AllCells(cells) && cells != []
    ensures AllCells(cells[1..]) && cells[0].unicode < 0x1_0000
    ensures var c := cells[0];
            var (done, s, p) := Turn(style, pending, c);
            var p' := if c.unicode == 0 then p else p + Utf8(c.unicode);
            c.unicode != 0 || !going ==>
              Runs(cells, style, pending, going).0 == done + Runs(cells[1..], s, p', going || c.unicode != 0).0
  {
    hide Utf8, Turn;
  }

  lemma ShownCons(cells: seq<Cell>, going: bool, j: nat)
    requires AllCells(cells) && ShownAt(cells, going, j)
    ensures AllCells(cells[..j]) && cells[j].unicode < 0x1_0000 && AllCells(cells[1..])
    ensures j == 0 ==> |Shown(cells[..j], going)| == 0
    ensures j > 0 ==>
              var c := cells[0];
              var going' := going || c.unicode != 0;
              && (c.unicode != 0 || !going) && AllCells(cells[1..][..j - 1]) && c.unicode < 0x1_0000
              && ShownAt(cells[1..], going', j - 1) && cells[1..][j - 1] == cells[j]
              && |Shown(cells[..j], going)| ==
                 (if c.unicode == 0 then 0 else |Utf8(c.unicode)|) + |Shown(cells[1..][..j - 1], going')|
  {
    hide Utf8;
    if j > 0 {
      assert cells[..j][1..] == cells[1..][..j - 1];
    }
  }

  // ---- What a run object tells --------------------------------------------------------------

  /** Two bits each of red, green and blue, from the low, middle and high byte of a colour. */
  predicate SixBitsOf(col: nat, v: int) {
    && 0 <= v < 64
    && v / 16 == col % 0x100 / 64 && v / 4 % 4 == col / 0x100 % 0x100 / 64 && v % 4 == col / 0x1_0000 % 0x100 / 64
  }

  predicate TellsColor(item: Json, key: string, col: nat) {
    var v := Field(item, Ascii(key));
    v.Some? && v.value.Number? && SixBitsOf(col, v.value.value)
  }

  predicate TellsText(item: Json, key: string, text: string) {
    Field(item, Ascii(key)) == W.Some(String(Ascii(text)))
  }

  predicate TellsFlag(item: Json, key: string, b: bool) {
    Field(item, Ascii(key)) == W.Some(if b then True else False)
  }

  /** The item's members are the look of the cell. */
  predicate Tells(item: Json, c: Cell, colors: seq<nat>, dark: bool)
    requires c.foreground < |colors| && c.background < |colors|
  {
    && TellsColor(item, "fg_color", colors[c.foreground])
    && TellsColor(item, "bg_color", colors[c.background])
    && TellsText(item, "fg_opacity", if c.flash && dark then "transparent" else "solid")
    && TellsText(item, "bg_opacity", if c.opacity == 0 then "transparent" else if c.opacity == 2 then "translucent"
                                     else "solid")
    && TellsFlag(item, "underline", c.underline)
    && TellsFlag(item, "italics", c.italic)
  }

  lemma ColorBits(col: nat)
    ensures SixBitsOf(col, ColorValue(col))
  {
    var r, g, b := col % 0x100 / 0x40, col / 0x100 % 0x100 / 0x40, col / 0x1_0000 % 0x100 / 0x40;
    assert 0 <= r < 4 && 0 <= g < 4 && 0 <= b < 4;
    assert ColorValue(col) == r * 16 + g * 4 + b;
  }

  predicate OtherKey(a: seq<byte>, b: seq<byte>) {
    |a| != |b| || (a != [] && LowerByte(a[0]) != LowerByte(b[0]))
  }

  lemma {:induction false} LookupFirst(members: seq<Member>, k: nat, key: seq<byte>)
    requires k < |members| && members[k].key == key
    requires forall i | 0 <= i < k :: OtherKey(members[i].key, key)
    ensures Lookup(members, key) == W.Some(members[k].value)
  {
    if k > 0 {
      LookupFirst(members[1..], k - 1, key);
    }
  }

  lemma RunFields(run: Run, colors: seq<nat>, dark: bool)
    requires RunOk(run, colors)
    ensures var item := RunTree(run, colors, dark);
            && Field(item, Ascii("fg_color")) == W.Some(Number(ColorValue(colors[run.style.foreground])))
            && Field(item, Ascii("bg_color")) == W.Some(Number(ColorValue(colors[run.style.background])))
            && Field(item, Ascii("fg_opacity")) ==
               W.Some(String(OpacityText(if Blanked(run, dark) then TRANSPARENT_SPACE else OPAQUE)))
            && Field(item, Ascii("bg_opacity")) == W.Some(String(OpacityText(run.style.opacity)))
            && Field(item, Ascii("underline")) == W.Some(Flag(run.style.underline))
            && Field(item, Ascii("italics")) == W.Some(Flag(run.style.italic))
            && Field(item, Ascii("data")) == W.Some(String(Data(run, dark)))
  {
    hide Lookup, ColorValue, OpacityText, Data, Blanked, IsText, Flag, Ascii, OtherKey, RunMembers;
    var ms := RunMembers(run, colors, dark);
    RunPlan(run, colors, dark);
    RunKeys();
    LookupFirst(ms, 0, Ascii("fg_color"));
    LookupFirst(ms, 1, Ascii("bg_color"));
    LookupFirst(ms, 2, Ascii("fg_opacity"));
    LookupFirst(ms, 3, Ascii("bg_opacity"));
    LookupFirst(ms, 4, Ascii("underline"));
    LookupFirst(ms, 5, Ascii("italics"));
    LookupFirst(ms, 6, Ascii("data"));
    assert RunTree(run, colors, dark) == Object(ms);
  }

  function RunKey(i: nat): string
    requires i < 7
  {
    ["fg_color", "bg_color", "fg_opacity", "bg_opacity", "underline", "italics", "data"][i]
  }

  lemma RunKeys()
    ensures forall i, k | 0 <= i < k < 7 :: OtherKey(Ascii(RunKey(i)), Ascii(RunKey(k)))
    ensures RunKey(0) == "fg_color" && RunKey(1) == "bg_color" && RunKey(2) == "fg_opacity"
    ensures RunKey(3) == "bg_opacity" && RunKey(4) == "underline" && RunKey(5) == "italics" && RunKey(6) == "data"
  {
    forall i, k | 0 <= i < k < 7
      ensures OtherKey(Ascii(RunKey(i)), Ascii(RunKey(k)))
    {
      var a, b := Ascii(RunKey(i)), Ascii(RunKey(k));
      assert |a| == |RunKey(i)| && |b| == |RunKey(k)|;
      assert a[0] as int == RunKey(i)[0] as int && b[0] as int == RunKey(k)[0] as int;
    }
  }

  lemma RunTells(run: Run, c: Cell, colors: seq<nat>, dark: bool)
    requires RunOk(run, colors) && StyleOk(c, colors) && SameLook(run.style, c)
    ensures Tells(RunTree(run, colors, dark), c, colors, dark)
  {
    hide Field, RunTree, IsText, Ascii, ColorValue, Data, SixBitsOf;
    RunFields(run, colors, dark);
    ColorBits(colors[c.foreground]);
    ColorBits(colors[c.background]);
  }

  // ---- The page -----------------------------------------------------------------------------

  /** The items of the array that is a member of v. */
  function ItemsOf(v: Json, key: string): seq<Json> {
    var a := Field(v, Ascii(key));
    if a.Some? && a.value.Array? then a.value.items else []
  }

  /** The rows of the page's only window. */
  function RowsOf(page: Json): seq<Json> {
    var windows := ItemsOf(page, "windows");
    if |windows| == 1 then ItemsOf(windows[0], "rows") else []
  }

  lemma PageRows(pg: Page, dark: bool)
    requires pg.Valid()
    ensures RowsOf(PageTree(pg, dark)) == RowTrees(pg, 0, NO_STYLE, dark)
  {
    hide Lookup, WindowMembers, RowTrees, WindowAnchors, WindowLook, WindowFill, Ascii;
    var ms := WindowMembers(pg, dark);
    var page := PageTree(pg, dark);
    PageKeys();
    LookupAt(page.members, 1, Ascii("windows"));
    WindowPlan(pg, dark);
    AnchorKeys();
    LookKeys();
    FillKeys(pg.number);
    forall i | 0 <= i < 19
      ensures |ms[i].key| != 4
    {
      if i < 8 {
        assert ms[i] == WindowAnchors()[i];
      } else if i < 14 {
        assert ms[i] == WindowLook()[i - 8];
      } else {
        assert ms[i] == WindowFill(pg.number)[i - 14];
      }
    }
    LookupAt(ms, 19, Ascii("rows"));
  }

  lemma PageKeys()
    ensures |Ascii("type")| == 4 && |Ascii("windows")| == 7 && |Ascii("rows")| == 4
    ensures |Ascii("content")| == 7 && |Ascii("row_start")| == 9
  {
  }

  lemma RowFields(cells: seq<Cell>, style: Cell, colors: seq<nat>, dark: bool)
    requires CellsOk(cells, colors) && StyleOk(style, colors)
    ensures RunsOk(RowRuns(cells, style), colors)
    ensures var row := Object(RowMembers(cells, style, colors, dark));
            && ItemsOf(row, "content") == RunTrees(RowRuns(cells, style), colors, dark)
            && Field(row, Ascii("row_start")) == W.Some(Number(LeadingZeros(cells)))
  {
    hide Lookup, RowRuns, LeadingZeros, RunTrees, Ascii;
    RowIsOk(cells, style, colors);
    PageKeys();
    LookupAt(RowMembers(cells, style, colors, dark), 0, Ascii("content"));
    LookupAt(RowMembers(cells, style, colors, dark), 1, Ascii("row_start"));
  }

  /** Item k of a row holds the character of a cell from byte number at of its data on: the character's own bytes,
      or as many spaces when it is blanked; before it in the row stand that many bytes. */
  ghost predicate TellsCharacter(items: seq<Json>, k: nat, at: nat, before: nat, c: Cell, dark: bool)
    requires c.unicode < 0x1_0000
  {
    && k < |items| && |DataOf(items[k])| == 1
    && var d, u := DataOf(items[k])[0], Utf8(c.unicode);
    && at + |u| <= |d| && |Concat(DataOfAll(items[..k]))| + at == before
    && (d[at..at + |u|] == u ||
        (dark && TellsText(items[k], "fg_opacity", "transparent") && AllSpaces(d[at..at + |u|])))
  }

  lemma {:induction false} DataLengths(runs: seq<Run>, dark: bool)
    ensures |Concat(DataTexts(runs, dark))| == |Texts(runs)|
  {
    hide Data;
    if runs != [] {
      DataLengths(runs[1..], dark);
      DataSame(runs[0], dark);
      var texts := DataTexts(runs, dark);
      assert texts[1..] == DataTexts(runs[1..], dark);
    }
  }

  lemma RunCharacter(runs: seq<Run>, colors: seq<nat>, dark: bool, k: nat, at: nat, before: nat, c: Cell)
    requires RunsOk(runs, colors) && c.unicode < 0x1_0000 && Holds(runs, k, at, before, c)
    ensures TellsCharacter(RunTrees(runs, colors, dark), k, at, before, c, dark)
  {
    hide Field, RunTree, IsText, Ascii, Utf8, ColorValue, DataOf, DataOfAll, Texts;
    var items := RunTrees(runs, colors, dark);
    RunData(runs[k], colors, dark);
    RunFields(runs[k], colors, dark);
    assert items[..k] == RunTrees(runs[..k], colors, dark);
    RunsData(runs[..k], colors, dark);
    DataLengths(runs[..k], dark);
  }

  /** Main result: whatever style changes cut the rows, every shown character of the page stands, at its own place in
      its row, in the data of an item that tells its own look; a space whose background does not show may stand in
      any item. */
  lemma CharacterTold(pg: Page, i: nat, j: nat, dark: bool) returns (k: nat, at: nat)
    requires pg.Valid() && i < pg.rows && ShownAt(pg.Row(i), false, j)
    ensures AllCells(pg.Row(i)) && AllCells(pg.Row(i)[..j]) && StyleOk(pg.Row(i)[j], pg.colors)
    ensures var rows := RowsOf(PageTree(pg, dark));
            && |rows| == pg.rows
            && var c, items := pg.Row(i)[j], ItemsOf(rows[i], "content");
            && TellsCharacter(items, k, at, |Shown(pg.Row(i)[..j], false)|, c, dark)
            && (HiddenSpace(c) || Tells(items[k], c, pg.colors, dark))
  {
    hide PageTree, RowTrees, RowMembers, RowsOf, ItemsOf, Runs, Shown, Utf8, Tells, TellsCharacter, RunTree, RowStyle,
         HiddenSpace, SameLook;
    RowCells(pg, i);
    var cells, st := pg.Row(i), StyleBefore(pg, i);
    PageRows(pg, dark);
    RowTreesAt(pg, 0, i, dark);
    RowFields(cells, st, pg.colors, dark);
    k, at := CellInRun(cells, st, [], false, j);
    var runs := RowRuns(cells, st);
    RunCharacter(runs, pg.colors, dark, k, at, |Shown(cells[..j], false)|, cells[j]);
    if !HiddenSpace(cells[j]) {
      RunTells(runs[k], cells[j], pg.colors, dark);
    }
  }

  /** Two neighbours share an item if the second is a hidden space, or both look the same and the first is not
      hidden: no item is cut without a change of look. */
  lemma NeighboursTold(pg: Page, i: nat, j: nat, dark: bool) returns (k: nat, at: nat)
    requires pg.Valid() && i < pg.rows && ShownAt(pg.Row(i), false, j) && ShownAt(pg.Row(i), false, j + 1)
    requires var c, d := pg.Row(i)[j], pg.Row(i)[j + 1];
             HiddenSpace(d) || (SameLook(c, d) && !HiddenSpace(c))
    ensures AllCells(pg.Row(i)) && AllCells(pg.Row(i)[..j])
    ensures pg.Row(i)[j].unicode < 0x1_0000 && pg.Row(i)[j + 1].unicode < 0x1_0000
    ensures var rows := RowsOf(PageTree(pg, dark));
            && |rows| == pg.rows
            && var items, before := ItemsOf(rows[i], "content"), |Shown(pg.Row(i)[..j], false)|;
            var n := |Utf8(pg.Row(i)[j].unicode)|;
            && TellsCharacter(items, k, at, before, pg.Row(i)[j], dark)
            && TellsCharacter(items, k, at + n, before + n, pg.Row(i)[j + 1], dark)
  {
    hide PageTree, RowTrees, RowMembers, RowsOf, ItemsOf, Runs, Shown, Utf8, TellsCharacter, RunTree, RowStyle;
    RowCells(pg, i);
    var cells, st := pg.Row(i), StyleBefore(pg, i);
    PageRows(pg, dark);
    RowTreesAt(pg, 0, i, dark);
    RowFields(cells, st, pg.colors, dark);
    k, at := NeighbourInRun(cells, st, [], false, j);
    var runs, before, n := RowRuns(cells, st), |Shown(cells[..j], false)|, |Utf8(cells[j].unicode)|;
    RunCharacter(runs, pg.colors, dark, k, at, before, cells[j]);
    RunCharacter(runs, pg.colors, dark, k, at + n, before + n, cells[j + 1]);
  }

  lemma {:induction false} RunStyles(cells: seq<Cell>, style: Cell, pending: seq<byte>, going: bool)
    requires AllCells(cells)
    ensures var (runs, last) := Runs(cells, style, pending, going);
            && (forall k | 0 <= k < |runs| :: runs[k].style == style || runs[k].style in cells)
            && (last == style || last in cells)
    decreases |cells|
  {
    hide Utf8, Differs, AllCells;
    if cells != [] {
      var c := cells[0];
      assert AllCells(cells[1..]) && c.unicode < 0x1_0000 by { CellsTail(cells); }
      var (done, s, p) := Turn(style, pending, c);
      var p' := if c.unicode == 0 then p else p + Utf8(c.unicode);
      RunStyles(cells[1..], s, p', going || c.unicode != 0);
    }
  }

  lemma {:induction false} StyleOfPage(pg: Page, i: nat)
    requires pg.Valid() && i <= pg.rows
    ensures PageStyle(pg, StyleBefore(pg, i))
  {
    if i > 0 {
      hide Runs;
      RowCells(pg, i - 1);
      StyleOfPage(pg, i - 1);
      var st := StyleBefore(pg, i - 1);
      RunStyles(pg.Row(i - 1), st, [], false);
      if StyleBefore(pg, i) in pg.Row(i - 1) {
        RowStyles(pg, i - 1, StyleBefore(pg, i));
      }
    }
  }

  /** And no item tells a look that is not some cell's, the blank style of the beginning aside. */
  lemma ItemsTellCells(pg: Page, i: nat, k: nat, dark: bool) returns (c: Cell)
    requires pg.Valid() && i < pg.rows
    requires |RowsOf(PageTree(pg, dark))| == pg.rows && k < |ItemsOf(RowsOf(PageTree(pg, dark))[i], "content")|
    ensures PageStyle(pg, c) && StyleOk(c, pg.colors)
    ensures Tells(ItemsOf(RowsOf(PageTree(pg, dark))[i], "content")[k], c, pg.colors, dark)
  {
    hide PageTree, RowTrees, RowMembers, RowsOf, ItemsOf, Runs, Tells, RunTree, RowStyle, PageStyle;
    RowCells(pg, i);
    var cells, st := pg.Row(i), StyleBefore(pg, i);
    PageRows(pg, dark);
    RowTreesAt(pg, 0, i, dark);
    RowFields(cells, st, pg.colors, dark);
    RunStyles(cells, st, [], false);
    c := RowRuns(cells, st)[k].style;
    StyleOfPage(pg, i);
    if c in cells {
      RowStyles(pg, i, c);
    }
    RunTells(RowRuns(cells, st)[k], c, pg.colors, dark);
  }

  /** The row object's start is the column of the first character, or the number of columns if there is none. */
  ghost predicate StartsRow(row: Json, cells: seq<Cell>) {
    var start := Field(row, Ascii("row_start"));
    && start.Some? && start.value.Number?
    && exists b: nat :: FirstStretch(cells, start.value.value, b)
  }

  lemma RowStartTold(pg: Page, i: nat, dark: bool)
    requires pg.Valid() && i < pg.rows
    ensures var rows := RowsOf(PageTree(pg, dark));
            |rows| == pg.rows && StartsRow(rows[i], pg.Row(i))
  {
    hide PageTree, RowTrees, RowMembers, RowsOf, ItemsOf, Runs, RowStyle, FirstStretch, Field, ShownChars, Ascii;
    RowCells(pg, i);
    PageRows(pg, dark);
    RowTreesAt(pg, 0, i, dark);
    RowFields(pg.Row(i), StyleBefore(pg, i), pg.colors, dark);
    var a, b := ShownStretch(pg.Row(i));
  }

  /** The page is of type cea608, and its window is filled solid in the text pages 5 to 8 and transparent in all
      others. */
  lemma WindowTold(pg: Page, dark: bool)
    requires pg.Valid()
    ensures var page := PageTree(pg, dark);
            && TellsText(page, "type", "cea608") && |ItemsOf(page, "windows")| == 1
            && TellsText(ItemsOf(page, "windows")[0], "fill_opacity",
                         if 5 <= pg.number <= 8 then "solid" else "transparent")
  {
    hide Lookup, WindowMembers, RowTrees, WindowAnchors, WindowLook, Ascii;
    var page, ms := PageTree(pg, dark), WindowMembers(pg, dark);
    PageKeys();
    LookupAt(page.members, 0, Ascii("type"));
    LookupAt(page.members, 1, Ascii("windows"));
    WindowPlan(pg, dark);
    FillKeysOther(pg.number);
    forall i | 0 <= i < 15
      ensures OtherKey(ms[i].key, Ascii("fill_opacity"))
    {
      if i < 8 {
        assert ms[i] == WindowAnchors()[i];
      } else if i < 14 {
        assert ms[i] == WindowLook()[i - 8];
      } else {
        assert ms[i] == WindowFill(pg.number)[i - 14];
      }
    }
    assert ms[15] == WindowFill(pg.number)[1];
    LookupFirst(ms, 15, Ascii("fill_opacity"));
  }

  lemma FillKeysOther(number: int)
    ensures |WindowAnchors()| == 8 && |WindowLook()| == 6 && |WindowFill(number)| == 5
    ensures forall i | 0 <= i < 8 :: OtherKey(WindowAnchors()[i].key, Ascii("fill_opacity"))
    ensures forall i | 0 <= i < 6 :: OtherKey(WindowLook()[i].key, Ascii("fill_opacity"))
    ensures OtherKey(WindowFill(number)[0].key, Ascii("fill_opacity"))
    ensures WindowFill(number)[1].key == Ascii("fill_opacity")
  {
    var key := Ascii("fill_opacity");
    assert key[0] == 102 && |key| == 12;
    assert forall i | 0 <= i < 8 :: WindowAnchors()[i].key[0] in {97, 114, 99};
    assert forall i | 0 <= i < 6 :: |WindowLook()[i].key| != 12;
    assert WindowFill(number)[0].key[0] == 101;
  }
}
