/** Captions from the page to the reader: the page's JSON is text the parser accepts, and the strings
    populateData takes out of it spell, row by row, what the page shows. */
module CaptionRoundTrips {
  import opened Bytes
  import W = Wrappers
  import opened Json
  import opened JsonRoundTrips
  import opened CompactJsons
  import opened CaptionWriters
  import opened CaptionPages
  import opened CaptionJsons
  import opened CaptionReaders

  // ---- The page's tree can be written and read ----------------------------------------------

  predicate Plain(s: string) {
    forall i | 0 <= i < |s| :: 'a' <= s[i] <= 'z' || '0' <= s[i] <= '9' || s[i] == '_'
  }

  lemma PlainIsWord(s: string)
    requires Plain(s)
    ensures IsWord(Ascii(s))
  {
  }

  lemma RunWords()
    ensures IsWord(Ascii("fg_color"))
    ensures IsWord(Ascii("bg_color"))
    ensures IsWord(Ascii("fg_opacity"))
    ensures IsWord(Ascii("bg_opacity"))
  {
    hide Ascii, IsWord;
    PlainIsWord("fg_color");
    PlainIsWord("bg_color");
    PlainIsWord("fg_opacity");
    PlainIsWord("bg_opacity");
  }

  lemma DataWords()
    ensures IsWord(Ascii("underline"))
    ensures IsWord(Ascii("italics"))
    ensures IsWord(Ascii("data"))
  {
    hide Ascii, IsWord;
    PlainIsWord("underline");
    PlainIsWord("italics");
    PlainIsWord("data");
  }

  lemma AnchorWords()
    ensures IsWord(Ascii("anchor_point"))
    ensures IsWord(Ascii("anchor_horizontal"))
    ensures IsWord(Ascii("anchor_vertical"))
    ensures IsWord(Ascii("anchor_relative"))
  {
    hide Ascii, IsWord;
    PlainIsWord("anchor_point");
    PlainIsWord("anchor_horizontal");
    PlainIsWord("anchor_vertical");
    PlainIsWord("anchor_relative");
  }

  lemma CountWords()
    ensures IsWord(Ascii("row_count"))
    ensures IsWord(Ascii("column_count"))
    ensures IsWord(Ascii("row_lock"))
    ensures IsWord(Ascii("column_lock"))
  {
    hide Ascii, IsWord;
    PlainIsWord("row_count");
    PlainIsWord("column_count");
    PlainIsWord("row_lock");
    PlainIsWord("column_lock");
  }

  lemma DirectionWords()
    ensures IsWord(Ascii("justify"))
    ensures IsWord(Ascii("print_direction"))
    ensures IsWord(Ascii("scroll_direction"))
  {
    hide Ascii, IsWord;
    PlainIsWord("justify");
    PlainIsWord("print_direction");
    PlainIsWord("scroll_direction");
  }

  lemma EffectWords()
    ensures IsWord(Ascii("wordwrap"))
    ensures IsWord(Ascii("display_effect"))
    ensures IsWord(Ascii("effect_direction"))
  {
    hide Ascii, IsWord;
    PlainIsWord("wordwrap");
    PlainIsWord("display_effect");
    PlainIsWord("effect_direction");
  }

  lemma LookValues()
    ensures IsWord(Ascii("left"))
    ensures IsWord(Ascii("left_right"))
    ensures IsWord(Ascii("bottom_top"))
    ensures IsWord(Ascii("snap"))
  {
    hide Ascii, IsWord;
    PlainIsWord("left");
    PlainIsWord("left_right");
    PlainIsWord("bottom_top");
    PlainIsWord("snap");
  }

  lemma FillWords()
    ensures IsWord(Ascii("effect_speed"))
    ensures IsWord(Ascii("fill_opacity"))
    ensures IsWord(Ascii("fill_color"))
  {
    hide Ascii, IsWord;
    PlainIsWord("effect_speed");
    PlainIsWord("fill_opacity");
    PlainIsWord("fill_color");
  }

  lemma BorderWords()
    ensures IsWord(Ascii("border_type"))
    ensures IsWord(Ascii("border_color"))
  {
    hide Ascii, IsWord;
    PlainIsWord("border_type");
    PlainIsWord("border_color");
  }

  lemma OpacityWords()
    ensures IsWord(Ascii("solid"))
    ensures IsWord(Ascii("transparent"))
    ensures IsWord(Ascii("translucent"))
    ensures IsWord(Ascii("none"))
  {
    hide Ascii, IsWord;
    PlainIsWord("solid");
    PlainIsWord("transparent");
    PlainIsWord("translucent");
    PlainIsWord("none");
  }

  lemma RowWords()
    ensures IsWord(Ascii("content"))
    ensures IsWord(Ascii("row_start"))
    ensures IsWord(Ascii("rows"))
  {
    hide Ascii, IsWord;
    PlainIsWord("content");
    PlainIsWord("row_start");
    PlainIsWord("rows");
  }

  lemma PageWords()
    ensures IsWord(Ascii("type"))
    ensures IsWord(Ascii("windows"))
    ensures IsWord(Ascii("cea608"))
  {
    hide Ascii, IsWord;
    PlainIsWord("type");
    PlainIsWord("windows");
    PlainIsWord("cea608");
  }

  lemma {:induction false} AllMembersWritable(members: seq<Member>)
    requires forall i | 0 <= i < |members| :: IsWord(members[i].key) && Writable(members[i].value)
    ensures WritableMembers(members)
  {
    hide IsWord, Writable;
    if members != [] {
      AllMembersWritable(members[1..]);
    }
  }

  lemma {:induction false} AllItemsWritable(items: seq<Json>)
    requires forall i | 0 <= i < |items| :: Writable(items[i])
    ensures WritableItems(items)
  {
    hide Writable;
    if items != [] {
      AllItemsWritable(items[1..]);
    }
  }

  lemma FlagWritable(b: bool)
    ensures Writable(Flag(b))
  {
  }

  lemma SmallNumberWritable(n: int)
    requires Int32(n)
    ensures Writable(Number(n))
  {
  }

  lemma TextWritable(s: seq<byte>)
    ensures IsText(s) ==> Writable(String(s))
    ensures IsWord(s) ==> Writable(String(s))
  {
  }

  lemma OpacityIsText(v: nat)
    ensures IsWord(OpacityText(v))
  {
    hide Ascii, IsWord;
    OpacityWords();
  }

  lemma DataIsText(run: Run, dark: bool)
    requires IsText(run.text)
    ensures IsText(Data(run, dark))
  {
  }

  lemma RunWritable(run: Run, colors: seq<nat>, dark: bool)
    requires RunOk(run, colors)
    ensures Writable(RunTree(run, colors, dark))
  {
    hide Ascii, Writable, IsWord, IsText, ColorValue, OpacityText, Data, Flag, WritableMembers;
    RunWords();
    DataWords();
    SmallNumberWritable(ColorValue(colors[run.style.foreground]));
    SmallNumberWritable(ColorValue(colors[run.style.background]));
    var o := if Blanked(run, dark) then TRANSPARENT_SPACE else OPAQUE;
    OpacityIsText(o);
    OpacityIsText(run.style.opacity);
    TextWritable(OpacityText(o));
    TextWritable(OpacityText(run.style.opacity));
    FlagWritable(run.style.underline);
    FlagWritable(run.style.italic);
    DataIsText(run, dark);
    TextWritable(Data(run, dark));
    AllMembersWritable(RunMembers(run, colors, dark));
    ObjectWritable(RunMembers(run, colors, dark));
  }

  lemma ObjectWritable(members: seq<Member>)
    requires WritableMembers(members)
    ensures Writable(Object(members))
  {
  }

  lemma ArrayWritable(items: seq<Json>)
    requires WritableItems(items)
    ensures Writable(Array(items))
  {
  }

  lemma {:induction false} ZerosBound(cells: seq<Cell>)
    ensures LeadingZeros(cells) <= |cells|
  {
    if cells != [] {
      ZerosBound(cells[1..]);
    }
  }

  lemma RowWritable(cells: seq<Cell>, style: Cell, colors: seq<nat>, dark: bool)
    requires CellsOk(cells, colors) && StyleOk(style, colors) && |cells| < 0x8000_0000
    ensures Writable(Object(RowMembers(cells, style, colors, dark)))
  {
    hide Ascii, Writable, IsWord, IsText, RowRuns, RunTree, LeadingZeros, WritableMembers, WritableItems;
    RowIsOk(cells, style, colors);
    var runs := RowRuns(cells, style);
    var trees := RunTrees(runs, colors, dark);
    forall i | 0 <= i < |trees|
      ensures Writable(trees[i])
    {
      RunWritable(runs[i], colors, dark);
    }
    AllItemsWritable(trees);
    ArrayWritable(trees);
    ZerosBound(cells);
    SmallNumberWritable(LeadingZeros(cells));
    RowWords();
    AllMembersWritable(RowMembers(cells, style, colors, dark));
    ObjectWritable(RowMembers(cells, style, colors, dark));
  }

  lemma RowsWritable(pg: Page, dark: bool)
    requires pg.Valid() && pg.columns < 0x8000_0000
    ensures Writable(Array(RowTrees(pg, 0, NO_STYLE, dark)))
  {
    hide Writable, WritableItems, RowMembers, RowTrees, RowStyle;
    var trees := RowTrees(pg, 0, NO_STYLE, dark);
    RowTreesLength(pg, 0, dark);
    forall i | 0 <= i < |trees|
      ensures Writable(trees[i])
    {
      RowTreesAt(pg, 0, i, dark);
      RowWritable(pg.Row(i), StyleBefore(pg, i), pg.colors, dark);
    }
    AllItemsWritable(trees);
    ArrayWritable(trees);
  }

  lemma WindowWritable(pg: Page, dark: bool)
    requires pg.Valid() && pg.columns < 0x8000_0000
    ensures Writable(Object(WindowMembers(pg, dark)))
  {
    hide Writable, WritableMembers, WindowMembers, WindowAnchors, WindowLook, WindowFill, RowTrees, Ascii;
    var ms := WindowMembers(pg, dark);
    WindowPlan(pg, dark);
    AnchorsWritable();
    LookWritable();
    FillWritable(pg.number);
    RowsWritable(pg, dark);
    RowWords();
    forall i | 0 <= i < |ms|
      ensures IsWord(ms[i].key) && Writable(ms[i].value)
    {
      if i < 8 {
        assert ms[i] == WindowAnchors()[i];
      } else if i < 14 {
        assert ms[i] == WindowLook()[i - 8];
      } else if i < 19 {
        assert ms[i] == WindowFill(pg.number)[i - 14];
      }
    }
    AllMembersWritable(ms);
    ObjectWritable(ms);
  }

  lemma AnchorsWritable()
    ensures |WindowAnchors()| == 8
    ensures forall i | 0 <= i < 8 :: IsWord(WindowAnchors()[i].key) && Writable(WindowAnchors()[i].value)
  {
    hide Ascii, Writable, IsWord, Flag;
    AnchorWords();
    CountWords();
    SmallNumberWritable(0);
    SmallNumberWritable(15);
    SmallNumberWritable(42);
    FlagWritable(true);
    FlagWritable(false);
  }

  lemma LookWritable()
    ensures |WindowLook()| == 6
    ensures forall i | 0 <= i < 6 :: IsWord(WindowLook()[i].key) && Writable(WindowLook()[i].value)
  {
    hide Ascii, Writable, IsWord, IsText, Flag;
    DirectionWords();
    EffectWords();
    LookValues();
    TextWritable(Ascii("left"));
    TextWritable(Ascii("left_right"));
    TextWritable(Ascii("bottom_top"));
    TextWritable(Ascii("snap"));
    FlagWritable(true);
  }

  lemma FillWritable(number: int)
    ensures |WindowFill(number)| == 5
    ensures forall i | 0 <= i < 5 :: IsWord(WindowFill(number)[i].key) && Writable(WindowFill(number)[i].value)
  {
    hide Ascii, Writable, IsWord, IsText;
    FillWords();
    BorderWords();
    OpacityWords();
    TextWritable(Ascii("solid"));
    TextWritable(Ascii("transparent"));
    TextWritable(Ascii("none"));
    SmallNumberWritable(0);
  }

  lemma PageWritable(pg: Page, dark: bool)
    requires pg.Valid() && pg.columns < 0x8000_0000
    ensures Writable(PageTree(pg, dark))
  {
    hide Writable, WritableMembers, WritableItems, WindowMembers, Ascii, IsWord, IsText;
    WindowWritable(pg, dark);
    var windows := [Object(WindowMembers(pg, dark))];
    AllItemsWritable(windows);
    ArrayWritable(windows);
    PageWords();
    TextWritable(Ascii("cea608"));
    var ms := [Member(Ascii("type"), String(Ascii("cea608"))), Member(Ascii("windows"), Array(windows))];
    AllMembersWritable(ms);
    ObjectWritable(ms);
  }

  /** The comma machine yields JSON: the parser reads the page's own tree and stops at the end. */
  lemma PageParses(pg: Page, dark: bool)
    requires pg.Valid() && pg.columns < 0x8000_0000
    ensures ParseValue(Skip(Compact(PageTree(pg, dark)))) == Some(PageTree(pg, dark), [])
    ensures Compact(PageTree(pg, dark)) != []
  {
    hide ParseValue, Skip, PageTree, Compact;
    var t := Compact(PageTree(pg, dark));
    PageWritable(pg, dark);
    ParseCompact(PageTree(pg, dark), []);
    CompactHead(PageTree(pg, dark), []);
    assert t + [] == t;
    SkipNone(t);
  }

  // ---- What the reader finds ----------------------------------------------------------------

  lemma {:induction false} LookupAt(members: seq<Member>, k: nat, key: seq<byte>)
    requires k < |members| && members[k].key == key
    requires forall i | 0 <= i < k :: |members[i].key| != |key|
    ensures Lookup(members, key) == W.Some(members[k].value)
  {
    if k > 0 {
      LookupAt(members[1..], k - 1, key);
    }
  }

  /** What the reader takes from a row: the data of its runs. */
  function DataTexts(runs: seq<Run>, dark: bool): seq<seq<byte>> {
    if runs == [] then [] else [Data(runs[0], dark)] + DataTexts(runs[1..], dark)
  }

  lemma RunData(run: Run, colors: seq<nat>, dark: bool)
    requires RunOk(run, colors)
    ensures DataOf(RunTree(run, colors, dark)) == [Data(run, dark)] && HasText(RunTree(run, colors, dark))
  {
    hide Data, OpacityText, ColorValue, Flag, IsText, Lookup;
    LookupAt(RunMembers(run, colors, dark), 6, Ascii("data"));
  }

  lemma {:induction false} RunsData(runs: seq<Run>, colors: seq<nat>, dark: bool)
    requires RunsOk(runs, colors)
    ensures DataOfAll(RunTrees(runs, colors, dark)) == DataTexts(runs, dark)
    ensures forall i | 0 <= i < |runs| :: HasText(RunTrees(runs, colors, dark)[i])
  {
    hide DataOf, HasText, RunOk, RunTree, Data;
    if runs != [] {
      RunData(runs[0], colors, dark);
      RunsData(runs[1..], colors, dark);
      var trees := RunTrees(runs, colors, dark);
      assert trees[1..] == RunTrees(runs[1..], colors, dark);
    }
  }

  lemma RowData(cells: seq<Cell>, style: Cell, colors: seq<nat>, dark: bool)
    requires CellsOk(cells, colors) && StyleOk(style, colors)
    ensures var row := Object(RowMembers(cells, style, colors, dark));
            RowTexts(row) == DataTexts(RowRuns(cells, style), dark) && RowHasText(row)
  {
    hide Ascii, Lookup, RowRuns, DataTexts, DataOfAll, HasText, RunTrees, LeadingZeros;
    RowIsOk(cells, style, colors);
    var runs := RowRuns(cells, style);
    RunsData(runs, colors, dark);
    LookupAt(RowMembers(cells, style, colors, dark), 0, Ascii("content"));
    InList(RunTrees(runs, colors, dark));
  }

  lemma InList(vs: seq<Json>)
    requires forall i | 0 <= i < |vs| :: HasText(vs[i])
    ensures forall v | v in Children(Array(vs)) :: HasText(v)
  {
    hide HasText;
  }

  /** Row i of the page as the reader returns it. */
  function RowShown(pg: Page, i: nat, dark: bool): seq<seq<byte>>
    requires pg.Valid() && i < pg.rows
  {
    RowCells(pg, i);
    DataTexts(RowRuns(pg.Row(i), StyleBefore(pg, i)), dark)
  }

  function PageShown(pg: Page, i: nat, dark: bool): seq<seq<byte>>
    requires pg.Valid() && i <= pg.rows
    decreases pg.rows - i
  {
    if i == pg.rows then [] else RowShown(pg, i, dark) + PageShown(pg, i + 1, dark)
  }

  lemma {:induction false} RowsData(pg: Page, i: nat, dark: bool)
    requires pg.Valid() && i <= pg.rows
    ensures var rows := RowTrees(pg, i, StyleBefore(pg, i), dark);
            RowsTexts(rows) == PageShown(pg, i, dark) && forall k | 0 <= k < |rows| :: RowHasText(rows[k])
    decreases pg.rows - i
  {
    hide RowTexts, RowHasText, RowMembers, RowRuns, RowStyle, DataTexts, CellsOk;
    if i < pg.rows {
      RowCells(pg, i);
      RowData(pg.Row(i), StyleBefore(pg, i), pg.colors, dark);
      RowsData(pg, i + 1, dark);
      var rows := RowTrees(pg, i, StyleBefore(pg, i), dark);
      assert rows[1..] == RowTrees(pg, i + 1, StyleBefore(pg, i + 1), dark);
    }
  }

  lemma WindowData(pg: Page, dark: bool)
    requires pg.Valid()
    ensures var w := Object(WindowMembers(pg, dark));
            WindowTexts(w) == PageShown(pg, 0, dark) && WindowHasText(w)
  {
    hide Ascii, Lookup, RowsTexts, RowHasText, RowTrees, WindowMembers, PageShown, WindowAnchors, WindowLook,
         WindowFill;
    var ms := WindowMembers(pg, dark);
    WindowPlan(pg, dark);
    RowsData(pg, 0, dark);
    AnchorKeys();
    LookKeys();
    FillKeys(pg.number);
    forall i | 0 <= i < 19
      ensures |ms[i].key| != 4
    {
      if i < 8 {
        assert ms[i] == WindowAnchors()[i];
      } else if i < 14 {
        assert ms[i] == WindowLook()[i - 8];
      } else {
        assert ms[i] == WindowFill(pg.number)[i - 14];
      }
    }
    LookupAt(ms, 19, Ascii("rows"));
    RowsInList(RowTrees(pg, 0, NO_STYLE, dark));
  }

  lemma AnchorKeys()
    ensures |WindowAnchors()| == 8 && forall i | 0 <= i < 8 :: |WindowAnchors()[i].key| != 4
  {
  }

  lemma LookKeys()
    ensures |WindowLook()| == 6 && forall i | 0 <= i < 6 :: |WindowLook()[i].key| != 4
  {
  }

  lemma FillKeys(number: int)
    ensures |WindowFill(number)| == 5 && forall i | 0 <= i < 5 :: |WindowFill(number)[i].key| != 4
  {
  }

  lemma RowsInList(vs: seq<Json>)
    requires forall i | 0 <= i < |vs| :: RowHasText(vs[i])
    ensures forall v | v in Children(Array(vs)) :: RowHasText(v)
  {
    hide RowHasText;
  }

  lemma PageData(pg: Page, dark: bool)
    requires pg.Valid()
    ensures var windows := Field(PageTree(pg, dark), Ascii("windows"));
            windows.Some? && WindowsTexts(Children(windows.value), true) == PageShown(pg, 0, dark)
    ensures PageHasText(PageTree(pg, dark))
  {
    hide Lookup, WindowTexts, WindowHasText, WindowMembers, PageShown;
    var window := Object(WindowMembers(pg, dark));
    WindowData(pg, dark);
    LookupAt(PageTree(pg, dark).members, 1, Ascii("windows"));
    assert WindowsTexts([window], true) == [] + WindowTexts(window) + WindowsTexts([window][1..], false);
    assert [] + WindowTexts(window) + [] == WindowTexts(window);
  }

  // ---- What the reader returns is what the page shows ---------------------------------------

  predicate AllSpaces(s: seq<byte>) {
    forall i | 0 <= i < |s| :: s[i] == SPACE
  }

  /** No run loses its text to the flashing, or it had only spaces to lose. */
  predicate NothingLost(runs: seq<Run>, dark: bool) {
    forall i | 0 <= i < |runs| :: Blanked(runs[i], dark) ==> AllSpaces(runs[i].text)
  }

  lemma DataSame(run: Run, dark: bool)
    ensures |Data(run, dark)| == |run.text|
    ensures Data(run, dark) == run.text <==> (Blanked(run, dark) ==> AllSpaces(run.text))
  {
  }

  lemma SplitEqual(a: seq<byte>, b: seq<byte>, c: seq<byte>, d: seq<byte>)
    requires |a| == |c|
    ensures a + b == c + d <==> a == c && b == d
  {
    if a + b == c + d {
      assert a == (a + b)[..|a|] && c == (c + d)[..|a|];
      assert b == (a + b)[|a|..] && d == (c + d)[|a|..];
    }
  }

  lemma {:induction false} DataSpells(runs: seq<Run>, dark: bool)
    ensures Concat(DataTexts(runs, dark)) == Texts(runs) <==> NothingLost(runs, dark)
  {
    hide Data, AllSpaces, Blanked;
    if runs != [] {
      DataSpells(runs[1..], dark);
      DataSame(runs[0], dark);
      var texts := DataTexts(runs, dark);
      assert texts[1..] == DataTexts(runs[1..], dark);
      SplitEqual(Data(runs[0], dark), Concat(texts[1..]), runs[0].text, Texts(runs[1..]));
    }
  }

  /** Some shown character other than the space flashes. */
  predicate FlashingLetter(cells: seq<Cell>, going: bool) {
    if cells == [] then false
    else if cells[0].unicode != 0 then
      (cells[0].unicode != 0x20 && cells[0].flash) || FlashingLetter(cells[1..], true)
    else !going && FlashingLetter(cells[1..], false)
  }

  lemma SpacesJoin(a: seq<byte>, b: seq<byte>)
    ensures AllSpaces(a + b) <==> AllSpaces(a) && AllSpaces(b)
  {
    if AllSpaces(a + b) {
      forall i | 0 <= i < |b|
        ensures b[i] == SPACE
      {
        assert (a + b)[|a| + i] == b[i];
      }
      forall i | 0 <= i < |a|
        ensures a[i] == SPACE
      {
        assert (a + b)[i] == a[i];
      }
    }
  }

  lemma SpaceInUtf8(uc: nat)
    requires uc < 0x1_0000
    ensures AllSpaces(Utf8(uc)) <==> uc == 0x20
  {
    var u := Utf8(uc);
    if uc >= 0x80 {
      assert u[0] != SPACE;
    } else {
      assert u == [uc as byte];
      assert u[0] as nat == uc && (u[0] == SPACE <==> uc == 0x20);
    }
  }

  lemma LostJoin(a: seq<Run>, b: seq<Run>, dark: bool)
    ensures NothingLost(a + b, dark) <==> NothingLost(a, dark) && NothingLost(b, dark)
  {
    hide Blanked, AllSpaces;
    if NothingLost(a + b, dark) {
      forall i | 0 <= i < |b|
        ensures Blanked(b[i], dark) ==> AllSpaces(b[i].text)
      {
        assert (a + b)[|a| + i] == b[i];
      }
      forall i | 0 <= i < |a|
        ensures Blanked(a[i], dark) ==> AllSpaces(a[i].text)
      {
        assert (a + b)[i] == a[i];
      }
    }
  }

  /** What is pending in a style loses nothing when that style does not flash or it is blank anyway. */
  predicate PendingKept(style: Cell, pending: seq<byte>, dark: bool) {
    style.flash && dark ==> AllSpaces(pending)
  }

  lemma LostFlush(style: Cell, pending: seq<byte>, dark: bool)
    ensures NothingLost(Flush(style, pending), dark) <==> PendingKept(style, pending, dark)
  {
    if pending != [] {
      assert Flush(style, pending)[0].text == pending;
    }
  }

  /** One column's turn and its character, in terms of what was pending and the cell alone. */
  lemma LostTurn(style: Cell, pending: seq<byte>, c: Cell, dark: bool)
    requires c.unicode < 0x1_0000
    ensures var (done, s, p) := Turn(style, pending, c);
            && (NothingLost(done, dark) && PendingKept(s, p, dark) <==> PendingKept(style, pending, dark))
            && (NothingLost(done, dark) && PendingKept(s, p + Utf8(c.unicode), dark) <==>
                PendingKept(style, pending, dark) && !(dark && c.unicode != 0x20 && c.flash))
  {
    hide AllSpaces, Utf8, Flush, NothingLost;
    var (done, s, p) := Turn(style, pending, c);
    LostFlush(style, pending, dark);
    SpacesJoin(p, Utf8(c.unicode));
    SpaceInUtf8(c.unicode);
    assert AllSpaces([]) by { NoSpaces(); }
    assert NothingLost([], dark) by { NoRuns(dark); }
  }

  lemma NoSpaces()
    ensures AllSpaces([])
  {
  }

  lemma NoRuns(dark: bool)
    ensures NothingLost([], dark)
  {
  }

  /** Whatever style the row begins in, the cells alone decide. */
  lemma {:induction false} LostExactly(cells: seq<Cell>, style: Cell, pending: seq<byte>, going: bool, dark: bool)
    requires AllCells(cells)
    ensures NothingLost(Runs(cells, style, pending, going).0, dark) <==>
            PendingKept(style, pending, dark) && !(dark && FlashingLetter(cells, going))
    decreases |cells|
  {
    hide Flush, Utf8, Turn, NothingLost, PendingKept, AllCells;
    if cells == [] {
      LostFlush(style, pending, dark);
    } else {
      var c := cells[0];
      var (done, s, p) := Turn(style, pending, c);
      assert AllCells(cells[1..]) && c.unicode < 0x1_0000 by { CellsTail(cells); }
      LostTurn(style, pending, c, dark);
      if c.unicode == 0 && going {
        LostFlush(s, p, dark);
        LostJoin(done, Flush(s, p), dark);
      } else {
        var p' := if c.unicode == 0 then p else p + Utf8(c.unicode);
        var going' := going || c.unicode != 0;
        LostExactly(cells[1..], s, p', going', dark);
        LostJoin(done, Runs(cells[1..], s, p', going').0, dark);
      }
    }
  }

  /** The strings of row i spell its characters, from the first non-zero column to the next zero one,
      exactly when it is the bright half of the second or none of them but spaces flash. */
  lemma RowSpells(pg: Page, i: nat, dark: bool)
    requires pg.Valid() && i < pg.rows
    ensures AllCells(pg.Row(i))
    ensures Concat(RowShown(pg, i, dark)) == Shown(pg.Row(i), false) <==> !(dark && FlashingLetter(pg.Row(i), false))
  {
    hide NothingLost, Shown, DataTexts, Runs, Texts, FlashingLetter;
    RowCells(pg, i);
    var cells, st := pg.Row(i), StyleBefore(pg, i);
    DataSpells(RowRuns(cells, st), dark);
    RunsHoldText(cells, st, [], false);
    LostExactly(cells, st, [], false, dark);
    assert [] + Shown(cells, false) == Shown(cells, false);
  }

  /** A row that is spelled in full gives its code points. */
  lemma RowCharacters(pg: Page, i: nat, dark: bool)
    requires pg.Valid() && i < pg.rows && !(dark && FlashingLetter(pg.Row(i), false))
    ensures CodePoints(Concat(RowShown(pg, i, dark))) == (ShownChars(pg.Row(i), false), [])
  {
    hide CodePoints, Shown, ShownChars, RowShown, FlashingLetter;
    RowSpells(pg, i, dark);
    ShownDecodes(pg.Row(i), false);
  }

  /** A flashing letter reads as a space while it is dark. */
  lemma DarkLetter(style: Cell)
    requires style.flash
    ensures DataTexts([Run(style, [65])], true) == [[SPACE]] && !NothingLost([Run(style, [65])], true)
  {
    var run := Run(style, [65]);
    assert DataTexts([run], true) == [Data(run, true)] + DataTexts([], true);
    assert Data(run, true) == [SPACE];
    assert Blanked([run][0], true) && run.text[0] != SPACE;
  }

  /** In the bright half of the second every row is spelled in full. */
  lemma BrightRowSpells(pg: Page, i: nat)
    requires pg.Valid() && i < pg.rows
    ensures AllCells(pg.Row(i)) && Concat(RowShown(pg, i, false)) == Shown(pg.Row(i), false)
  {
    RowSpells(pg, i, false);
  }

  /** From the page to the reader's strings, through the text in the buffer. */
  method WriteAndRead(pg: Page, size: nat, nanoseconds: nat) returns (ok: bool, output: seq<seq<byte>>)
    requires pg.Valid() && pg.columns < 0x8000_0000
    requires PlannedFit(pg, (nanoseconds / 250_000_000) % 2 == 1)
    requires |Compact(PageTree(pg, (nanoseconds / 250_000_000) % 2 == 1))| < size
    ensures output == PageShown(pg, 0, (nanoseconds / 250_000_000) % 2 == 1)
    ensures ok == (output != [])
  {
    hide Compact, PageTree, PlannedFit, AnyFit, PageShown, ParseValue, Skip, PageHasText, Field, WindowsTexts, Ascii;
    var buf := new byte[size];
    var o := new Output(buf, nanoseconds);
    PageParses(pg, o.flash);
    PageData(pg, o.flash);
    ok := PageToJson(pg, o);
    ok, output := PopulateData(o.buf[..o.pos], []);
    assert [] + PageShown(pg, 0, o.flash) == PageShown(pg, 0, o.flash);
  }
}
