/** The row and page writers of libsubtitle/utils/ClosedCaptionJson.c: with room enough, what they write is
    the text of the page's tree, commas and all. */
module CaptionJsons {
  import opened Bytes
  import opened Json
  import opened JsonTexts
  import opened CompactJsons
  import opened CaptionWriters
  import opened CaptionPages

  /** Behind the opening brace at the end of had stand these members, and the comma flag agrees. */
  ghost predicate InObject(o: Output, had: seq<byte>, members: seq<Member>)
    reads o, o.buf
  {
    o.Valid() && o.Text() == had + CompactMembers(members) && o.hasProp == (members != [])
  }

  ghost predicate InArray(o: Output, had: seq<byte>, items: seq<Json>)
    reads o, o.buf
  {
    o.Valid() && o.Text() == had + CompactItems(items) && o.hasProp == (items != [])
  }

  /** There is room for all of it and for a terminator. */
  ghost predicate Fits(o: Output, had: seq<byte>, text: seq<byte>) {
    |had| + |text| < o.buf.Length
  }

  lemma {:induction false} MembersGrow(all: seq<Member>, k: nat)
    requires k <= |all|
    ensures |CompactMembers(all[..k])| <= |CompactMembers(all)|
    decreases |all|
  {
    hide CompactMember, Comma;
    if k < |all| {
      var n := |all| - 1;
      MembersGrow(all[..n], k);
      assert all[..n][..k] == all[..k];
      assert all == all[..n] + [all[n]];
      MemberAdded(all[..n], all[n]);
    } else {
      assert all[..k] == all;
    }
  }

  lemma {:induction false} ItemsGrow(all: seq<Json>, k: nat)
    requires k <= |all|
    ensures |CompactItems(all[..k])| <= |CompactItems(all)|
    decreases |all|
  {
    hide Compact, Comma;
    if k < |all| {
      var n := |all| - 1;
      ItemsGrow(all[..n], k);
      assert all[..n][..k] == all[..k];
      assert all == all[..n] + [all[n]];
      ItemAdded(all[..n], all[n]);
    } else {
      assert all[..k] == all;
    }
  }

  /** Member number k of the plan, as text behind what stands there. */
  lemma NextMember(had: seq<byte>, all: seq<Member>, k: nat)
    requires k < |all|
    ensures had + CompactMembers(all[..k + 1]) ==
            (had + CompactMembers(all[..k])) + (Comma(k > 0) + CompactMember(all[k]))
    ensures |CompactMembers(all[..k + 1])| <= |CompactMembers(all)|
  {
    hide CompactMember, CompactMembers;
    assert all[..k] + [all[k]] == all[..k + 1];
    MemberAdded(all[..k], all[k]);
    Assoc(had, CompactMembers(all[..k]), Comma(k > 0) + CompactMember(all[k]));
    MembersGrow(all, k + 1);
  }

  lemma NextItem(had: seq<byte>, all: seq<Json>, k: nat)
    requires k < |all|
    ensures had + CompactItems(all[..k + 1]) ==
            (had + CompactItems(all[..k])) + (Comma(k > 0) + Compact(all[k]))
    ensures |CompactItems(all[..k + 1])| <= |CompactItems(all)|
  {
    hide Compact, CompactItems;
    assert all[..k] + [all[k]] == all[..k + 1];
    ItemAdded(all[..k], all[k]);
    Assoc(had, CompactItems(all[..k]), Comma(k > 0) + Compact(all[k]));
    ItemsGrow(all, k + 1);
  }

  // ---- Members by plan ----------------------------------------------------------------------

  method IntMember(o: Output, key: seq<byte>, val: int, ghost had: seq<byte>, ghost all: seq<Member>, ghost k: nat)
    returns (ok: bool)
    requires o.Valid() && k < |all| && all[k] == Member(key, Number(val))
    modifies o, o.buf
    ensures o.Valid()
    ensures old(InObject(o, had, all[..k])) && Fits(o, had, CompactMembers(all)) ==>
              ok && InObject(o, had, all[..k + 1])
  {
    hide CompactMember, CompactMembers, Comma;
    NextMember(had, all, k);
    ok := o.IntProp(key, val);
  }

  method BoolMember(o: Output, key: seq<byte>, val: bool, ghost had: seq<byte>, ghost all: seq<Member>, ghost k: nat)
    returns (ok: bool)
    requires o.Valid() && k < |all| && all[k] == Member(key, Flag(val))
    modifies o, o.buf
    ensures o.Valid()
    ensures old(InObject(o, had, all[..k])) && Fits(o, had, CompactMembers(all)) ==>
              ok && InObject(o, had, all[..k + 1])
  {
    hide CompactMember, CompactMembers, Comma;
    NextMember(had, all, k);
    ok := o.BoolProp(key, val);
  }

  method StrMember(o: Output, key: seq<byte>, val: seq<byte>, ghost had: seq<byte>, ghost all: seq<Member>,
                   ghost k: nat)
    returns (ok: bool)
    requires o.Valid() && k < |all| && all[k] == Member(key, String(val))
    modifies o, o.buf
    ensures o.Valid()
    ensures old(InObject(o, had, all[..k])) && Fits(o, had, CompactMembers(all)) ==>
              ok && InObject(o, had, all[..k + 1])
  {
    hide CompactMember, CompactMembers, Comma;
    NextMember(had, all, k);
    ok := o.StrProp(key, val);
  }

  // ---- One run ------------------------------------------------------------------------------

  /** Where item number k of an array begins, its opening brace written. */
  ghost function ItemStart(had: seq<byte>, all: seq<Json>, k: nat): seq<byte>
    requires k < |all|
  {
    had + CompactItems(all[..k]) + Comma(k > 0) + [OPEN_BRACE]
  }

  lemma ItemOfObject(had: seq<byte>, all: seq<Json>, k: nat, members: seq<Member>)
    requires k < |all| && all[k] == Object(members)
    ensures (ItemStart(had, all, k) + CompactMembers(members)) + [CLOSE_BRACE] ==
            had + CompactItems(all[..k + 1])
    ensures ItemStart(had, all, k) == (had + CompactItems(all[..k])) + (Comma(k > 0) + [OPEN_BRACE])
    ensures |had| + |CompactItems(all[..k])| + |Comma(k > 0)| + 2 + |CompactMembers(members)|
            <= |had| + |CompactItems(all)|
  {
    hide CompactItems, CompactMembers, Comma;
    NextItem(had, all, k);
    var a, c, m := had + CompactItems(all[..k]), Comma(k > 0), CompactMembers(members);
    assert all[..k + 1] == all[..k] + [all[k]];
    ItemAdded(all[..k], all[k]);
    assert c + ([OPEN_BRACE] + m + [CLOSE_BRACE]) == c + [OPEN_BRACE] + m + [CLOSE_BRACE];
    assert ((a + c + [OPEN_BRACE]) + m) + [CLOSE_BRACE] == a + (c + [OPEN_BRACE] + m + [CLOSE_BRACE]);
    Assoc(a, c, [OPEN_BRACE]);
  }

  /** o_symbol for an opening brace of item number k. */
  method OpenItem(o: Output, ghost had: seq<byte>, ghost all: seq<Json>, ghost k: nat,
                  ghost members: seq<Member>)
    returns (ok: bool)
    requires o.Valid() && k < |all| && all[k] == Object(members)
    modifies o, o.buf
    ensures o.Valid()
    ensures old(InArray(o, had, all[..k])) && Fits(o, had, CompactItems(all)) ==>
              ok && InObject(o, ItemStart(had, all, k), []) &&
              Fits(o, ItemStart(had, all, k), CompactMembers(members))
  {
    hide CompactItems, CompactMembers, Comma;
    ItemOfObject(had, all, k, members);
    ok := o.Symbol(OPEN_BRACE);
    CompactNothing();
    assert ItemStart(had, all, k) + [] == ItemStart(had, all, k);
  }

  method CloseItem(o: Output, ghost had: seq<byte>, ghost all: seq<Json>, ghost k: nat,
                   ghost members: seq<Member>)
    returns (ok: bool)
    requires o.Valid() && k < |all| && all[k] == Object(members)
    modifies o, o.buf
    ensures o.Valid()
    ensures old(InObject(o, ItemStart(had, all, k), members)) && Fits(o, had, CompactItems(all)) ==>
              ok && InArray(o, had, all[..k + 1])
    ensures ok ==> o.pos < o.buf.Length && o.buf[o.pos] == 0
  {
    hide CompactItems, CompactMembers, Comma;
    ItemOfObject(had, all, k, members);
    ok := o.Symbol(CLOSE_BRACE);
    assert Comma(false) + [CLOSE_BRACE] == [CLOSE_BRACE] by { NoComma(CLOSE_BRACE); }
  }

  lemma NoComma(c: byte)
    ensures Comma(false) + [c] == [c]
  {
  }

  /** vbi_text_to_json: the run in buf, if there is any text in it, becomes item number k. */
  method TextToJson(buf: array<byte>, len: nat, st: Cell, o: Output, colors: seq<nat>, ghost had: seq<byte>,
                    ghost all: seq<Json>, ghost k: nat)
    returns (ok: bool)
    requires o.Valid() && len < buf.Length && buf != o.buf
    requires var run := Run(st, buf[..len]);
             RunOk(run, colors) &&
             (len > 0 ==> k < |all| && all[k] == RunTree(run, colors, o.flash)) &&
             (len > 0 && Blanked(run, o.flash) ==> len < 64)
    modifies o, o.buf, buf
    ensures o.Valid() && buf[..len] == old(buf[..len])
    ensures len == 0 ==> ok && o.Text() == old(o.Text()) && o.hasProp == old(o.hasProp)
    ensures len > 0 && old(InArray(o, had, all[..k])) && Fits(o, had, CompactItems(all)) ==>
              ok && InArray(o, had, all[..k + 1])
  {
    hide InArray, InObject, Fits, ColorValue, OpacityText, Ascii, CompactItems, CompactMembers, IsText, RunMembers;
    if len == 0 {
      return true;
    }
    ghost var run := Run(st, buf[..len]);
    ghost var members := RunMembers(run, colors, o.flash);
    ghost var start := ItemStart(had, all, k);
    buf[len] := 0;
    assert buf[..len] == run.text;
    ok := OpenItem(o, had, all, k, members);
    if !ok {
      return false;
    }
    var done;
    done, ok := RunProps(buf, len, st, o, colors, start, members);
    if !done {
      return;
    }
    ok := CloseItem(o, had, all, k, members);
  }

  lemma RunPlan(run: Run, colors: seq<nat>, dark: bool)
    requires RunOk(run, colors)
    ensures var ms := RunMembers(run, colors, dark);
            && |ms| == 7 && ms[..0] == [] && ms[..7] == ms
            && ms[0] == Member(Ascii("fg_color"), Number(ColorValue(colors[run.style.foreground])))
            && ms[1] == Member(Ascii("bg_color"), Number(ColorValue(colors[run.style.background])))
            && ms[2] == Member(Ascii("fg_opacity"),
                               String(OpacityText(if Blanked(run, dark) then TRANSPARENT_SPACE else OPAQUE)))
            && ms[3] == Member(Ascii("bg_opacity"), String(OpacityText(run.style.opacity)))
            && ms[4] == Member(Ascii("underline"), Flag(run.style.underline))
            && ms[5] == Member(Ascii("italics"), Flag(run.style.italic))
            && ms[6] == Member(Ascii("data"), String(Data(run, dark)))
  {
    hide Ascii, ColorValue, OpacityText, Data, Blanked, IsText, Flag;
  }

  /** The seven members of a run. A failure of the first two ends the run as if it were written. */
  method RunProps(buf: array<byte>, len: nat, st: Cell, o: Output, colors: seq<nat>, ghost start: seq<byte>,
                  ghost members: seq<Member>)
    returns (done: bool, ok: bool)
    requires o.Valid() && 0 < len < buf.Length && buf != o.buf
    requires var run := Run(st, buf[..len]);
             RunOk(run, colors) && members == RunMembers(run, colors, o.flash) &&
             (Blanked(run, o.flash) ==> len < 64)
    requires HoldsAt(buf[..], 0, buf[..len])
    modifies o, o.buf
    ensures o.Valid() && (done ==> ok)
    ensures old(InObject(o, start, [])) && Fits(o, start, CompactMembers(members)) ==>
              done && ok && InObject(o, start, members)
  {
    hide InObject, Fits, ColorValue, OpacityText, Ascii, CompactMembers, HoldsAt, IsText, RunMembers, Spaces, Flag;
    RunPlan(Run(st, buf[..len]), colors, o.flash);
    done := false;
    ok := IntMember(o, Ascii("fg_color"), ColorValue(colors[st.foreground]), start, members, 0);
    if !ok {
      return false, true;
    }
    ok := IntMember(o, Ascii("bg_color"), ColorValue(colors[st.background]), start, members, 1);
    if !ok {
      return false, true;
    }
    var fg := if st.flash && o.flash then TRANSPARENT_SPACE else OPAQUE;
    ok := StrMember(o, Ascii("fg_opacity"), OpacityText(fg), start, members, 2);
    if !ok {
      return;
    }
    ok := StrMember(o, Ascii("bg_opacity"), OpacityText(st.opacity), start, members, 3);
    if !ok {
      return;
    }
    ok := BoolMember(o, Ascii("underline"), st.underline, start, members, 4);
    if !ok {
      return;
    }
    ok := BoolMember(o, Ascii("italics"), st.italic, start, members, 5);
    if !ok {
      return;
    }
    ok := DataMember(buf, len, st, o, start, members);
    done := ok;
  }

  method DataMember(buf: array<byte>, len: nat, st: Cell, o: Output, ghost start: seq<byte>,
                    ghost members: seq<Member>)
    returns (ok: bool)
    requires o.Valid() && 0 < len < buf.Length && buf != o.buf
    requires var run := Run(st, buf[..len]);
             IsText(run.text) && (Blanked(run, o.flash) ==> len < 64) &&
             |members| == 7 && members[6] == Member(Ascii("data"), String(Data(run, o.flash)))
    requires HoldsAt(buf[..], 0, buf[..len])
    modifies o, o.buf
    ensures o.Valid()
    ensures old(InObject(o, start, members[..6])) && Fits(o, start, CompactMembers(members)) ==>
              ok && InObject(o, start, members[..7])
  {
    hide InObject, Fits, Ascii, CompactMembers, HoldsAt, IsText, Spaces;
    var n := Strlen(buf, 0, buf[..len]);
    if st.flash && o.flash {
      var blank := BlankText(n);
      ok := StrMember(o, Ascii("data"), blank, start, members, 6);
    } else {
      ok := StrMember(o, Ascii("data"), buf[..n], start, members, 6);
    }
  }

  /** The 64-byte array of blanks, as a string. */
  method BlankText(n: nat) returns (s: seq<byte>)
    requires n < 64
    ensures s == Spaces(n)
  {
    var blank := new byte[64];
    var i := 0;
    while i < n
      invariant i <= n
      invariant forall k | 0 <= k < i :: blank[k] == SPACE
    {
      blank[i] := SPACE;
      i := i + 1;
    }
    blank[n] := 0;
    s := blank[..n];
  }

  // ---- Rows ---------------------------------------------------------------------------------

  /** put_uc: a character of the basic plane in UTF-8. */
  method PutUc(buf: array<byte>, len: nat, uc: nat) returns (r: nat)
    requires 0 < uc < 0x1_0000 && len + 3 <= buf.Length
    modifies buf
    ensures 1 <= r <= 3 && buf[..len + r] == old(buf[..len]) + Utf8(uc)
  {
    if uc <= 0x7f {
      buf[len] := uc as byte;
      r := 1;
    } else if uc <= 0x7ff {
      buf[len] := (uc / 0x40 + 0xc0) as byte;
      buf[len + 1] := (uc % 0x40 + 0x80) as byte;
      r := 2;
    } else {
      buf[len] := (uc / 0x1000 + 0xe0) as byte;
      buf[len + 1] := (uc / 0x40 % 0x40 + 0x80) as byte;
      buf[len + 2] := (uc % 0x40 + 0x80) as byte;
      r := 3;
    }
    assert buf[len..len + r] == Utf8(uc);
    assert buf[..len + r] == buf[..len] + buf[len..len + r];
  }

  /** Every run that has to be blanked fits the array of blanks with its terminator. */
  ghost predicate RunsFit(runs: seq<Run>, dark: bool) {
    forall i | 0 <= i < |runs| :: Blanked(runs[i], dark) ==> |runs[i].text| < 64
  }

  lemma FlushFront(all: seq<Run>, e: nat, style: Cell, pending: seq<byte>, rest: seq<Run>)
    requires e <= |all| && all[e..] == Flush(style, pending) + rest
    ensures pending != [] ==> e < |all| && all[e] == Run(style, pending) && all[e + 1..] == rest
    ensures pending == [] ==> all[e..] == rest
  {
    if pending != [] {
      assert all[e..][0] == Run(style, pending);
      assert all[e..][1..] == rest;
    } else {
      assert [] + rest == rest;
    }
  }

  /** Writes the pending text as run number e of the row. */
  method FlushRun(buf: array<byte>, len: nat, st: Cell, o: Output, colors: seq<nat>, ghost had: seq<byte>,
                  ghost all: seq<Run>, ghost e: nat, ghost rest: seq<Run>)
    returns (ok: bool, ghost next: nat)
    requires o.Valid() && len < buf.Length && buf != o.buf
    requires RunsOk(all, colors) && StyleOk(st, colors) && IsText(buf[..len])
    requires e <= |all| && all[e..] == Flush(st, buf[..len]) + rest && RunsFit(all, o.flash)
    modifies o, o.buf, buf
    ensures o.Valid() && next <= |all| && all[next..] == rest && buf[..len] == old(buf[..len])
    ensures var trees := RunTrees(all, colors, o.flash);
            old(InArray(o, had, trees[..e])) && Fits(o, had, CompactItems(trees)) ==>
              ok && InArray(o, had, trees[..next])
  {
    hide Fits, CompactItems, RunTree, IsText;
    ghost var trees := RunTrees(all, colors, o.flash);
    FlushFront(all, e, st, buf[..len], rest);
    next := if len > 0 then e + 1 else e;
    ghost var text := buf[..len];
    assert len > 0 ==> text != [];
    assert len == 0 ==> text == [];
    ok := TextToJson(buf, len, st, o, colors, had, trees, e);
  }

  lemma RunsStep(cells: seq<Cell>, col: nat, style: Cell, pending: seq<byte>, going: bool)
    requires AllCells(cells) && col < |cells|
    ensures AllCells(cells[col..]) && AllCells(cells[col + 1..])
    ensures var c := cells[col];
            var (done, s, p) := Turn(style, pending, c);
            var (runs, last) := Runs(cells[col..], style, pending, going);
            if c.unicode == 0 && going then runs == done + Flush(s, p) && last == s
            else
              var p' := if c.unicode == 0 then p else p + Utf8(c.unicode);
              var (more, last') := Runs(cells[col + 1..], s, p', going || c.unicode != 0);
              runs == done + more && last == last'
    ensures LeadingZeros(cells[col..]) ==
            if cells[col].unicode == 0 then 1 + LeadingZeros(cells[col + 1..]) else 0
  {
    hide Turn, Flush, Utf8;
    assert cells[col..][0] == cells[col] && cells[col..][1..] == cells[col + 1..];
  }

  /** How far the loop over the columns has come. */
  ghost predicate AtColumn(cells: seq<Cell>, col: nat, st: Cell, pending: seq<byte>, start: nat, going: bool,
                           stopped: bool, left: seq<Run>, last: Cell)
    requires AllCells(cells)
  {
    && col <= |cells| && (stopped ==> going)
    && (stopped ==> left == Flush(st, pending) && last == st)
    && (!stopped ==> (left, last) == Runs(cells[col..], st, pending, going))
    && start + (if going then 0 else LeadingZeros(cells[col..])) == LeadingZeros(cells)
    && |pending| <= 3 * col
  }

  /** One column behind the style change: what the rest of the loop's body does to where the loop stands. */
  lemma NextColumn(cells: seq<Cell>, col: nat, st: Cell, pending: seq<byte>, start: nat, going: bool,
                   left: seq<Run>, last: Cell) returns (rest: seq<Run>)
    requires AllCells(cells) && col < |cells| && AtColumn(cells, col, st, pending, start, going, false, left, last)
    ensures var c := cells[col];
            var (done, s, p) := Turn(st, pending, c);
            && left == done + rest && c.unicode < 0x1_0000
            && (c.unicode == 0 && going ==> AtColumn(cells, col, s, p, start, going, true, rest, last))
            && (c.unicode == 0 && !going ==> AtColumn(cells, col + 1, s, p, start + 1, false, false, rest, last))
            && (c.unicode != 0 ==>
                  AtColumn(cells, col + 1, s, p + Utf8(c.unicode), start, true, false, rest, last))
  {
    hide Turn, Flush, Runs, Utf8, LeadingZeros, AllCells;
    RunsStep(cells, col, st, pending, going);
    var c := cells[col];
    CellsAt(cells, col);
    var (done, s, p) := Turn(st, pending, c);
    TurnShrinks(st, pending, c);
    if c.unicode == 0 && going {
      rest := Flush(s, p);
    } else if c.unicode == 0 {
      rest := Runs(cells[col + 1..], s, p, false).0;
    } else {
      rest := Runs(cells[col + 1..], s, p + Utf8(c.unicode), true).0;
    }
  }

  lemma CellsAt(cells: seq<Cell>, col: nat)
    requires AllCells(cells) && col < |cells|
    ensures cells[col].unicode < 0x1_0000
  {
  }

  lemma TurnShrinks(st: Cell, pending: seq<byte>, c: Cell)
    ensures |Turn(st, pending, c).2| <= |pending|
  {
  }

  lemma AtStart(cells: seq<Cell>, st: Cell)
    requires AllCells(cells)
    ensures AtColumn(cells, 0, st, [], 0, false, false, RowRuns(cells, st), RowStyle(cells, st))
  {
    hide Runs, LeadingZeros;
    assert cells[0..] == cells;
  }

  lemma AtEnd(cells: seq<Cell>, col: nat, st: Cell, pending: seq<byte>, start: nat, going: bool, stopped: bool,
              left: seq<Run>, last: Cell)
    requires AllCells(cells) && AtColumn(cells, col, st, pending, start, going, stopped, left, last)
    requires stopped || col == |cells|
    ensures left == Flush(st, pending) + [] && last == st && start == LeadingZeros(cells)
  {
    hide Flush;
    if !stopped {
      assert cells[col..] == [];
    }
    assert Flush(st, pending) + [] == Flush(st, pending);
  }

  /** The loop over the columns of a row, and the last run behind it. */
  method RowToItems(cells: seq<Cell>, st0: Cell, o: Output, colors: seq<nat>, ghost had: seq<byte>)
    returns (ok: bool, st: Cell, start: nat)
    requires o.Valid() && CellsOk(cells, colors) && StyleOk(st0, colors)
    requires RunsOk(RowRuns(cells, st0), colors) && RunsFit(RowRuns(cells, st0), o.flash)
    modifies o, o.buf
    ensures o.Valid() && StyleOk(st, colors) && (st == st0 || st in cells)
    ensures ok ==> st == RowStyle(cells, st0) && start == LeadingZeros(cells)
    ensures var trees := RunTrees(RowRuns(cells, st0), colors, o.flash);
            old(InArray(o, had, [])) && Fits(o, had, CompactItems(trees)) ==> ok && InArray(o, had, trees)
  {
    hide InArray, Fits, CompactItems, CompactMembers, RunTree, RunsOk, IsText, Turn, Flush, Runs, Utf8, AtColumn,
         Differs, RowRuns, RowStyle, LeadingZeros, RunsFit;
    var buf := new byte[|cells| * 3 + 1];
    ghost var all, last := RowRuns(cells, st0), RowStyle(cells, st0);
    ghost var e: nat := 0;
    ghost var trees := RunTrees(all, colors, o.flash);
    ghost var fits := InArray(o, had, []) && Fits(o, had, CompactItems(trees));
    var len: nat, col: nat, going, stopped := 0, 0, false, false;
    st, start := st0, 0;
    AtStart(cells, st0);
    EmptyIsText();
    assert trees[..0] == [] && all[0..] == all && buf[..0] == [];
    while col < |cells| && !stopped
      invariant o.Valid() && len <= 3 * |cells| && StyleOk(st, colors) && col <= |cells|
      invariant st == st0 || st in cells
      invariant e <= |all| && AtColumn(cells, col, st, buf[..len], start, going, stopped, all[e..], last)
      invariant IsText(buf[..len])
      invariant fits ==> InArray(o, had, trees[..e])
      decreases |cells| - col, !stopped
    {
      ghost var rest := NextColumn(cells, col, st, buf[..len], start, going, all[e..], last);
      LenBound(cells, col, st, buf[..len], start, going, stopped, all[e..], last);
      var pc := cells[col];
      ok, len, st, e := ChangeStyle(buf, len, st, pc, o, colors, had, all, e, rest);
      if !ok {
        return;
      }
      if pc.unicode == 0 && !going {
        start := start + 1;
      } else {
        going := true;
      }
      if going {
        if pc.unicode == 0 {
          stopped := true;
        } else {
          Utf8IsText(pc.unicode);
          TextJoin(buf[..len], Utf8(pc.unicode));
          var r := PutUc(buf, len, pc.unicode);
          len := len + r;
          col := col + 1;
        }
      } else {
        col := col + 1;
      }
    }
    AtEnd(cells, col, st, buf[..len], start, going, stopped, all[e..], last);
    LenBound(cells, col, st, buf[..len], start, going, stopped, all[e..], last);
    ok, e := FlushRun(buf, len, st, o, colors, had, all, e, []);
    assert e == |all|;
    assert trees[..e] == trees;
  }

  /** A style that differs ends the pending run and begins the next. */
  method ChangeStyle(buf: array<byte>, len: nat, st: Cell, pc: Cell, o: Output, colors: seq<nat>,
                     ghost had: seq<byte>, ghost all: seq<Run>, ghost e: nat, ghost rest: seq<Run>)
    returns (ok: bool, len': nat, st': Cell, ghost e': nat)
    requires o.Valid() && len < buf.Length && buf != o.buf
    requires RunsOk(all, colors) && StyleOk(st, colors) && IsText(buf[..len])
    requires e <= |all| && all[e..] == Turn(st, buf[..len], pc).0 + rest && RunsFit(all, o.flash)
    modifies o, o.buf, buf
    ensures o.Valid() && e' <= |all| && all[e'..] == rest && len' <= len
    ensures st' == st || st' == pc
    ensures ok ==> st' == Turn(st, old(buf[..len]), pc).1 && buf[..len'] == Turn(st, old(buf[..len]), pc).2
    ensures ok ==> IsText(buf[..len'])
    ensures var trees := RunTrees(all, colors, o.flash);
            old(InArray(o, had, trees[..e])) && Fits(o, had, CompactItems(trees)) ==>
              ok && InArray(o, had, trees[..e'])
  {
    hide InArray, Fits, CompactItems, RunTree, RunsOk, IsText, Flush, Differs, StyleOk;
    ok, len', st', e' := true, len, st, e;
    if Differs(st, pc) {
      ok, e' := FlushRun(buf, len, st, o, colors, had, all, e, rest);
      if !ok {
        return;
      }
      len', st' := 0, pc;
      assert buf[..0] == [];
      EmptyIsText();
    } else {
      assert [] + rest == rest;
    }
  }

  lemma LenBound(cells: seq<Cell>, col: nat, st: Cell, pending: seq<byte>, start: nat, going: bool, stopped: bool,
                 left: seq<Run>, last: Cell)
    requires AllCells(cells) && AtColumn(cells, col, st, pending, start, going, stopped, left, last)
    ensures |pending| <= 3 * col
  {
  }

  /** Where the array that is member number k of an object begins, its bracket written. */
  ghost function ArrayStart(had: seq<byte>, all: seq<Member>, k: nat, key: seq<byte>): seq<byte>
    requires k < |all|
  {
    had + CompactMembers(all[..k]) + (Comma(k > 0) + KeyText(key)) + [OPEN_BRACKET]
  }

  lemma MemberOfArray(had: seq<byte>, all: seq<Member>, k: nat, key: seq<byte>, items: seq<Json>)
    requires k < |all| && all[k] == Member(key, Array(items))
    ensures (ArrayStart(had, all, k, key) + CompactItems(items)) + [CLOSE_BRACKET] ==
            had + CompactMembers(all[..k + 1])
    ensures |ArrayStart(had, all, k, key)| + 1 + |CompactItems(items)| <= |had| + |CompactMembers(all)|
  {
    hide CompactItems, CompactMembers, Comma, KeyText;
    NextMember(had, all, k);
    var a, b, t := had + CompactMembers(all[..k]), Comma(k > 0), CompactItems(items);
    var key' := KeyText(key);
    assert CompactMember(all[k]) == key' + ([OPEN_BRACKET] + t + [CLOSE_BRACKET]);
    assert (a + (b + key') + [OPEN_BRACKET] + t) + [CLOSE_BRACKET] ==
           a + (b + (key' + ([OPEN_BRACKET] + t + [CLOSE_BRACKET])));
  }

  method OpenArray(o: Output, key: seq<byte>, ghost had: seq<byte>, ghost all: seq<Member>, ghost k: nat,
                   ghost items: seq<Json>)
    returns (ok: bool)
    requires o.Valid() && k < |all| && all[k] == Member(key, Array(items))
    modifies o, o.buf
    ensures o.Valid()
    ensures old(InObject(o, had, all[..k])) && Fits(o, had, CompactMembers(all)) ==>
              ok && InArray(o, ArrayStart(had, all, k, key), []) &&
              Fits(o, ArrayStart(had, all, k, key), CompactItems(items))
  {
    hide CompactItems, CompactMembers, Comma, KeyText;
    MemberOfArray(had, all, k, key, items);
    CompactNothing();
    assert ArrayStart(had, all, k, key) + [] == ArrayStart(had, all, k, key);
    ok := o.PropBegin(key);
    if !ok {
      return;
    }
    ok := o.Symbol(OPEN_BRACKET);
    NoComma(OPEN_BRACKET);
  }

  method CloseArray(o: Output, key: seq<byte>, ghost had: seq<byte>, ghost all: seq<Member>, ghost k: nat,
                    ghost items: seq<Json>)
    returns (ok: bool)
    requires o.Valid() && k < |all| && all[k] == Member(key, Array(items))
    modifies o, o.buf
    ensures o.Valid()
    ensures old(InArray(o, ArrayStart(had, all, k, key), items)) && Fits(o, had, CompactMembers(all)) ==>
              ok && InObject(o, had, all[..k + 1])
  {
    hide CompactItems, CompactMembers, Comma, KeyText;
    MemberOfArray(had, all, k, key, items);
    ok := o.Symbol(CLOSE_BRACKET);
    NoComma(CLOSE_BRACKET);
  }

  /** vbi_page_row_to_json: the row becomes item number k of the rows. */
  method RowToJson(cells: seq<Cell>, st0: Cell, o: Output, colors: seq<nat>, ghost had: seq<byte>,
                   ghost all: seq<Json>, ghost k: nat)
    returns (ok: bool, st: Cell)
    requires o.Valid() && CellsOk(cells, colors) && StyleOk(st0, colors) && RunsFit(RowRuns(cells, st0), o.flash)
    requires k < |all| && all[k] == Object(RowMembers(cells, st0, colors, o.flash))
    modifies o, o.buf
    ensures o.Valid() && StyleOk(st, colors) && (st == st0 || st in cells)
    ensures old(InArray(o, had, all[..k])) && Fits(o, had, CompactItems(all)) ==>
              ok && st == RowStyle(cells, st0) && InArray(o, had, all[..k + 1])
  {
    hide InArray, InObject, Fits, CompactItems, CompactMembers, Ascii, RunTrees, RowRuns, RowStyle, LeadingZeros,
         StyleOk, RunsFit;
    RowIsOk(cells, st0, colors);
    ghost var members := RowMembers(cells, st0, colors, o.flash);
    ghost var trees := RunTrees(RowRuns(cells, st0), colors, o.flash);
    ghost var row := ItemStart(had, all, k);
    ghost var content := ArrayStart(row, members, 0, Ascii("content"));
    assert members[..0] == [] && members[..2] == members;
    st := st0;
    ok := OpenItem(o, had, all, k, members);
    if !ok {
      return;
    }
    ok := OpenArray(o, Ascii("content"), row, members, 0, trees);
    if !ok {
      return;
    }
    var start;
    ok, st, start := RowToItems(cells, st0, o, colors, content);
    if !ok {
      return;
    }
    ok := CloseArray(o, Ascii("content"), row, members, 0, trees);
    if !ok {
      return;
    }
    EndProp(o, row, members[..1]);
    ok := IntMember(o, Ascii("row_start"), start, row, members, 1);
    if !ok {
      return;
    }
    ok := CloseItem(o, had, all, k, members);
  }

  /** o_prop_end behind a closing bracket, which has raised the flag already. */
  method EndProp(o: Output, ghost had: seq<byte>, ghost members: seq<Member>)
    requires o.Valid() && members != []
    modifies o`hasProp
    ensures o.Valid() && (old(InObject(o, had, members)) ==> InObject(o, had, members))
  {
    o.PropEnd();
  }

  // ---- The page -----------------------------------------------------------------------------

  /** The rows from i on, after k = i of them: the style the next row begins with. */
  function StyleBefore(pg: Page, i: nat): (s: Cell)
    requires pg.Valid() && i <= pg.rows
    ensures StyleOk(s, pg.colors)
  {
    if i == 0 then NO_STYLE
    else
      RowCells(pg, i - 1);
      RowIsOk(pg.Row(i - 1), StyleBefore(pg, i - 1), pg.colors);
      RowStyle(pg.Row(i - 1), StyleBefore(pg, i - 1))
  }

  /** Every row, begun in the style the rows before it leave, keeps to the array of blanks. */
  ghost predicate PlannedFit(pg: Page, dark: bool)
    requires pg.Valid()
  {
    forall i | 0 <= i < pg.rows :: RowFits(pg, i, StyleBefore(pg, i), dark)
  }

  ghost predicate RowFits(pg: Page, i: nat, st: Cell, dark: bool)
    requires pg.Valid() && i < pg.rows
  {
    AllCells(pg.Row(i)) && RunsFit(RowRuns(pg.Row(i), st), dark)
  }

  /** Every row does so in whatever style it may begin: a row that ran out of room can leave any. */
  ghost predicate AnyFit(pg: Page, dark: bool)
    requires pg.Valid()
  {
    forall i, st | 0 <= i < pg.rows && PageStyle(pg, st) :: RowFits(pg, i, st, dark)
  }

  ghost predicate PageStyle(pg: Page, st: Cell) {
    st == NO_STYLE || st in pg.text
  }

  lemma NoStyle(pg: Page)
    ensures PageStyle(pg, NO_STYLE)
  {
  }

  lemma RowStyles(pg: Page, i: nat, st: Cell)
    requires pg.Valid() && i < pg.rows && st in pg.Row(i)
    ensures PageStyle(pg, st)
  {
    RowBounds(i, pg.rows, pg.columns);
  }

  /** Rows of less than 64 bytes fit, however they are cut. */
  lemma ShortRowsFit(pg: Page, dark: bool)
    requires pg.Valid()
    requires forall i | 0 <= i < pg.rows :: AllCells(pg.Row(i)) && |Shown(pg.Row(i), false)| < 64
    ensures AnyFit(pg, dark)
  {
    hide Runs, Shown, Texts;
    forall i, st | 0 <= i < pg.rows && PageStyle(pg, st)
      ensures RowFits(pg, i, st, dark)
    {
      var runs := RowRuns(pg.Row(i), st);
      RunsHoldText(pg.Row(i), st, [], false);
      assert [] + Shown(pg.Row(i), false) == Shown(pg.Row(i), false);
      forall k | 0 <= k < |runs|
        ensures |runs[k].text| < 64
      {
        RunInTexts(runs, k);
      }
    }
  }

  lemma {:induction false} RunInTexts(runs: seq<Run>, k: nat)
    requires k < |runs|
    ensures |runs[k].text| <= |Texts(runs)|
  {
    if k > 0 {
      RunInTexts(runs[1..], k - 1);
    }
  }

  lemma {:induction false} RowTreesAt(pg: Page, i: nat, k: nat, dark: bool)
    requires pg.Valid() && i <= k < pg.rows
    ensures CellsOk(pg.Row(k), pg.colors) && StyleOk(StyleBefore(pg, k), pg.colors)
    ensures var ts := RowTrees(pg, i, StyleBefore(pg, i), dark);
            |ts| == pg.rows - i &&
            ts[k - i] == Object(RowMembers(pg.Row(k), StyleBefore(pg, k), pg.colors, dark))
    decreases k - i
  {
    hide RowMembers, RowStyle;
    RowCells(pg, k);
    RowCells(pg, i);
    RowTreesLength(pg, i, dark);
    if i < k {
      RowTreesAt(pg, i + 1, k, dark);
    }
  }

  lemma {:induction false} RowTreesLength(pg: Page, i: nat, dark: bool)
    requires pg.Valid() && i <= pg.rows
    ensures |RowTrees(pg, i, StyleBefore(pg, i), dark)| == pg.rows - i
    decreases pg.rows - i
  {
    hide RowMembers, RowStyle;
    if i < pg.rows {
      RowCells(pg, i);
      RowTreesLength(pg, i + 1, dark);
    }
  }

  /** The rows of the page. The result of a row is not looked at. */
  method RowsToJson(pg: Page, o: Output, ghost had: seq<byte>)
    requires o.Valid() && pg.Valid()
    requires var room := InArray(o, had, []) && Fits(o, had, CompactItems(RowTrees(pg, 0, NO_STYLE, o.flash)));
             (room && PlannedFit(pg, o.flash)) || AnyFit(pg, o.flash)
    modifies o, o.buf
    ensures o.Valid()
    ensures var trees := RowTrees(pg, 0, NO_STYLE, o.flash);
            old(InArray(o, had, [])) && Fits(o, had, CompactItems(trees)) ==> InArray(o, had, trees)
  {
    hide InArray, Fits, CompactItems, RowTrees, RowMembers, RowStyle, RowFits, CellsOk, PageStyle;
    ghost var trees := RowTrees(pg, 0, NO_STYLE, o.flash);
    ghost var fits := InArray(o, had, []) && Fits(o, had, CompactItems(trees));
    var st, i := NO_STYLE, 0;
    assert PageStyle(pg, NO_STYLE) by { NoStyle(pg); }
    RowTreesLength(pg, 0, o.flash);
    assert trees[..0] == [];
    while i < pg.rows
      invariant i <= pg.rows && o.Valid() && StyleOk(st, pg.colors)
      invariant PageStyle(pg, st)
      invariant fits ==> st == StyleBefore(pg, i) && InArray(o, had, trees[..i])
    {
      assert RowFits(pg, i, st, o.flash);
      ghost var st0 := st;
      st := OneRow(pg, o, i, st, had, trees);
      if st != st0 {
        RowStyles(pg, i, st);
      }
      i := i + 1;
    }
    assert trees[..i] == trees;
  }

  method OneRow(pg: Page, o: Output, i: nat, st0: Cell, ghost had: seq<byte>, ghost trees: seq<Json>)
    returns (st: Cell)
    requires o.Valid() && pg.Valid() && i < pg.rows && StyleOk(st0, pg.colors)
    requires RowFits(pg, i, st0, o.flash)
    requires trees == RowTrees(pg, 0, NO_STYLE, o.flash) && |trees| == pg.rows
    modifies o, o.buf
    ensures o.Valid() && StyleOk(st, pg.colors) && (st == st0 || st in pg.Row(i))
    ensures old(InArray(o, had, trees[..i])) && Fits(o, had, CompactItems(trees)) && st0 == StyleBefore(pg, i) ==>
              st == StyleBefore(pg, i + 1) && InArray(o, had, trees[..i + 1])
  {
    hide InArray, Fits, CompactItems, RowTrees, RowMembers, RowStyle, RowRuns, RunsFit;
    RowTreesAt(pg, 0, i, o.flash);
    var ok;
    ghost var plan := if st0 == StyleBefore(pg, i) then trees
                      else trees[i := Object(RowMembers(pg.Row(i), st0, pg.colors, o.flash))];
    ok, st := RowToJson(pg.Row(i), st0, o, pg.colors, had, plan, i);
  }

  lemma WindowPlan(pg: Page, dark: bool)
    requires pg.Valid()
    ensures var ms := WindowMembers(pg, dark);
            && ms[..0] == [] && ms[..20] == ms
            && (forall k | 0 <= k < 8 :: ms[k] == WindowAnchors()[k])
            && (forall k | 8 <= k < 14 :: ms[k] == WindowLook()[k - 8])
            && (forall k | 14 <= k < 19 :: ms[k] == WindowFill(pg.number)[k - 14])
            && ms[19] == Member(Ascii("rows"), Array(RowTrees(pg, 0, NO_STYLE, dark)))
  {
    hide Ascii, RowTrees, FillOpacity;
  }

  method WindowAnchorsToJson(pg: Page, o: Output, ghost had: seq<byte>, ghost members: seq<Member>) returns (ok: bool)
    requires o.Valid() && pg.Valid() && members == WindowMembers(pg, o.flash)
    modifies o, o.buf
    ensures o.Valid()
    ensures old(InObject(o, had, [])) && Fits(o, had, CompactMembers(members)) ==>
              ok && InObject(o, had, members[..8])
  {
    hide InObject, Fits, Ascii, CompactMembers, WindowMembers, RowTrees, FillOpacity;
    WindowPlan(pg, o.flash);
    ok := IntMember(o, Ascii("anchor_point"), 0, had, members, 0);
    if !ok {
      return;
    }
    ok := IntMember(o, Ascii("anchor_horizontal"), 0, had, members, 1);
    if !ok {
      return;
    }
    ok := IntMember(o, Ascii("anchor_vertical"), 0, had, members, 2);
    if !ok {
      return;
    }
    ok := BoolMember(o, Ascii("anchor_relative"), false, had, members, 3);
    if !ok {
      return;
    }
    ok := IntMember(o, Ascii("row_count"), 15, had, members, 4);
    if !ok {
      return;
    }
    ok := IntMember(o, Ascii("column_count"), 42, had, members, 5);
    if !ok {
      return;
    }
    ok := BoolMember(o, Ascii("row_lock"), true, had, members, 6);
    if !ok {
      return;
    }
    ok := BoolMember(o, Ascii("column_lock"), true, had, members, 7);
  }

  method WindowLookToJson(pg: Page, o: Output, ghost had: seq<byte>, ghost members: seq<Member>) returns (ok: bool)
    requires o.Valid() && pg.Valid() && members == WindowMembers(pg, o.flash)
    modifies o, o.buf
    ensures o.Valid()
    ensures old(InObject(o, had, members[..8])) && Fits(o, had, CompactMembers(members)) ==>
              ok && InObject(o, had, members[..14])
  {
    hide InObject, Fits, Ascii, CompactMembers, WindowMembers, RowTrees, FillOpacity;
    WindowPlan(pg, o.flash);
    ok := StrMember(o, Ascii("justify"), Ascii("left"), had, members, 8);
    if !ok {
      return;
    }
    ok := StrMember(o, Ascii("print_direction"), Ascii("left_right"), had, members, 9);
    if !ok {
      return;
    }
    ok := StrMember(o, Ascii("scroll_direction"), Ascii("bottom_top"), had, members, 10);
    if !ok {
      return;
    }
    ok := BoolMember(o, Ascii("wordwrap"), true, had, members, 11);
    if !ok {
      return;
    }
    ok := StrMember(o, Ascii("display_effect"), Ascii("snap"), had, members, 12);
    if !ok {
      return;
    }
    ok := StrMember(o, Ascii("effect_direction"), Ascii("left_right"), had, members, 13);
  }

  method WindowFillToJson(pg: Page, o: Output, ghost had: seq<byte>, ghost members: seq<Member>) returns (ok: bool)
    requires o.Valid() && pg.Valid() && members == WindowMembers(pg, o.flash)
    modifies o, o.buf
    ensures o.Valid()
    ensures old(InObject(o, had, members[..14])) && Fits(o, had, CompactMembers(members)) ==>
              ok && InObject(o, had, members[..19])
  {
    hide InObject, Fits, Ascii, CompactMembers, WindowMembers, RowTrees;
    WindowPlan(pg, o.flash);
    ok := IntMember(o, Ascii("effect_speed"), 0, had, members, 14);
    if !ok {
      return;
    }
    // text mode needs a black background
    var fill := if 5 <= pg.number <= 8 then Ascii("solid") else Ascii("transparent");
    ok := StrMember(o, Ascii("fill_opacity"), fill, had, members, 15);
    if !ok {
      return;
    }
    ok := IntMember(o, Ascii("fill_color"), 0, had, members, 16);
    if !ok {
      return;
    }
    ok := StrMember(o, Ascii("border_type"), Ascii("none"), had, members, 17);
    if !ok {
      return;
    }
    ok := IntMember(o, Ascii("border_color"), 0, had, members, 18);
  }

  /** The one window of the page, as the only item of its array. */
  method WindowToJson(pg: Page, o: Output, ghost had: seq<byte>) returns (ok: bool)
    requires o.Valid() && pg.Valid()
    requires var all := [Object(WindowMembers(pg, o.flash))];
             (InArray(o, had, []) && Fits(o, had, CompactItems(all)) && PlannedFit(pg, o.flash)) || AnyFit(pg, o.flash)
    modifies o, o.buf
    ensures o.Valid()
    ensures var all := [Object(WindowMembers(pg, o.flash))];
            old(InArray(o, had, [])) && Fits(o, had, CompactItems(all)) ==> ok && InArray(o, had, all)
  {
    hide InArray, InObject, Fits, Ascii, CompactItems, CompactMembers, WindowMembers, RowTrees, PlannedFit,
         AnyFit;
    ghost var members := WindowMembers(pg, o.flash);
    ghost var all := [Object(members)];
    ghost var window := ItemStart(had, all, 0);
    ghost var trees := RowTrees(pg, 0, NO_STYLE, o.flash);
    WindowPlan(pg, o.flash);
    assert all[..0] == [] && all[..1] == all;
    ok := OpenItem(o, had, all, 0, members);
    if !ok {
      return;
    }
    ok := WindowAnchorsToJson(pg, o, window, members);
    if !ok {
      return;
    }
    ok := WindowLookToJson(pg, o, window, members);
    if !ok {
      return;
    }
    ok := WindowFillToJson(pg, o, window, members);
    if !ok {
      return;
    }
    ok := OpenArray(o, Ascii("rows"), window, members, 19, trees);
    if !ok {
      return;
    }
    RowsToJson(pg, o, ArrayStart(window, members, 19, Ascii("rows")));
    ok := CloseArray(o, Ascii("rows"), window, members, 19, trees);
    if !ok {
      return;
    }
    ok := CloseItem(o, had, all, 0, members);
  }

  /** vbi_page_to_json: a buffer with room for the text and its terminator holds the page's tree. */
  method PageToJson(pg: Page, o: Output) returns (ok: bool)
    requires o.Valid() && o.Text() == [] && !o.hasProp && pg.Valid()
    requires (|Compact(PageTree(pg, o.flash))| < o.buf.Length && PlannedFit(pg, o.flash)) || AnyFit(pg, o.flash)
    modifies o, o.buf
    ensures o.Valid()
    ensures |Compact(PageTree(pg, o.flash))| < o.buf.Length ==>
              ok && o.Text() == Compact(PageTree(pg, o.flash)) && o.pos < o.buf.Length && o.buf[o.pos] == 0
  {
    hide InObject, Ascii, CompactItems, CompactMembers, Compact, WindowMembers, RowTrees, PlannedFit,
         AnyFit;
    ghost var windows := [Object(WindowMembers(pg, o.flash))];
    ghost var members := [Member(Ascii("type"), String(Ascii("cea608"))), Member(Ascii("windows"), Array(windows))];
    ghost var all := [PageTree(pg, o.flash)];
    ghost var page := ItemStart([], all, 0);
    assert all[..0] == [] && all[..1] == all && members[..0] == [] && members[..2] == members;
    OneItem(PageTree(pg, o.flash));
    ok := OpenItem(o, [], all, 0, members);
    if !ok {
      return;
    }
    ok := StrMember(o, Ascii("type"), Ascii("cea608"), page, members, 0);
    if !ok {
      return;
    }
    ok := OpenArray(o, Ascii("windows"), page, members, 1, windows);
    if !ok {
      return;
    }
    ok := WindowToJson(pg, o, ArrayStart(page, members, 1, Ascii("windows")));
    if !ok {
      return;
    }
    ok := CloseArray(o, Ascii("windows"), page, members, 1, windows);
    if !ok {
      return;
    }
    ok := CloseItem(o, [], all, 0, members);
  }

  lemma OneItem(v: Json)
    ensures [] + CompactItems([]) == [] && [] + CompactItems([v]) == Compact(v) == CompactItems([v])
  {
    hide Compact;
    CompactNothing();
    ItemAdded([], v);
    assert [] + [v] == [v];
  }
}
