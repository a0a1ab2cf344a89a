/** libsubtitle/utils/CCJsonParser.cpp: the caption texts are fetched back out of the JSON. Together with the
    writer: what a page shows is what the reader returns, row by row. */
module CaptionReaders {
  import opened Bytes
  import W = Wrappers
  import opened Json
  import opened JsonTexts
  import opened JsonRoundTrips
  import opened JsonParsers
  import opened CompactJsons
  import opened CaptionWriters
  import opened CaptionPages
  import opened CaptionJsons

  /** tolower in the C locale. */
  function LowerByte(c: byte): byte {
    if 65 <= c <= 90 then c + 32 else c
  }

  predicate SameKey(a: seq<byte>, b: seq<byte>) {
    |a| == |b| && forall i | 0 <= i < |a| :: LowerByte(a[i]) == LowerByte(b[i])
  }

  /** The first member of that name, letter case aside. */
  function Lookup(members: seq<Member>, key: seq<byte>): W.Option<Json> {
    if members == [] then W.None
    else if SameKey(members[0].key, key) then W.Some(members[0].value)
    else Lookup(members[1..], key)
  }

  function Field(v: Json, key: seq<byte>): W.Option<Json> {
    if v.Object? then Lookup(v.members, key) else W.None
  }

  /** The children of an array or object, in order. */
  function Children(v: Json): seq<Json> {
    match v
    case Array(items) => items
    case Object(members) => seq(|members|, i requires 0 <= i < |members| => members[i].value)
    case Null => []
    case False => []
    case True => []
    case Number(_) => []
    case String(_) => []
  }

  predicate SameLetter(a: byte, b: byte) {
    a == b || (65 <= a <= 90 && b as int == a as int + 32) || (65 <= b <= 90 && a as int == b as int + 32)
  }

  /** Two names are the same when they differ in the case of letters only. */
  lemma SameKeyExactly(a: seq<byte>, b: seq<byte>)
    ensures SameKey(a, b) <==> |a| == |b| && forall i | 0 <= i < |a| :: SameLetter(a[i], b[i])
  {
    forall i | 0 <= i < |a| && |a| == |b|
      ensures LowerByte(a[i]) == LowerByte(b[i]) <==> SameLetter(a[i], b[i])
    {
    }
  }

  /** A member is found if and only if there is one of that name, and then it is the first. */
  lemma {:induction false} LookupExactly(members: seq<Member>, key: seq<byte>) returns (k: nat)
    ensures k <= |members| && forall i | 0 <= i < k :: !SameKey(members[i].key, key)
    ensures k < |members| ==> SameKey(members[k].key, key)
    ensures Lookup(members, key) == if k == |members| then W.None else W.Some(members[k].value)
  {
    hide SameKey;
    k := 0;
    if members != [] && !SameKey(members[0].key, key) {
      var k' := LookupExactly(members[1..], key);
      k := k' + 1;
    }
  }

  method StrCaseCmp(a: seq<byte>, b: seq<byte>) returns (same: bool)
    ensures same == SameKey(a, b)
  {
    var i := 0;
    while i < |a| && i < |b| && LowerByte(a[i]) == LowerByte(b[i])
      invariant i <= |a| && i <= |b|
      invariant forall k | 0 <= k < i :: LowerByte(a[k]) == LowerByte(b[k])
    {
      i := i + 1;
    }
    same := i == |a| && i == |b|;
  }

  method GetObjectItem(v: Json, key: seq<byte>) returns (r: W.Option<Json>)
    ensures r == Field(v, key)
  {
    hide SameKey;
    if !v.Object? {
      return W.None;
    }
    var i := 0;
    assert v.members[0..] == v.members;
    while i < |v.members|
      invariant i <= |v.members| && Lookup(v.members, key) == Lookup(v.members[i..], key)
    {
      assert v.members[i..][0] == v.members[i] && v.members[i..][1..] == v.members[i + 1..];
      var same := StrCaseCmp(v.members[i].key, key);
      if same {
        return W.Some(v.members[i].value);
      }
      i := i + 1;
    }
    r := W.None;
  }

  // ---- What populateData collects -----------------------------------------------------------

  const NEXT := Ascii("[NEXT]")

  function DataOf(v: Json): seq<seq<byte>> {
    var data := Field(v, Ascii("data"));
    if data.Some? && data.value.String? then [data.value.text] else []
  }

  function DataOfAll(vs: seq<Json>): seq<seq<byte>> {
    if vs == [] then [] else DataOf(vs[0]) + DataOfAll(vs[1..])
  }

  function RowTexts(row: Json): seq<seq<byte>> {
    var content := Field(row, Ascii("content"));
    if content.None? then [] else DataOfAll(Children(content.value))
  }

  function RowsTexts(rows: seq<Json>): seq<seq<byte>> {
    if rows == [] then [] else RowTexts(rows[0]) + RowsTexts(rows[1..])
  }

  function WindowTexts(window: Json): seq<seq<byte>> {
    var rows := Field(window, Ascii("rows"));
    if rows.None? then [] else RowsTexts(Children(rows.value))
  }

  function WindowsTexts(windows: seq<Json>, first: bool): seq<seq<byte>> {
    if windows == [] then []
    else (if first then [] else [NEXT]) + WindowTexts(windows[0]) + WindowsTexts(windows[1..], false)
  }

  lemma {:induction false} DataJoin(a: seq<Json>, b: seq<Json>)
    ensures DataOfAll(a + b) == DataOfAll(a) + DataOfAll(b)
  {
    hide DataOf;
    if a == [] {
      assert a + b == b;
    } else {
      assert (a + b)[0] == a[0] && (a + b)[1..] == a[1..] + b;
      DataJoin(a[1..], b);
      Assoc(DataOf(a[0]), DataOfAll(a[1..]), DataOfAll(b));
    }
  }

  lemma {:induction false} RowsJoin(a: seq<Json>, b: seq<Json>)
    ensures RowsTexts(a + b) == RowsTexts(a) + RowsTexts(b)
  {
    hide RowTexts;
    if a == [] {
      assert a + b == b;
    } else {
      assert (a + b)[0] == a[0] && (a + b)[1..] == a[1..] + b;
      RowsJoin(a[1..], b);
      Assoc(RowTexts(a[0]), RowsTexts(a[1..]), RowsTexts(b));
    }
  }

  function Singles(ds: seq<seq<byte>>): (items: seq<Json>)
    ensures |items| == |ds|
  {
    seq(|ds|, i requires 0 <= i < |ds| => Object([Member(Ascii("data"), String(ds[i]))]))
  }

  /** A window of one row whose items have these data. */
  function Window(ds: seq<seq<byte>>): Json {
    Object([Member(Ascii("rows"), Array([Object([Member(Ascii("content"), Array(Singles(ds)))])]))])
  }

  lemma OneMember(key: seq<byte>, v: Json)
    ensures Field(Object([Member(key, v)]), key) == W.Some(v)
  {
  }

  lemma {:induction false} SinglesData(ds: seq<seq<byte>>)
    ensures DataOfAll(Singles(ds)) == ds
  {
    hide Field, Ascii;
    if ds != [] {
      OneMember(Ascii("data"), String(ds[0]));
      SinglesData(ds[1..]);
      assert Singles(ds)[1..] == Singles(ds[1..]);
    }
  }

  lemma WindowData(ds: seq<seq<byte>>)
    ensures WindowTexts(Window(ds)) == ds
  {
    hide Field, Ascii, Singles, DataOfAll;
    var row := Object([Member(Ascii("content"), Array(Singles(ds)))]);
    OneMember(Ascii("content"), Array(Singles(ds)));
    OneMember(Ascii("rows"), Array([row]));
    SinglesData(ds);
    assert RowsTexts([row]) == RowTexts(row) + RowsTexts([row][1..]);
    assert ds + [] == ds;
  }

  /** Between the texts of neighbouring windows stands one mark, the six bytes of [NEXT], and nothing
      before the first or behind the last. */
  lemma {:induction false} WindowsJoin(a: seq<Json>, b: seq<Json>, first: bool)
    requires a != [] && b != []
    ensures WindowsTexts(a + b, first) == WindowsTexts(a, first) + [[91, 78, 69, 88, 84, 93]] + WindowsTexts(b, true)
    decreases |a|
  {
    hide WindowTexts;
    var mark := [[91, 78, 69, 88, 84, 93]];
    MarkBytes();
    assert (a + b)[0] == a[0] && (a + b)[1..] == a[1..] + b;
    var head := (if first then [] else mark) + WindowTexts(a[0]);
    if a[1..] == [] {
      assert a[1..] + b == b;
      assert WindowsTexts(b, false) == mark + WindowTexts(b[0]) + WindowsTexts(b[1..], false);
      assert WindowsTexts(b, true) == [] + WindowTexts(b[0]) + WindowsTexts(b[1..], false);
      Assoc(mark, WindowTexts(b[0]), WindowsTexts(b[1..], false));
      assert [] + WindowTexts(b[0]) == WindowTexts(b[0]);
      assert head + [] == head;
      Assoc(head, mark, WindowsTexts(b, true));
    } else {
      WindowsJoin(a[1..], b, false);
      Assoc(head, WindowsTexts(a[1..], false) + mark, WindowsTexts(b, true));
      Assoc(head, WindowsTexts(a[1..], false), mark);
    }
  }

  lemma MarkBytes()
    ensures NEXT == [91, 78, 69, 88, 84, 93]
  {
  }

  /** A page of any two windows is read as the texts of the first, the mark, and the texts of the second. */
  lemma TwoWindows(v: Json, w: Json)
    ensures WindowsTexts([v, w], true) == WindowTexts(v) + [[91, 78, 69, 88, 84, 93]] + WindowTexts(w)
  {
    hide WindowTexts;
    WindowsJoin([v], [w], true);
    assert [v] + [w] == [v, w];
    assert [v][1..] == [] && [w][1..] == [];
    assert [] + WindowTexts(v) + [] == WindowTexts(v) && [] + WindowTexts(w) + [] == WindowTexts(w);
  }

  /** A data member that is not a string has no text to take. */
  predicate HasText(v: Json) {
    var data := Field(v, Ascii("data"));
    data.Some? ==> data.value.String?
  }

  predicate RowHasText(row: Json) {
    var content := Field(row, Ascii("content"));
    content.Some? ==> forall v | v in Children(content.value) :: HasText(v)
  }

  predicate WindowHasText(window: Json) {
    var rows := Field(window, Ascii("rows"));
    rows.Some? ==> forall row | row in Children(rows.value) :: RowHasText(row)
  }

  predicate PageHasText(page: Json) {
    var windows := Field(page, Ascii("windows"));
    windows.Some? ==> forall w | w in Children(windows.value) :: WindowHasText(w)
  }

  method CollectRow(row: Json) returns (output: seq<seq<byte>>)
    requires RowHasText(row)
    ensures output == RowTexts(row)
  {
    hide Field, Children, Ascii;
    output := [];
    var content := GetObjectItem(row, Ascii("content"));
    if content.None? {
      return;
    }
    var vs := Children(content.value);
    var i := 0;
    assert vs[0..] == vs;
    while i < |vs|
      invariant i <= |vs| && output + DataOfAll(vs[i..]) == DataOfAll(vs)
    {
      assert vs[i..][0] == vs[i] && vs[i..][1..] == vs[i + 1..];
      assert vs[i] in vs && HasText(vs[i]);
      Assoc(output, DataOf(vs[i]), DataOfAll(vs[i + 1..]));
      var data := GetObjectItem(vs[i], Ascii("data"));
      if data.Some? {
        output := output + [data.value.text];
      } else {
        assert output + [] == output;
      }
      i := i + 1;
    }
    assert output + [] == output;
  }

  method CollectWindow(window: Json) returns (output: seq<seq<byte>>)
    requires WindowHasText(window)
    ensures output == WindowTexts(window)
  {
    hide Field, Children, Ascii, RowTexts, RowHasText;
    output := [];
    var rows := GetObjectItem(window, Ascii("rows"));
    if rows.None? {
      return;
    }
    var vs := Children(rows.value);
    var i := 0;
    assert vs[0..] == vs;
    while i < |vs|
      invariant i <= |vs| && output + RowsTexts(vs[i..]) == RowsTexts(vs)
    {
      assert vs[i..][0] == vs[i] && vs[i..][1..] == vs[i + 1..];
      assert vs[i] in vs;
      Assoc(output, RowTexts(vs[i]), RowsTexts(vs[i + 1..]));
      var texts := CollectRow(vs[i]);
      output := output + texts;
      i := i + 1;
    }
    assert output + [] == output;
  }

  /** populateData, on an output that may hold something already. */
  method PopulateData(input: seq<byte>, had: seq<seq<byte>>) returns (ok: bool, output: seq<seq<byte>>)
    requires var p := ParseValue(Skip(input)); p.Some? ==> PageHasText(p.value)
    ensures var p := ParseValue(Skip(input));
            if input == [] || p.None? || Field(p.value, Ascii("windows")).None? then !ok && output == had
            else
              output == had + WindowsTexts(Children(Field(p.value, Ascii("windows")).value), true)
              && ok == (output != [])
  {
    hide Field, Children, Ascii, WindowTexts, WindowHasText, ParseValue, Skip;
    output := had;
    if input == [] {
      return false, had;
    }
    var tree;
    ok, tree := Parse(input);
    if !ok {
      return;
    }
    var windows := GetObjectItem(tree, Ascii("windows"));
    if windows.None? {
      return false, had;
    }
    var vs := Children(windows.value);
    var i := 0;
    assert vs[0..] == vs;
    while i < |vs|
      invariant i <= |vs| && output + WindowsTexts(vs[i..], i == 0) == had + WindowsTexts(vs, true)
    {
      assert vs[i..][0] == vs[i] && vs[i..][1..] == vs[i + 1..];
      assert vs[i] in vs;
      ghost var mark := if i == 0 then [] else [NEXT];
      Assoc(output, mark + WindowTexts(vs[i]), WindowsTexts(vs[i + 1..], false));
      Assoc(output, mark, WindowTexts(vs[i]));
      assert output + [] == output;
      if |vs| > 1 && i > 0 {
        output := output + [NEXT];
      }
      var texts := CollectWindow(vs[i]);
      output := output + texts;
      i := i + 1;
    }
    assert output + [] == output;
    ok := output != [];
  }
}
