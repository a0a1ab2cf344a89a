/** The allocating printer of libsubtitle/utils/cJSON.c: every item is printed into memory of its own,
    and arrays and objects are put together in a buffer whose length is counted beforehand. */
module JsonPrinters {
  import opened Bytes
  import opened Json
  import opened JsonTexts
  import JsonParsers
  import JsonRoundTrips

  /** What print_array counts for its items, and print_object for its members. */
  function ItemsRoom(items: seq<Json>, depth: nat, fmt: bool): nat {
    if items == [] then 0
    else |Print(items[0], depth, fmt)| + 2 + (if fmt then 1 else 0) + ItemsRoom(items[1..], depth, fmt)
  }

  function MembersRoom(members: seq<Member>, depth: nat, fmt: bool): nat {
    if members == [] then 0
    else
      |Print(members[0].value, depth, fmt)| + |PrintString(members[0].key)| + 2
      + (if fmt then 2 + depth else 0) + MembersRoom(members[1..], depth, fmt)
  }

  lemma ItemsRoomNext(items: seq<Json>, k: nat, depth: nat, fmt: bool)
    requires k < |items|
    ensures ItemsRoom(items[k..], depth, fmt) ==
            |Print(items[k], depth, fmt)| + 2 + (if fmt then 1 else 0) + ItemsRoom(items[k + 1..], depth, fmt)
  {
    hide Print;
    assert items[k..][1..] == items[k + 1..];
  }

  lemma MembersRoomNext(members: seq<Member>, k: nat, depth: nat, fmt: bool)
    requires k < |members|
    ensures MembersRoom(members[k..], depth, fmt) ==
            |Print(members[k].value, depth, fmt)| + |PrintString(members[k].key)| + 2
            + (if fmt then 2 + depth else 0) + MembersRoom(members[k + 1..], depth, fmt)
  {
    hide Print, PrintString;
    assert members[k..][1..] == members[k + 1..];
  }

  lemma {:induction false} PrintableAt(items: seq<Json>, k: nat)
    requires PrintableItems(items) && k < |items|
    ensures Printable(items[k])
  {
    hide Printable;
    if k > 0 {
      PrintableAt(items[1..], k - 1);
    }
  }

  lemma {:induction false} PrintableMemberAt(members: seq<Member>, k: nat)
    requires PrintableMembers(members) && k < |members|
    ensures IsText(members[k].key) && Printable(members[k].value)
  {
    hide Printable, IsText;
    if k > 0 {
      PrintableMemberAt(members[1..], k - 1);
    }
  }

  /** What is still to be printed of a list, one element at a time. */
  lemma ItemsNext(items: seq<Json>, k: nat, depth: nat, fmt: bool, done: seq<byte>)
    requires k < |items|
    ensures done + PrintItems(items[k..], depth, fmt) ==
            (done + Print(items[k], depth, fmt) + AfterItem(k + 1 < |items|, fmt))
            + PrintItems(items[k + 1..], depth, fmt)
  {
    hide Print, AfterItem;
    var rest := items[k..];
    assert rest[1..] == items[k + 1..];
    var a, b, c := Print(items[k], depth, fmt), AfterItem(k + 1 < |items|, fmt),
                   PrintItems(items[k + 1..], depth, fmt);
    assert PrintItems(rest, depth, fmt) == a + b + c;
    Assoc(done, a + b, c);
    Assoc(done, a, b);
  }

  lemma MembersNext(members: seq<Member>, k: nat, depth: nat, fmt: bool, done: seq<byte>)
    requires k < |members|
    ensures done + PrintMembers(members[k..], depth, fmt) ==
            (done + BeforeValue(members[k].key, depth, fmt) + Print(members[k].value, depth, fmt)
             + AfterMember(k + 1 < |members|, fmt))
            + PrintMembers(members[k + 1..], depth, fmt)
  {
    hide Print, BeforeValue, AfterMember;
    var rest := members[k..];
    assert rest[1..] == members[k + 1..];
    var m := members[k];
    var a, b, c, d := BeforeValue(m.key, depth, fmt), Print(m.value, depth, fmt),
                      AfterMember(k + 1 < |members|, fmt), PrintMembers(members[k + 1..], depth, fmt);
    assert PrintMembers(rest, depth, fmt) == a + b + c + d;
    Assoc(done, a + b + c, d);
    Assoc(done, a + b, c);
    Assoc(done, a, b);
  }

  lemma {:induction false} ItemsFit(items: seq<Json>, depth: nat, fmt: bool)
    ensures |PrintItems(items, depth, fmt)| <= ItemsRoom(items, depth, fmt)
  {
    hide Print;
    if items != [] {
      ItemsFit(items[1..], depth, fmt);
    }
  }

  lemma {:induction false} MembersFit(members: seq<Member>, depth: nat, fmt: bool)
    ensures |PrintMembers(members, depth, fmt)| <= MembersRoom(members, depth, fmt)
  {
    hide Print, PrintString;
    if members != [] {
      MembersFit(members[1..], depth, fmt);
    }
  }

  /** The counted lengths are upper bounds of the text and its terminator. */
  lemma RoomSuffices(items: seq<Json>, members: seq<Member>, depth: nat, fmt: bool)
    ensures |Print(Array(items), depth, fmt)| < 5 + ItemsRoom(items, depth + 1, fmt)
    ensures |Print(Object(members), depth, fmt)| <
            7 + (if fmt then depth + 1 else 0) + MembersRoom(members, depth + 1, fmt)
  {
    hide PrintItems, PrintMembers, ItemsRoom, MembersRoom;
    ItemsFit(items, depth + 1, fmt);
    MembersFit(members, depth + 1, fmt);
  }

  method DupText(t: seq<byte>) returns (out: array<byte>)
    ensures fresh(out) && HoldsAt(out[..], 0, t)
  {
    out := new byte[|t| + 1];
    CopyBytes(out, 0, t + [0]);
  }

  method PrintStringPtr(s: seq<byte>) returns (out: array<byte>)
    requires IsText(s)
    ensures fresh(out) && HoldsAt(out[..], 0, PrintString(s))
    ensures out.Length == |PrintString(s)| + 1
  {
    hide PrintString;
    var flag, room := StringRoom(s);
    out := new byte[room];
    WriteString(out, 0, s, flag);
  }

  method PrintNumberItem(n: int) returns (out: array<byte>)
    requires Int32(n)
    ensures fresh(out) && HoldsAt(out[..], 0, PrintNumber(n))
  {
    if n == 0 {
      out := new byte[2];
      CopyBytes(out, 0, [ZERO, 0]);
      assert PrintNumber(0) == [ZERO];
    } else {
      NumberFits(n);
      hide PrintNumber;
      out := new byte[21];
      CopyBytes(out, 0, PrintNumber(n) + [0]);
    }
  }

  method PrintValue(v: Json, depth: nat, fmt: bool) returns (out: array<byte>)
    requires Printable(v)
    ensures fresh(out) && HoldsAt(out[..], 0, Print(v, depth, fmt))
    decreases v, 1
  {
    hide HoldsAt, PrintString, PrintNumber, PrintItems, PrintMembers;
    match v
    case Null => out := DupText(NULL_TEXT);
    case False => out := DupText(FALSE_TEXT);
    case True => out := DupText(TRUE_TEXT);
    case Number(n) => out := PrintNumberItem(n);
    case String(s) => out := PrintStringPtr(s);
    case Array(items) => out := PrintArray(items, depth, fmt);
    case Object(members) => out := PrintObject(members, depth, fmt);
  }

  /** Prints every item on its own, counting the room the array will need. */
  method PrintEntries(items: seq<Json>, depth: nat, fmt: bool) returns (entries: seq<array<byte>>, len: nat)
    requires PrintableItems(items)
    ensures |entries| == |items| && forall m | 0 <= m < |entries| :: fresh(entries[m])
    ensures forall m | 0 <= m < |items| :: HoldsAt(entries[m][..], 0, Print(items[m], depth, fmt))
    ensures len == 5 + ItemsRoom(items, depth, fmt)
    decreases items, 0
  {
    hide HoldsAt, Print, Printable, PrintableItems, ItemsRoom, IsText;
    entries, len := [], 5;
    var k := 0;
    assert items[0..] == items;
    while k < |items|
      invariant k <= |items| && |entries| == k
      invariant forall m | 0 <= m < k :: fresh(entries[m])
      invariant forall m | 0 <= m < k :: HoldsAt(entries[m][..], 0, Print(items[m], depth, fmt))
      invariant len + ItemsRoom(items[k..], depth, fmt) == 5 + ItemsRoom(items, depth, fmt)
    {
      PrintableAt(items, k);
      ItemsRoomNext(items, k, depth, fmt);
      PrintIsText(items[k], depth, fmt);
      var ret := PrintValue(items[k], depth, fmt);
      var n := Strlen(ret, 0, Print(items[k], depth, fmt));
      len := len + n + 2 + (if fmt then 1 else 0);
      entries := entries + [ret];
      k := k + 1;
    }
    NoItems(items[k..], depth, fmt);
  }

  lemma NoItems(items: seq<Json>, depth: nat, fmt: bool)
    requires items == []
    ensures ItemsRoom(items, depth, fmt) == 0 && PrintItems(items, depth, fmt) == []
  {
  }

  /** strlen, then memcpy. */
  method EmitText(out: array<byte>, ptr: nat, from: array<byte>, ghost t: seq<byte>) returns (next: nat)
    requires IsText(t) && HoldsAt(from[..], 0, t) && from != out && ptr + |t| <= out.Length
    modifies out
    ensures next == ptr + |t| && out[..next] == old(out[..ptr]) + t
  {
    hide IsText;
    var n := Strlen(from, 0, t);
    assert from[..n] == t;
    next := Emit(out, ptr, from[..n]);
  }

  method PrintArray(items: seq<Json>, depth: nat, fmt: bool) returns (out: array<byte>)
    requires PrintableItems(items)
    ensures fresh(out) && HoldsAt(out[..], 0, Print(Array(items), depth, fmt))
    decreases items, 1
  {
    hide HoldsAt, Print, PrintItems, PrintableItems, ItemsRoom, IsText;
    ArrayText(items, depth, fmt);
    if items == [] {
      NoItems(items, depth + 1, fmt);
      out := DupText([OPEN_BRACKET, CLOSE_BRACKET]);
      return;
    }
    var entries, len := PrintEntries(items, depth + 1, fmt);
    out := new byte[len];
    var ptr := Emit(out, 0, [OPEN_BRACKET]);
    out[ptr] := 0;
    ghost var all := [OPEN_BRACKET] + PrintItems(items, depth + 1, fmt);
    var k := 0;
    assert items[0..] == items;
    while k < |items|
      invariant k <= |items| && 1 <= ptr && ptr + ItemsRoom(items[k..], depth + 1, fmt) + 4 <= len
      invariant out[..ptr] + PrintItems(items[k..], depth + 1, fmt) == all
      invariant forall m | 0 <= m < |items| :: HoldsAt(entries[m][..], 0, Print(items[m], depth + 1, fmt))
    {
      ItemsNext(items, k, depth + 1, fmt, out[..ptr]);
      ItemsRoomNext(items, k, depth + 1, fmt);
      PrintIsText(items[k], depth + 1, fmt);
      ptr := EmitText(out, ptr, entries[k], Print(items[k], depth + 1, fmt));
      ptr := EmitAfterItem(out, ptr, k + 1 < |items|, fmt);
      k := k + 1;
    }
    NoItems(items[k..], depth + 1, fmt);
    assert all == out[..ptr] by { assert out[..ptr] + [] == out[..ptr]; }
    Terminate(out, ptr, [CLOSE_BRACKET]);
  }

  lemma ArrayText(items: seq<Json>, depth: nat, fmt: bool)
    ensures Print(Array(items), depth, fmt) ==
            ([OPEN_BRACKET] + PrintItems(items, depth + 1, fmt)) + [CLOSE_BRACKET]
    ensures PrintItems(items, depth + 1, fmt) == [] ==>
              Print(Array(items), depth, fmt) == [OPEN_BRACKET, CLOSE_BRACKET]
  {
    hide PrintItems;
  }

  method EmitAfterItem(out: array<byte>, ptr: nat, more: bool, fmt: bool) returns (next: nat)
    requires ptr + 3 <= out.Length
    modifies out
    ensures next == ptr + |AfterItem(more, fmt)| && out[..next] == old(out[..ptr]) + AfterItem(more, fmt)
  {
    next := ptr;
    if more {
      next := Emit(out, next, [COMMA]);
      if fmt {
        next := Emit(out, next, [SPACE]);
      }
      ghost var was := out[..next];
      out[next] := 0;
      assert out[..next] == was;
    }
  }

  /** The closing text and the terminator. */
  method Terminate(out: array<byte>, ptr: nat, close: seq<byte>)
    requires ptr + |close| < out.Length
    modifies out
    ensures HoldsAt(out[..], 0, old(out[..ptr]) + close)
  {
    var next := Emit(out, ptr, close);
    ghost var t := out[..next];
    out[next] := 0;
    assert out[..][..next] == t;
  }

  /** Prints every name and every value on its own, counting the room the object will need. */
  method PrintNamesAndEntries(members: seq<Member>, depth: nat, fmt: bool)
    returns (names: seq<array<byte>>, entries: seq<array<byte>>, len: nat)
    requires PrintableMembers(members)
    ensures |names| == |entries| == |members|
    ensures forall m | 0 <= m < |members| :: fresh(names[m]) && fresh(entries[m])
    ensures forall m | 0 <= m < |members| :: HoldsAt(names[m][..], 0, PrintString(members[m].key))
    ensures forall m | 0 <= m < |members| :: HoldsAt(entries[m][..], 0, Print(members[m].value, depth, fmt))
    ensures len == 7 + (if fmt then depth else 0) + MembersRoom(members, depth, fmt)
    decreases members, 0
  {
    hide HoldsAt, Print, PrintString, Printable, PrintableMembers, MembersRoom, IsText;
    names, entries, len := [], [], 7 + (if fmt then depth else 0);
    ghost var base := len;
    var k := 0;
    assert members[0..] == members;
    while k < |members|
      invariant k <= |members| && |names| == |entries| == k
      invariant forall m | 0 <= m < k :: fresh(names[m]) && fresh(entries[m])
      invariant forall m | 0 <= m < k :: HoldsAt(names[m][..], 0, PrintString(members[m].key))
      invariant forall m | 0 <= m < k :: HoldsAt(entries[m][..], 0, Print(members[m].value, depth, fmt))
      invariant len + MembersRoom(members[k..], depth, fmt) == base + MembersRoom(members, depth, fmt)
    {
      var m := members[k];
      PrintableMemberAt(members, k);
      MembersRoomNext(members, k, depth, fmt);
      PrintIsText(m.value, depth, fmt);
      EscapeIsText(m.key);
      var str := PrintStringPtr(m.key);
      var ret := PrintValue(m.value, depth, fmt);
      var n := Strlen(ret, 0, Print(m.value, depth, fmt));
      var l := Strlen(str, 0, PrintString(m.key));
      len := len + n + l + 2 + (if fmt then 2 + depth else 0);
      names, entries := names + [str], entries + [ret];
      k := k + 1;
    }
    NoMembers(members[k..], depth, fmt);
  }

  lemma NoMembers(members: seq<Member>, depth: nat, fmt: bool)
    requires members == []
    ensures MembersRoom(members, depth, fmt) == 0 && PrintMembers(members, depth, fmt) == []
  {
  }

  /** Tabs, name, colon and tab. */
  method EmitBeforeValue(out: array<byte>, ptr: nat, depth: nat, fmt: bool, name: array<byte>,
                         ghost key: seq<byte>)
    returns (next: nat)
    requires HoldsAt(name[..], 0, PrintString(key)) && name != out
    requires ptr + |BeforeValue(key, depth, fmt)| <= out.Length
    modifies out
    ensures next == ptr + |BeforeValue(key, depth, fmt)|
    ensures out[..next] == old(out[..ptr]) + BeforeValue(key, depth, fmt)
  {
    hide HoldsAt, PrintString, IsText, Tabs;
    EscapeIsText(key);
    next := ptr;
    if fmt {
      next := EmitTabs(out, next, depth);
    }
    next := EmitText(out, next, name, PrintString(key));
    next := Emit(out, next, [COLON]);
    if fmt {
      next := Emit(out, next, [TAB]);
    }
  }

  method EmitAfterMember(out: array<byte>, ptr: nat, more: bool, fmt: bool) returns (next: nat)
    requires ptr + |AfterMember(more, fmt)| < out.Length
    modifies out
    ensures next == ptr + |AfterMember(more, fmt)|
    ensures out[..next] == old(out[..ptr]) + AfterMember(more, fmt)
  {
    next := ptr;
    if more {
      next := Emit(out, next, [COMMA]);
    }
    if fmt {
      next := Emit(out, next, [NEWLINE]);
    }
    ghost var was := out[..next];
    out[next] := 0;
    assert out[..next] == was;
  }

  lemma BeforeValueLength(key: seq<byte>, depth: nat, fmt: bool, more: bool)
    ensures |BeforeValue(key, depth, fmt)| == |PrintString(key)| + 1 + (if fmt then depth + 1 else 0)
    ensures |AfterMember(more, fmt)| <= 1 + (if fmt then 1 else 0)
  {
    hide PrintString;
  }

  lemma ObjectText(members: seq<Member>, depth: nat, fmt: bool)
    ensures Print(Object(members), depth, fmt) ==
            (([OPEN_BRACE] + When(fmt, [NEWLINE])) + PrintMembers(members, depth + 1, fmt))
            + (When(fmt, Tabs(if members == [] then depth - 1 else depth)) + [CLOSE_BRACE])
  {
    hide PrintMembers, Tabs, When;
    Assoc([OPEN_BRACE] + When(fmt, [NEWLINE]) + PrintMembers(members, depth + 1, fmt),
          When(fmt, Tabs(if members == [] then depth - 1 else depth)), [CLOSE_BRACE]);
  }

  method PrintObject(members: seq<Member>, depth: nat, fmt: bool) returns (out: array<byte>)
    requires PrintableMembers(members)
    ensures fresh(out) && HoldsAt(out[..], 0, Print(Object(members), depth, fmt))
    decreases members, 1
  {
    hide HoldsAt, Print, PrintMembers, PrintableMembers, MembersRoom, PrintString, Tabs, BeforeValue, AfterMember;
    ObjectText(members, depth, fmt);
    if members == [] {
      out := PrintEmptyObject(depth, fmt);
      return;
    }
    var d := depth + 1;
    var names, entries, len := PrintNamesAndEntries(members, d, fmt);
    out := new byte[len];
    var ptr := Emit(out, 0, [OPEN_BRACE]);
    if fmt {
      ptr := Emit(out, ptr, [NEWLINE]);
    }
    out[ptr] := 0;
    ghost var all := ([OPEN_BRACE] + When(fmt, [NEWLINE])) + PrintMembers(members, d, fmt);
    var k := 0;
    assert members[0..] == members;
    while k < |members|
      invariant k <= |members| && 1 <= ptr < out.Length == len
      invariant ptr + MembersRoom(members[k..], d, fmt) + 3 + (if fmt then d else 0) <= len
      invariant out[..ptr] + PrintMembers(members[k..], d, fmt) == all
      invariant forall m | 0 <= m < |members| :: HoldsAt(names[m][..], 0, PrintString(members[m].key))
      invariant forall m | 0 <= m < |members| :: HoldsAt(entries[m][..], 0, Print(members[m].value, d, fmt))
    {
      ghost var m := members[k];
      MembersNext(members, k, d, fmt, out[..ptr]);
      MembersRoomNext(members, k, d, fmt);
      BeforeValueLength(m.key, d, fmt, k + 1 < |members|);
      PrintIsText(m.value, d, fmt);
      ptr := EmitBeforeValue(out, ptr, d, fmt, names[k], m.key);
      ptr := EmitText(out, ptr, entries[k], Print(m.value, d, fmt));
      ptr := EmitAfterMember(out, ptr, k + 1 < |members|, fmt);
      k := k + 1;
    }
    NoMembers(members[k..], d, fmt);
    assert all == out[..ptr] by { assert out[..ptr] + [] == out[..ptr]; }
    if fmt {
      ptr := EmitTabs(out, ptr, d - 1);
    } else {
      assert out[..ptr] + [] == out[..ptr];
    }
    Assoc(all, When(fmt, Tabs(depth)), [CLOSE_BRACE]);
    Terminate(out, ptr, [CLOSE_BRACE]);
  }

  method PrintEmptyObject(depth: nat, fmt: bool) returns (out: array<byte>)
    ensures fresh(out) && HoldsAt(out[..], 0, Print(Object([]), depth, fmt))
  {
    hide HoldsAt, Print, PrintMembers, Tabs;
    out := new byte[if fmt then depth + 4 else 3];
    var ptr := Emit(out, 0, [OPEN_BRACE]);
    if fmt {
      ptr := Emit(out, ptr, [NEWLINE]);
      ptr := EmitTabs(out, ptr, depth - 1);
    }
    Terminate(out, ptr, [CLOSE_BRACE]);
    EmptyObjectText(depth, fmt);
  }

  lemma EmptyObjectText(depth: nat, fmt: bool)
    ensures Print(Object([]), depth, fmt) ==
            if fmt then [OPEN_BRACE] + [NEWLINE] + Tabs(depth - 1) + [CLOSE_BRACE] else [OPEN_BRACE] + [CLOSE_BRACE]
  {
    hide Tabs;
    NoMembers([], depth + 1, fmt);
  }

  /** cJSON_Parse undoes cJSON_Print and cJSON_PrintUnformatted, run one after the other. */
  method PrintThenParse(v: Json, fmt: bool) returns (w: Json)
    requires Printable(v)
    ensures w == v
  {
    hide Print, ParseValue, Skip, Printable, IsText;
    ghost var text := Print(v, 0, fmt);
    PrintIsText(v, 0, fmt);
    JsonRoundTrips.RoundTrip(v, fmt);
    var out := PrintValue(v, 0, fmt);
    var n := Strlen(out, 0, text);
    assert out[..n] == text;
    var ok;
    ok, w := JsonParsers.Parse(out[..n]);
  }
}
