/** The form of JSON text that the writer of libsubtitle/utils/ClosedCaptionJson.c produces: no white space,
    keys as they are, and strings with four escapes only. The parser of cJSON.c reads it. */
module CompactJsons {
  import opened Bytes
  import opened Json
  import opened JsonRoundTrips

  function CaptionByte(c: byte): seq<byte> {
    if c == BACKSLASH then [BACKSLASH, BACKSLASH]
    else if c == NEWLINE then [BACKSLASH, 110]
    else if c == 13 then [BACKSLASH, 114]
    else if c == QUOTE then [BACKSLASH, QUOTE]
    else [c]
  }

  function CaptionAll(s: seq<byte>): seq<byte> {
    if s == [] then [] else CaptionByte(s[0]) + CaptionAll(s[1..])
  }

  /** A key the writer prints as it is and the parser takes as it is. */
  predicate IsWord(s: seq<byte>) {
    forall i | 0 <= i < |s| :: s[i] != 0 && s[i] != QUOTE && s[i] != BACKSLASH
  }

  /** Items and members as they accumulate: each one behind a comma but the first. */
  function Compact(v: Json): seq<byte>
    decreases v, 1
  {
    match v
    case Null => NULL_TEXT
    case False => FALSE_TEXT
    case True => TRUE_TEXT
    case Number(n) => PrintNumber(n)
    case String(s) => [QUOTE] + CaptionAll(s) + [QUOTE]
    case Array(items) => [OPEN_BRACKET] + CompactItems(items) + [CLOSE_BRACKET]
    case Object(members) => [OPEN_BRACE] + CompactMembers(members) + [CLOSE_BRACE]
  }

  function CompactItems(items: seq<Json>): seq<byte>
    decreases items, 0
  {
    if items == [] then []
    else
      var n := |items| - 1;
      CompactItems(items[..n]) + (When(n > 0, [COMMA]) + Compact(items[n]))
  }

  function CompactMember(m: Member): seq<byte>
    decreases m, 2
  {
    KeyText(m.key) + Compact(m.value)
  }

  function KeyText(key: seq<byte>): seq<byte> {
    [QUOTE] + key + [QUOTE, COLON]
  }

  function CompactMembers(members: seq<Member>): seq<byte>
    decreases members, 0
  {
    if members == [] then []
    else
      var n := |members| - 1;
      CompactMembers(members[..n]) + (When(n > 0, [COMMA]) + CompactMember(members[n]))
  }

  predicate Writable(v: Json)
    decreases v, 1
  {
    match v
    case Null => true
    case False => true
    case True => true
    case Number(n) => Int32(n)
    case String(s) => IsText(s)
    case Array(items) => WritableItems(items)
    case Object(members) => WritableMembers(members)
  }

  predicate WritableItems(items: seq<Json>)
    decreases items, 0
  {
    items != [] ==> Writable(items[0]) && WritableItems(items[1..])
  }

  predicate WritableMembers(members: seq<Member>)
    decreases members, 0
  {
    members != [] ==> IsWord(members[0].key) && Writable(members[0].value) && WritableMembers(members[1..])
  }

  // ---- Lists from the front -----------------------------------------------------------------

  lemma ItemAdded(items: seq<Json>, v: Json)
    ensures CompactItems(items + [v]) == CompactItems(items) + (When(items != [], [COMMA]) + Compact(v))
  {
    hide Compact;
    assert (items + [v])[..|items|] == items;
  }

  lemma MemberAdded(members: seq<Member>, m: Member)
    ensures CompactMembers(members + [m]) ==
            CompactMembers(members) + (When(members != [], [COMMA]) + CompactMember(m))
  {
    hide CompactMember;
    assert (members + [m])[..|members|] == members;
  }

  lemma CompactNothing()
    ensures CompactItems([]) == [] && CompactMembers([]) == []
  {
  }

  lemma JoinNothing(a: seq<byte>)
    ensures [] + (When(false, [COMMA]) + a) == a == a + (When(false, [COMMA]) + [])
  {
  }

  lemma JoinFromFront(a: seq<byte>, some: bool, b: seq<byte>, c: seq<byte>)
    requires !some ==> b == []
    ensures (a + (When(some, [COMMA]) + b)) + (When(true, [COMMA]) + c) ==
            a + (When(true, [COMMA]) + (b + (When(some, [COMMA]) + c)))
  {
    var x: seq<byte> := [COMMA];
    if some {
      Assoc(a, x + b, x + c);
      Assoc(x, b, x + c);
    } else {
      assert a + ([] + b) == a;
      assert b + ([] + c) == c;
    }
  }

  lemma {:induction false} ItemsFromFront(v: Json, items: seq<Json>)
    ensures CompactItems([v] + items) == Compact(v) + (When(items != [], [COMMA]) + CompactItems(items))
  {
    hide Compact, CompactItems, When;
    if items == [] {
      assert [v] + items == [] + [v];
      ItemAdded([], v);
      CompactNothing();
      JoinNothing(Compact(v));
    } else {
      var n := |items| - 1;
      var init, last := items[..n], items[n];
      ItemsFromFront(v, init);
      assert items == init + [last];
      assert [v] + items == ([v] + init) + [last];
      ItemAdded(init, last);
      ItemAdded([v] + init, last);
      CompactNothing();
      JoinFromFront(Compact(v), init != [], CompactItems(init), Compact(last));
    }
  }

  lemma {:induction false} MembersFromFront(m: Member, members: seq<Member>)
    ensures CompactMembers([m] + members) == CompactMember(m) + (When(members != [], [COMMA]) + CompactMembers(members))
  {
    hide CompactMember, CompactMembers, When;
    if members == [] {
      assert [m] + members == [] + [m];
      MemberAdded([], m);
      CompactNothing();
      JoinNothing(CompactMember(m));
    } else {
      var n := |members| - 1;
      var init, last := members[..n], members[n];
      MembersFromFront(m, init);
      assert members == init + [last];
      assert [m] + members == ([m] + init) + [last];
      MemberAdded(init, last);
      MemberAdded([m] + init, last);
      CompactNothing();
      JoinFromFront(CompactMember(m), init != [], CompactMembers(init), CompactMember(last));
    }
  }

  // ---- Strings and keys ---------------------------------------------------------------------

  lemma ReadCaptionByte(c: byte, t: seq<byte>)
    requires c != 0 && ReadChars(t).Some?
    ensures ReadChars(CaptionByte(c) + t) == Some([c] + ReadChars(t).value, ReadChars(t).rest)
  {
    hide ReadChars, ReadEscape;
    if c == BACKSLASH || c == NEWLINE || c == 13 || c == QUOTE {
      var s := [CaptionByte(c)[1]] + t;
      assert ReadEscape(s) == Some([c], t) by { ReadFourEscapes(c, t); }
      ReadCharsEscape(s, c, t);
      assert CaptionByte(c) + t == [BACKSLASH] + s;
    } else {
      ReadCharsPlain(c, t);
    }
  }

  lemma ReadFourEscapes(c: byte, t: seq<byte>)
    requires c == BACKSLASH || c == NEWLINE || c == 13 || c == QUOTE
    ensures ReadEscape([CaptionByte(c)[1]] + t) == Some([c], t)
  {
    hide ReadUnicode;
    assert ([CaptionByte(c)[1]] + t)[1..] == t;
  }

  /** o_str_prop's escaping is undone by parse_string. */
  lemma {:induction false} ReadCaptionAll(s: seq<byte>, rest: seq<byte>)
    requires IsText(s)
    ensures ReadChars(CaptionAll(s) + ([QUOTE] + rest)) == Some(s, rest)
    decreases s
  {
    hide ReadChars, CaptionByte;
    var end := [QUOTE] + rest;
    if s == [] {
      assert CaptionAll(s) + end == end;
      assert ReadChars(end) == Some([], rest) by { ReadQuote(rest); }
    } else {
      ReadCaptionAll(s[1..], rest);
      Assoc(CaptionByte(s[0]), CaptionAll(s[1..]), end);
      ReadCaptionByte(s[0], CaptionAll(s[1..]) + end);
      assert [s[0]] + s[1..] == s;
    }
  }

  lemma ReadQuote(rest: seq<byte>)
    ensures ReadChars([QUOTE] + rest) == Some([], rest)
  {
    assert ([QUOTE] + rest)[1..] == rest;
  }

  lemma ParseCaptionString(s: seq<byte>, rest: seq<byte>)
    requires IsText(s)
    ensures ParseString([QUOTE] + CaptionAll(s) + [QUOTE] + rest) == Some(s, rest)
  {
    hide ReadChars;
    ReadCaptionAll(s, rest);
    var t := [QUOTE] + CaptionAll(s) + [QUOTE] + rest;
    assert t[1..] == CaptionAll(s) + ([QUOTE] + rest);
  }

  lemma {:induction false} ReadWord(s: seq<byte>, rest: seq<byte>)
    requires IsWord(s)
    ensures ReadChars(s + ([QUOTE] + rest)) == Some(s, rest)
  {
    hide ReadChars;
    var end := [QUOTE] + rest;
    if s == [] {
      assert s + end == end;
      ReadQuote(rest);
    } else {
      ReadWord(s[1..], rest);
      ReadCharsPlain(s[0], s[1..] + end);
      assert [s[0]] + (s[1..] + end) == s + end;
      assert [s[0]] + s[1..] == s;
    }
  }

  lemma ParseKey(key: seq<byte>, rest: seq<byte>)
    requires IsWord(key)
    ensures ParseString(Skip(KeyText(key) + rest)) == Some(key, [COLON] + rest)
  {
    hide ReadChars;
    var t := KeyText(key) + rest;
    ReadWord(key, [COLON] + rest);
    assert t[1..] == key + ([QUOTE] + ([COLON] + rest));
    assert Skip(t) == t;
  }

  // ---- Trees --------------------------------------------------------------------------------

  lemma SkipNone(s: seq<byte>)
    requires Visible(Head(s))
    ensures Skip(s) == s
  {
  }

  lemma CompactHead(v: Json, rest: seq<byte>)
    ensures var h := Head(Compact(v) + rest); h > 32 && h != CLOSE_BRACKET && h != CLOSE_BRACE
  {
    hide CompactItems, CompactMembers, CaptionAll, Digits;
  }

  lemma AfterElement(more: bool, text: seq<byte>, close: byte, rest: seq<byte>)
    requires close == CLOSE_BRACKET || close == CLOSE_BRACE
    ensures !more ==> (When(more, [COMMA]) + []) + ([close] + rest) == [close] + rest
    ensures more ==> (When(more, [COMMA]) + text) + ([close] + rest) == [COMMA] + (text + ([close] + rest))
    ensures !Extends(Head([close] + rest)) && !Extends(Head([COMMA] + (text + ([close] + rest))))
  {
  }

  lemma {:induction false} ParseCompactItems(items: seq<Json>, rest: seq<byte>)
    requires items != [] && WritableItems(items)
    ensures ParseItems(CompactItems(items) + ([CLOSE_BRACKET] + rest)) == Some(items, rest)
    ensures Head(CompactItems(items) + ([CLOSE_BRACKET] + rest)) != CLOSE_BRACKET
    ensures Visible(Head(CompactItems(items) + ([CLOSE_BRACKET] + rest)))
    decreases items, 0
  {
    hide ParseValue, ParseItems, Compact, CompactItems, Skip, Writable, When, Extends;
    var end := [CLOSE_BRACKET] + rest;
    var v, more := items[0], items[1..];
    assert items == [v] + more;
    ItemsFromFront(v, more);
    var tail := CompactItems(more);
    var after := (When(more != [], [COMMA]) + tail) + end;
    Assoc(Compact(v), When(more != [], [COMMA]) + tail, end);
    AfterElement(more != [], tail, CLOSE_BRACKET, rest);
    CompactHead(v, after);
    var s := Compact(v) + after;
    SkipNone(s);
    if more == [] {
      assert tail == [] by { CompactNothing(); }
      ParseCompact(v, after);
      ParseLastItem(s, v, rest);
      assert items == [v];
    } else {
      ParseCompact(v, after);
      ParseCompactItems(more, rest);
      ParseNextItem(s, v, tail + end);
    }
  }

  lemma {:induction false} ParseCompactMembers(members: seq<Member>, rest: seq<byte>)
    requires members != [] && WritableMembers(members)
    ensures ParseMembers(CompactMembers(members) + ([CLOSE_BRACE] + rest)) == Some(members, rest)
    ensures Head(CompactMembers(members) + ([CLOSE_BRACE] + rest)) == QUOTE
    decreases members, 0
  {
    hide ParseValue, ParseMembers, ParseString, Compact, CompactMembers, Skip, Writable, When, Extends, IsWord,
         KeyText;
    var end := [CLOSE_BRACE] + rest;
    var m, more := members[0], members[1..];
    assert members == [m] + more;
    MembersFromFront(m, more);
    var tail := CompactMembers(more);
    var after := (When(more != [], [COMMA]) + tail) + end;
    AfterElement(more != [], tail, CLOSE_BRACE, rest);
    var t := Compact(m.value) + after;
    Assoc(KeyText(m.key) + Compact(m.value), When(more != [], [COMMA]) + tail, end);
    Assoc(KeyText(m.key), Compact(m.value), after);
    ParseKey(m.key, t);
    assert Head(KeyText(m.key) + t) == QUOTE by { KeyHead(m.key, t); }
    CompactHead(m.value, after);
    SkipNone(t);
    var s := KeyText(m.key) + t;
    if more == [] {
      assert tail == [] by { CompactNothing(); }
      ParseCompact(m.value, after);
      assert [] + end == end;
      ParseLastMember(s, m.key, t, m.value, [], rest);
      assert members == [m];
    } else {
      ParseCompact(m.value, after);
      ParseCompactMembers(more, rest);
      ParseNextMember(s, m.key, t, m.value, tail + end);
    }
  }

  lemma KeyHead(key: seq<byte>, rest: seq<byte>)
    ensures Head(KeyText(key) + rest) == QUOTE
  {
  }

  /** Whatever the writer writes for a tree, the parser reads as that tree and stops behind it. */
  lemma {:induction false} ParseCompact(v: Json, rest: seq<byte>)
    requires Writable(v) && Follows(v, rest)
    ensures ParseValue(Compact(v) + rest) == Some(v, rest)
    decreases v, 2
  {
    match v
    case Null => ParsePrintWord(v, 0, false, rest);
    case False => ParsePrintWord(v, 0, false, rest);
    case True => ParsePrintWord(v, 0, false, rest);
    case Number(n) => ParsePrintNumber(n, rest);
    case String(s) =>
      ParseCaptionString(s, rest);
      ParsesAsString(Compact(v) + rest);
    case Array(items) => ParseCompactArray(items, rest);
    case Object(members) => ParseCompactObject(members, rest);
  }

  lemma ParseCompactArray(items: seq<Json>, rest: seq<byte>)
    requires WritableItems(items)
    ensures ParseValue(Compact(Array(items)) + rest) == Some(Array(items), rest)
    decreases items, 1
  {
    hide ParseValue, ParseItems, CompactItems, WritableItems, Skip;
    var text := CompactItems(items) + ([CLOSE_BRACKET] + rest);
    var s := Compact(Array(items)) + rest;
    assert s == [OPEN_BRACKET] + text;
    assert s[1..] == text;
    ParsesAsArray(s);
    if items == [] {
      CompactNothing();
      assert text == [CLOSE_BRACKET] + rest;
      SkipNone(text);
      assert text[1..] == rest;
    } else {
      ParseCompactItems(items, rest);
      SkipNone(text);
    }
  }

  lemma ParseCompactObject(members: seq<Member>, rest: seq<byte>)
    requires WritableMembers(members)
    ensures ParseValue(Compact(Object(members)) + rest) == Some(Object(members), rest)
    decreases members, 1
  {
    hide ParseValue, ParseMembers, CompactMembers, WritableMembers, Skip;
    var text := CompactMembers(members) + ([CLOSE_BRACE] + rest);
    var s := Compact(Object(members)) + rest;
    assert s == [OPEN_BRACE] + text;
    assert s[1..] == text;
    ParsesAsObject(s);
    if members == [] {
      CompactNothing();
      assert text == [CLOSE_BRACE] + rest;
      SkipNone(text);
      assert text[1..] == rest;
    } else {
      ParseCompactMembers(members, rest);
      SkipNone(text);
    }
  }
}
