/** Parsing undoes printing: every tree of null, booleans, 32-bit integers, NUL-free strings, arrays and
    objects comes back from its own text, formatted or not, and the parser stops where the text stops. */
module JsonRoundTrips {
  import opened Bytes
  import opened Json

  /** A byte that would carry a number on. */
  predicate Extends(c: byte) {
    IsDigit(c) || c == 46 || c == 101 || c == 69
  }

  /** What may stand behind the text of v. */
  predicate Follows(v: Json, rest: seq<byte>) {
    v.Number? ==> !Extends(Head(rest))
  }

  // ---- Numbers ------------------------------------------------------------------------------

  lemma {:induction false} ReadDigitsOfDigits(n: nat, rest: seq<byte>)
    ensures ReadDigits(0, Digits(n) + rest) == ReadDigits(n, rest)
    ensures n > 0 ==> Digits(n)[0] != ZERO
    decreases n
  {
    var d := (ZERO + n % 10) as byte;
    assert ([d] + rest)[1..] == rest;
    if n < 10 {
      assert Digits(n) == [d];
    } else {
      ReadDigitsOfDigits(n / 10, [d] + rest);
      assert Digits(n) + rest == Digits(n / 10) + ([d] + rest);
    }
  }

  lemma ParseDigits(n: nat, rest: seq<byte>)
    requires n <= 0x20_0000_0000_0000 && !Extends(Head(rest))
    ensures IsDigit(Head(Digits(n) + rest))
    ensures ParseNumber(Digits(n) + rest) == Some(Number(n), rest)
    ensures ParseNumber([MINUS] + (Digits(n) + rest)) == Some(Number(0 - n), rest)
  {
    ReadDigitsOfDigits(n, rest);
    var t := Digits(n) + rest;
    assert ([MINUS] + t)[1..] == t;
    if n == 0 {
      assert t[1..] == rest;
    } else {
      assert ReadDigits(0, t) == (n, rest);
    }
  }

  lemma ParsePrintNumber(n: int, rest: seq<byte>)
    requires -0x20_0000_0000_0000 <= n <= 0x20_0000_0000_0000 && !Extends(Head(rest))
    ensures ParseValue(PrintNumber(n) + rest) == Some(Number(n), rest)
  {
    hide ParseNumber, ParseValue, Digits;
    if n < 0 {
      ParseDigits(-n, rest);
      assert PrintNumber(n) + rest == [MINUS] + (Digits(-n) + rest);
    } else {
      ParseDigits(n, rest);
    }
    ParsesAsNumber(PrintNumber(n) + rest);
  }

  // ---- Strings ------------------------------------------------------------------------------

  lemma ReadControl(c: byte, t: seq<byte>)
    requires 0 < c < 32
    ensures ReadEscape([LOWER_U, ZERO, ZERO, HexDigit(c / 16), HexDigit(c % 16)] + t) == Some([c], t)
  {
    var digits := [ZERO, ZERO, HexDigit(c / 16), HexDigit(c % 16)];
    var s := [LOWER_U, ZERO, ZERO, HexDigit(c / 16), HexDigit(c % 16)] + t;
    assert s[1..5] == digits && s[5..] == t;
    assert Hex4(digits) == c;
  }

  lemma ReadShort(c: byte, t: seq<byte>)
    requires ShortEscape(c) != 0
    ensures ReadEscape([ShortEscape(c)] + t) == Some([c], t)
  {
    assert ([ShortEscape(c)] + t)[1..] == t;
  }

  lemma ReadCharsEscape(s: seq<byte>, c: byte, t: seq<byte>)
    requires ReadEscape(s) == Some([c], t) && ReadChars(t).Some?
    ensures ReadChars([BACKSLASH] + s) == Some([c] + ReadChars(t).value, ReadChars(t).rest)
  {
    hide ReadEscape;
    assert ([BACKSLASH] + s)[1..] == s;
  }

  lemma ReadCharsPlain(c: byte, t: seq<byte>)
    requires c != 0 && c != QUOTE && c != BACKSLASH && ReadChars(t).Some?
    ensures ReadChars([c] + t) == Some([c] + ReadChars(t).value, ReadChars(t).rest)
  {
    hide ReadEscape;
    assert ([c] + t)[1..] == t;
  }

  /** The parser reads back one escaped byte. */
  lemma ReadEscaped(c: byte, t: seq<byte>)
    requires c != 0 && ReadChars(t).Some?
    ensures ReadChars(EscapeByte(c) + t) == Some([c] + ReadChars(t).value, ReadChars(t).rest)
  {
    hide ReadEscape, ReadChars, HexDigit;
    if c > 31 && c != QUOTE && c != BACKSLASH {
      ReadCharsPlain(c, t);
    } else if ShortEscape(c) != 0 {
      ReadShort(c, t);
      var s := [ShortEscape(c)] + t;
      ReadCharsEscape(s, c, t);
      assert EscapeByte(c) + t == [BACKSLASH] + s;
    } else {
      ReadControl(c, t);
      var s := [LOWER_U, ZERO, ZERO, HexDigit(c / 16), HexDigit(c % 16)] + t;
      ReadCharsEscape(s, c, t);
      assert EscapeByte(c) + t == [BACKSLASH] + s;
    }
  }

  /** RFC 8259, section 7: what the printer escapes, the parser unescapes. */
  lemma {:induction false} ReadCharsOfEscapeAll(s: seq<byte>, rest: seq<byte>)
    requires IsText(s)
    ensures ReadChars(EscapeAll(s) + ([QUOTE] + rest)) == Some(s, rest)
    decreases s
  {
    var end := [QUOTE] + rest;
    if s == [] {
      assert EscapeAll(s) + end == end && end[1..] == rest;
    } else {
      ReadCharsOfEscapeAll(s[1..], rest);
      var t := EscapeAll(s[1..]) + end;
      Assoc(EscapeByte(s[0]), EscapeAll(s[1..]), end);
      ReadEscaped(s[0], t);
      assert [s[0]] + s[1..] == s;
    }
  }

  lemma ParsePrintString(s: seq<byte>, rest: seq<byte>)
    requires IsText(s)
    ensures ParseString(PrintString(s) + rest) == Some(s, rest)
    ensures Head(PrintString(s) + rest) == QUOTE
  {
    ReadCharsOfEscapeAll(s, rest);
    var t := PrintString(s) + rest;
    assert t[1..] == EscapeAll(s) + ([QUOTE] + rest);
  }

  // ---- White space --------------------------------------------------------------------------

  predicate IsSpace(s: seq<byte>) {
    forall i | 0 <= i < |s| :: 0 < s[i] <= 32
  }

  predicate Visible(c: byte) {
    c == 0 || c > 32
  }

  lemma {:induction false} SkipSpace(sp: seq<byte>, x: seq<byte>)
    requires IsSpace(sp) && Visible(Head(x))
    ensures Skip(sp + x) == x
  {
    if sp == [] {
      assert sp + x == x;
    } else {
      SkipSpace(sp[1..], x);
      assert (sp + x)[1..] == sp[1..] + x;
    }
  }

  /** No value starts like white space or like the end of an array or object. */
  lemma PrintHead(v: Json, depth: nat, fmt: bool, rest: seq<byte>)
    ensures var h := Head(Print(v, depth, fmt) + rest);
            h > 32 && h != CLOSE_BRACKET && h != CLOSE_BRACE
  {
    hide PrintItems, PrintMembers, EscapeAll, Digits;
  }

  // ---- Arrays -------------------------------------------------------------------------------

  lemma ParseLastItem(s: seq<byte>, v: Json, rest: seq<byte>)
    requires ParseValue(Skip(s)) == Some(v, [CLOSE_BRACKET] + rest)
    ensures ParseItems(s) == Some([v], rest)
  {
    hide ParseValue;
    var t := [CLOSE_BRACKET] + rest;
    assert Skip(t) == t && t[1..] == rest;
  }

  lemma ParseNextItem(s: seq<byte>, v: Json, u: seq<byte>)
    requires ParseValue(Skip(s)) == Some(v, [COMMA] + u) && ParseItems(u).Some?
    ensures ParseItems(s) == Some([v] + ParseItems(u).value, ParseItems(u).rest)
  {
    hide ParseValue;
    var t := [COMMA] + u;
    assert Skip(t) == t && t[1..] == u;
  }

  lemma PrintItemsText(items: seq<Json>, depth: nat, fmt: bool, end: seq<byte>)
    requires items != []
    ensures PrintItems(items, depth, fmt) + end ==
            Print(items[0], depth, fmt)
            + (AfterItem(items[1..] != [], fmt) + (PrintItems(items[1..], depth, fmt) + end))
  {
    hide Print, AfterItem;
    var a, b, c := Print(items[0], depth, fmt), AfterItem(items[1..] != [], fmt),
                   PrintItems(items[1..], depth, fmt);
    Assoc(a + b, c, end);
    Assoc(a, b, c + end);
  }

  lemma {:induction false} ParsePrintItems(items: seq<Json>, depth: nat, fmt: bool, sp: seq<byte>,
                                           rest: seq<byte>)
    requires items != [] && PrintableItems(items) && IsSpace(sp)
    ensures ParseItems(sp + (PrintItems(items, depth, fmt) + ([CLOSE_BRACKET] + rest))) == Some(items, rest)
    decreases items, 0
  {
    hide ParseValue, ParseItems, Print, PrintItems, Printable, Skip, IsSpace;
    var end := [CLOSE_BRACKET] + rest;
    var more := PrintItems(items[1..], depth, fmt) + end;
    var after := AfterItem(items[1..] != [], fmt) + more;
    var text := Print(items[0], depth, fmt) + after;
    PrintItemsText(items, depth, fmt, end);
    PrintHead(items[0], depth, fmt, after);
    SkipSpace(sp, text);
    if items[1..] == [] {
      assert PrintItems(items[1..], depth, fmt) == [] by { PrintNothing(depth, fmt); }
      assert after == end;
      ParsePrint(items[0], depth, fmt, after);
      ParseLastItem(sp + text, items[0], rest);
      assert items == [items[0]];
    } else {
      var gap := When(fmt, [SPACE]);
      assert IsSpace(gap) by { GapIsSpace(fmt); }
      assert after == [COMMA] + (gap + more);
      ParsePrint(items[0], depth, fmt, after);
      ParsePrintItems(items[1..], depth, fmt, gap, rest);
      ParseNextItem(sp + text, items[0], gap + more);
      assert [items[0]] + items[1..] == items;
    }
  }

  lemma PrintNothing(depth: nat, fmt: bool)
    ensures PrintItems([], depth, fmt) == [] && PrintMembers([], depth, fmt) == []
  {
  }

  lemma GapIsSpace(fmt: bool)
    ensures IsSpace(When(fmt, [SPACE])) && IsSpace(When(fmt, [NEWLINE])) && IsSpace(When(fmt, [TAB]))
  {
  }

  lemma ParsePrintArray(items: seq<Json>, depth: nat, fmt: bool, rest: seq<byte>)
    requires PrintableItems(items)
    ensures ParseValue(Print(Array(items), depth, fmt) + rest) == Some(Array(items), rest)
    decreases items, 1
  {
    hide ParseValue, ParseItems, PrintItems, PrintableItems, Skip;
    var end := [CLOSE_BRACKET] + rest;
    var text := PrintItems(items, depth + 1, fmt) + end;
    var s := Print(Array(items), depth, fmt) + rest;
    assert s == [OPEN_BRACKET] + text;
    assert s[1..] == text;
    assert [] + text == text;
    ParsesAsArray(s);
    if items == [] {
      PrintNothing(depth + 1, fmt);
      SkipSpace([], text);
      assert text[1..] == rest;
    } else {
      ParsePrintItems(items, depth + 1, fmt, [], rest);
      PrintItemsText(items, depth + 1, fmt, end);
      PrintHead(items[0], depth + 1, fmt,
                AfterItem(items[1..] != [], fmt) + (PrintItems(items[1..], depth + 1, fmt) + end));
      SkipSpace([], text);
    }
  }

  // ---- Objects ------------------------------------------------------------------------------

  lemma ParseLastMember(s: seq<byte>, k: seq<byte>, t: seq<byte>, v: Json, sp: seq<byte>, rest: seq<byte>)
    requires ParseString(Skip(s)) == Some(k, [COLON] + t)
    requires ParseValue(Skip(t)) == Some(v, sp + ([CLOSE_BRACE] + rest)) && IsSpace(sp)
    ensures ParseMembers(s) == Some([Member(k, v)], rest)
  {
    hide ParseValue, ParseString, IsSpace;
    var c := [COLON] + t;
    assert Skip(c) == c && c[1..] == t;
    var end := [CLOSE_BRACE] + rest;
    SkipSpace(sp, end);
    assert end[1..] == rest;
  }

  lemma ParseNextMember(s: seq<byte>, k: seq<byte>, t: seq<byte>, v: Json, u: seq<byte>)
    requires ParseString(Skip(s)) == Some(k, [COLON] + t)
    requires ParseValue(Skip(t)) == Some(v, [COMMA] + u) && ParseMembers(u).Some?
    ensures ParseMembers(s) == Some([Member(k, v)] + ParseMembers(u).value, ParseMembers(u).rest)
  {
    hide ParseValue, ParseString;
    var c := [COLON] + t;
    assert Skip(c) == c && c[1..] == t;
    var m := [COMMA] + u;
    assert Skip(m) == m && m[1..] == u;
  }

  lemma PrintMembersText(members: seq<Member>, depth: nat, fmt: bool, end: seq<byte>)
    requires members != []
    ensures PrintMembers(members, depth, fmt) + end ==
            When(fmt, Tabs(depth))
            + (PrintString(members[0].key)
               + ([COLON]
                  + (When(fmt, [TAB])
                     + (Print(members[0].value, depth, fmt)
                        + (AfterMember(members[1..] != [], fmt)
                           + (PrintMembers(members[1..], depth, fmt) + end))))))
  {
    hide Print, AfterMember, PrintString, When, Tabs;
    var m := members[0];
    var b, v, a, more := BeforeValue(m.key, depth, fmt), Print(m.value, depth, fmt),
                         AfterMember(members[1..] != [], fmt), PrintMembers(members[1..], depth, fmt);
    Assoc(b + v + a, more, end);
    Assoc(b + v, a, more + end);
    Assoc(b, v, a + (more + end));
    var t, k, g := When(fmt, Tabs(depth)), PrintString(m.key), When(fmt, [TAB]);
    var x := v + (a + (more + end));
    Assoc(t + k + [COLON], g, x);
    Assoc(t + k, [COLON], g + x);
    Assoc(t, k, [COLON] + (g + x));
  }

  lemma TabsAreSpace(depth: nat, fmt: bool, sp: seq<byte>)
    requires IsSpace(sp)
    ensures IsSpace(sp + When(fmt, Tabs(depth)))
  {
  }

  /** The key, the colon and the value of the first member, read from its text. */
  lemma ParseMemberHead(m: Member, depth: nat, fmt: bool, sp: seq<byte>, after: seq<byte>)
    requires IsText(m.key) && IsSpace(sp)
    requires ParseValue(Print(m.value, depth, fmt) + after) == Some(m.value, after)
    ensures var t := When(fmt, [TAB]) + (Print(m.value, depth, fmt) + after);
            && ParseString(Skip(sp + (PrintString(m.key) + ([COLON] + t)))) == Some(m.key, [COLON] + t)
            && ParseValue(Skip(t)) == Some(m.value, after)
  {
    hide ParseValue, ParseString, Print, PrintString, IsSpace, IsText, Skip, When;
    var text := Print(m.value, depth, fmt) + after;
    PrintHead(m.value, depth, fmt, after);
    GapIsSpace(fmt);
    SkipSpace(When(fmt, [TAB]), text);
    var t := [COLON] + (When(fmt, [TAB]) + text);
    ParsePrintString(m.key, t);
    SkipSpace(sp, PrintString(m.key) + t);
  }

  lemma AfterMemberText(fmt: bool, gap: seq<byte>, end: seq<byte>)
    ensures AfterMember(true, fmt) + end == [COMMA] + (When(fmt, [NEWLINE]) + end)
    ensures AfterMember(false, fmt) + (gap + end) == (When(fmt, [NEWLINE]) + gap) + end
  {
  }

  lemma {:induction false} ParsePrintMembers(members: seq<Member>, depth: nat, fmt: bool, sp: seq<byte>,
                                             gap: seq<byte>, rest: seq<byte>)
    requires members != [] && PrintableMembers(members) && IsSpace(sp) && IsSpace(gap)
    ensures ParseMembers(sp + (PrintMembers(members, depth, fmt) + (gap + ([CLOSE_BRACE] + rest))))
            == Some(members, rest)
    decreases members, 0
  {
    hide ParseValue, ParseMembers, ParseString, Print, PrintMembers, PrintString, Printable, Skip, IsSpace, Tabs,
         IsText, AfterMember, When, Extends;
    var m := members[0];
    var close := [CLOSE_BRACE] + rest;
    var end := gap + close;
    var more := PrintMembers(members[1..], depth, fmt) + end;
    var after := AfterMember(members[1..] != [], fmt) + more;
    var t := When(fmt, [TAB]) + (Print(m.value, depth, fmt) + after);
    PrintMembersText(members, depth, fmt, end);
    var tabs := When(fmt, Tabs(depth));
    TabsAreSpace(depth, fmt, sp);
    var key := PrintString(m.key) + ([COLON] + t);
    var s := (sp + tabs) + key;
    Assoc(sp, tabs, key);
    var nl := When(fmt, [NEWLINE]);
    GapIsSpace(fmt);
    CloseEnds(nl + gap, nl + more, rest);
    if members[1..] == [] {
      PrintNothing(depth, fmt);
      assert more == end;
      AfterMemberText(fmt, gap, close);
      SpaceJoin(nl, gap);
      ParsePrint(m.value, depth, fmt, after);
      ParseMemberHead(m, depth, fmt, sp + tabs, after);
      ParseLastMember(s, m.key, t, m.value, nl + gap, rest);
      assert members == [m];
    } else {
      AfterMemberText(fmt, gap, more);
      ParsePrint(m.value, depth, fmt, after);
      ParseMemberHead(m, depth, fmt, sp + tabs, after);
      ParsePrintMembers(members[1..], depth, fmt, nl, gap, rest);
      ParseNextMember(s, m.key, t, m.value, nl + more);
      assert [m] + members[1..] == members;
    }
  }

  lemma CloseEnds(sp: seq<byte>, more: seq<byte>, rest: seq<byte>)
    ensures IsSpace(sp) ==> !Extends(Head(sp + ([CLOSE_BRACE] + rest)))
    ensures !Extends(Head([COMMA] + more))
  {
  }

  lemma SpaceJoin(a: seq<byte>, b: seq<byte>)
    requires IsSpace(a) && IsSpace(b)
    ensures IsSpace(a + b)
  {
  }

  lemma PrintObjectText(members: seq<Member>, depth: nat, fmt: bool, rest: seq<byte>)
    ensures var gap := When(fmt, Tabs(if members == [] then depth - 1 else depth));
            Print(Object(members), depth, fmt) + rest ==
            [OPEN_BRACE] + (When(fmt, [NEWLINE])
                            + (PrintMembers(members, depth + 1, fmt) + (gap + ([CLOSE_BRACE] + rest))))
  {
    hide PrintMembers, Tabs, When;
    var nl, ms, gap := When(fmt, [NEWLINE]), PrintMembers(members, depth + 1, fmt),
                       When(fmt, Tabs(if members == [] then depth - 1 else depth));
    var open: seq<byte> := [OPEN_BRACE];
    Assoc(open + nl + ms + gap, [CLOSE_BRACE], rest);
    Assoc(open + nl + ms, gap, [CLOSE_BRACE] + rest);
    Assoc(open + nl, ms, gap + ([CLOSE_BRACE] + rest));
    Assoc(open, nl, ms + (gap + ([CLOSE_BRACE] + rest)));
  }

  lemma ParsePrintObject(members: seq<Member>, depth: nat, fmt: bool, rest: seq<byte>)
    requires PrintableMembers(members)
    ensures ParseValue(Print(Object(members), depth, fmt) + rest) == Some(Object(members), rest)
    decreases members, 1
  {
    hide ParseValue, ParseMembers, Print, PrintMembers, PrintableMembers, Tabs, Skip, IsSpace, When;
    var end := [CLOSE_BRACE] + rest;
    var nl := When(fmt, [NEWLINE]);
    var gap := When(fmt, Tabs(if members == [] then depth - 1 else depth));
    var ms := PrintMembers(members, depth + 1, fmt);
    var text := nl + (ms + (gap + end));
    var s := Print(Object(members), depth, fmt) + rest;
    PrintObjectText(members, depth, fmt, rest);
    assert s[1..] == text;
    ParsesAsObject(s);
    GapIsSpace(fmt);
    TabsBelow(depth, members == [], fmt);
    if members == [] {
      PrintNothing(depth + 1, fmt);
      assert ms + (gap + end) == gap + end;
      SpaceJoin(nl, gap);
      Assoc(nl, gap, end);
      SkipSpace(nl + gap, end);
      assert end[1..] == rest;
    } else {
      ParsePrintMembers(members, depth + 1, fmt, nl, gap, rest);
      SkipToKey(members, depth + 1, fmt, nl, gap + end);
    }
  }

  lemma TabsBelow(depth: nat, none: bool, fmt: bool)
    ensures IsSpace(When(fmt, Tabs(if none then depth - 1 else depth)))
  {
  }

  /** Skipping before an object's first key changes nothing for the key. */
  lemma SkipToKey(members: seq<Member>, depth: nat, fmt: bool, sp: seq<byte>, end: seq<byte>)
    requires members != [] && IsSpace(sp)
    ensures var s := sp + (PrintMembers(members, depth, fmt) + end);
            Head(Skip(s)) == QUOTE && ParseMembers(Skip(s)) == ParseMembers(s)
  {
    hide PrintMembers, ParseMembers, Print, Skip, IsSpace, Tabs;
    PrintMembersText(members, depth, fmt, end);
    var x :| PrintMembers(members, depth, fmt) + end == When(fmt, Tabs(depth)) + (PrintString(members[0].key) + x);
    var key := PrintString(members[0].key) + x;
    TabsAreSpace(depth, fmt, sp);
    SkipSpace(sp + When(fmt, Tabs(depth)), key);
    Assoc(sp, When(fmt, Tabs(depth)), key);
    SkipSpace([], key);
    assert [] + key == key;
    SkipTwice(sp + (PrintMembers(members, depth, fmt) + end), key);
  }

  lemma SkipTwice(s: seq<byte>, t: seq<byte>)
    requires Skip(s) == t && Skip(t) == t
    ensures ParseMembers(t) == ParseMembers(s)
  {
    hide Skip, ParseValue, ParseString;
  }

  // ---- The whole tree -----------------------------------------------------------------------

  /** Whatever stands behind the text of v, the parser reads v and stops exactly there. */
  lemma {:induction false} ParsePrint(v: Json, depth: nat, fmt: bool, rest: seq<byte>)
    requires Printable(v) && Follows(v, rest)
    ensures ParseValue(Print(v, depth, fmt) + rest) == Some(v, rest)
    decreases v, 2
  {
    match v
    case Null => ParsePrintWord(v, depth, fmt, rest);
    case False => ParsePrintWord(v, depth, fmt, rest);
    case True => ParsePrintWord(v, depth, fmt, rest);
    case Number(n) => ParsePrintNumber(n, rest);
    case String(s) =>
      ParsePrintString(s, rest);
      ParsesAsString(PrintString(s) + rest);
    case Array(items) => ParsePrintArray(items, depth, fmt, rest);
    case Object(members) => ParsePrintObject(members, depth, fmt, rest);
  }

  lemma ParsePrintWord(v: Json, depth: nat, fmt: bool, rest: seq<byte>)
    requires v.Null? || v.False? || v.True?
    ensures ParseValue(Print(v, depth, fmt) + rest) == Some(v, rest)
  {
    hide ParseItems, ParseMembers, ParseNumber, ParseString;
    var s := Print(v, depth, fmt) + rest;
    assert s[|Print(v, depth, fmt)|..] == rest;
    assert Print(v, depth, fmt) <= s;
    assert v != Null ==> s[0] != NULL_TEXT[0];
    assert v == True ==> s[0] != FALSE_TEXT[0];
  }

  /** cJSON_Parse after cJSON_Print or cJSON_PrintUnformatted, with the text ending where it ends. */
  lemma RoundTrip(v: Json, fmt: bool)
    requires Printable(v)
    ensures ParseValue(Skip(Print(v, 0, fmt))) == Some(v, [])
  {
    hide ParseValue, Print, Printable, Skip;
    var s := Print(v, 0, fmt);
    assert s + [] == s;
    ParsePrint(v, 0, fmt, []);
    PrintHead(v, 0, fmt, []);
    SkipSpace([], s);
    assert [] + s == s;
  }

  /** Items are separated by a comma, and by a space behind it in formatted text. */
  lemma {:induction false} ItemsLayout(a: seq<Json>, b: seq<Json>, depth: nat, fmt: bool)
    requires a != [] && b != []
    ensures PrintItems(a + b, depth, fmt) ==
            PrintItems(a, depth, fmt) + (if fmt then [44, 32] else [44]) + PrintItems(b, depth, fmt)
    decreases |a|
  {
    hide Print, PrintItems;
    var mark: seq<byte> := if fmt then [44, 32] else [44];
    assert (a + b)[0] == a[0] && (a + b)[1..] == a[1..] + b;
    var first := Print(a[0], depth, fmt);
    ItemsCons(a, depth, fmt);
    ItemsCons(a + b, depth, fmt);
    if a[1..] == [] {
      assert a[1..] + b == b;
    } else {
      ItemsLayout(a[1..], b, depth, fmt);
      Assoc(first + mark, PrintItems(a[1..], depth, fmt) + mark, PrintItems(b, depth, fmt));
      Assoc(first + mark, PrintItems(a[1..], depth, fmt), mark);
    }
  }

  lemma ItemsCons(a: seq<Json>, depth: nat, fmt: bool)
    requires a != []
    ensures PrintItems(a, depth, fmt) ==
            if a[1..] == [] then Print(a[0], depth, fmt)
            else Print(a[0], depth, fmt) + (if fmt then [44, 32] else [44]) + PrintItems(a[1..], depth, fmt)
  {
    hide Print;
    var first := Print(a[0], depth, fmt);
    if a[1..] == [] {
      assert PrintItems(a[1..], depth, fmt) == [];
      assert first + [] + [] == first;
    } else {
      assert AfterItem(true, fmt) == if fmt then [44, 32] else [44];
    }
  }

  /** Unformatted members are separated by a comma; formatted ones stand on a line each, behind as many tabs as they
      are deep, with a tab behind the colon. */
  lemma {:induction false} MembersLayout(m: Member, rest: seq<Member>, depth: nat, fmt: bool)
    ensures PrintMembers([m] + rest, depth, fmt) ==
            (if fmt then seq(depth, _ => 9) else []) + PrintString(m.key) + (if fmt then [58, 9] else [58])
            + Print(m.value, depth, fmt) + (if rest == [] then [] else [44]) + (if fmt then [10] else [])
            + PrintMembers(rest, depth, fmt)
  {
    hide Print, PrintString;
    var ms := [m] + rest;
    assert ms[0] == m && ms[1..] == rest;
    assert Tabs(depth) == seq(depth, _ => 9);
    var tabs: seq<byte> := if fmt then seq(depth, _ => 9) else [];
    var colon: seq<byte> := if fmt then [58, 9] else [58];
    assert BeforeValue(m.key, depth, fmt) == tabs + PrintString(m.key) + colon;
    var tail: seq<byte> := if fmt then [10] else [];
    var comma: seq<byte> := if rest == [] then [] else [44];
    assert AfterMember(rest != [], fmt) == comma + tail;
    var head := BeforeValue(m.key, depth, fmt) + Print(m.value, depth, fmt);
    Assoc(head, comma, tail);
  }

  /** Hence no two trees share a text. */
  lemma PrintInjective(v: Json, w: Json, fmt: bool, fmt': bool)
    requires Printable(v) && Printable(w) && Print(v, 0, fmt) == Print(w, 0, fmt')
    ensures v == w
  {
    hide ParseValue, Print, Printable, Skip;
    RoundTrip(v, fmt);
    RoundTrip(w, fmt');
  }
}
