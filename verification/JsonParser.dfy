/** The parser of libsubtitle/utils/cJSON.c as it runs: cursors over a NUL-terminated text, and a string
    buffer sized by a first pass. Each routine is proved to compute what the module Json specifies. */
module JsonParsers {
  import opened Bytes
  import opened Json

  /** What *p reads: beyond the last byte of the text stands its terminator. */
  function At(s: seq<byte>, i: nat): byte {
    if i < |s| then s[i] else 0
  }

  lemma Suffix(s: seq<byte>, i: nat)
    requires i <= |s|
    ensures Head(s[i..]) == At(s, i)
    ensures i < |s| ==> s[i..][0] == s[i] && s[i..][1..] == s[i + 1..]
  {
  }

  lemma SuffixOf(s: seq<byte>, i: nat, k: nat)
    requires i + k <= |s|
    ensures s[i..][k..] == s[i + k..]
    ensures forall m | 0 <= m < k :: s[i..][m] == s[i + m]
  {
  }

  method SkipAt(s: seq<byte>, i: nat) returns (j: nat)
    requires i <= |s|
    ensures i <= j <= |s| && s[j..] == Skip(s[i..])
  {
    j := i;
    while At(s, j) != 0 && At(s, j) <= 32
      invariant i <= j <= |s| && Skip(s[j..]) == Skip(s[i..])
      decreases |s| - j
    {
      Suffix(s, j);
      j := j + 1;
    }
    Suffix(s, j);
  }

  /** strncmp against a literal. */
  predicate MatchesAt(s: seq<byte>, i: nat, lit: seq<byte>) {
    i + |lit| <= |s| && s[i..i + |lit|] == lit
  }

  lemma MatchesStart(s: seq<byte>, i: nat, lit: seq<byte>)
    requires i <= |s|
    ensures MatchesAt(s, i, lit) <==> StartsWith(s[i..], lit)
    ensures MatchesAt(s, i, lit) ==> s[i..][|lit|..] == s[i + |lit|..]
  {
    if MatchesAt(s, i, lit) {
      assert s[i..][..|lit|] == s[i..i + |lit|];
    }
    if StartsWith(s[i..], lit) {
      assert s[i..i + |lit|] == s[i..][..|lit|] == lit;
    }
  }

  // ---- Numbers ------------------------------------------------------------------------------

  /** The do-while loop that gathers the digits. */
  method GatherDigits(s: seq<byte>, i: nat) returns (n: nat, j: nat)
    requires i < |s| && IsDigit(s[i])
    ensures i < j <= |s| && ReadDigits(0, s[i..]) == (n, s[j..])
  {
    Suffix(s, i);
    n, j := (s[i] - ZERO) as nat, i + 1;
    while IsDigit(At(s, j))
      invariant i < j <= |s| && ReadDigits(n, s[j..]) == ReadDigits(0, s[i..])
      decreases |s| - j
    {
      Suffix(s, j);
      n, j := n * 10 + (s[j] - ZERO) as nat, j + 1;
    }
    Suffix(s, j);
  }

  method ParseNumberAt(s: seq<byte>, i: nat) returns (ok: bool, v: Json, j: nat)
    requires i < |s| && (s[i] == MINUS || IsDigit(s[i]))
    ensures ok <==> ParseNumber(s[i..]).Some?
    ensures ok ==> i < j <= |s| && ParseNumber(s[i..]) == Some(v, s[j..])
  {
    hide ReadDigits;
    Suffix(s, i);
    var negative := s[i] == MINUS;
    j := if negative then i + 1 else i;
    Suffix(s, j);
    if At(s, j) == ZERO {
      j := j + 1;
      Suffix(s, j);
    }
    var n := 0;
    if IsDigit(At(s, j)) && At(s, j) != ZERO {
      n, j := GatherDigits(s, j);
      Suffix(s, j);
    }
    ok := At(s, j) != 46 && At(s, j) != 101 && At(s, j) != 69 && n <= EXACT_DOUBLE;
    v := Number(if negative then -n else n);
  }

  // ---- Strings ------------------------------------------------------------------------------

  /** What the first pass counts: one for each byte or escape up to the closing quote. */
  function Counted(s: seq<byte>): nat
    decreases |s|
  {
    if Head(s) == 0 || s[0] == QUOTE then 0
    else if s[0] == BACKSLASH && |s| >= 2 then 1 + Counted(s[2..])
    else 1 + Counted(s[1..])
  }

  method CountAt(s: seq<byte>, i: nat) returns (len: nat)
    requires i <= |s|
    ensures len == Counted(s[i..])
  {
    len := 0;
    var j := i;
    while At(s, j) != QUOTE && At(s, j) != 0
      invariant i <= j <= |s| && len + Counted(s[j..]) == Counted(s[i..])
      decreases |s| - j
    {
      Suffix(s, j);
      len := len + 1;
      if s[j] == BACKSLASH && j + 1 < |s| {
        SuffixOf(s, j, 2);
        j := j + 2;
      } else {
        j := j + 1;
      }
    }
    Suffix(s, j);
  }

  lemma CountedPlain(s: seq<byte>, k: nat)
    requires k <= |s| && AllHex(s[..k])
    ensures Counted(s) == k + Counted(s[k..])
    decreases k
  {
    if k == 0 {
      assert s[0..] == s;
    } else {
      assert s[..k][0] == s[0];
      assert s[1..][..k - 1] == s[..k][1..];
      CountedPlain(s[1..], k - 1);
      assert s[1..][k - 1..] == s[k..];
    }
  }

  /** An escape decodes to no more bytes than the first pass counted for it. */
  lemma EscapeFits(s: seq<byte>)
    requires ReadEscape(s).Some?
    ensures |ReadEscape(s).value| + Counted(ReadEscape(s).rest) <= Counted([BACKSLASH] + s)
  {
    hide Utf8, HexValue, Hex4;
    var e := [BACKSLASH] + s;
    assert e[2..] == s[1..];
    if s[0] == LOWER_U {
      UnicodeFits(s);
    }
  }

  lemma UnicodeFits(s: seq<byte>)
    requires s != [] && s[0] == LOWER_U && ReadUnicode(s).Some?
    ensures |ReadUnicode(s).value| + Counted(ReadUnicode(s).rest) <= 1 + Counted(s[1..])
  {
    hide Utf8, HexValue, Hex4, Counted;
    assert s[1..][..4] == s[1..5] && s[1..][4..] == s[5..];
    CountedPlain(s[1..], 4);
    if |s| >= 11 && AllHex(s[7..11]) && s[5] == BACKSLASH && s[6] == LOWER_U {
      assert s[7..][..4] == s[7..11] && s[7..][4..] == s[11..];
      CountedPlain(s[7..], 4);
      CountedEscape(s[5..]);
      assert s[5..][2..] == s[7..];
    }
  }

  lemma CountedEscape(s: seq<byte>)
    requires |s| >= 2 && s[0] == BACKSLASH
    ensures Counted(s) == 1 + Counted(s[2..])
  {
  }

  /** So the buffer of Counted(s) + 1 bytes has room for the string and its terminator. */
  lemma {:induction false} CharsFit(s: seq<byte>)
    requires ReadChars(s).Some?
    ensures |ReadChars(s).value| <= Counted(s)
    decreases |s|
  {
    hide ReadEscape;
    if Head(s) == 0 || s[0] == QUOTE {
    } else if s[0] == BACKSLASH {
      EscapeFits(s[1..]);
      assert [BACKSLASH] + s[1..] == s;
      CharsFit(ReadEscape(s[1..]).rest);
    } else {
      CharsFit(s[1..]);
    }
  }

  lemma DivTwice(x: nat)
    ensures x / 0x40 / 0x40 == x / 0x1000 && x / 0x1000 / 0x40 == x / 0x4_0000
  {
  }

  /** Writes a code point, its last byte first, as the source's falling-through switch does. */
  method PutUtf8(code: nat, out: array<byte>, k: nat) returns (next: nat)
    requires code < 0x11_0000 && k + |Utf8(code)| <= out.Length
    modifies out
    ensures next == k + |Utf8(code)|
    ensures out[..next] == old(out[..k]) + Utf8(code)
  {
    var len := if code < 0x80 then 1 else if code < 0x800 then 2 else if code < 0x1_0000 then 3 else 4;
    next := k + len;
    DivTwice(code);
    var p, uc := next, code;
    if len >= 4 {
      p := p - 1;
      out[p], uc := (0x80 + uc % 0x40) as byte, uc / 0x40;
    }
    if len >= 3 {
      p := p - 1;
      out[p], uc := (0x80 + uc % 0x40) as byte, uc / 0x40;
    }
    if len >= 2 {
      p := p - 1;
      out[p], uc := (0x80 + uc % 0x40) as byte, uc / 0x40;
    }
    var mark := if len == 1 then 0 else if len == 2 then 0xC0 else if len == 3 then 0xE0 else 0xF0;
    out[k] := (uc + mark) as byte;
    assert out[k..next] == Utf8(code);
    assert out[..next] == out[..k] + out[k..next];
  }

  /** The byte or escape at the front of s. */
  function OneChar(s: seq<byte>): (p: Parsed<seq<byte>>)
    requires Head(s) != 0
    ensures p.Some? ==> |p.rest| < |s|
  {
    if s[0] == BACKSLASH then ReadEscape(s[1..]) else Some([s[0]], s[1..])
  }

  function Before(a: seq<byte>, p: Parsed<seq<byte>>): Parsed<seq<byte>> {
    if p.None? then None else Some(a + p.value, p.rest)
  }

  lemma ReadCharsStep(s: seq<byte>)
    requires Head(s) != 0 && s[0] != QUOTE
    ensures OneChar(s).None? ==> ReadChars(s).None?
    ensures OneChar(s).Some? ==> ReadChars(s) == Before(OneChar(s).value, ReadChars(OneChar(s).rest))
    ensures OneChar(s).Some? ==> |OneChar(s).value| + Counted(OneChar(s).rest) <= Counted(s)
  {
    hide ReadEscape;
    if s[0] == BACKSLASH {
      assert [BACKSLASH] + s[1..] == s;
      if ReadEscape(s[1..]).Some? {
        EscapeFits(s[1..]);
      }
    }
  }

  lemma BeforeBefore(a: seq<byte>, b: seq<byte>, p: Parsed<seq<byte>>)
    ensures Before(a, Before(b, p)) == Before(a + b, p)
  {
    if p.Some? {
      Assoc(a, b, p.value);
    }
  }

  method HexAt(s: seq<byte>, i: nat) returns (ok: bool, h: nat)
    requires i <= |s|
    ensures ok <==> i + 4 <= |s| && AllHex(s[i..i + 4])
    ensures ok ==> h == Hex4(s[i..i + 4])
  {
    hide HexValue;
    if i + 4 > |s| {
      return false, 0;
    }
    var a, b, c, d := HexValue(s[i]), HexValue(s[i + 1]), HexValue(s[i + 2]), HexValue(s[i + 3]);
    ghost var t := s[i..i + 4];
    assert t[0] == s[i] && t[1] == s[i + 1] && t[2] == s[i + 2] && t[3] == s[i + 3];
    ok := a >= 0 && b >= 0 && c >= 0 && d >= 0;
    h := if ok then ((a * 0x10 + b) * 0x10 + c) * 0x10 + d else 0;
  }

  lemma UnicodeSlices(s: seq<byte>, i: nat)
    requires i < |s|
    ensures i + 5 <= |s| ==> s[i..][1..5] == s[i + 1..i + 5] && s[i..][5..] == s[i + 5..]
    ensures i + 7 <= |s| ==> s[i..][5] == s[i + 5] && s[i..][6] == s[i + 6]
    ensures i + 11 <= |s| ==> s[i..][7..11] == s[i + 7..i + 11] && s[i..][11..] == s[i + 11..]
  {
  }

  /** The code point of a \u escape, and where the escape ends. A zero code stands for nothing. */
  method CodeAt(s: seq<byte>, i: nat) returns (ok: bool, code: nat, j: nat)
    requires i < |s| && s[i] == LOWER_U
    ensures ok <==> ReadUnicode(s[i..]).Some?
    ensures ok ==> i < j <= |s| && code < 0x11_0000
    ensures ok ==> ReadUnicode(s[i..]) == Some(if code == 0 then [] else Utf8(code), s[j..])
  {
    hide Utf8, AllHex, Hex4;
    UnicodeSlices(s, i);
    ok, code := HexAt(s, i + 1);
    j := i + 5;
    if !ok {
      return;
    }
    if 0xDC00 <= code <= 0xDFFF || code == 0 {
      code := 0;
    } else if 0xD800 <= code <= 0xDBFF {
      if At(s, j) != BACKSLASH || At(s, j + 1) != LOWER_U {
        code := 0;
      } else {
        var low;
        ok, low := HexAt(s, j + 2);
        j := j + 6;
        code := if low < 0xDC00 || low > 0xDFFF then 0 else 0x1_0000 + (code - 0xD800) * 0x400 + (low - 0xDC00);
      }
    }
  }

  /** Decodes the escape whose letter is at i. */
  method EscapeAt(s: seq<byte>, i: nat, out: array<byte>, k: nat) returns (ok: bool, j: nat, next: nat)
    requires i <= |s| && k < out.Length
    requires var p := ReadEscape(s[i..]); p.Some? ==> k + |p.value| < out.Length
    modifies out
    ensures ok <==> ReadEscape(s[i..]).Some?
    ensures ok ==> var p := ReadEscape(s[i..]);
                   i < j <= |s| && p.rest == s[j..] && next == k + |p.value| &&
                   out[..next] == old(out[..k]) + p.value
  {
    hide Utf8, ReadUnicode;
    Suffix(s, i);
    j, next := i + 1, k + 1;
    ok := At(s, i) != 0;
    if !ok {
      return;
    }
    var c := s[i];
    if c == LOWER_U {
      var code;
      ok, code, j := CodeAt(s, i);
      next := k;
      if ok && code != 0 {
        next := PutUtf8(code, out, k);
      }
      return;
    }
    out[k] := if c == 98 then 8
              else if c == 102 then 12
              else if c == 110 then NEWLINE
              else if c == 114 then 13
              else if c == 116 then TAB
              else c;
  }

  /** One turn of the copying loop. */
  method OneCharAt(s: seq<byte>, i: nat, out: array<byte>, k: nat) returns (ok: bool, j: nat, next: nat)
    requires i < |s| && s[i] != 0 && k < out.Length
    requires var p := OneChar(s[i..]); p.Some? ==> k + |p.value| < out.Length
    modifies out
    ensures ok <==> OneChar(s[i..]).Some?
    ensures ok ==> var p := OneChar(s[i..]);
                   i < j <= |s| && p.rest == s[j..] && next == k + |p.value| &&
                   out[..next] == old(out[..k]) + p.value
  {
    hide ReadEscape;
    Suffix(s, i);
    if s[i] == BACKSLASH {
      ok, j, next := EscapeAt(s, i + 1, out, k);
    } else {
      out[k] := s[i];
      ok, j, next := true, i + 1, k + 1;
    }
  }

  /** parse_string: the decoded string stands in front of its terminator in a buffer that never overflows. */
  method ParseStringAt(s: seq<byte>, i: nat) returns (ok: bool, out: array<byte>, k: nat, j: nat)
    requires i <= |s|
    ensures ok <==> ParseString(s[i..]).Some?
    ensures ok ==> i < j <= |s| && k < out.Length && out[k] == 0
    ensures ok ==> ParseString(s[i..]) == Some(out[..k], s[j..])
    ensures fresh(out)
  {
    hide ReadChars, OneChar, Counted;
    Suffix(s, i);
    if At(s, i) != QUOTE {
      ok, k, j := false, 0, i;
      out := new byte[0];
      return;
    }
    var len := CountAt(s, i + 1);
    out := new byte[len + 1];
    ok, j, k := true, i + 1, 0;
    BeforeBounds([], ReadChars(s[j..]));
    while ok && At(s, j) != QUOTE && At(s, j) != 0
      invariant i < j <= |s| && k + (if ok then Counted(s[j..]) else 0) < out.Length
      invariant ok ==> ReadChars(s[i + 1..]) == Before(out[..k], ReadChars(s[j..]))
      invariant !ok ==> ReadChars(s[i + 1..]).None?
      decreases |s| - j, ok
    {
      Suffix(s, j);
      ReadCharsStep(s[j..]);
      ghost var had, left := out[..k], s[j..];
      var more, j', k' := OneCharAt(s, j, out, k);
      if more {
        BeforeBefore(had, OneChar(left).value, ReadChars(s[j'..]));
        j, k := j', k';
      } else {
        ok := false;
      }
    }
    if ok {
      StringEnd(s, j);
      ghost var got := out[..k];
      BeforeBounds(got, ReadChars(s[j..]));
      out[k] := 0;
      assert out[..k] == got;
      j := if At(s, j) == QUOTE then j + 1 else j;
    }
  }

  lemma BeforeBounds(a: seq<byte>, p: Parsed<seq<byte>>)
    ensures Before([], p) == p
    ensures p.Some? && p.value == [] ==> Before(a, p) == Some(a, p.rest)
  {
    if p.Some? {
      assert [] + p.value == p.value;
      assert p.value == [] ==> a + p.value == a;
    }
  }

  lemma StringEnd(s: seq<byte>, j: nat)
    requires j <= |s| && (At(s, j) == QUOTE || At(s, j) == 0)
    ensures ReadChars(s[j..]) == Some([], s[if At(s, j) == QUOTE then j + 1 else j..])
  {
    Suffix(s, j);
  }

  // ---- Values -------------------------------------------------------------------------------

  /** The parse of a list from behind one of its elements. */
  function ItemsTail(t: seq<byte>): Parsed<seq<Json>> {
    if Head(t) == COMMA then ParseItems(t[1..])
    else if Head(t) == CLOSE_BRACKET then Some([], t[1..])
    else None
  }

  function MembersTail(t: seq<byte>): Parsed<seq<Member>> {
    if Head(t) == COMMA then ParseMembers(t[1..])
    else if Head(t) == CLOSE_BRACE then Some([], t[1..])
    else None
  }

  function Prepend<T>(a: seq<T>, p: Parsed<seq<T>>): Parsed<seq<T>> {
    if p.None? then None else Some(a + p.value, p.rest)
  }

  lemma PrependTwice<T>(a: seq<T>, b: seq<T>, p: Parsed<seq<T>>)
    ensures Prepend(a, Prepend(b, p)) == Prepend(a + b, p)
    ensures p.Some? && p.value == [] ==> Prepend(a, p) == Some(a, p.rest)
  {
    if p.Some? {
      Assoc(a, b, p.value);
      assert p.value == [] ==> a + p.value == a;
    }
  }

  lemma ItemsStep(s: seq<byte>)
    ensures ParseItems(s) ==
            (var v := ParseValue(Skip(s));
             if v.None? then None else Prepend([v.value], ItemsTail(Skip(v.rest))))
  {
    hide ParseValue, Skip;
    var v := ParseValue(Skip(s));
    if v.Some? && Head(Skip(v.rest)) == CLOSE_BRACKET {
      assert [v.value] + [] == [v.value];
    }
  }

  lemma MembersStep(s: seq<byte>)
    ensures ParseMembers(s) ==
            (var k := ParseString(Skip(s));
             if k.None? then None
             else
               var t := Skip(k.rest);
               if Head(t) != COLON then None
               else
                 var v := ParseValue(Skip(t[1..]));
                 if v.None? then None else Prepend([Member(k.value, v.value)], MembersTail(Skip(v.rest))))
  {
    hide ParseValue, ParseString, Skip;
    var k := ParseString(Skip(s));
    if k.Some? && Head(Skip(k.rest)) == COLON {
      var v := ParseValue(Skip(Skip(k.rest)[1..]));
      if v.Some? && Head(Skip(v.rest)) == CLOSE_BRACE {
        assert [Member(k.value, v.value)] + [] == [Member(k.value, v.value)];
      }
    }
  }

  lemma ParsesWord(s: seq<byte>)
    ensures StartsWith(s, NULL_TEXT) ==> ParseValue(s) == Some(Null, s[4..])
    ensures StartsWith(s, FALSE_TEXT) ==> ParseValue(s) == Some(False, s[5..])
    ensures StartsWith(s, TRUE_TEXT) ==> ParseValue(s) == Some(True, s[4..])
    ensures (&& !StartsWith(s, NULL_TEXT) && !StartsWith(s, FALSE_TEXT) && !StartsWith(s, TRUE_TEXT)
             && Head(s) != QUOTE && Head(s) != MINUS && !IsDigit(Head(s))
             && Head(s) != OPEN_BRACKET && Head(s) != OPEN_BRACE) ==> ParseValue(s).None?
  {
    hide ParseNumber, ParseString, ParseItems, ParseMembers;
    assert StartsWith(s, FALSE_TEXT) ==> s[0] == FALSE_TEXT[0];
    assert StartsWith(s, TRUE_TEXT) ==> s[0] == TRUE_TEXT[0];
    assert StartsWith(s, NULL_TEXT) ==> s[0] == NULL_TEXT[0];
  }

  method ParseValueAt(s: seq<byte>, i: nat) returns (ok: bool, v: Json, j: nat)
    requires i <= |s|
    ensures ok <==> ParseValue(s[i..]).Some?
    ensures ok ==> i < j <= |s| && ParseValue(s[i..]) == Some(v, s[j..])
    decreases |s| - i, 2
  {
    hide ParseValue, ParseNumber, ParseString, ParseItems, ParseMembers, Skip, MatchesAt;
    ParsesWord(s[i..]);
    MatchesStart(s, i, NULL_TEXT);
    MatchesStart(s, i, FALSE_TEXT);
    MatchesStart(s, i, TRUE_TEXT);
    Suffix(s, i);
    ok, v, j := true, Null, i;
    if MatchesAt(s, i, NULL_TEXT) {
      MatchLength(s, i, NULL_TEXT);
      j := i + 4;
    } else if MatchesAt(s, i, FALSE_TEXT) {
      MatchLength(s, i, FALSE_TEXT);
      v, j := False, i + 5;
    } else if MatchesAt(s, i, TRUE_TEXT) {
      MatchLength(s, i, TRUE_TEXT);
      v, j := True, i + 4;
    } else if At(s, i) == QUOTE {
      ParsesAsString(s[i..]);
      var out, k;
      ok, out, k, j := ParseStringAt(s, i);
      v := if ok then String(out[..k]) else Null;
    } else if At(s, i) == MINUS || IsDigit(At(s, i)) {
      ParsesAsNumber(s[i..]);
      ok, v, j := ParseNumberAt(s, i);
    } else if At(s, i) == OPEN_BRACKET {
      ok, v, j := ParseArrayAt(s, i);
    } else if At(s, i) == OPEN_BRACE {
      ok, v, j := ParseObjectAt(s, i);
    } else {
      ok := false;
    }
  }

  lemma MatchLength(s: seq<byte>, i: nat, lit: seq<byte>)
    requires MatchesAt(s, i, lit)
    ensures i + |lit| <= |s|
  {
  }

  method ParseArrayAt(s: seq<byte>, i: nat) returns (ok: bool, v: Json, j: nat)
    requires i < |s| && s[i] == OPEN_BRACKET
    ensures ok <==> ParseValue(s[i..]).Some?
    ensures ok ==> i < j <= |s| && ParseValue(s[i..]) == Some(v, s[j..])
    decreases |s| - i, 1
  {
    hide ParseValue, ParseItems, ItemsTail, Prepend, Skip;
    Suffix(s, i);
    ParsesAsArray(s[i..]);
    ok, v := true, Array([]);
    j := SkipAt(s, i + 1);
    Suffix(s, j);
    if At(s, j) == CLOSE_BRACKET {
      j := j + 1;
      return;
    }
    var items;
    ok, items, j := ParseItemsAt(s, j);
    v := Array(items);
  }

  method ParseItemsAt(s: seq<byte>, i: nat) returns (ok: bool, items: seq<Json>, j: nat)
    requires i <= |s|
    ensures ok <==> ParseItems(s[i..]).Some?
    ensures ok ==> i < j <= |s| && ParseItems(s[i..]) == Some(items, s[j..])
    decreases |s| - i, 3
  {
    hide ParseValue, ParseItems, ItemsTail, Prepend, Skip;
    items := [];
    ItemsStep(s[i..]);
    j := SkipAt(s, i);
    var v;
    ok, v, j := ParseValueAt(s, j);
    if !ok {
      return;
    }
    items := [v];
    j := SkipAt(s, j);
    while At(s, j) == COMMA
      invariant i < j <= |s|
      invariant ParseItems(s[i..]) == Prepend(items, ItemsTail(s[j..]))
      decreases |s| - j
    {
      TailsAt(s, j);
      ItemsStep(s[j + 1..]);
      ghost var more := ItemsTail(s[j..]);
      j := SkipAt(s, j + 1);
      ok, v, j := ParseValueAt(s, j);
      PrependFails(items, more);
      if !ok {
        return;
      }
      j := SkipAt(s, j);
      PrependTwice(items, [v], ItemsTail(s[j..]));
      items := items + [v];
    }
    TailsAt(s, j);
    PrependFails(items, ItemsTail(s[j..]));
    ok := At(s, j) == CLOSE_BRACKET;
    if ok {
      PrependTwice(items, [], ItemsTail(s[j..]));
      j := j + 1;
    }
  }

  lemma TailsAt(s: seq<byte>, j: nat)
    requires j <= |s|
    ensures At(s, j) == COMMA ==>
              ItemsTail(s[j..]) == ParseItems(s[j + 1..]) && MembersTail(s[j..]) == ParseMembers(s[j + 1..])
    ensures At(s, j) == CLOSE_BRACKET ==> ItemsTail(s[j..]) == Some([], s[j + 1..])
    ensures At(s, j) == CLOSE_BRACE ==> MembersTail(s[j..]) == Some([], s[j + 1..])
    ensures At(s, j) != COMMA && At(s, j) != CLOSE_BRACKET ==> ItemsTail(s[j..]).None?
    ensures At(s, j) != COMMA && At(s, j) != CLOSE_BRACE ==> MembersTail(s[j..]).None?
  {
    hide ParseItems, ParseMembers;
    Suffix(s, j);
  }

  lemma PrependFails<T>(a: seq<T>, p: Parsed<seq<T>>)
    ensures Prepend(a, p).None? <==> p.None?
  {
  }

  /** The key, the colon and the value of one member. */
  method ParseMemberAt(s: seq<byte>, i: nat) returns (ok: bool, m: Member, j: nat)
    requires i <= |s|
    ensures !ok ==> ParseMembers(s[i..]).None?
    ensures ok ==> i < j <= |s| && ParseMembers(s[i..]) == Prepend([m], MembersTail(s[j..]))
    decreases |s| - i, 3
  {
    hide ParseValue, ParseString, ParseMembers, MembersTail, Prepend, Skip;
    MembersStep(s[i..]);
    m := Member([], Null);
    j := SkipAt(s, i);
    var out, k;
    ok, out, k, j := ParseStringAt(s, j);
    if !ok {
      return;
    }
    m := m.(key := out[..k]);
    j := SkipAt(s, j);
    Suffix(s, j);
    if At(s, j) != COLON {
      ok := false;
      return;
    }
    j := SkipAt(s, j + 1);
    var v;
    ok, v, j := ParseValueAt(s, j);
    if !ok {
      return;
    }
    m := m.(value := v);
    j := SkipAt(s, j);
  }

  method ParseObjectAt(s: seq<byte>, i: nat) returns (ok: bool, v: Json, j: nat)
    requires i < |s| && s[i] == OPEN_BRACE
    ensures ok <==> ParseValue(s[i..]).Some?
    ensures ok ==> i < j <= |s| && ParseValue(s[i..]) == Some(v, s[j..])
    decreases |s| - i, 1
  {
    hide ParseValue, ParseMembers, MembersTail, Prepend, Skip;
    Suffix(s, i);
    ParsesAsObject(s[i..]);
    ok, v := true, Object([]);
    j := SkipAt(s, i + 1);
    Suffix(s, j);
    if At(s, j) == CLOSE_BRACE {
      j := j + 1;
      return;
    }
    var members;
    ok, members, j := ParseMembersAt(s, j);
    v := Object(members);
  }

  method ParseMembersAt(s: seq<byte>, i: nat) returns (ok: bool, members: seq<Member>, j: nat)
    requires i <= |s|
    ensures ok <==> ParseMembers(s[i..]).Some?
    ensures ok ==> i < j <= |s| && ParseMembers(s[i..]) == Some(members, s[j..])
    decreases |s| - i, 4
  {
    hide ParseValue, ParseMembers, MembersTail, Prepend, Skip;
    var m;
    members := [];
    ok, m, j := ParseMemberAt(s, i);
    if !ok {
      return;
    }
    members := [m];
    while At(s, j) == COMMA
      invariant i < j <= |s|
      invariant ParseMembers(s[i..]) == Prepend(members, MembersTail(s[j..]))
      decreases |s| - j
    {
      TailsAt(s, j);
      PrependFails(members, MembersTail(s[j..]));
      ok, m, j := ParseMemberAt(s, j + 1);
      if !ok {
        return;
      }
      PrependTwice(members, [m], MembersTail(s[j..]));
      members := members + [m];
    }
    TailsAt(s, j);
    PrependFails(members, MembersTail(s[j..]));
    ok := At(s, j) == CLOSE_BRACE;
    if ok {
      PrependTwice(members, [], MembersTail(s[j..]));
      j := j + 1;
    }
  }

  /** cJSON_Parse: white space, a value, and whatever follows it. */
  method Parse(text: seq<byte>) returns (ok: bool, v: Json)
    ensures ok <==> ParseValue(Skip(text)).Some?
    ensures ok ==> ParseValue(Skip(text)).value == v
  {
    hide ParseValue, Skip;
    assert text[0..] == text;
    var j := SkipAt(text, 0);
    ok, v, j := ParseValueAt(text, j);
  }
}
