/** libsubtitle/utils/cJSON.c on values: trees, the text the printers produce, and what the parser makes
    of a text. Text is bytes; a zero byte ends it, as it ends a C string. */
module Json {
  import opened Bytes

  datatype Json =
    | Null
    | False
    | True
    | Number(value: int)
    | String(text: seq<byte>)
    | Array(items: seq<Json>)
    | Object(members: seq<Member>)

  datatype Member = Member(key: seq<byte>, value: Json)

  const TAB := 9 as byte
  const NEWLINE := 10 as byte
  const SPACE := 32 as byte
  const QUOTE := 34 as byte
  const COMMA := 44 as byte
  const MINUS := 45 as byte
  const ZERO := 48 as byte
  const COLON := 58 as byte
  const OPEN_BRACKET := 91 as byte
  const BACKSLASH := 92 as byte
  const CLOSE_BRACKET := 93 as byte
  const LOWER_U := 117 as byte
  const OPEN_BRACE := 123 as byte
  const CLOSE_BRACE := 125 as byte

  const NULL_TEXT: seq<byte> := [110, 117, 108, 108]
  const FALSE_TEXT: seq<byte> := [102, 97, 108, 115, 101]
  const TRUE_TEXT: seq<byte> := [116, 114, 117, 101]

  // ---- The trees covered --------------------------------------------------------------------

  /** A C string: no byte of it is zero. */
  predicate IsText(s: seq<byte>) {
    forall i | 0 <= i < |s| :: s[i] != 0
  }

  predicate Int32(n: int) {
    -0x8000_0000 <= n < 0x8000_0000
  }

  predicate Printable(v: Json)
    decreases v, 1
  {
    match v
    case Null => true
    case False => true
    case True => true
    case Number(n) => Int32(n)
    case String(s) => IsText(s)
    case Array(items) => PrintableItems(items)
    case Object(members) => PrintableMembers(members)
  }

  predicate PrintableItems(items: seq<Json>)
    decreases items, 0
  {
    items != [] ==> Printable(items[0]) && PrintableItems(items[1..])
  }

  predicate PrintableMembers(members: seq<Member>)
    decreases members, 0
  {
    members != [] ==>
      IsText(members[0].key) && Printable(members[0].value) && PrintableMembers(members[1..])
  }

  // ---- Printing -----------------------------------------------------------------------------

  function Digits(n: nat): (s: seq<byte>)
    ensures s != []
    ensures forall i | 0 <= i < |s| :: ZERO <= s[i] <= ZERO + 9
  {
    if n < 10 then [(ZERO + n) as byte] else Digits(n / 10) + [(ZERO + n % 10) as byte]
  }

  /** print_number for integers: "0", or what "%d" gives. */
  function PrintNumber(n: int): seq<byte> {
    if n < 0 then [MINUS] + Digits(-n) else Digits(n)
  }

  function HexDigit(d: nat): byte
    requires d < 16
  {
    if d < 10 then (ZERO + d) as byte else (97 + d - 10) as byte
  }

  /** The letter of a two-character escape, if the byte has one. */
  function ShortEscape(c: byte): (e: byte)
    ensures e != 0 ==> e != LOWER_U
  {
    if c == BACKSLASH then BACKSLASH
    else if c == QUOTE then QUOTE
    else if c == 8 then 98
    else if c == 12 then 102
    else if c == NEWLINE then 110
    else if c == 13 then 114
    else if c == TAB then 116
    else 0
  }

  function EscapeByte(c: byte): (s: seq<byte>)
    ensures 1 <= |s| <= 6
  {
    if c > 31 && c != QUOTE && c != BACKSLASH then [c]
    else if ShortEscape(c) != 0 then [BACKSLASH, ShortEscape(c)]
    else [BACKSLASH, LOWER_U, ZERO, ZERO, HexDigit(c / 16), HexDigit(c % 16)]
  }

  function EscapeAll(s: seq<byte>): seq<byte> {
    if s == [] then [] else EscapeByte(s[0]) + EscapeAll(s[1..])
  }

  function PrintString(s: seq<byte>): seq<byte> {
    [QUOTE] + EscapeAll(s) + [QUOTE]
  }

  function Tabs(n: int): (s: seq<byte>)
    ensures |s| == if n < 0 then 0 else n
    ensures forall i | 0 <= i < |s| :: s[i] == TAB
  {
    if n <= 0 then [] else [TAB] + Tabs(n - 1)
  }

  function When(b: bool, s: seq<byte>): seq<byte> {
    if b then s else []
  }

  /** What print_value produces for an item at the given depth. */
  function Print(v: Json, depth: nat, fmt: bool): seq<byte>
    decreases v, 1
  {
    match v
    case Null => NULL_TEXT
    case False => FALSE_TEXT
    case True => TRUE_TEXT
    case Number(n) => PrintNumber(n)
    case String(s) => PrintString(s)
    case Array(items) =>
      [OPEN_BRACKET] + PrintItems(items, depth + 1, fmt) + [CLOSE_BRACKET]
    case Object(members) =>
      [OPEN_BRACE] + When(fmt, [NEWLINE]) + PrintMembers(members, depth + 1, fmt)
      + When(fmt, Tabs(if members == [] then depth - 1 else depth)) + [CLOSE_BRACE]
  }

  function PrintItems(items: seq<Json>, depth: nat, fmt: bool): seq<byte>
    decreases items, 0
  {
    if items == [] then []
    else Print(items[0], depth, fmt) + AfterItem(items[1..] != [], fmt) + PrintItems(items[1..], depth, fmt)
  }

  function AfterItem(more: bool, fmt: bool): seq<byte> {
    When(more, [COMMA] + When(fmt, [SPACE]))
  }

  function PrintMembers(members: seq<Member>, depth: nat, fmt: bool): seq<byte>
    decreases members, 0
  {
    if members == [] then []
    else
      BeforeValue(members[0].key, depth, fmt) + Print(members[0].value, depth, fmt)
      + AfterMember(members[1..] != [], fmt) + PrintMembers(members[1..], depth, fmt)
  }

  function BeforeValue(key: seq<byte>, depth: nat, fmt: bool): seq<byte> {
    When(fmt, Tabs(depth)) + PrintString(key) + [COLON] + When(fmt, [TAB])
  }

  function AfterMember(more: bool, fmt: bool): seq<byte> {
    When(more, [COMMA]) + When(fmt, [NEWLINE])
  }

  // ---- Parsing ------------------------------------------------------------------------------

  /** A parse: the value and the text behind it. None is a parse failure, or text whose reading this
      model does not cover: fractions, exponents, integers a double cannot hold, broken escapes. */
  datatype Parsed<T> = None | Some(value: T, rest: seq<byte>)

  function Head(s: seq<byte>): byte {
    if s == [] then 0 else s[0]
  }

  function Skip(s: seq<byte>): (r: seq<byte>)
    ensures |r| <= |s|
  {
    if Head(s) != 0 && s[0] <= 32 then Skip(s[1..]) else s
  }

  predicate IsDigit(c: byte) {
    ZERO <= c <= ZERO + 9
  }

  /** Accumulates a run of digits. */
  function ReadDigits(n: nat, s: seq<byte>): (r: (nat, seq<byte>))
    ensures |r.1| <= |s|
    decreases |s|
  {
    if IsDigit(Head(s)) then ReadDigits(n * 10 + (s[0] - ZERO) as nat, s[1..]) else (n, s)
  }

  const EXACT_DOUBLE := 0x20_0000_0000_0000

  function ParseNumber(s: seq<byte>): (p: Parsed<Json>)
    requires Head(s) == MINUS || IsDigit(Head(s))
    ensures p.Some? ==> |p.rest| < |s|
  {
    var t := if s[0] == MINUS then s[1..] else s;
    var u := if Head(t) == ZERO then t[1..] else t;
    // a first digit after the optional zero is never a second zero
    var (n, rest) := if IsDigit(Head(u)) && Head(u) != ZERO then ReadDigits(0, u) else (0, u);
    if Head(rest) == 46 || Head(rest) == 101 || Head(rest) == 69 || n > EXACT_DOUBLE then None
    else if |rest| == |s| then None
    else Some(Number(if s[0] == MINUS then -n else n), rest)
  }

  function HexValue(c: byte): (d: int)
    ensures -1 <= d < 16
  {
    if IsDigit(c) then c - ZERO
    else if 65 <= c <= 70 then c - 65 + 10
    else if 97 <= c <= 102 then c - 97 + 10
    else -1
  }

  predicate AllHex(s: seq<byte>) {
    forall i | 0 <= i < |s| :: HexValue(s[i]) >= 0
  }

  function Hex4(s: seq<byte>): (h: nat)
    requires |s| == 4 && AllHex(s)
    ensures h < 0x1_0000
  {
    0x1000 * HexValue(s[0]) + 0x100 * HexValue(s[1]) + 0x10 * HexValue(s[2]) + HexValue(s[3])
  }

  /** UTF-8, section 3 of RFC 3629. */
  function Utf8(uc: nat): (s: seq<byte>)
    requires uc < 0x11_0000
    ensures 1 <= |s| <= 4 && (uc < 0x1_0000 ==> |s| <= 3)
  {
    if uc < 0x80 then [uc as byte]
    else if uc < 0x800 then [(0xC0 + uc / 0x40) as byte, (0x80 + uc % 0x40) as byte]
    else if uc < 0x1_0000 then
      [(0xE0 + uc / 0x1000) as byte, (0x80 + uc / 0x40 % 0x40) as byte, (0x80 + uc % 0x40) as byte]
    else
      [(0xF0 + uc / 0x4_0000) as byte, (0x80 + uc / 0x1000 % 0x40) as byte,
       (0x80 + uc / 0x40 % 0x40) as byte, (0x80 + uc % 0x40) as byte]
  }

  predicate TrailBytes(s: seq<byte>, n: nat) {
    n <= |s| && forall i | 1 <= i < n :: 0x80 <= s[i] < 0xC0
  }

  function TrailBits(c: byte): nat
    requires 0x80 <= c
  {
    c as nat - 0x80
  }

  /** The code point at the head of s, in the layout of section 3 of RFC 3629. */
  function ReadUtf8(s: seq<byte>): (p: Parsed<nat>)
    ensures p.Some? ==> |p.rest| < |s|
  {
    if s == [] then None
    else if s[0] < 0x80 then Some(s[0] as nat, s[1..])
    else if 0xC0 <= s[0] < 0xE0 && TrailBytes(s, 2) then
      Some((s[0] as nat - 0xC0) * 0x40 + TrailBits(s[1]), s[2..])
    else if 0xE0 <= s[0] < 0xF0 && TrailBytes(s, 3) then
      Some(((s[0] as nat - 0xE0) * 0x40 + TrailBits(s[1])) * 0x40 + TrailBits(s[2]), s[3..])
    else if 0xF0 <= s[0] < 0xF8 && TrailBytes(s, 4) then
      Some((((s[0] as nat - 0xF0) * 0x40 + TrailBits(s[1])) * 0x40 + TrailBits(s[2])) * 0x40 + TrailBits(s[3]), s[4..])
    else None
  }

  /** The code points that can be read off, and the bytes where reading stops. */
  function CodePoints(s: seq<byte>): (seq<nat>, seq<byte>)
    decreases |s|
  {
    var p := ReadUtf8(s);
    if p.None? then ([], s)
    else
      var (more, rest) := CodePoints(p.rest);
      ([p.value] + more, rest)
  }

  /** Every code point is read back from its bytes, whatever follows them. */
  lemma Utf8Decodes(uc: nat, rest: seq<byte>)
    requires uc < 0x11_0000
    ensures ReadUtf8(Utf8(uc) + rest) == Some(uc, rest)
  {
    var u := Utf8(uc);
    assert (u + rest)[|u|..] == rest;
    SixBits(uc);
    SixBits(uc / 0x40);
    SixBits(uc / 0x40 / 0x40);
    assert uc / 0x1000 == uc / 0x40 / 0x40 && uc / 0x4_0000 == uc / 0x40 / 0x40 / 0x40;
  }

  lemma NothingToRead()
    ensures CodePoints([]) == ([], [])
  {
  }

  lemma SixBits(n: nat)
    ensures n == n / 0x40 * 0x40 + n % 0x40
  {
  }

  /** One escape: s starts behind the backslash. */
  function ReadEscape(s: seq<byte>): (p: Parsed<seq<byte>>)
    ensures p.Some? ==> |p.rest| < |s|
  {
    if Head(s) == 0 then None
    else if s[0] == LOWER_U then ReadUnicode(s)
    else Some([if s[0] == 98 then 8
               else if s[0] == 102 then 12
               else if s[0] == 110 then NEWLINE
               else if s[0] == 114 then 13
               else if s[0] == 116 then TAB
               else s[0]], s[1..])
  }

  /** A \u escape. A lone or misplaced surrogate and the zero character give nothing. */
  function ReadUnicode(s: seq<byte>): (p: Parsed<seq<byte>>)
    requires s != [] && s[0] == LOWER_U
    ensures p.Some? ==> |p.rest| < |s|
  {
    if |s| < 5 || !AllHex(s[1..5]) then None
    else
      var uc := Hex4(s[1..5]);
      if uc == 0 || 0xDC00 <= uc <= 0xDFFF then Some([], s[5..])
      else if uc < 0xD800 || uc > 0xDBFF then Some(Utf8(uc), s[5..])
      else if |s| < 7 || s[5] != BACKSLASH || s[6] != LOWER_U then Some([], s[5..])
      else if |s| < 11 || !AllHex(s[7..11]) then None
      else
        var uc2 := Hex4(s[7..11]);
        if uc2 < 0xDC00 || uc2 > 0xDFFF then Some([], s[11..])
        else Some(Utf8(0x1_0000 + (uc - 0xD800) * 0x400 + (uc2 - 0xDC00)), s[11..])
  }

  /** A hexadecimal digit of either case. */
  predicate IsHexOf(c: byte, d: nat) {
    || (d < 10 && c as int == 48 + d)
    || (10 <= d < 16 && (c as int == 65 + d - 10 || c as int == 97 + d - 10))
  }

  /** Four of them, the highest first. */
  predicate SpellsHex(s: seq<byte>, h: nat) {
    && |s| == 4 && h < 0x1_0000
    && IsHexOf(s[0], h / 0x1000) && IsHexOf(s[1], h / 0x100 % 0x10) && IsHexOf(s[2], h / 0x10 % 0x10)
    && IsHexOf(s[3], h % 0x10)
  }

  lemma HexReads(s: seq<byte>, h: nat)
    requires SpellsHex(s, h)
    ensures AllHex(s) && Hex4(s) == h
  {
    hide IsHexOf, HexValue;
    HexOne(s[0], h / 0x1000);
    HexOne(s[1], h / 0x100 % 0x10);
    HexOne(s[2], h / 0x10 % 0x10);
    HexOne(s[3], h % 0x10);
    Nibbles(h);
  }

  lemma HexOne(c: byte, d: nat)
    requires IsHexOf(c, d)
    ensures HexValue(c) == d
  {
  }

  lemma Nibbles(h: nat)
    ensures h == h / 0x1000 * 0x1000 + h / 0x100 % 0x10 * 0x100 + h / 0x10 % 0x10 * 0x10 + h % 0x10
  {
    var a, b := h / 0x10, h / 0x100;
    assert b == a / 0x10 && h / 0x1000 == b / 0x10;
  }

  /** Section 7 of RFC 8259, in capital or small digits: a character of the basic plane, whatever follows. */
  lemma BasicEscapeReads(uc: nat, hex: seq<byte>, rest: seq<byte>)
    requires 0 < uc < 0x1_0000 && !(0xD800 <= uc <= 0xDFFF) && SpellsHex(hex, uc)
    ensures ReadEscape([117] + hex + rest) == Some(Utf8(uc), rest)
  {
    hide Utf8, Hex4, AllHex;
    var s := [117] + hex + rest;
    HexReads(hex, uc);
    assert s[1..5] == hex && s[5..] == rest;
  }

  /** A character beyond it, as the pair of surrogates whose lower ten bits are its bits less 0x10000. */
  lemma PairEscapeReads(uc: nat, high: seq<byte>, low: seq<byte>, rest: seq<byte>)
    requires 0x1_0000 <= uc < 0x11_0000
    requires SpellsHex(high, 0xD800 + (uc - 0x1_0000) / 0x400) && SpellsHex(low, 0xDC00 + (uc - 0x1_0000) % 0x400)
    ensures ReadEscape([117] + high + [92, 117] + low + rest) == Some(Utf8(uc), rest)
  {
    hide Utf8, Hex4, AllHex;
    var s := [117] + high + [92, 117] + low + rest;
    HexReads(high, 0xD800 + (uc - 0x1_0000) / 0x400);
    HexReads(low, 0xDC00 + (uc - 0x1_0000) % 0x400);
    assert s[1..5] == high && s[5] == 92 && s[6] == 117 && s[7..11] == low && s[11..] == rest;
  }

  /** A second surrogate on its own and the zero character stand for nothing; so does a first one without an escape
      behind it, or with one that is no second surrogate, which goes with it. */
  lemma BrokenEscapeReads(uc: nat, hex: seq<byte>, next: nat, nextHex: seq<byte>, rest: seq<byte>)
    requires SpellsHex(hex, uc) && SpellsHex(nextHex, next)
    ensures uc == 0 || 0xDC00 <= uc <= 0xDFFF ==> ReadEscape([117] + hex + rest) == Some([], rest)
    ensures 0xD800 <= uc <= 0xDBFF && (|rest| < 2 || rest[0] != 92 || rest[1] != 117) ==>
              ReadEscape([117] + hex + rest) == Some([], rest)
    ensures 0xD800 <= uc <= 0xDBFF && !(0xDC00 <= next <= 0xDFFF) ==>
              ReadEscape([117] + hex + [92, 117] + nextHex + rest) == Some([], rest)
  {
    hide Utf8, Hex4, AllHex;
    var s, t := [117] + hex + rest, [117] + hex + [92, 117] + nextHex + rest;
    HexReads(hex, uc);
    HexReads(nextHex, next);
    assert s[1..5] == hex && s[5..] == rest;
    assert |rest| >= 1 ==> s[5] == rest[0];
    assert |rest| >= 2 ==> s[6] == rest[1];
    assert t[1..5] == hex && t[5] == 92 && t[6] == 117 && t[7..11] == nextHex && t[11..] == rest;
  }

  /** What is written for a byte: itself from 32 on, quote and backslash aside; the seven letters of section 7 of
      RFC 8259 that have one, and \u00 with two small hexadecimal digits for every other. */
  lemma EscapeExactly(c: byte)
    ensures EscapeByte(c) ==
            if c == 34 || c == 92 then [92, c]
            else if c >= 32 then [c]
            else if 8 <= c <= 13 && c != 11 then [92, [98, 116, 110, 0, 102, 114][c - 8]]
            else [92, 117, 48, 48, 48 + c / 16, if c % 16 < 10 then 48 + c % 16 else 87 + c % 16]
  {
  }

  /** The single-letter escapes, and any other byte for itself. */
  lemma LetterEscapeReads(c: byte, rest: seq<byte>)
    requires c != 0 && c != 117
    ensures ReadEscape([c] + rest) ==
            Some([if c == 98 then 8 else if c == 102 then 12 else if c == 110 then 10 else if c == 114 then 13
                  else if c == 116 then 9 else c], rest)
  {
    assert ([c] + rest)[1..] == rest;
  }

  /** White space is every byte from 1 to 32, and only that. */
  lemma {:induction false} SkipExactly(s: seq<byte>) returns (n: nat)
    ensures n <= |s| && Skip(s) == s[n..] && forall i | 0 <= i < n :: 1 <= s[i] <= 32
    ensures n < |s| ==> s[n] == 0 || s[n] > 32
  {
    n := 0;
    if Head(s) != 0 && s[0] <= 32 {
      var m := SkipExactly(s[1..]);
      n := m + 1;
    }
  }

  /** The characters up to the closing quote, or to the end of the text. */
  function ReadChars(s: seq<byte>): (p: Parsed<seq<byte>>)
    ensures p.Some? ==> |p.rest| <= |s|
    decreases |s|
  {
    if Head(s) == 0 then Some([], s)
    else if s[0] == QUOTE then Some([], s[1..])
    else
      var one := if s[0] == BACKSLASH then ReadEscape(s[1..]) else Some([s[0]], s[1..]);
      if one.None? then None
      else
        var more := ReadChars(one.rest);
        if more.None? then None else Some(one.value + more.value, more.rest)
  }

  function ParseString(s: seq<byte>): (p: Parsed<seq<byte>>)
    ensures p.Some? ==> |p.rest| < |s|
  {
    if Head(s) != QUOTE then None else ReadChars(s[1..])
  }

  predicate StartsWith(s: seq<byte>, lit: seq<byte>) {
    lit <= s
  }

  function ParseValue(s: seq<byte>): (p: Parsed<Json>)
    ensures p.Some? ==> |p.rest| < |s|
    decreases |s|, 1
  {
    if StartsWith(s, NULL_TEXT) then Some(Null, s[4..])
    else if StartsWith(s, FALSE_TEXT) then Some(False, s[5..])
    else if StartsWith(s, TRUE_TEXT) then Some(True, s[4..])
    else if Head(s) == QUOTE then
      var p := ParseString(s);
      if p.None? then None else Some(String(p.value), p.rest)
    else if Head(s) == MINUS || IsDigit(Head(s)) then ParseNumber(s)
    else if Head(s) == OPEN_BRACKET then
      var t := Skip(s[1..]);
      if Head(t) == CLOSE_BRACKET then Some(Array([]), t[1..])
      else
        var p := ParseItems(t);
        if p.None? then None else Some(Array(p.value), p.rest)
    else if Head(s) == OPEN_BRACE then
      var t := Skip(s[1..]);
      if Head(t) == CLOSE_BRACE then Some(Object([]), t[1..])
      else
        var p := ParseMembers(t);
        if p.None? then None else Some(Object(p.value), p.rest)
    else None
  }

  /** One or more values separated by commas, and the closing bracket. */
  function ParseItems(s: seq<byte>): (p: Parsed<seq<Json>>)
    ensures p.Some? ==> |p.rest| < |s|
    decreases |s|, 2
  {
    var v := ParseValue(Skip(s));
    if v.None? then None
    else
      var t := Skip(v.rest);
      if Head(t) == COMMA then
        var more := ParseItems(t[1..]);
        if more.None? then None else Some([v.value] + more.value, more.rest)
      else if Head(t) == CLOSE_BRACKET then Some([v.value], t[1..])
      else None
  }

  function ParseMembers(s: seq<byte>): (p: Parsed<seq<Member>>)
    ensures p.Some? ==> |p.rest| < |s|
    decreases |s|, 2
  {
    var k := ParseString(Skip(s));
    if k.None? then None
    else
      var t := Skip(k.rest);
      if Head(t) != COLON then None
      else
        var v := ParseValue(Skip(t[1..]));
        if v.None? then None
        else
          var u := Skip(v.rest);
          if Head(u) == COMMA then
            var more := ParseMembers(u[1..]);
            if more.None? then None else Some([Member(k.value, v.value)] + more.value, more.rest)
          else if Head(u) == CLOSE_BRACE then Some([Member(k.value, v.value)], u[1..])
          else None
  }

  // ---- The branches of parse_value ----------------------------------------------------------

  lemma ParsesAsNumber(t: seq<byte>)
    requires Head(t) == MINUS || IsDigit(Head(t))
    ensures ParseValue(t) == ParseNumber(t)
  {
    hide ParseNumber, ParseString, ParseItems, ParseMembers;
  }

  lemma ParsesAsString(t: seq<byte>)
    requires Head(t) == QUOTE
    ensures ParseValue(t) ==
            (var p := ParseString(t); if p.None? then None else Some(String(p.value), p.rest))
  {
    hide ParseNumber, ParseString, ParseItems, ParseMembers;
  }

  lemma ParsesAsArray(s: seq<byte>)
    requires Head(s) == OPEN_BRACKET
    ensures ParseValue(s) ==
            (var t := Skip(s[1..]);
             if Head(t) == CLOSE_BRACKET then Some(Array([]), t[1..])
             else var p := ParseItems(t); if p.None? then None else Some(Array(p.value), p.rest))
  {
    hide ParseItems, ParseMembers, ParseString, ParseNumber, Skip;
  }

  lemma ParsesAsObject(s: seq<byte>)
    requires Head(s) == OPEN_BRACE
    ensures ParseValue(s) ==
            (var t := Skip(s[1..]);
             if Head(t) == CLOSE_BRACE then Some(Object([]), t[1..])
             else var p := ParseMembers(t); if p.None? then None else Some(Object(p.value), p.rest))
  {
    hide ParseItems, ParseMembers, ParseString, ParseNumber, Skip;
  }
}
