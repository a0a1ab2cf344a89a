/** Writing into character buffers, as every routine of libsubtitle/utils/cJSON.c does, and the string
    printer that both the allocating and the buffered printer share. */
module JsonTexts {
  import opened Bytes
  import opened Json

  lemma PatchNext(a: seq<byte>, at: nat, t: seq<byte>, c: byte)
    requires at + |t| < |a|
    ensures Patch(a, at, t)[at + |t| := c] == Patch(a, at, t + [c])
  {
  }

  lemma PatchNothing(a: seq<byte>, at: nat)
    requires at <= |a|
    ensures Patch(a, at, []) == a
  {
  }

  /** Behind what was written nothing changes, and in front of it neither. */
  lemma PatchView(a: seq<byte>, at: nat, t: seq<byte>)
    requires at + |t| <= |a|
    ensures Patch(a, at, t)[..at + |t|] == a[..at] + t
    ensures Patch(a, at, t)[at + |t|..] == a[at + |t|..]
  {
  }

  /** The buffer holds t from position at, with its terminator. */
  predicate HoldsAt(a: seq<byte>, at: nat, t: seq<byte>) {
    at + |t| < |a| && a[at..at + |t|] == t && a[at + |t|] == 0
  }

  /** memcpy, strcpy and sprintf alike. */
  method CopyBytes(a: array<byte>, at: nat, t: seq<byte>)
    requires at + |t| <= a.Length
    modifies a
    ensures a[..] == Patch(old(a[..]), at, t)
  {
    hide Patch;
    var i := 0;
    ghost var was := a[..];
    PatchNothing(was, at);
    while i < |t|
      invariant i <= |t| && a[..] == Patch(was, at, t[..i])
    {
      PatchNext(was, at, t[..i], t[i]);
      assert t[..i] + [t[i]] == t[..i + 1];
      a[at + i], i := t[i], i + 1;
    }
    assert t[..i] == t;
  }

  /** Writes t behind what stands in front of ptr, and touches nothing behind t. */
  method Emit(a: array<byte>, ptr: nat, t: seq<byte>) returns (next: nat)
    requires ptr + |t| <= a.Length
    modifies a
    ensures next == ptr + |t| && a[..next] == old(a[..ptr]) + t && a[next..] == old(a[next..])
  {
    hide Patch;
    ghost var was := a[..];
    CopyBytes(a, ptr, t);
    next := ptr + |t|;
    PatchView(was, ptr, t);
    ArrayView(a, was, ptr, next);
  }

  lemma ArrayView(a: array<byte>, was: seq<byte>, i: nat, j: nat)
    requires i <= j <= a.Length == |was|
    ensures a[..j] == a[..][..j] && a[j..] == a[..][j..]
  {
  }

  method EmitTabs(a: array<byte>, ptr: nat, n: int) returns (next: nat)
    requires ptr + |Tabs(n)| <= a.Length
    modifies a
    ensures next == ptr + |Tabs(n)| && a[..next] == old(a[..ptr]) + Tabs(n) && a[next..] == old(a[next..])
  {
    hide Tabs;
    next := ptr;
    ghost var start := a[..ptr];
    var i := 0;
    TabsSnoc(0);
    assert start + [] == start;
    while i < n
      invariant 0 <= i && (i <= n || (n < 0 && i == 0)) && next == ptr + i
      invariant a[..next] == start + Tabs(i) && a[ptr + |Tabs(n)|..] == old(a[ptr + |Tabs(n)|..])
    {
      TabsSnoc(i);
      next := Emit(a, next, [TAB]);
      Assoc(start, Tabs(i), [TAB]);
      i := i + 1;
    }
    TabsBelowZero(n);
  }

  lemma {:induction false} TabsSnoc(n: nat)
    ensures Tabs(0) == [] && Tabs(n + 1) == Tabs(n) + [TAB]
  {
    if n > 0 {
      TabsSnoc(n - 1);
    }
  }

  lemma TabsBelowZero(n: int)
    ensures n < 0 ==> Tabs(n) == Tabs(0)
  {
  }

  /** The C string at position at of a, read back. */
  method Strlen(a: array<byte>, at: nat, ghost t: seq<byte>) returns (n: nat)
    requires IsText(t) && HoldsAt(a[..], at, t)
    ensures n == |t|
  {
    n := 0;
    assert t == a[..][at..at + |t|];
    while a[at + n] != 0
      invariant n <= |t|
      invariant forall k | 0 <= k < |t| :: t[k] == a[at + k]
      decreases |t| - n
    {
      n := n + 1;
    }
  }

  // ---- Strings ------------------------------------------------------------------------------

  predicate MustEscape(c: byte) {
    0 < c < 32 || c == QUOTE || c == BACKSLASH
  }

  lemma {:induction false} EscapeNothing(s: seq<byte>)
    requires IsText(s) && forall i | 0 <= i < |s| :: !MustEscape(s[i])
    ensures EscapeAll(s) == s
  {
    if s != [] {
      EscapeNothing(s[1..]);
    }
  }

  lemma {:induction false} EscapeSnoc(s: seq<byte>, c: byte)
    ensures EscapeAll(s + [c]) == EscapeAll(s) + EscapeByte(c)
  {
    if s == [] {
      assert EscapeAll([c]) == EscapeByte(c) + EscapeAll([c][1..]);
    } else {
      EscapeSnoc(s[1..], c);
      assert (s + [c])[1..] == s[1..] + [c];
      Assoc(EscapeByte(s[0]), EscapeAll(s[1..]), EscapeByte(c));
    }
  }

  lemma EscapeNext(s: seq<byte>, i: nat)
    requires i < |s|
    ensures EscapeAll(s[..i + 1]) == EscapeAll(s[..i]) + EscapeByte(s[i])
  {
    EscapeSnoc(s[..i], s[i]);
    assert s[..i] + [s[i]] == s[..i + 1];
  }

  lemma {:induction false} EscapeGrows(s: seq<byte>, i: nat)
    requires i <= |s|
    ensures |EscapeAll(s[..i])| <= |EscapeAll(s)|
    decreases |s| - i
  {
    if i < |s| {
      EscapeNext(s, i);
      EscapeGrows(s, i + 1);
    } else {
      assert s[..i] == s;
    }
  }

  /** The first pass of print_string_ptr: does anything need escaping? */
  method FlagOf(s: seq<byte>) returns (flag: bool)
    ensures flag <==> exists i | 0 <= i < |s| :: MustEscape(s[i])
  {
    flag := false;
    var i := 0;
    while i < |s|
      invariant i <= |s|
      invariant flag <==> exists k | 0 <= k < i :: MustEscape(s[k])
    {
      flag := flag || MustEscape(s[i]);
      i := i + 1;
    }
  }

  /** The second pass: the exact length of the escaped string. */
  method EscapedLength(s: seq<byte>) returns (len: nat)
    ensures len == |EscapeAll(s)|
  {
    len := 0;
    var i := 0;
    while i < |s|
      invariant i <= |s| && len == |EscapeAll(s[..i])|
    {
      EscapeNext(s, i);
      len := len + 1;
      if ShortEscape(s[i]) != 0 {
        len := len + 1;
      } else if s[i] < 32 {
        len := len + 5;
      }
      i := i + 1;
    }
    assert s[..i] == s;
  }

  /** The room print_string_ptr asks for: what it writes, no more and no less. */
  method StringRoom(s: seq<byte>) returns (flag: bool, room: nat)
    requires IsText(s)
    ensures room == |PrintString(s)| + 1
    ensures !flag ==> EscapeAll(s) == s
  {
    flag := FlagOf(s);
    var len := |s|;
    if flag {
      len := EscapedLength(s);
    } else {
      EscapeNothing(s);
    }
    room := len + 3;
  }

  method WriteEscape(a: array<byte>, at: nat, c: byte) returns (next: nat)
    requires at + |EscapeByte(c)| <= a.Length
    modifies a
    ensures next == at + |EscapeByte(c)| && a[..] == Patch(old(a[..]), at, EscapeByte(c))
  {
    if c > 31 && c != QUOTE && c != BACKSLASH {
      CopyBytes(a, at, [c]);
      next := at + 1;
    } else if ShortEscape(c) != 0 {
      CopyBytes(a, at, [BACKSLASH, ShortEscape(c)]);
      next := at + 2;
    } else {
      CopyBytes(a, at, [BACKSLASH, LOWER_U, ZERO, ZERO, HexDigit(c / 16), HexDigit(c % 16)]);
      next := at + 6;
    }
  }

  method WriteEscaped(a: array<byte>, at: nat, s: seq<byte>) returns (next: nat)
    requires at + |EscapeAll(s)| <= a.Length
    modifies a
    ensures next == at + |EscapeAll(s)| && a[..] == Patch(old(a[..]), at, EscapeAll(s))
  {
    hide Patch, EscapeByte;
    next := at;
    ghost var was := a[..];
    PatchNothing(was, at);
    var i := 0;
    while i < |s|
      invariant i <= |s| && next == at + |EscapeAll(s[..i])| <= a.Length
      invariant a[..] == Patch(was, at, EscapeAll(s[..i]))
    {
      EscapeNext(s, i);
      EscapeGrows(s, i + 1);
      PatchPatch(was, at, EscapeAll(s[..i]), EscapeByte(s[i]));
      next := WriteEscape(a, next, s[i]);
      i := i + 1;
    }
    assert s[..i] == s;
  }

  /** The string with its quotes and terminator, at position at. */
  method WriteString(a: array<byte>, at: nat, s: seq<byte>, flag: bool)
    requires at + |PrintString(s)| + 1 <= a.Length
    requires !flag ==> EscapeAll(s) == s
    modifies a
    ensures a[..] == Patch(old(a[..]), at, PrintString(s) + [0])
  {
    hide Patch, EscapeAll;
    ghost var was := a[..];
    CopyBytes(a, at, [QUOTE]);
    var next;
    PatchPatch(was, at, [QUOTE], EscapeAll(s));
    if flag {
      next := WriteEscaped(a, at + 1, s);
    } else {
      CopyBytes(a, at + 1, s);
      next := at + 1 + |s|;
    }
    PatchPatch(was, at, [QUOTE] + EscapeAll(s), [QUOTE, 0]);
    CopyBytes(a, next, [QUOTE, 0]);
    assert ([QUOTE] + EscapeAll(s)) + [QUOTE, 0] == PrintString(s) + [0];
  }

  // ---- Lengths ------------------------------------------------------------------------------

  function Pow10(n: nat): nat {
    if n == 0 then 1 else 10 * Pow10(n - 1)
  }

  lemma {:induction false} DigitsLength(n: nat, k: nat)
    requires k > 0 && n < Pow10(k)
    ensures |Digits(n)| <= k
    decreases k
  {
    if n >= 10 {
      assert k > 1;
      DigitsLength(n / 10, k - 1);
    }
  }

  /** The 21 bytes print_number asks for hold any 32-bit integer. */
  lemma NumberFits(n: int)
    requires Int32(n)
    ensures 1 <= |PrintNumber(n)| <= 11
  {
    assert Pow10(10) == 10 * 10 * 10 * 10 * 10 * Pow10(5);
    DigitsLength(if n < 0 then -n else n, 10);
  }

  lemma TextJoin(a: seq<byte>, b: seq<byte>)
    requires IsText(a) && IsText(b)
    ensures IsText(a + b)
  {
  }

  lemma {:induction false} EscapeIsText(s: seq<byte>)
    ensures IsText(EscapeAll(s)) && IsText(PrintString(s))
  {
    if s != [] {
      EscapeIsText(s[1..]);
    }
  }

  lemma SeparatorsAreText(key: seq<byte>, depth: nat, fmt: bool, more: bool)
    ensures IsText(BeforeValue(key, depth, fmt)) && IsText(AfterMember(more, fmt)) && IsText(AfterItem(more, fmt))
  {
    hide PrintString;
    EscapeIsText(key);
  }

  /** No printed text has a zero byte in it, so strlen finds its end. */
  lemma {:induction false} PrintIsText(v: Json, depth: nat, fmt: bool)
    ensures IsText(Print(v, depth, fmt))
    decreases v, 1
  {
    hide PrintItems, PrintMembers, PrintString, Digits, Tabs;
    match v
    case Null =>
    case False =>
    case True =>
    case Number(n) =>
    case String(s) => EscapeIsText(s);
    case Array(items) => PrintItemsIsText(items, depth + 1, fmt);
    case Object(members) => PrintMembersIsText(members, depth + 1, fmt);
  }

  lemma {:induction false} PrintItemsIsText(items: seq<Json>, depth: nat, fmt: bool)
    ensures IsText(PrintItems(items, depth, fmt))
    decreases items, 0
  {
    hide Print, AfterItem;
    if items != [] {
      PrintIsText(items[0], depth, fmt);
      SeparatorsAreText([], depth, fmt, items[1..] != []);
      PrintItemsIsText(items[1..], depth, fmt);
    }
  }

  lemma {:induction false} PrintMembersIsText(members: seq<Member>, depth: nat, fmt: bool)
    ensures IsText(PrintMembers(members, depth, fmt))
    decreases members, 0
  {
    hide Print, BeforeValue, AfterMember, IsText;
    if members == [] {
      assert IsText([]) by { EmptyIsText(); }
    } else {
      var m := members[0];
      var a, b, c := BeforeValue(m.key, depth, fmt), Print(m.value, depth, fmt),
                     AfterMember(members[1..] != [], fmt);
      SeparatorsAreText(m.key, depth, fmt, members[1..] != []);
      PrintIsText(m.value, depth, fmt);
      PrintMembersIsText(members[1..], depth, fmt);
      TextJoin(a, b);
      TextJoin(a + b, c);
      TextJoin(a + b + c, PrintMembers(members[1..], depth, fmt));
    }
  }

  lemma EmptyIsText()
    ensures IsText([])
  {
  }
}
