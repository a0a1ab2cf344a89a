/** The buffered printer of libsubtitle/utils/cJSON.c: one growing buffer, an offset, and pointers that
    ensure hands out. It refines the text the allocating printer produces. */
module JsonBuffers {
  import opened Bytes
  import opened Json
  import opened JsonTexts
  import opened JsonPrinters
  import opened PowersOfTwo

  /** More than any one request asks for beyond the text it is for. */
  const SLACK := 21

  class PrintBuffer {
    var buffer: array<byte>
    var length: nat
    var offset: nat
    /** The end of the space the last ensure granted. */
    ghost var granted: nat

    ghost predicate Valid()
      reads this
    {
      length == buffer.Length && offset <= length && granted <= length
    }

    ghost function Done(): seq<byte>
      reads this, buffer
      requires Valid()
    {
      buffer[..offset]
    }

    constructor (prebuffer: nat)
      requires prebuffer > 0
      ensures Valid() && offset == 0 && length == prebuffer && fresh(buffer)
    {
      buffer := new byte[prebuffer];
      length, offset, granted := prebuffer, 0, 0;
    }

    /** Makes room for needed bytes at the offset, moving to a larger buffer if it must. */
    method Ensure(needed: nat)
      requires Valid() && 0 < needed && offset + needed <= LIMIT
      modifies this
      ensures Valid() && offset == old(offset) && granted == offset + needed
      ensures buffer == old(buffer) || fresh(buffer)
      ensures old(length) <= length && buffer[..old(length)] == old(buffer[..])
      ensures granted <= old(length) ==> buffer == old(buffer) && length == old(length)
      ensures granted > old(length) ==> RoundsUp(granted, length)
    {
      hide RoundsUp;
      var end := needed + offset;
      granted := end;
      if end <= length {
        assert buffer[..length] == buffer[..];
        return;
      }
      var newSize := Pow2Gt(end);
      assert end <= newSize by { RoundsUpBound(end, newSize); }
      var newBuffer := new byte[newSize];
      CopyBytes(newBuffer, 0, buffer[..]);
      assert newBuffer[..length] == buffer[..];
      length := newSize;
      buffer := newBuffer;
    }

    /** This and the next two are how the printers write: inside the granted space, leaving the rest of the
        buffer alone. */
    method Write(ptr: nat, t: seq<byte>) returns (next: nat)
      requires Valid() && offset <= ptr && ptr + |t| <= granted
      modifies buffer
      ensures next == ptr + |t| && buffer[..next] == old(buffer[..ptr]) + t && buffer[next..] == old(buffer[next..])
    {
      next := Emit(buffer, ptr, t);
    }

    method WriteTabs(ptr: nat, n: nat) returns (next: nat)
      requires Valid() && offset <= ptr && ptr + n <= granted
      modifies buffer
      ensures next == ptr + n && buffer[..next] == old(buffer[..ptr]) + Tabs(n)
      ensures buffer[next..] == old(buffer[next..])
    {
      next := EmitTabs(buffer, ptr, n);
    }

    method WriteQuoted(ptr: nat, s: seq<byte>, flag: bool)
      requires Valid() && offset <= ptr && ptr + |PrintString(s)| + 1 <= granted
      requires !flag ==> EscapeAll(s) == s
      modifies buffer
      ensures buffer[..] == Patch(old(buffer[..]), ptr, PrintString(s) + [0])
    {
      WriteString(buffer, ptr, s, flag);
    }

    /** Text that the offset moves over at once, with or without a terminator behind it. */
    method Append(t: seq<byte>, terminated: bool)
      requires Valid() && (t != [] || terminated) && offset + |t| + 1 <= LIMIT
      modifies this, buffer
      ensures Valid() && (buffer == old(buffer) || fresh(buffer))
      ensures offset == old(offset) + |t| && Done() == old(Done()) + t
    {
      ghost var had := Done();
      Ensure(if terminated then |t| + 1 else |t|);
      assert buffer[..offset] == had;
      var next := Write(offset, t);
      if terminated {
        var end := Write(next, [0]);
        assert buffer[..next] == had + t by { TakeTake(buffer[..end], had + t, [0]); }
      }
      offset := next;
    }

    method AppendTabs(n: nat)
      requires Valid() && n > 0 && offset + n <= LIMIT
      modifies this, buffer
      ensures Valid() && (buffer == old(buffer) || fresh(buffer))
      ensures offset == old(offset) + n && Done() == old(Done()) + Tabs(n)
    {
      hide Tabs;
      ghost var had := Done();
      Ensure(n);
      assert buffer[..offset] == had;
      offset := WriteTabs(offset, n);
    }

    /** The last text of a value: terminated, and still in front of the offset. */
    method Finish(t: seq<byte>, needed: nat)
      requires Valid() && |t| < needed <= |t| + SLACK && offset + |t| + SLACK <= LIMIT
      modifies this, buffer
      ensures Valid() && (buffer == old(buffer) || fresh(buffer))
      ensures offset == old(offset) && HoldsAt(buffer[..], 0, old(Done()) + t)
    {
      ghost var had := Done();
      Ensure(needed);
      assert buffer[..offset] == had;
      var next := Write(offset, t);
      var end := Write(next, [0]);
      assert buffer[..next] == had + t by { TakeTake(buffer[..end], had + t, [0]); }
      assert buffer[..][0..next] == buffer[..next];
      assert buffer[next] == buffer[..end][next];
    }

    /** offset = update(p): the offset moves to the end of the text standing in the buffer. */
    method Update(ghost start: nat, ghost t: seq<byte>)
      requires Valid() && HoldsAt(buffer[..], 0, t) && start <= offset <= |t| && IsText(t[start..])
      modifies this`offset
      ensures Valid() && offset == |t| && Done() == t
    {
      ghost var tail := t[offset..];
      assert HoldsAt(buffer[..], offset, tail) by { HoldsTail(buffer[..], offset, t); }
      assert IsText(tail) by { TailIsText(t, start, offset); }
      var n := Strlen(buffer, offset, tail);
      offset := offset + n;
      assert buffer[..][0..offset] == buffer[..offset];
    }

    method PrintStringPtr(s: seq<byte>)
      requires Valid() && IsText(s) && offset + |PrintString(s)| + SLACK <= LIMIT
      modifies this, buffer
      ensures Valid() && (buffer == old(buffer) || fresh(buffer))
      ensures offset == old(offset) && HoldsAt(buffer[..], 0, old(Done()) + PrintString(s))
    {
      hide PrintString, IsText;
      ghost var had := Done();
      var flag, room := StringRoom(s);
      Ensure(room);
      assert buffer[..offset] == had;
      ghost var was := buffer[..];
      WriteQuoted(offset, s, flag);
      PatchHolds(was, offset, PrintString(s));
      assert was[..offset] == had;
    }

    /** print_value through the buffer: the text stands behind what stood there, and the result points to
        its start, unless an object with members was formatted. */
    method PrintValue(v: Json, depth: nat, fmt: bool) returns (start: nat)
      requires Valid() && Printable(v) && offset + |Print(v, depth, fmt)| + SLACK <= LIMIT
      modifies this, buffer
      ensures Valid() && (buffer == old(buffer) || fresh(buffer))
      ensures old(offset) <= offset <= old(offset) + |Print(v, depth, fmt)|
      ensures HoldsAt(buffer[..], 0, old(Done()) + Print(v, depth, fmt))
      ensures start == ReturnedStart(v, depth, fmt, old(offset))
      decreases v, 1
    {
      hide PrintString, PrintNumber, PrintItems, PrintMembers, HoldsAt;
      start := offset;
      match v
      case Null => Finish(NULL_TEXT, 5);
      case False => Finish(FALSE_TEXT, 6);
      case True => Finish(TRUE_TEXT, 5);
      case Number(n) =>
        NumberFits(n);
        ZeroText();
        Finish(PrintNumber(n), if n == 0 then 2 else 21);
      case String(s) => PrintStringPtr(s);
      case Array(items) => start := PrintArray(items, depth, fmt);
      case Object(members) => start := PrintObject(members, depth, fmt);
    }

    /** One value and update(p) behind it. */
    method PrintInside(v: Json, depth: nat, fmt: bool)
      requires Valid() && Printable(v) && offset + |Print(v, depth, fmt)| + SLACK <= LIMIT
      modifies this, buffer
      ensures Valid() && (buffer == old(buffer) || fresh(buffer))
      ensures offset == old(offset) + |Print(v, depth, fmt)|
      ensures Done() == old(Done()) + Print(v, depth, fmt)
      decreases v, 2
    {
      hide Print, HoldsAt, IsText, Printable;
      ghost var had, from, t := Done(), offset, Print(v, depth, fmt);
      PrintIsText(v, depth, fmt);
      var start := PrintValue(v, depth, fmt);
      assert (had + t)[from..] == t;
      Update(from, had + t);
    }

    method PrintItem(items: seq<Json>, k: nat, depth: nat, fmt: bool)
      requires Valid() && k < |items| && PrintableItems(items)
      requires offset + |Print(items[k], depth, fmt)| + |AfterItem(k + 1 < |items|, fmt)| + SLACK <= LIMIT
      modifies this, buffer
      ensures Valid() && (buffer == old(buffer) || fresh(buffer))
      ensures Done() == old(Done()) + Print(items[k], depth, fmt) + AfterItem(k + 1 < |items|, fmt)
      decreases items, 0
    {
      hide Print, Printable, PrintableItems, AfterItem;
      PrintableAt(items, k);
      AfterItemLength(k + 1 < |items|, fmt);
      PrintInside(items[k], depth, fmt);
      if k + 1 < |items| {
        Append(AfterItem(true, fmt), true);
      } else {
        assert Done() + [] == Done();
      }
    }

    method PrintAllItems(items: seq<Json>, depth: nat, fmt: bool)
      requires Valid() && PrintableItems(items)
      requires offset + |PrintItems(items, depth, fmt)| + SLACK <= LIMIT
      modifies this, buffer
      ensures Valid() && (buffer == old(buffer) || fresh(buffer))
      ensures Done() == old(Done()) + PrintItems(items, depth, fmt)
      decreases items, 1
    {
      hide Print, PrintItems, PrintableItems, AfterItem;
      ghost var all := Done() + PrintItems(items, depth, fmt);
      var k := 0;
      assert items[0..] == items;
      while k < |items|
        invariant k <= |items| && Valid() && (buffer == old(buffer) || fresh(buffer))
        invariant Done() + PrintItems(items[k..], depth, fmt) == all
        decreases |items| - k
      {
        ItemsNext(items, k, depth, fmt, Done());
        PrintItem(items, k, depth, fmt);
        k := k + 1;
      }
      NoItems(items[k..], depth, fmt);
      assert Done() + [] == Done();
    }

    method PrintArray(items: seq<Json>, depth: nat, fmt: bool) returns (start: nat)
      requires Valid() && PrintableItems(items)
      requires offset + |Print(Array(items), depth, fmt)| + SLACK <= LIMIT
      modifies this, buffer
      ensures Valid() && (buffer == old(buffer) || fresh(buffer))
      ensures old(offset) <= offset <= old(offset) + |Print(Array(items), depth, fmt)|
      ensures HoldsAt(buffer[..], 0, old(Done()) + Print(Array(items), depth, fmt))
      ensures start == old(offset)
      decreases items, 2
    {
      hide Print, PrintItems, PrintableItems, HoldsAt;
      start := offset;
      ghost var had := Done();
      ArrayText(items, depth, fmt);
      if items == [] {
        NoItems(items, depth + 1, fmt);
        Finish([OPEN_BRACKET, CLOSE_BRACKET], 3);
        return;
      }
      ghost var text := PrintItems(items, depth + 1, fmt);
      Append([OPEN_BRACKET], false);
      PrintAllItems(items, depth + 1, fmt);
      Assoc(had, [OPEN_BRACKET], text);
      Finish([CLOSE_BRACKET], 2);
      Assoc(had, [OPEN_BRACKET] + text, [CLOSE_BRACKET]);
    }

    /** A member up to its value. */
    method PrintBeforeValue(key: seq<byte>, depth: nat, fmt: bool)
      requires Valid() && IsText(key) && depth > 0 && offset + |BeforeValue(key, depth, fmt)| + SLACK <= LIMIT
      modifies this, buffer
      ensures Valid() && (buffer == old(buffer) || fresh(buffer))
      ensures offset == old(offset) + |BeforeValue(key, depth, fmt)|
      ensures Done() == old(Done()) + BeforeValue(key, depth, fmt)
    {
      hide PrintString, IsText, Tabs, HoldsAt;
      if fmt {
        AppendTabs(depth);
      }
      ghost var had, from, t := Done(), offset, PrintString(key);
      EscapeIsText(key);
      PrintStringPtr(key);
      assert (had + t)[from..] == t;
      Update(from, had + t);
      Append(if fmt then [COLON, TAB] else [COLON], false);
    }

    method PrintMember(members: seq<Member>, k: nat, depth: nat, fmt: bool)
      requires Valid() && k < |members| && PrintableMembers(members) && depth > 0
      requires var m := members[k];
               offset + |BeforeValue(m.key, depth, fmt)| + |Print(m.value, depth, fmt)|
               + |AfterMember(k + 1 < |members|, fmt)| + SLACK <= LIMIT
      modifies this, buffer
      ensures Valid() && (buffer == old(buffer) || fresh(buffer))
      ensures var m := members[k];
              Done() == old(Done()) + BeforeValue(m.key, depth, fmt) + Print(m.value, depth, fmt)
                        + AfterMember(k + 1 < |members|, fmt)
      decreases members, 0
    {
      hide Print, Printable, PrintableMembers, AfterMember, BeforeValue, IsText;
      var m := members[k];
      PrintableMemberAt(members, k);
      PrintBeforeValue(m.key, depth, fmt);
      PrintInside(m.value, depth, fmt);
      Append(AfterMember(k + 1 < |members|, fmt), true);
    }

    method PrintAllMembers(members: seq<Member>, depth: nat, fmt: bool)
      requires Valid() && PrintableMembers(members) && depth > 0
      requires offset + |PrintMembers(members, depth, fmt)| + SLACK <= LIMIT
      modifies this, buffer
      ensures Valid() && (buffer == old(buffer) || fresh(buffer))
      ensures Done() == old(Done()) + PrintMembers(members, depth, fmt)
      decreases members, 1
    {
      hide Print, PrintMembers, PrintableMembers, AfterMember, BeforeValue;
      ghost var all := Done() + PrintMembers(members, depth, fmt);
      var k := 0;
      assert members[0..] == members;
      while k < |members|
        invariant k <= |members| && Valid() && (buffer == old(buffer) || fresh(buffer))
        invariant Done() + PrintMembers(members[k..], depth, fmt) == all
        decreases |members| - k
      {
        MembersNext(members, k, depth, fmt, Done());
        PrintMember(members, k, depth, fmt);
        k := k + 1;
      }
      NoMembers(members[k..], depth, fmt);
      assert Done() + [] == Done();
    }

    method PrintObject(members: seq<Member>, depth: nat, fmt: bool) returns (start: nat)
      requires Valid() && PrintableMembers(members)
      requires offset + |Print(Object(members), depth, fmt)| + SLACK <= LIMIT
      modifies this, buffer
      ensures Valid() && (buffer == old(buffer) || fresh(buffer))
      ensures old(offset) <= offset <= old(offset) + |Print(Object(members), depth, fmt)|
      ensures HoldsAt(buffer[..], 0, old(Done()) + Print(Object(members), depth, fmt))
      ensures start == ReturnedStart(Object(members), depth, fmt, old(offset))
      decreases members, 2
    {
      hide Print, PrintMembers, PrintableMembers, HoldsAt, Tabs;
      start := offset;
      ghost var had := Done();
      if members == [] {
        PrintEmptyObject(depth, fmt);
        return;
      }
      ObjectText(members, depth, fmt);
      var d := depth + 1;
      var open := if fmt then [OPEN_BRACE, NEWLINE] else [OPEN_BRACE];
      var close := When(fmt, Tabs(depth)) + [CLOSE_BRACE];
      ghost var text := PrintMembers(members, d, fmt);
      assert open == [OPEN_BRACE] + When(fmt, [NEWLINE]);
      Append(open, true);
      PrintAllMembers(members, d, fmt);
      Assoc(had, open, text);
      Finish(close, if fmt then d + 1 else 2);
      Assoc(had, open + text, close);
      // the loop that writes the closing tabs runs on the variable that held the start
      start := if fmt then d - 1 else start;
    }

    method PrintEmptyObject(depth: nat, fmt: bool)
      requires Valid() && offset + |Print(Object([]), depth, fmt)| + SLACK <= LIMIT
      modifies this, buffer
      ensures Valid() && (buffer == old(buffer) || fresh(buffer))
      ensures offset == old(offset)
      ensures HoldsAt(buffer[..], 0, old(Done()) + Print(Object([]), depth, fmt))
    {
      hide Print, HoldsAt, Tabs;
      EmptyObjectText(depth, fmt);
      if fmt {
        Finish([OPEN_BRACE] + [NEWLINE] + Tabs(depth - 1) + [CLOSE_BRACE], depth + 4);
      } else {
        Finish([OPEN_BRACE] + [CLOSE_BRACE], 3);
      }
    }
  }

  /** Where print_value says its text starts. Only an object with members, formatted, at an offset other
      than its depth is not where the result points; cJSON_PrintBuffered uses no result but the outermost. */
  function ReturnedStart(v: Json, depth: nat, fmt: bool, offset: nat): nat {
    if v.Object? && v.members != [] && fmt then depth else offset
  }

  lemma ZeroText()
    ensures PrintNumber(0) == [ZERO]
  {
  }

  lemma AfterItemLength(more: bool, fmt: bool)
    ensures more ==> 1 <= |AfterItem(more, fmt)| <= 2
    ensures !more ==> AfterItem(more, fmt) == []
  {
  }

  lemma TakeTake(a: seq<byte>, b: seq<byte>, c: seq<byte>)
    requires a == b + c
    ensures a[..|b|] == b && a[|b|..] == c
  {
  }

  lemma PatchHolds(a: seq<byte>, at: nat, t: seq<byte>)
    requires at + |t| + 1 <= |a|
    ensures HoldsAt(Patch(a, at, t + [0]), 0, a[..at] + t)
  {
  }

  lemma HoldsTail(a: seq<byte>, at: nat, t: seq<byte>)
    requires HoldsAt(a, 0, t) && at <= |t|
    ensures HoldsAt(a, at, t[at..])
  {
    assert a[0..|t|][at..] == a[at..|t|];
  }

  lemma TailIsText(t: seq<byte>, i: nat, j: nat)
    requires i <= j <= |t| && IsText(t[i..])
    ensures IsText(t[j..])
  {
    assert t[j..] == t[i..][j - i..];
  }

  lemma RoundsUpBound(x: int, r: int)
    requires RoundsUp(x, r)
    ensures x <= r
  {
  }

  /** cJSON_PrintBuffered: whatever the first capacity, the text is the one the allocating printer makes. */
  method PrintBuffered(v: Json, prebuffer: nat, fmt: bool) returns (out: array<byte>, start: nat)
    requires prebuffer > 0 && Printable(v) && |Print(v, 0, fmt)| + 21 <= 0x4000_0000
    ensures HoldsAt(out[..], start, Print(v, 0, fmt))
  {
    hide Print, Printable;
    var p := new PrintBuffer(prebuffer);
    ghost var t := Print(v, 0, fmt);
    assert p.Done() == [];
    start := p.PrintValue(v, 0, fmt);
    assert [] + t == t;
    out := p.buffer;
  }

  /** The two printers side by side. */
  method PrintBothWays(v: Json, prebuffer: nat, fmt: bool) returns (same: bool)
    requires prebuffer > 0 && Printable(v) && |Print(v, 0, fmt)| + 21 <= 0x4000_0000
    ensures same
  {
    hide Print, Printable, IsText;
    ghost var t := Print(v, 0, fmt);
    PrintIsText(v, 0, fmt);
    var a := JsonPrinters.PrintValue(v, 0, fmt);
    var b, start := PrintBuffered(v, prebuffer, fmt);
    var m := Strlen(a, 0, t);
    var n := Strlen(b, start, t);
    same := a[..m] == b[start..start + n];
    assert a[..m] == a[..][0..m];
    assert b[start..start + n] == b[..][start..start + n];
  }
}
