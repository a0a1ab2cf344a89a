/** The o_* writer of libsubtitle/utils/ClosedCaptionJson.c: a cursor into a bounded buffer and one flag
    that says whether the next element needs a comma. */
module CaptionWriters {
  import opened Bytes
  import opened Json
  import opened JsonTexts
  import opened CompactJsons

  function Ascii(s: string): (r: seq<byte>)
    ensures |r| == |s| && forall i | 0 <= i < |s| :: r[i] == s[i] as int % 256
  {
    seq(|s|, i requires 0 <= i < |s| => (s[i] as int) % 256)
  }

  function Comma(hasProp: bool): seq<byte> {
    When(hasProp, [COMMA])
  }

  lemma {:induction false} CaptionSnoc(s: seq<byte>, c: byte)
    ensures CaptionAll(s + [c]) == CaptionAll(s) + CaptionByte(c)
  {
    hide CaptionByte;
    if s == [] {
      assert CaptionAll([c]) == CaptionByte(c) + CaptionAll([c][1..]);
    } else {
      CaptionSnoc(s[1..], c);
      assert (s + [c])[1..] == s[1..] + [c];
      Assoc(CaptionByte(s[0]), CaptionAll(s[1..]), CaptionByte(c));
    }
  }

  lemma CaptionNext(s: seq<byte>, i: nat)
    requires i < |s|
    ensures CaptionAll(s[..i + 1]) == CaptionAll(s[..i]) + CaptionByte(s[i])
  {
    CaptionSnoc(s[..i], s[i]);
    assert s[..i] + [s[i]] == s[..i + 1];
  }

  lemma {:induction false} CaptionGrows(s: seq<byte>, i: nat)
    requires i <= |s|
    ensures |CaptionAll(s[..i])| <= |CaptionAll(s)|
    decreases |s| - i
  {
    if i < |s| {
      CaptionNext(s, i);
      CaptionGrows(s, i + 1);
    } else {
      assert s[..i] == s;
    }
  }

  class Output {
    const buf: array<byte>
    var pos: nat
    var left: nat
    var hasProp: bool
    const flash: bool

    ghost predicate Valid()
      reads this
    {
      pos + left == buf.Length
    }

    ghost function Text(): seq<byte>
      reads this, buf
      requires Valid()
    {
      buf[..pos]
    }

    /** What every writing step did: all of t or not all of it, and never anything in front of it. */
    twostate predicate Wrote(ok: bool, t: seq<byte>)
      reads this, buf
      requires old(Valid())
    {
      && Valid()
      && (ok <==> |t| < old(left))
      && old(Text()) <= Text()
      && (ok ==> Text() == old(Text()) + t && left == old(left) - |t|)
    }

    constructor (buf: array<byte>, nanoseconds: nat)
      ensures Valid() && this.buf == buf && Text() == [] && left == buf.Length && !hasProp
      ensures flash <==> (nanoseconds / 250_000_000) % 2 == 1
    {
      this.buf := buf;
      pos, left, hasProp := 0, buf.Length, false;
      flash := (nanoseconds / 250_000_000) % 2 == 1;
      new;
      assert buf[..0] == [];
    }

    /** o_printf, with the formatted text given: vsnprintf cuts it to the room, and then nothing counts. */
    method Printf(t: seq<byte>) returns (ok: bool)
      requires Valid()
      modifies this`pos, this`left, buf
      ensures Wrote(ok, t) && hasProp == old(hasProp)
      ensures ok ==> buf[pos] == 0
      ensures !ok ==> pos == old(pos) && left == old(left)
    {
      if left == 0 {
        return false;
      }
      var n := if |t| < left then |t| else left - 1;
      ghost var had := buf[..pos];
      var next := Emit(buf, pos, t[..n]);
      buf[next] := 0;
      assert buf[..next] == had + t[..n];
      ok := |t| < left;
      if ok {
        assert t[..n] == t;
        pos, left := pos + n, left - n;
      } else {
        assert buf[..pos] == buf[..next][..pos] == had;
      }
    }

    method PropBegin(key: seq<byte>) returns (ok: bool)
      requires Valid()
      modifies this`pos, this`left, this`hasProp, buf
      ensures Wrote(ok, Comma(old(hasProp)) + KeyText(key))
      ensures hasProp == if ok then false else old(hasProp)
    {
      hide KeyText;
      ok := true;
      if hasProp {
        ok := Printf([COMMA]);
        if !ok {
          return;
        }
      }
      ok := Printf(KeyText(key));
      if ok {
        hasProp := false;
      }
    }

    method PropEnd()
      modifies this`hasProp
      ensures hasProp
    {
      hasProp := true;
    }

    method Symbol(sym: byte) returns (ok: bool)
      requires Valid()
      modifies this`pos, this`left, this`hasProp, buf
      ensures Wrote(ok, Comma(old(hasProp) && (sym == OPEN_BRACE || sym == OPEN_BRACKET)) + [sym])
      ensures ok ==> buf[pos] == 0
      ensures !ok ==> hasProp == old(hasProp)
      ensures ok && (sym == OPEN_BRACE || sym == OPEN_BRACKET) ==> !hasProp
      ensures ok && (sym == CLOSE_BRACE || sym == CLOSE_BRACKET) ==> hasProp
    {
      ok := true;
      if hasProp && (sym == OPEN_BRACE || sym == OPEN_BRACKET) {
        ok := Printf([COMMA]);
        if !ok {
          return;
        }
      }
      ok := Printf([sym]);
      if ok {
        if sym == OPEN_BRACE || sym == OPEN_BRACKET {
          hasProp := false;
        } else if sym == CLOSE_BRACE || sym == CLOSE_BRACKET {
          hasProp := true;
        }
      }
    }

    /** A key, and a value whose text is given: what o_bool_prop and o_int_prop share. */
    method WordProp(key: seq<byte>, t: seq<byte>) returns (ok: bool)
      requires Valid()
      modifies this`pos, this`left, this`hasProp, buf
      ensures Wrote(ok, Comma(old(hasProp)) + (KeyText(key) + t))
      ensures ok ==> hasProp
    {
      hide KeyText;
      ghost var had, c := Text(), Comma(hasProp);
      ok := PropBegin(key);
      Assoc(c, KeyText(key), t);
      if !ok {
        return;
      }
      ok := Printf(t);
      Assoc(had, c + KeyText(key), t);
      if ok {
        PropEnd();
      }
    }

    method BoolProp(key: seq<byte>, val: bool) returns (ok: bool)
      requires Valid()
      modifies this`pos, this`left, this`hasProp, buf
      ensures Wrote(ok, Comma(old(hasProp)) + CompactMember(Member(key, if val then True else False)))
      ensures ok ==> hasProp
    {
      hide KeyText;
      ok := WordProp(key, if val then TRUE_TEXT else FALSE_TEXT);
    }

    method IntProp(key: seq<byte>, val: int) returns (ok: bool)
      requires Valid()
      modifies this`pos, this`left, this`hasProp, buf
      ensures Wrote(ok, Comma(old(hasProp)) + CompactMember(Member(key, Number(val))))
      ensures ok ==> hasProp
    {
      hide KeyText, PrintNumber;
      ok := WordProp(key, PrintNumber(val));
    }

    method PutC(c: byte) returns (ok: bool)
      requires Valid()
      modifies this`pos, this`left, buf
      ensures Valid() && hasProp == old(hasProp) && old(Text()) <= Text()
      ensures ok <==> old(left) > 0
      ensures ok ==> Text() == old(Text()) + [c] && left == old(left) - 1
    {
      ok := left > 0;
      if ok {
        buf[pos] := c;
        pos, left := pos + 1, left - 1;
      }
    }

    method PutEscaped(c: byte) returns (ok: bool)
      requires Valid()
      modifies this`pos, this`left, buf
      ensures Valid() && hasProp == old(hasProp) && old(Text()) <= Text()
      ensures ok <==> |CaptionByte(c)| <= old(left)
      ensures ok ==> Text() == old(Text()) + CaptionByte(c) && left == old(left) - |CaptionByte(c)|
    {
      ghost var had := Text();
      if c == BACKSLASH || c == NEWLINE || c == 13 || c == QUOTE {
        ok := PutC(BACKSLASH);
        if ok {
          ok := PutC(if c == NEWLINE then 110 else if c == 13 then 114 else c);
        }
      } else {
        ok := PutC(c);
      }
    }

    method PutAll(val: seq<byte>) returns (ok: bool)
      requires Valid()
      modifies this`pos, this`left, buf
      ensures Valid() && hasProp == old(hasProp) && old(Text()) <= Text()
      ensures ok <==> |CaptionAll(val)| <= old(left)
      ensures ok ==> Text() == old(Text()) + CaptionAll(val) && left == old(left) - |CaptionAll(val)|
    {
      hide CaptionAll, CaptionByte;
      ghost var had, room := Text(), left;
      var i := 0;
      ok := true;
      assert had + [] == had;
      assert CaptionAll(val[..0]) == [] by { CaptionEmpty(val); }
      while i < |val|
        invariant i <= |val| && Valid() && hasProp == old(hasProp)
        invariant Text() == had + CaptionAll(val[..i]) && left + |CaptionAll(val[..i])| == room
      {
        CaptionNext(val, i);
        CaptionGrows(val, i + 1);
        ghost var before := CaptionAll(val[..i]);
        ok := PutEscaped(val[i]);
        if !ok {
          PrefixChain(had, before, Text());
          return;
        }
        Assoc(had, before, CaptionByte(val[i]));
        i := i + 1;
      }
      assert val[..i] == val;
    }

    method StrProp(key: seq<byte>, val: seq<byte>) returns (ok: bool)
      requires Valid()
      modifies this`pos, this`left, this`hasProp, buf
      ensures Wrote(ok, Comma(old(hasProp)) + CompactMember(Member(key, String(val))))
      ensures ok ==> hasProp
    {
      hide KeyText, CaptionAll, Comma;
      ghost var had, c, k, s := Text(), Comma(hasProp), KeyText(key), CaptionAll(val);
      StringMember(had, c, key, val);
      ok := PropBegin(key);
      if !ok {
        return;
      }
      ok := Printf([QUOTE]);
      PrefixChain(had, c + k, Text());
      if !ok {
        return;
      }
      ok := PutAll(val);
      PrefixChain(had, c + k + [QUOTE], Text());
      if !ok {
        return;
      }
      ok := Printf([QUOTE]);
      PrefixChain(had, c + k + [QUOTE] + s, Text());
      if ok {
        PropEnd();
      }
    }
  }

  lemma CaptionEmpty(s: seq<byte>)
    ensures CaptionAll(s[..0]) == []
  {
  }

  lemma PrefixChain(a: seq<byte>, b: seq<byte>, c: seq<byte>)
    ensures a + b <= c ==> a <= c
    ensures (a + b) + [] == a + b
  {
    if a + b <= c {
      assert a == (a + b)[..|a|];
    }
  }

  lemma StringMember(had: seq<byte>, c: seq<byte>, key: seq<byte>, val: seq<byte>)
    ensures var m := c + CompactMember(Member(key, String(val)));
            && |m| == |c| + |KeyText(key)| + |CaptionAll(val)| + 2
            && had + m == (((had + (c + KeyText(key))) + [QUOTE]) + CaptionAll(val)) + [QUOTE]
    ensures var k := c + KeyText(key);
            && (had + k) + [QUOTE] == had + (k + [QUOTE])
            && ((had + k) + [QUOTE]) + CaptionAll(val) == had + (k + [QUOTE] + CaptionAll(val))
  {
    hide KeyText, CaptionAll;
  }
}
