/** Bytes and machine words as the source lays them out: little-endian words in frame headers,
    big-endian ones in packet headers, and 32/64-bit two's complement. */
module Bytes {

  type byte = b: int | 0 <= b < 256

  const TWO32 := 0x1_0000_0000
  const TWO64 := 0x1_0000_0000_0000_0000

  /** The unsigned n-byte image of v, and the signed value an n-byte word is read back as. */
  function Wrap32(v: int): (r: int)
    ensures -0x8000_0000 <= r < 0x8000_0000
    ensures -0x8000_0000 <= v < 0x8000_0000 ==> r == v
  {
    var u := v % TWO32;
    if u < 0x8000_0000 then u else u - TWO32
  }

  function Wrap64(v: int): (r: int)
    ensures -0x8000_0000_0000_0000 <= r < 0x8000_0000_0000_0000
    ensures -0x8000_0000_0000_0000 <= v < 0x8000_0000_0000_0000 ==> r == v
  {
    var u := v % TWO64;
    if u < 0x8000_0000_0000_0000 then u else u - TWO64
  }

  function Pow256(n: nat): (p: nat)
    ensures p > 0
  {
    if n == 0 then 1 else 256 * Pow256(n - 1)
  }

  lemma Pow256Values()
    ensures Pow256(4) == TWO32 && Pow256(8) == TWO64
  {
    assert Pow256(4) == 256 * 256 * 256 * Pow256(1);
    assert Pow256(8) == 256 * 256 * 256 * 256 * Pow256(4);
  }

  /** The low byte of v shifted right arithmetically by 8k bits. */
  function ByteAt(v: int, k: nat): byte
    decreases k
  {
    if k == 0 then v % 256 else ByteAt(v / 256, k - 1)
  }

  /** The value of a little-endian byte string, and the n low bytes of v in that order. */
  function LE(s: seq<byte>): nat {
    if s == [] then 0 else s[0] + 256 * LE(s[1..])
  }

  function LEBytes(v: int, n: nat): (s: seq<byte>)
    ensures |s| == n
    decreases n
  {
    if n == 0 then [] else [v % 256] + LEBytes(v / 256, n - 1)
  }

  /** The value of a big-endian byte string, and the n low bytes of v in that order. */
  function BE(s: seq<byte>): nat {
    if s == [] then 0 else 256 * BE(s[..|s| - 1]) + s[|s| - 1]
  }

  function BEBytes(v: int, n: nat): (s: seq<byte>)
    ensures |s| == n
    decreases n
  {
    if n == 0 then [] else BEBytes(v / 256, n - 1) + [v % 256]
  }

  lemma DivModSplit(v: int, p: nat)
    requires p > 0
    ensures v % (256 * p) == v % 256 + 256 * ((v / 256) % p)
  {
    var q, m := v / 256, v % 256;
    var qq, r := q / p, q % p;
    assert v == 256 * (qq * p + r) + m;
    assert v == (256 * p) * qq + (256 * r + m) by {
      assert 256 * (qq * p + r) == (256 * p) * qq + 256 * r;
    }
    assert 0 <= 256 * r + m < 256 * p by {
      assert r <= p - 1;
    }
    ModUnique(v, 256 * p, qq, 256 * r + m);
  }

  lemma MultipleOutgrows(d: int, x: int)
    requires d > 0
    ensures x >= 1 ==> d * x >= d
    ensures x <= -1 ==> d * x <= -d
  {
    if x >= 1 {
      assert d * x == d + d * (x - 1);
    } else if x <= -1 {
      assert d * x == -d + d * (x + 1);
    }
  }

  lemma ModUnique(v: int, d: nat, q: int, r: int)
    requires d > 0 && v == d * q + r && 0 <= r < d
    ensures v % d == r && v / d == q
  {
    var q', r' := v / d, v % d;
    var x := q - q';
    assert d * x == d * q - d * q';
    MultipleOutgrows(d, x);
  }

  /** Writing a word and reading it back gives the word modulo the width, for every width. */
  lemma {:induction false} LERoundTrip(v: int, n: nat)
    ensures LE(LEBytes(v, n)) == v % Pow256(n)
    decreases n
  {
    if n > 0 {
      LERoundTrip(v / 256, n - 1);
      DivModSplit(v, Pow256(n - 1));
      assert LEBytes(v, n)[1..] == LEBytes(v / 256, n - 1);
    }
  }

  lemma {:induction false} BERoundTrip(v: int, n: nat)
    ensures BE(BEBytes(v, n)) == v % Pow256(n)
    decreases n
  {
    if n > 0 {
      BERoundTrip(v / 256, n - 1);
      DivModSplit(v, Pow256(n - 1));
      assert BEBytes(v, n)[..n - 1] == BEBytes(v / 256, n - 1);
    }
  }

  /** The byte written by each explicit shift-and-mask is the big-endian byte at that place. */
  lemma {:induction false} BEBytesAt(v: int, n: nat, i: nat)
    requires i < n
    ensures BEBytes(v, n)[i] == ByteAt(v, n - 1 - i)
    decreases n
  {
    if i < n - 1 {
      BEBytesAt(v / 256, n - 1, i);
    }
  }

  lemma {:induction false} LEBound(s: seq<byte>)
    ensures LE(s) < Pow256(|s|)
  {
    if s != [] {
      LEBound(s[1..]);
    }
  }

  lemma {:induction false} BEBound(s: seq<byte>)
    ensures BE(s) < Pow256(|s|)
  {
    if s != [] {
      BEBound(s[..|s| - 1]);
    }
  }

  lemma Assoc<T>(a: seq<T>, b: seq<T>, c: seq<T>)
    ensures (a + b) + c == a + (b + c)
  {
  }

  /** Concatenation of a sequence of byte strings. */
  function Concat(ss: seq<seq<byte>>): seq<byte> {
    if ss == [] then [] else ss[0] + Concat(ss[1..])
  }

  lemma {:induction false} ConcatAppend(a: seq<seq<byte>>, b: seq<seq<byte>>)
    ensures Concat(a + b) == Concat(a) + Concat(b)
  {
    if a == [] {
      assert a + b == b;
    } else {
      ConcatAppend(a[1..], b);
      assert (a + b)[0] == a[0] && (a + b)[1..] == a[1..] + b;
      Assoc(a[0], Concat(a[1..]), Concat(b));
    }
  }

  lemma ConcatSnoc(a: seq<seq<byte>>, x: seq<byte>)
    ensures Concat(a + [x]) == Concat(a) + x
  {
    ConcatAppend(a, [x]);
    assert Concat([x]) == x + Concat([]);
    assert Concat([x]) == x;
  }

  /** dst with bytes copied over it at off. */
  function Patch(dst: seq<byte>, off: nat, bytes: seq<byte>): (r: seq<byte>)
    requires off + |bytes| <= |dst|
    ensures |r| == |dst|
  {
    dst[..off] + bytes + dst[off + |bytes|..]
  }

  lemma PatchPatch(dst: seq<byte>, off: nat, a: seq<byte>, b: seq<byte>)
    requires off + |a| + |b| <= |dst|
    ensures Patch(Patch(dst, off, a), off + |a|, b) == Patch(dst, off, a + b)
  {
  }

  function Min(a: int, b: int): (m: int)
    ensures m <= a && m <= b && (m == a || m == b)
  {
    if a > b then b else a
  }
}
