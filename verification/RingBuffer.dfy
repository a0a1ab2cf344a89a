/** libsubtitle/utils/ringbuffer.c: a byte ring with explicit availability counters. Either position
    may rest at the buffer size until the next transfer wraps it. */
module RingBuffers {
  import opened Bytes

  /** n bytes of s starting at p, continuing from the front past the end. */
  function Circular(s: seq<byte>, p: nat, n: nat): (r: seq<byte>)
    requires p <= |s| && n <= |s|
    ensures |r| == n
  {
    if p + n <= |s| then s[p..p + n] else s[p..] + s[..p + n - |s|]
  }

  class RingBuffer {
    const buffer: array<byte>
    var readPos: int
    var writePos: int
    var readAvail: int
    var writeAvail: int

    ghost predicate Valid()
      reads this
    {
      && 0 < buffer.Length
      && 0 <= readPos <= buffer.Length
      && 0 <= writePos <= buffer.Length
      && 0 <= readAvail && 0 <= writeAvail
      && readAvail + writeAvail == buffer.Length
      // writePos is readPos + readAvail modulo the size
      && (writePos == readPos + readAvail
          || writePos == readPos + readAvail - buffer.Length
          || writePos == readPos + readAvail - 2 * buffer.Length)
    }

    ghost function Content(): (c: seq<byte>)
      requires Valid()
      reads this, buffer
      ensures |c| == readAvail
    {
      Circular(buffer[..], readPos, readAvail)
    }

    constructor (size: nat)
      requires size > 0
      ensures Valid() && Content() == [] && buffer.Length == size && fresh(buffer)
      ensures writeAvail == size
    {
      buffer := new byte[size](_ => 0);
      readPos, writePos, readAvail, writeAvail := 0, 0, 0, size;
    }

    /** Appends the longest prefix of src that fits. */
    method Write(src: seq<byte>) returns (count: int)
      requires Valid()
      modifies this, buffer
      ensures Valid()
      ensures count == Min(|src|, old(writeAvail))
      ensures Content() == old(Content()) + src[..count]
      ensures readAvail == old(readAvail) + count && writeAvail == old(writeAvail) - count
    {
      if |src| <= 0 {
        return 0;
      }
      count := if |src| < writeAvail then |src| else writeAvail;
      Store(src[..count]);
      AdvanceWrite(count);
    }

    /** Copies src to the write position, rolling over to the front of the buffer. */
    method Store(src: seq<byte>)
      requires Valid() && |src| <= writeAvail
      modifies buffer
      ensures Circular(buffer[..], readPos, readAvail + |src|) == old(Content()) + src
    {
      ghost var was := buffer[..];
      if writePos + |src| - buffer.Length > 0 {
        CopyWrapped(writePos, src);
      } else {
        CopyIn(writePos, src);
      }
      WriteLands(was, buffer[..], readPos, readAvail, writePos, src);
    }

    method AdvanceWrite(n: nat)
      requires Valid() && n <= writeAvail
      modifies this
      ensures Valid()
      ensures readPos == old(readPos)
      ensures readAvail == old(readAvail) + n && writeAvail == old(writeAvail) - n
    {
      var over := writePos + n - buffer.Length;
      writePos := if over > 0 then over else writePos + n;
      writeAvail := writeAvail - n;
      readAvail := readAvail + n;
    }

    /** Removes and returns the longest prefix of the content no longer than count. The bytes are
        fetched exactly as Peek fetches them. */
    method Read(count: int) returns (dst: seq<byte>)
      requires Valid()
      requires count < buffer.Length
      modifies this
      ensures Valid()
      ensures |dst| == if count <= 0 then 0 else Min(count, old(readAvail))
      ensures old(Content()) == dst + Content()
      ensures readAvail == old(readAvail) - |dst| && writeAvail == old(writeAvail) + |dst|
    {
      dst := Peek(count);
      AdvanceRead(|dst|);
    }

    method AdvanceRead(n: nat)
      requires Valid() && n <= readAvail
      modifies this
      ensures Valid()
      ensures Content() == old(Content())[n..]
      ensures readAvail == old(readAvail) - n && writeAvail == old(writeAvail) + n
    {
      ghost var s, p, avail := buffer[..], readPos, readAvail;
      TakeSplits(s, p, avail, n);
      var over := readPos + n - buffer.Length;
      if over > 0 {
        readPos := over;
      } else {
        readPos := readPos + n;
      }
      writeAvail := writeAvail + n;
      readAvail := readAvail - n;
      assert buffer[..] == s;
    }

    /** Returns what Read would, and changes nothing. */
    method Peek(count: int) returns (dst: seq<byte>)
      requires Valid()
      requires count < buffer.Length
      ensures |dst| == if count <= 0 then 0 else Min(count, readAvail)
      ensures dst == Content()[..|dst|]
    {
      if count <= 0 {
        return [];
      }
      var n := if count < readAvail then count else readAvail;
      var over := readPos + n - buffer.Length;
      TakeSplits(buffer[..], readPos, readAvail, n);
      if over > 0 {
        dst := TakeWrapped(readPos, over);
      } else {
        dst := buffer[readPos..readPos + n];
      }
    }

    method TakeWrapped(at: int, over: int) returns (dst: seq<byte>)
      requires 0 <= at <= buffer.Length && 0 <= over <= at
      ensures dst == buffer[..][at..] + buffer[..][..over]
    {
      dst := buffer[at..] + buffer[..over];
    }

    method CleanReset()
      requires 0 < buffer.Length
      modifies this
      ensures Valid() && Content() == [] && writeAvail == buffer.Length
    {
      readPos, writePos, readAvail, writeAvail := 0, 0, 0, buffer.Length;
    }

    method CopyWrapped(at: nat, src: seq<byte>)
      requires at <= buffer.Length && |src| <= buffer.Length && at + |src| > buffer.Length
      modifies buffer
      ensures Stored(old(buffer[..]), buffer[..], at, src)
    {
      var over := at + |src| - buffer.Length;
      var front, back := src[..|src| - over], src[|src| - over..];
      CopyIn(at, front);
      ghost var mid := buffer[..];
      CopyIn(0, back);
      forall i | 0 <= i < buffer.Length
        ensures buffer[..][i] == StoredByte(old(buffer[..]), at, src, i)
      {
        assert mid[i] == StoredByte(old(buffer[..]), at, front, i);
        assert buffer[..][i] == StoredByte(mid, 0, back, i);
      }
    }

    method CopyIn(at: nat, src: seq<byte>)
      requires at + |src| <= buffer.Length
      modifies buffer
      ensures Stored(old(buffer[..]), buffer[..], at, src)
    {
      forall k | 0 <= k < |src| {
        buffer[at + k] := src[k];
      }
    }
  }

  function Wrap(i: int, size: int): int {
    if i < size then i else i - size
  }

  lemma CircularAt(s: seq<byte>, p: nat, n: nat, k: nat)
    requires p <= |s| && n <= |s| && k < n
    ensures Circular(s, p, n)[k] == s[Wrap(p + k, |s|)]
  {
  }

  /** Taking n bytes and then the rest is taking them all. */
  lemma TakeSplits(s: seq<byte>, p: nat, avail: nat, n: nat)
    requires p <= |s| && n <= avail <= |s|
    ensures Circular(s, p, n) == Circular(s, p, avail)[..n]
    ensures Circular(s, if p + n > |s| then p + n - |s| else p + n, avail - n) == Circular(s, p, avail)[n..]
  {
    var next := if p + n > |s| then p + n - |s| else p + n;
    var all, head, tail := Circular(s, p, avail), Circular(s, p, n), Circular(s, next, avail - n);
    forall k | 0 <= k < n
      ensures head[k] == all[k]
    {
      CircularAt(s, p, avail, k);
      CircularAt(s, p, n, k);
    }
    forall k | 0 <= k < avail - n
      ensures tail[k] == all[n..][k]
    {
      CircularAt(s, p, avail, n + k);
      CircularAt(s, next, avail - n, k);
    }
  }

  /** The byte at i after copying src at w, wrapping past the end of s. */
  function StoredByte(s: seq<byte>, w: nat, src: seq<byte>, i: nat): byte
    requires w <= |s| && |src| <= |s| && i < |s|
  {
    if w <= i < w + |src| then src[i - w]
    else if i + |s| < w + |src| then src[i + |s| - w]
    else s[i]
  }

  ghost predicate Stored(s: seq<byte>, t: seq<byte>, w: nat, src: seq<byte>)
    requires w <= |s| && |src| <= |s|
  {
    |t| == |s| && forall i | 0 <= i < |s| :: t[i] == StoredByte(s, w, src, i)
  }

  lemma WriteLandsAt(s: seq<byte>, t: seq<byte>, r: nat, n: nat, w: nat, src: seq<byte>, k: nat)
    requires r <= |s| && w <= |s| && n + |src| <= |s| && k < n + |src|
    requires w == r + n || w == r + n - |s| || w == r + n - 2 * |s|
    requires |t| == |s| && t[Wrap(r + k, |s|)] == StoredByte(s, w, src, Wrap(r + k, |s|))
    ensures t[Wrap(r + k, |s|)] == if k < n then s[Wrap(r + k, |s|)] else src[k - n]
  {
  }

  /** Storing src at the write position extends the circular content by src. */
  lemma WriteLands(s: seq<byte>, t: seq<byte>, r: nat, n: nat, w: nat, src: seq<byte>)
    requires r <= |s| && w <= |s| && n + |src| <= |s| && 0 < |s|
    requires w == r + n || w == r + n - |s| || w == r + n - 2 * |s|
    requires Stored(s, t, w, src)
    ensures |t| == |s| && Circular(t, r, n + |src|) == Circular(s, r, n) + src
  {
    var c, d := Circular(t, r, n + |src|), Circular(s, r, n) + src;
    forall k | 0 <= k < n + |src|
      ensures c[k] == d[k]
    {
      hide Circular;
      hide StoredByte;
      CircularAt(t, r, n + |src|, k);
      WriteLandsAt(s, t, r, n, w, src, k);
      if k < n {
        CircularAt(s, r, n, k);
      }
    }
  }
}
