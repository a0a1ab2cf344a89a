/** libsubtitle/io/UserdataDriver.c: a ring of length-prefixed packets. */
module UserdataRings {
  import opened Bytes
  import opened RingBuffers

  const LENGTH_SIZE := 4

  /** A stored packet: its length as a host int, then its bytes. */
  function Record(p: seq<byte>): (r: seq<byte>)
    ensures |r| == LENGTH_SIZE + |p|
  {
    LEBytes(|p|, LENGTH_SIZE) + p
  }

  function Records(ps: seq<seq<byte>>): seq<byte> {
    if ps == [] then [] else Record(ps[0]) + Records(ps[1..])
  }

  lemma {:induction false} RecordsSnoc(ps: seq<seq<byte>>, p: seq<byte>)
    ensures Records(ps + [p]) == Records(ps) + Record(p)
  {
    hide Record;
    if ps == [] {
      assert ps + [p] == [p];
      assert Records([p]) == Record(p) + Records([p][1..]);
      assert Records([p]) == Record(p);
    } else {
      assert (ps + [p])[0] == ps[0] && (ps + [p])[1..] == ps[1..] + [p];
      RecordsSnoc(ps[1..], p);
      Assoc(Record(ps[0]), Records(ps[1..]), Record(p));
    }
  }

  ghost predicate Lengths(ps: seq<seq<byte>>) {
    forall i | 0 <= i < |ps| :: |ps[i]| < 0x8000_0000
  }

  predicate Fits(capacity: nat, ps: seq<seq<byte>>, p: seq<byte>) {
    |Records(ps)| + LENGTH_SIZE + |p| < capacity
  }

  /** The queue after a write: the packet at the end, or nothing at all. */
  function AfterWrite(capacity: nat, ps: seq<seq<byte>>, p: seq<byte>): seq<seq<byte>> {
    if Fits(capacity, ps, p) then ps + [p] else ps
  }

  /** The queue after a read into a buffer of the given size, and what the reader got. The head packet
      leaves even when it is too large to be returned; only a lone empty packet stays. */
  function AfterRead(ps: seq<seq<byte>>, size: int): (seq<seq<byte>>, seq<byte>) {
    if ps == [] || ps == [[]] then (ps, [])
    else (ps[1..], if |ps[0]| <= size then ps[0] else [])
  }

  class UserdataRing {
    const data: array<byte>
    var pread: nat
    var pwrite: nat
    ghost var packets: seq<seq<byte>>

    ghost predicate Positions()
      reads this
    {
      pread < data.Length && pwrite < data.Length
    }

    function Avail(): (n: nat)
      requires Positions()
      reads this
      ensures n < data.Length
    {
      if pwrite - pread < 0 then pwrite - pread + data.Length else pwrite - pread
    }

    function Free(): (n: nat)
      requires Positions()
      reads this
      ensures n + Avail() == data.Length - 1
    {
      (if pread - pwrite <= 0 then pread - pwrite + data.Length else pread - pwrite) - 1
    }

    ghost function Content(): (c: seq<byte>)
      requires Positions()
      reads this, data
      ensures |c| == Avail()
    {
      Circular(data[..], pread, Avail())
    }

    /** The bytes stored are whole records, one for each queued packet. */
    ghost predicate Valid()
      reads this, data
    {
      Positions() && Lengths(packets) && Content() == Records(packets)
    }

    constructor (len: nat)
      requires len > 0
      ensures Valid() && packets == [] && data.Length == len && fresh(data)
    {
      data := new byte[len](_ => 0);
      pread, pwrite, packets := 0, 0, [];
    }

    /** userdata_ring_buf_read */
    method RingRead(len: nat) returns (buf: seq<byte>)
      requires Positions() && len <= Avail()
      modifies this`pread
      ensures Positions() && Avail() == old(Avail()) - len
      ensures buf == old(Content())[..len] && Content() == old(Content())[len..]
    {
      ghost var s, p, avail := data[..], pread, Avail();
      ReadPosition(s, p, avail, len);
      var todo := len;
      var split := if pread + len > data.Length then data.Length - pread else 0;
      buf := [];
      if split > 0 {
        buf := data[pread..pread + split];
        todo := todo - split;
        pread := 0;
      }
      buf := buf + data[pread..pread + todo];
      assert buf == Circular(s, p, len);
      pread := (pread + todo) % data.Length;
      assert data[..] == s;
    }

    /** userdata_ring_buf_write */
    method RingWrite(buf: seq<byte>)
      requires Positions() && |buf| <= Free()
      modifies this`pwrite, data
      ensures Positions() && Avail() == old(Avail()) + |buf|
      ensures Content() == old(Content()) + buf
    {
      ghost var was := data[..];
      var todo := |buf|;
      var split := if pwrite + |buf| > data.Length then data.Length - pwrite else 0;
      if split > 0 {
        CopyIn(pwrite, buf[..split]);
        CopyIn(0, buf[split..]);
        todo := todo - split;
        pwrite := 0;
      } else {
        CopyIn(pwrite, buf);
      }
      WriteLands(was, data[..], pread, old(Avail()), old(pwrite), buf);
      WrapPosition(pwrite + todo, data.Length);
      pwrite := (pwrite + todo) % data.Length;
    }

    method CopyIn(at: nat, src: seq<byte>)
      requires at + |src| <= data.Length
      modifies data
      ensures Stored(old(data[..]), data[..], at, src)
    {
      forall k | 0 <= k < |src| {
        data[at + k] := src[k];
      }
    }

    /** userdata_package_write: all or nothing. */
    method PackageWrite(buf: seq<byte>) returns (ret: nat)
      requires Valid() && |buf| + LENGTH_SIZE < 0x8000_0000
      modifies this, data
      ensures Valid()
      ensures ret == if Fits(data.Length, old(packets), buf) then |buf| else 0
      ensures packets == AfterWrite(data.Length, old(packets), buf)
      ensures packets == old(packets) + [buf] || packets == old(packets)
      ensures packets == old(packets) + [buf] <==> old(|Records(packets)|) + 4 + |buf| <= data.Length - 1
    {
      var cnt := Free();
      if cnt < |buf| + LENGTH_SIZE {
        return 0;
      }
      RecordsSnoc(packets, buf);
      Assoc(Records(packets), LEBytes(|buf|, LENGTH_SIZE), buf);
      RingWrite(LEBytes(|buf|, LENGTH_SIZE));
      RingWrite(buf);
      packets := packets + [buf];
      return |buf|;
    }

    /** userdata_package_read: the head record leaves the ring, delivered or dropped, unless the ring
        holds at most a bare length. */
    method PackageRead(size: int) returns (cnt: nat, buf: seq<byte>)
      requires Valid()
      modifies this
      ensures Valid()
      ensures (packets, buf) == AfterRead(old(packets), size) && cnt == |buf|
    {
      buf, cnt := [], 0;
      LoneRecord(packets);
      if Avail() > LENGTH_SIZE {
        HeadRecord(packets, Content());
        var word := RingRead(LENGTH_SIZE);
        var udCnt := LE(word);
        if Avail() < udCnt {
          assert false;   // the source's own "must not happen"
        } else if udCnt > size {
          var _ := RingRead(udCnt);
        } else if udCnt > 0 {
          buf := RingRead(udCnt);
          cnt := udCnt;
        }
        packets := packets[1..];
      }
    }
  }

  lemma WrapPosition(x: nat, size: nat)
    requires x <= size && size > 0
    ensures x % size == if x == size then 0 else x
  {
  }

  /** Where a read of len bytes leaves the read position, and what is then in the ring. */
  lemma ReadPosition(s: seq<byte>, p: nat, avail: nat, len: nat)
    requires p < |s| && len <= avail < |s|
    ensures var q := (if p + len > |s| then p + len - |s| else p + len) % |s|;
            && q == (if p + len >= |s| then p + len - |s| else p + len)
            && Circular(s, q, avail - len) == Circular(s, p, avail)[len..]
    ensures Circular(s, p, len) == Circular(s, p, avail)[..len]
  {
    TakeSplits(s, p, avail, len);
    var q := if p + len > |s| then p + len - |s| else p + len;
    WrapPosition(q, |s|);
    assert Circular(s, |s|, avail - len) == Circular(s, 0, avail - len);
  }

  lemma HeadRecord(ps: seq<seq<byte>>, c: seq<byte>)
    requires Lengths(ps) && c == Records(ps) && |c| > LENGTH_SIZE
    ensures ps != [] && Lengths(ps[1..]) && LE(c[..LENGTH_SIZE]) == |ps[0]|
    ensures LENGTH_SIZE + |ps[0]| <= |c|
    ensures c[LENGTH_SIZE..][..|ps[0]|] == ps[0] && c[LENGTH_SIZE..][|ps[0]|..] == Records(ps[1..])
  {
    hide LEBytes, LE;
    var w := LEBytes(|ps[0]|, LENGTH_SIZE);
    assert c == w + ps[0] + Records(ps[1..]);
    assert c[..LENGTH_SIZE] == w;
    LERoundTrip(|ps[0]|, LENGTH_SIZE);
    Pow256Values();
  }

  /** More than a bare length is stored unless the queue is empty or holds one empty packet. */
  lemma LoneRecord(ps: seq<seq<byte>>)
    ensures |Records(ps)| <= LENGTH_SIZE <==> ps == [] || ps == [[]]
  {
    if ps != [] && ps[1..] != [] {
      assert Records(ps[1..]) == Record(ps[1..][0]) + Records(ps[1..][1..]);
    }
  }

  // ---- Runs ---------------------------------------------------------------------------------

  datatype Op = Write(packet: seq<byte>) | Read(size: int)

  /** A packet that left the queue and the size given to the read that removed it. */
  datatype Departure = Departure(packet: seq<byte>, size: int)

  /** The queue, every packet accepted, every departure, and every packet returned. */
  datatype Run = Run(queue: seq<seq<byte>>, accepted: seq<seq<byte>>, left: seq<Departure>, returned: seq<seq<byte>>)

  function Step(capacity: nat, r: Run, op: Op): Run {
    match op
    case Write(p) =>
      if Fits(capacity, r.queue, p) then r.(queue := AfterWrite(capacity, r.queue, p), accepted := r.accepted + [p])
      else r
    case Read(size) =>
      var (q, buf) := AfterRead(r.queue, size);
      r.(queue := q,
         left := if |q| < |r.queue| then r.left + [Departure(r.queue[0], size)] else r.left,
         returned := if buf != [] then r.returned + [buf] else r.returned)
  }

  function Steps(capacity: nat, r: Run, ops: seq<Op>): Run
    decreases |ops|
  {
    if ops == [] then r else Steps(capacity, Step(capacity, r, ops[0]), ops[1..])
  }

  /** The departed packets, in order. */
  function Packets(left: seq<Departure>): seq<seq<byte>> {
    seq(|left|, i requires 0 <= i < |left| => left[i].packet)
  }

  /** Of these, the ones that are not empty and fit the read that removed them. */
  function Given(left: seq<Departure>): seq<seq<byte>> {
    if left == [] then []
    else
      var (d, before) := (left[|left| - 1], Given(left[..|left| - 1]));
      if 0 < |d.packet| <= d.size then before + [d.packet] else before
  }

  ghost predicate Fifo(capacity: nat, r: Run) {
    && r.accepted == Packets(r.left) + r.queue
    && r.returned == Given(r.left)
    && |Records(r.queue)| < capacity
  }

  lemma StepFifo(capacity: nat, r: Run, op: Op)
    requires Fifo(capacity, r)
    ensures Fifo(capacity, Step(capacity, r, op))
  {
    hide Record;
    match op
    case Write(p) =>
      RecordsSnoc(r.queue, p);
      Assoc(Packets(r.left), r.queue, [p]);
    case Read(size) =>
      if r.queue != [] && r.queue != [[]] {
        var left := r.left + [Departure(r.queue[0], size)];
        assert left[..|left| - 1] == r.left;
        assert Packets(left) == Packets(r.left) + [r.queue[0]];
        Assoc(Packets(r.left), [r.queue[0]], r.queue[1..]);
        assert [r.queue[0]] + r.queue[1..] == r.queue;
      }
  }

  /** Over every run, what was accepted is what departed, in that order, and then what is queued, and a
      departed packet was returned exactly when it was not empty and fitted the read that removed it. */
  lemma {:induction false} FifoRun(capacity: nat, r: Run, ops: seq<Op>)
    requires Fifo(capacity, r)
    ensures Fifo(capacity, Steps(capacity, r, ops))
    decreases |ops|
  {
    hide Fifo, Step;
    if ops != [] {
      StepFifo(capacity, r, ops[0]);
      FifoRun(capacity, Step(capacity, r, ops[0]), ops[1..]);
    }
  }

  /** A reader whose buffer is large enough gets every non-empty packet, in order. */
  lemma {:induction false} DrainReturnsAll(capacity: nat, r: Run, size: int)
    requires forall i | 0 <= i < |r.queue| :: 0 < |r.queue[i]| <= size
    ensures var e := Steps(capacity, r, seq(|r.queue|, _ => Read(size)));
            e.queue == [] && e.returned == r.returned + r.queue
    decreases |r.queue|
  {
    var ops := seq(|r.queue|, _ => Read(size));
    if r.queue == [] {
      assert r.returned + [] == r.returned;
    } else {
      var r1 := Step(capacity, r, Read(size));
      assert r1.queue == r.queue[1..] && r1.returned == r.returned + [r.queue[0]];
      DrainReturnsAll(capacity, r1, size);
      assert ops[1..] == seq(|r1.queue|, _ => Read(size));
      Assoc(r.returned, [r.queue[0]], r.queue[1..]);
      assert [r.queue[0]] + r.queue[1..] == r.queue;
    }
  }
}
