/** libsubtitle/ipc/SocketServer.cpp and IpcBuffer.cpp: the second frame decoder, one recv at a time. */
module SocketServers {
  import opened Bytes
  import opened RingBuffers
  import opened IpcFrames

  const CAPACITY := 512 * 1024
  const EXIT_TYPE_SWAPPED := 0x58454443

  /** _data_header once a header has been read; None while it is freshly allocated. */
  datatype StoredHeader = None | Some(dataSize: int, pkgType: nat)

  datatype Status = Open | Removed | Undefined

  /** One connection: buffered bytes, stored header, buffers given to the listener. */
  datatype Connection = Connection(buf: seq<byte>, header: StoredHeader, delivered: seq<seq<byte>>, status: Status)

  predicate IsExit(pkgType: nat) {
    pkgType == SUBTITLE_EXIT_SERVER || pkgType == EXIT_TYPE_SWAPPED
  }

  /** processData after recv returned a non-empty chunk. */
  function ProcessStep(c: Connection, chunk: seq<byte>): Connection {
    var buf := c.buf + chunk;
    if |buf| < HEADER_SIZE then c.(buf := buf)
    else if PeekWord(buf, 0) == START_FLAG then
      var h := Some(Wrap32(PeekWord(buf, 12)), PeekWord(buf, 16));
      if IsExit(h.pkgType) then Connection(buf[HEADER_SIZE..], h, c.delivered, Removed)
      else TryDeliver(Connection(buf[HEADER_SIZE..], h, c.delivered, Open))
    else TryDeliver(c.(buf := buf))
  }

  /** Delivery once the stored header's payload is there. A header that was never filled in, a
      negative size, or one the ring refuses to read has no defined outcome. */
  function TryDeliver(c: Connection): Connection {
    if c.header.None? then c.(status := Undefined)
    else if |c.buf| < c.header.dataSize then c
    else if c.header.dataSize < 0 || c.header.dataSize >= CAPACITY then c.(status := Undefined)
    else Fresh(c.delivered + [ListenerBuffer(c.header.pkgType, c.buf[..c.header.dataSize])])
  }

  /** The state a connection starts in, and is reset to after each delivery. */
  function Fresh(delivered: seq<seq<byte>>): Connection {
    Connection([], None, delivered, Open)
  }

  function Run(c: Connection, chunks: seq<seq<byte>>): Connection
    decreases |chunks|
  {
    if chunks == [] || !c.status.Open? then c else Run(ProcessStep(c, chunks[0]), chunks[1..])
  }

  class SocketConnection {
    const ring: RingBuffer
    var header: StoredHeader
    var delivered: seq<seq<byte>>
    var status: Status

    ghost predicate Valid()
      reads this, ring
    {
      ring.Valid() && ring.buffer.Length == CAPACITY
    }

    ghost function State(): Connection
      requires Valid()
      reads this, ring, ring.buffer
    {
      Connection(ring.Content(), header, delivered, status)
    }

    constructor ()
      ensures Valid() && State() == Fresh([]) && fresh(ring) && fresh(ring.buffer)
    {
      ring := new RingBuffer(CAPACITY);
      header, delivered, status := None, [], Open;
    }

    method ProcessData(chunk: seq<byte>)
      requires Valid() && status.Open?
      requires 0 < |chunk| <= ring.writeAvail
      modifies this, ring, ring.buffer
      ensures Valid()
      ensures State() == ProcessStep(old(State()), chunk)
    {
      hide Wrap32, IsExit, ListenerBuffer, TryDeliver, Circular, PeekWord;
      var _ := ring.Write(chunk);
      ghost var buf := ring.Content();
      assert buf == old(ring.Content()) + chunk;
      if ring.readAvail < HEADER_SIZE {
        return;
      }
      var buffer := ring.Peek(4);
      PeekWordLeft(buffer, buf[4..], 0);
      assert buf == buffer + buf[4..];
      if PeekWord(buffer, 0) == START_FLAG {
        ReadHeader();
        if IsExit(header.pkgType) {
          status := Removed;
          return;
        }
      }
      Deliver();
    }

    /** Takes the header off the ring and stores it. */
    method ReadHeader()
      requires Valid() && ring.readAvail >= HEADER_SIZE
      modifies this`header, ring
      ensures Valid()
      ensures ring.Content() == old(ring.Content())[HEADER_SIZE..]
      ensures header == Some(Wrap32(PeekWord(old(ring.Content()), 12)), PeekWord(old(ring.Content()), 16))
    {
      hide PeekWord, Wrap32;
      ghost var buf := ring.Content();
      var first := ring.Read(4);
      var others := ring.Read(HEADER_SIZE - 4);
      var buffer := first + others;
      assert buf == buffer + ring.Content();
      PeekWordLeft(buffer, ring.Content(), 12);
      PeekWordLeft(buffer, ring.Content(), 16);
      header := Some(Wrap32(PeekWord(buffer, 12)), PeekWord(buffer, 16));
    }

    method Deliver()
      requires Valid() && status.Open?
      modifies this, ring
      ensures Valid()
      ensures State() == TryDeliver(old(State()))
    {
      hide ListenerBuffer;
      if header.None? {
        status := Undefined;
        return;
      }
      if ring.readAvail < header.dataSize {
        return;
      }
      if header.dataSize < 0 || header.dataSize >= CAPACITY {
        status := Undefined;
        return;
      }
      ghost var buf := ring.Content();
      var payload := ring.Read(header.dataSize);
      assert payload == buf[..header.dataSize];
      delivered := delivered + [ListenerBuffer(header.pkgType, payload)];
      ring.CleanReset();
      header := None;
    }

    /** One recv after the other of a frame sent on its own. Whatever the connection makes of it, no byte is ever
        without room; and it is delivered exactly when FrameDelivered says so. */
    method ReceiveFrame(ghost f: Frame, chunks: seq<seq<byte>>)
      requires Valid() && State() == Fresh(delivered)
      requires f.Valid() && |f.payload| < 0x8_0000 && f.pkgType !in {0x4344_4558, 0x5845_4443}
      requires NonEmpty(chunks) && ShortReads(chunks) && Concat(chunks) == Encode(f)
      modifies this, ring, ring.buffer
      ensures Valid() && State() == Run(old(State()), chunks)
      ensures State() == Fresh(old(delivered) + [ListenerBuffer(f.pkgType, f.payload)]) <==>
              ArrivesWhole(0, chunks) || (|f.payload| >= HEADER_SIZE && !BeginsWithStart(f.payload))
    {
      hide ProcessStep, IsExit, Encode, BeginsWithStart, ArrivesWhole, ListenerBuffer;
      ghost var start, n := State(), |f.payload|;
      assert [] + Concat(chunks) == Encode(f);
      FrameDelivered(delivered, f, [], chunks);
      var i := 0;
      assert chunks[0..] == chunks;
      while i < |chunks| && status.Open?
        invariant Valid() && i <= |chunks|
        invariant Run(start, chunks) == Run(State(), chunks[i..])
        invariant HasRoom(State(), |Concat(chunks[i..])|, n)
      {
        ghost var left := chunks[i..];
        assert left[0] == chunks[i] && left[1..] == chunks[i + 1..];
        RoomKeeps(State(), chunks[i], |Concat(left[1..])|, n);
        ProcessData(chunks[i]);
        i := i + 1;
      }
    }
  }

  const RECV_SIZE := 1024

  predicate ShortReads(chunks: seq<seq<byte>>) {
    forall i | 0 <= i < |chunks| :: |chunks[i]| <= RECV_SIZE
  }

  /** Before a header less than a header is buffered, behind one no more than the payload that is to come. */
  predicate HasRoom(c: Connection, left: nat, n: nat) {
    c.status.Open? ==>
      if c.header.None? then |c.buf| < HEADER_SIZE && |c.buf| + left <= HEADER_SIZE + n else |c.buf| + left <= n
  }

  lemma RoomKeeps(c: Connection, chunk: seq<byte>, left: nat, n: nat)
    requires c.status.Open? && HasRoom(c, |chunk| + left, n)
    ensures HasRoom(ProcessStep(c, chunk), left, n)
  {
    hide PeekWord, Wrap32, ListenerBuffer;
  }

  // ---- When a frame sent on its own is delivered ---------------------------------------------

  /** The chunk that completes the header also completes the frame. */
  predicate ArrivesWhole(have: nat, chunks: seq<seq<byte>>)
    decreases |chunks|
  {
    chunks != [] &&
    if have + |chunks[0]| >= HEADER_SIZE then chunks[1..] == [] else ArrivesWhole(have + |chunks[0]|, chunks[1..])
  }

  predicate BeginsWithStart(payload: seq<byte>) {
    |payload| >= 4 && PeekWord(payload, 0) == START_FLAG
  }

  ghost predicate NonEmpty(chunks: seq<seq<byte>>) {
    forall i | 0 <= i < |chunks| :: chunks[i] != []
  }

  lemma ChunksShrink(p: seq<byte>, chunks: seq<seq<byte>>, whole: seq<byte>)
    requires p + Concat(chunks) == whole && |p| < |whole| && NonEmpty(chunks)
    ensures chunks != [] && NonEmpty(chunks[1..])
    ensures (p + chunks[0]) + Concat(chunks[1..]) == whole
    ensures p + chunks[0] <= whole && |p| < |p + chunks[0]|
    ensures |p + chunks[0]| == |whole| <==> chunks[1..] == []
  {
    assert p + [] == p;
    assert (p + chunks[0]) + Concat(chunks[1..]) == p + (chunks[0] + Concat(chunks[1..]));
    if chunks[1..] != [] {
      assert Concat(chunks[1..]) == chunks[1..][0] + Concat(chunks[1..][1..]);
      assert chunks[1] != [];
    }
  }

  /** A frame with a header already stored: the rest of the payload arrives. */
  lemma {:induction false} PayloadArrives(d: seq<seq<byte>>, f: Frame, p: seq<byte>, chunks: seq<seq<byte>>)
    requires f.Valid() && |f.payload| < 0x8_0000 && NonEmpty(chunks)
    requires p + Concat(chunks) == f.payload && |p| < |f.payload|
    requires |f.payload| >= HEADER_SIZE && !BeginsWithStart(f.payload)
    ensures Run(Connection(p, Some(|f.payload|, f.pkgType), d, Open), chunks)
         == Fresh(d + [ListenerBuffer(f.pkgType, f.payload)])
    decreases |chunks|
  {
    hide PeekWord, ListenerBuffer;
    ChunksShrink(p, chunks, f.payload);
    var q := p + chunks[0];
    if |q| >= HEADER_SIZE {
      assert q[0..4] == f.payload[0..4];
      PeekWordSame(q, 0, f.payload, 0);
    }
    if chunks[1..] != [] {
      PayloadArrives(d, f, q, chunks[1..]);
    } else {
      assert q == f.payload;
      assert q[..|f.payload|] == f.payload;
    }
  }

  /** A payload shorter than a header that arrives after its header is never looked at. */
  lemma {:induction false} ShortPayloadStalls(d: seq<seq<byte>>, h: StoredHeader, p: seq<byte>, chunks: seq<seq<byte>>)
    requires |p + Concat(chunks)| < HEADER_SIZE
    ensures Run(Connection(p, h, d, Open), chunks).delivered == d
    decreases |chunks|
  {
    hide PeekWord, TryDeliver;
    if chunks != [] {
      assert (p + chunks[0]) + Concat(chunks[1..]) == p + Concat(chunks);
      ShortPayloadStalls(d, h, p + chunks[0], chunks[1..]);
    }
  }

  /** With fewer than n bytes left to see, no payload of n bytes can be delivered any more. */
  ghost predicate DeliveredShort(d: seq<seq<byte>>, e: seq<seq<byte>>, n: nat) {
    && |d| <= |e| && e[..|d|] == d
    && forall i | |d| <= i < |e| :: |e[i]| < n + 4
  }

  lemma StepDeliversShort(c: Connection, chunk: seq<byte>, n: nat)
    requires |c.buf + chunk| < n
    ensures DeliveredShort(c.delivered, ProcessStep(c, chunk).delivered, n)
    ensures |ProcessStep(c, chunk).buf| <= |c.buf + chunk|
  {
    hide PeekWord, Wrap32;
  }

  lemma ReparseDeliversShort(c: Connection, chunk: seq<byte>, n: nat)
    requires HEADER_SIZE <= |c.buf + chunk| <= n && PeekWord(c.buf + chunk, 0) == START_FLAG
    ensures DeliveredShort(c.delivered, ProcessStep(c, chunk).delivered, n)
    ensures |ProcessStep(c, chunk).buf| <= |c.buf + chunk| - HEADER_SIZE
  {
    hide PeekWord, Wrap32;
  }

  lemma ShortThenShort(d: seq<seq<byte>>, e: seq<seq<byte>>, g: seq<seq<byte>>, n: nat)
    requires DeliveredShort(d, e, n) && DeliveredShort(e, g, n)
    ensures DeliveredShort(d, g, n)
  {
    assert g[..|d|] == g[..|e|][..|d|] == d;
    forall i | |d| <= i < |g|
      ensures |g[i]| < n + 4
    {
      if i < |e| {
        assert g[..|e|][i] == e[i];
      }
    }
  }

  lemma {:induction false} NothingThatLong(c: Connection, chunks: seq<seq<byte>>, n: nat)
    requires |c.buf + Concat(chunks)| < n
    ensures DeliveredShort(c.delivered, Run(c, chunks).delivered, n)
    decreases |chunks|
  {
    hide ProcessStep;
    if chunks != [] && c.status.Open? {
      var c' := ProcessStep(c, chunks[0]);
      StepDeliversShort(c, chunks[0], n);
      assert |c.buf + Concat(chunks)| == |c.buf + chunks[0]| + |Concat(chunks[1..])|;
      NothingThatLong(c', chunks[1..], n);
      ShortThenShort(c.delivered, c'.delivered, Run(c', chunks[1..]).delivered, n);
    }
  }

  /** A split payload beginning with the start flag is taken for another header. */
  lemma {:induction false} StartedPayloadMisread(d: seq<seq<byte>>, f: Frame, p: seq<byte>, chunks: seq<seq<byte>>)
    requires f.Valid() && NonEmpty(chunks) && p + Concat(chunks) == f.payload && |p| < |f.payload|
    requires |f.payload| >= HEADER_SIZE && BeginsWithStart(f.payload) && |p| < HEADER_SIZE
    ensures DeliveredShort(d, Run(Connection(p, Some(|f.payload|, f.pkgType), d, Open), chunks).delivered, |f.payload|)
    decreases |chunks|
  {
    hide PeekWord, ListenerBuffer;
    ChunksShrink(p, chunks, f.payload);
    var c := Connection(p, Some(|f.payload|, f.pkgType), d, Open);
    var q := p + chunks[0];
    if |q| < HEADER_SIZE {
      StartedPayloadMisread(d, f, q, chunks[1..]);
    } else {
      assert q[0..4] == f.payload[0..4];
      PeekWordSame(q, 0, f.payload, 0);
      MisreadThenShort(c, chunks, |f.payload|);
    }
  }

  lemma MisreadThenShort(c: Connection, chunks: seq<seq<byte>>, n: nat)
    requires c.status.Open? && chunks != [] && |c.buf + Concat(chunks)| == n
    requires |c.buf + chunks[0]| >= HEADER_SIZE && PeekWord(c.buf + chunks[0], 0) == START_FLAG
    ensures DeliveredShort(c.delivered, Run(c, chunks).delivered, n)
  {
    hide PeekWord, ProcessStep;
    var c' := ProcessStep(c, chunks[0]);
    assert |c.buf + Concat(chunks)| == |c.buf + chunks[0]| + |Concat(chunks[1..])|;
    ReparseDeliversShort(c, chunks[0], n);
    NothingThatLong(c', chunks[1..], n);
    ShortThenShort(c.delivered, c'.delivered, Run(c', chunks[1..]).delivered, n);
  }

  /** Main result: a frame sent on its own, in any chunks, is delivered exactly once and intact, and
      leaves the connection as it was, if and only if the frame is complete as soon as its header is,
      or its payload is at least a header long and does not begin with the start flag. */
  lemma {:induction false} FrameDelivered(d: seq<seq<byte>>, f: Frame, p: seq<byte>, chunks: seq<seq<byte>>)
    requires f.Valid() && |f.payload| < 0x8_0000 && f.pkgType !in {0x4344_4558, 0x5845_4443} && NonEmpty(chunks)
    requires p + Concat(chunks) == Encode(f) && |p| < HEADER_SIZE
    ensures Run(Connection(p, None, d, Open), chunks) == Fresh(d + [ListenerBuffer(f.pkgType, f.payload)])
            <==> ArrivesWhole(|p|, chunks) || (|f.payload| >= HEADER_SIZE && !BeginsWithStart(f.payload))
    decreases |chunks|
  {
    hide PeekWord, ListenerBuffer, Header, BeginsWithStart;
    ChunksShrink(p, chunks, Encode(f));
    var q := p + chunks[0];
    if |q| < HEADER_SIZE {
      FrameDelivered(d, f, q, chunks[1..]);
    } else {
      var buf := q[HEADER_SIZE..];
      HeaderOfPrefix(f, q);
      var c := Connection(buf, Some(|f.payload|, f.pkgType), d, Open);
      assert ProcessStep(Connection(p, None, d, Open), chunks[0]) == TryDeliver(c);
      assert buf + Concat(chunks[1..]) == (q + Concat(chunks[1..]))[HEADER_SIZE..] == f.payload;
      if chunks[1..] == [] {
        assert buf[..|f.payload|] == f.payload;
      } else {
        assert TryDeliver(c) == c;
        AfterHeader(d, f, buf, chunks[1..]);
      }
    }
  }

  lemma StepDeliversBounded(c: Connection, chunk: seq<byte>)
    ensures DeliveredShort(c.delivered, ProcessStep(c, chunk).delivered, 0x8_0000)
  {
    hide PeekWord, Wrap32;
  }

  /** No payload of 512 KiB or more is ever delivered. */
  lemma {:induction false} NothingOversize(c: Connection, chunks: seq<seq<byte>>)
    ensures DeliveredShort(c.delivered, Run(c, chunks).delivered, 0x8_0000)
    decreases |chunks|
  {
    hide ProcessStep, DeliveredShort;
    if chunks != [] && c.status.Open? {
      var c' := ProcessStep(c, chunks[0]);
      StepDeliversBounded(c, chunks[0]);
      NothingOversize(c', chunks[1..]);
      ShortThenShort(c.delivered, c'.delivered, Run(c', chunks[1..]).delivered, 0x8_0000);
    } else {
      assert DeliveredShort(c.delivered, c.delivered, 0x8_0000) by { NoneDelivered(c.delivered); }
    }
  }

  lemma NoneDelivered(d: seq<seq<byte>>)
    ensures DeliveredShort(d, d, 0x8_0000)
  {
  }

  /** Once its bytes are there, a payload is delivered, with its own bytes, exactly when its size lies between 0 and
      512 KiB; any other size has no defined outcome, nor has a connection that saw no header. */
  lemma DeliversExactly(c: Connection)
    requires c.header.Some? ==> c.header.dataSize <= |c.buf|
    ensures var t := TryDeliver(c);
            if c.header.None? || !(0 <= c.header.dataSize < 0x8_0000) then t == c.(status := Undefined)
            else
              var m := LEBytes(c.header.pkgType, 4) + c.buf[..c.header.dataSize];
              t == Connection([], None, c.delivered + [m], Open)
  {
  }

  /** A frame of one of the two exit types (0x43444558 and 0x58454443, the same letters the other way round)
      removes the connection as soon as its header is there, whatever its payload, and delivers nothing. */
  lemma {:induction false} ExitRemoves(d: seq<seq<byte>>, f: Frame, p: seq<byte>, chunks: seq<seq<byte>>)
    requires f.Valid() && f.pkgType in {0x4344_4558, 0x5845_4443} && NonEmpty(chunks)
    requires p + Concat(chunks) == Encode(f) && |p| < HEADER_SIZE
    ensures var c := Run(Connection(p, None, d, Open), chunks);
            c.status.Removed? && c.delivered == d
    decreases |chunks|
  {
    hide PeekWord, Header;
    ChunksShrink(p, chunks, Encode(f));
    var q := p + chunks[0];
    if |q| < HEADER_SIZE {
      ExitRemoves(d, f, q, chunks[1..]);
    } else {
      HeaderOfPrefix(f, q);
    }
  }

  lemma HeaderOfPrefix(f: Frame, q: seq<byte>)
    requires f.Valid() && q <= Encode(f) && |q| >= HEADER_SIZE
    ensures PeekWord(q, 0) == START_FLAG && PeekWord(q, 12) == |f.payload| && PeekWord(q, 16) == f.pkgType
  {
    hide PeekWord, Header;
    HeaderWords(f.sessionId, f.pkgType, |f.payload|, q[HEADER_SIZE..]);
    assert q == Header(f.sessionId, f.pkgType, |f.payload|) + q[HEADER_SIZE..];
  }

  lemma AfterHeader(d: seq<seq<byte>>, f: Frame, p: seq<byte>, chunks: seq<seq<byte>>)
    requires f.Valid() && |f.payload| < 0x8_0000 && NonEmpty(chunks) && chunks != []
    requires p + Concat(chunks) == f.payload && |p| < |f.payload|
    ensures (Run(Connection(p, Some(|f.payload|, f.pkgType), d, Open), chunks)
             == Fresh(d + [ListenerBuffer(f.pkgType, f.payload)]))
            <==> (|f.payload| >= HEADER_SIZE && !BeginsWithStart(f.payload))
  {
    hide Run, BeginsWithStart;
    var m := ListenerBuffer(f.pkgType, f.payload);
    if |f.payload| < HEADER_SIZE {
      ShortPayloadStalls(d, Some(|f.payload|, f.pkgType), p, chunks);
    } else if !BeginsWithStart(f.payload) {
      PayloadArrives(d, f, p, chunks);
    } else {
      StartedPayloadStalls(d, f, p, chunks);
      assert (d + [m])[|d|] == m;
    }
  }

  /** However much of such a payload came with the header. */
  lemma StartedPayloadStalls(d: seq<seq<byte>>, f: Frame, p: seq<byte>, chunks: seq<seq<byte>>)
    requires f.Valid() && NonEmpty(chunks) && p + Concat(chunks) == f.payload && |p| < |f.payload|
    requires |f.payload| >= HEADER_SIZE && BeginsWithStart(f.payload)
    ensures DeliveredShort(d, Run(Connection(p, Some(|f.payload|, f.pkgType), d, Open), chunks).delivered, |f.payload|)
  {
    hide PeekWord, ListenerBuffer;
    if |p| < HEADER_SIZE {
      StartedPayloadMisread(d, f, p, chunks);
    } else {
      ChunksShrink(p, chunks, f.payload);
      var q := p + chunks[0];
      assert q[0..4] == f.payload[0..4];
      PeekWordSame(q, 0, f.payload, 0);
      MisreadThenShort(Connection(p, Some(|f.payload|, f.pkgType), d, Open), chunks, |f.payload|);
    }
  }
}
