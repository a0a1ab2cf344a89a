/** The two frame decoders agree on everything SubSource_SendData sends. */
module ReceiverAgreement {
  import opened Bytes
  import opened IpcFrames
  import F = FmqReceivers
  import opened FrameStreams
  import S = SocketServers
  import opened SubtitleReports
  import opened ReportPipelines

  /** The arrivals of several frames, each frame cut on its own. */
  function Flatten(cuts: seq<seq<seq<byte>>>): seq<seq<byte>>
    decreases |cuts|
  {
    if cuts == [] then [] else cuts[0] + Flatten(cuts[1..])
  }

  ghost predicate Cuts(cuts: seq<seq<seq<byte>>>, fs: seq<Frame>) {
    && |cuts| == |fs|
    && forall i | 0 <= i < |fs| :: S.NonEmpty(cuts[i]) && S.ShortReads(cuts[i]) && Concat(cuts[i]) == Encode(fs[i])
  }

  /** Data packets begin with the packet sync word and are longer than a frame header. */
  lemma PacketPayload(p: Packet)
    requires Readable(p)
    ensures |PacketBytes(p)| >= HEADER_SIZE && !S.BeginsWithStart(PacketBytes(p))
  {
    hide BEBytes;
    assert PacketBytes(p)[0] == 0x41;
    assert START_FLAG % 256 == 0xB1;
  }

  lemma {:induction false} RunSplit(c: S.Connection, a: seq<seq<byte>>, b: seq<seq<byte>>)
    ensures S.Run(c, a + b) == S.Run(S.Run(c, a), b)
    decreases |a|
  {
    hide S.ProcessStep;
    if a == [] {
      assert a + b == b;
    } else if c.status.Open? {
      assert (a + b)[0] == a[0] && (a + b)[1..] == a[1..] + b;
      RunSplit(S.ProcessStep(c, a[0]), a[1..], b);
    }
  }

  lemma {:induction false} SocketDelivers(sid: int, ps: seq<Packet>, cuts: seq<seq<seq<byte>>>, d: seq<seq<byte>>)
    requires AllReadable(ps) && Cuts(cuts, PacketFrames(sid, ps))
    requires forall i | 0 <= i < |ps| :: |PacketBytes(ps[i])| < 0x8_0000
    ensures S.Run(S.Fresh(d), Flatten(cuts)) == S.Fresh(d + ListenerBuffers(PacketFrames(sid, ps)))
    decreases |ps|
  {
    hide PacketBytes, ListenerBuffer, S.Run, Encode;
    var fs := PacketFrames(sid, ps);
    if ps == [] {
      NothingRun(d);
      assert d + [] == d;
    } else {
      var m := ListenerBuffer(fs[0].pkgType, fs[0].payload);
      assert fs[1..] == PacketFrames(sid, ps[1..]);
      FirstFrame(sid, ps[0], cuts[0], d);
      RunSplit(S.Fresh(d), cuts[0], Flatten(cuts[1..]));
      SocketDelivers(sid, ps[1..], cuts[1..], d + [m]);
      Assoc(d, [m], ListenerBuffers(fs[1..]));
    }
  }

  lemma NothingRun(d: seq<seq<byte>>)
    ensures S.Run(S.Fresh(d), []) == S.Fresh(d)
  {
  }

  lemma FirstFrame(sid: int, p: Packet, chunks: seq<seq<byte>>, d: seq<seq<byte>>)
    requires Readable(p) && |PacketBytes(p)| < 0x8_0000
    requires S.NonEmpty(chunks) && Concat(chunks) == Encode(PacketFrame(sid, p))
    ensures S.Run(S.Fresh(d), chunks) == S.Fresh(d + [ListenerBuffer(SUBTITLE_DATA, PacketBytes(p))])
  {
    hide PacketBytes, ListenerBuffer, S.Run, Encode, S.BeginsWithStart, S.ArrivesWhole;
    PacketPayload(p);
    assert [] + Concat(chunks) == Encode(PacketFrame(sid, p));
    S.FrameDelivered(d, PacketFrame(sid, p), [], chunks);
  }

  lemma {:induction false} FlattenedStream(cuts: seq<seq<seq<byte>>>, fs: seq<Frame>)
    requires Cuts(cuts, fs)
    ensures Concat(Flatten(cuts)) == EncodeAll(fs)
    decreases |cuts|
  {
    hide Encode, Concat;
    if cuts == [] {
      assert Concat([]) == [] by { NoBytes(); }
    } else {
      ConcatAppend(cuts[0], Flatten(cuts[1..]));
      FlattenedStream(cuts[1..], fs[1..]);
    }
  }

  lemma NoBytes()
    ensures Concat([]) == []
  {
  }

  lemma {:induction false} FlattenedShort(cuts: seq<seq<seq<byte>>>)
    requires forall i | 0 <= i < |cuts| :: S.ShortReads(cuts[i])
    ensures S.ShortReads(Flatten(cuts))
    decreases |cuts|
  {
    if cuts != [] {
      FlattenedShort(cuts[1..]);
    }
  }

  lemma PiecesRoomy(fs: seq<Frame>, chunks: seq<seq<byte>>)
    requires (forall i | 0 <= i < |fs| :: |fs[i].payload| < 0x8_0000) && S.ShortReads(chunks)
    ensures Roomy(fs, chunks)
  {
    forall f, c | f in fs && c in chunks
      ensures |Encode(f)| + |c| <= F.CAPACITY + 1
    {
      var i :| 0 <= i < |chunks| && chunks[i] == c;
      assert |c| <= S.RECV_SIZE;
    }
  }

  /** Sent one frame at a time in non-empty pieces of at most 1024 bytes, data frames that fit the socket's ring
      reach the listener the same through either decoder and its ring, and leave the socket connection as it
      started. */
  lemma ReceiversAgree(sid: int, ps: seq<Packet>, cuts: seq<seq<seq<byte>>>)
    requires AllReadable(ps) && Cuts(cuts, PacketFrames(sid, ps))
    requires forall i | 0 <= i < |ps| :: |PacketBytes(ps[i])| < 0x8_0000
    ensures var c := S.Run(S.Fresh([]), Flatten(cuts));
            var d := F.RingFeedAll(F.EMPTY, Flatten(cuts));
            c == S.Fresh(d.delivered) && d == F.Decoded(ListenerBuffers(PacketFrames(sid, ps)), [], false)
  {
    hide PacketBytes, ListenerBuffers, S.Run, Encode, Flatten, F.RingFeedAll, EncodeAll, S.NonEmpty, S.ShortReads,
         F.Fit, Roomy;
    var fs := PacketFrames(sid, ps);
    SocketDelivers(sid, ps, cuts, []);
    FlattenedStream(cuts, fs);
    FlattenedShort(cuts);
    FramesOfPackets(sid, ps);
    PiecesRoomy(fs, Flatten(cuts));
    RoomyFits(fs, Flatten(cuts));
    FramesArrive(fs, Flatten(cuts));
    assert [] + ListenerBuffers(fs) == ListenerBuffers(fs);
  }

  /** Both receivers get the pieces of one frame. */
  method FrameToBoth(fmq: F.FmqReceiver, socket: S.SocketConnection, sid: int, ghost p: Packet, chunks: seq<seq<byte>>)
    requires fmq.Valid() && socket.Valid() && socket.State() == S.Fresh(socket.delivered)
    requires fmq.ring != socket.ring && fmq.ring.buffer != socket.ring.buffer
    requires Readable(p) && |PacketBytes(p)| < 0x8_0000
    requires S.NonEmpty(chunks) && S.ShortReads(chunks) && Concat(chunks) == Encode(PacketFrame(sid, p))
    modifies fmq, fmq.ring, fmq.ring.buffer, socket, socket.ring, socket.ring.buffer
    ensures fmq.Valid() && fmq.State() == F.RingFeedAll(old(fmq.State()), chunks)
    ensures socket.Valid() && socket.State() == S.Run(old(socket.State()), chunks)
    ensures socket.State() == S.Fresh(socket.delivered)
  {
    hide PacketBytes, ListenerBuffer, S.Run, Encode, F.RingFeedAll, S.NonEmpty, S.ShortReads;
    FirstFrame(sid, p, chunks, socket.delivered);
    assert PacketFrame(sid, p).Valid() by { PacketFrameValid(sid, p); }
    fmq.ReceiveAll(chunks);
    socket.ReceiveFrame(PacketFrame(sid, p), chunks);
  }

  lemma PacketFrameValid(sid: int, p: Packet)
    requires Readable(p)
    ensures PacketFrame(sid, p).Valid()
  {
    hide PacketBytes;
  }

  lemma NothingMore(d: F.Decoded, c: S.Connection)
    ensures F.RingFeedAll(d, []) == d && S.Run(c, []) == c
  {
  }

  /** Both receivers at work: the same pieces, the same buffers. */
  method ReceiveBoth(sid: int, ghost ps: seq<Packet>, cuts: seq<seq<seq<byte>>>)
      returns (fmq: F.FmqReceiver, socket: S.SocketConnection)
    requires AllReadable(ps) && Cuts(cuts, PacketFrames(sid, ps))
    requires forall i | 0 <= i < |ps| :: |PacketBytes(ps[i])| < 0x8_0000
    ensures fmq.Valid() && fmq.State() == F.Decoded(ListenerBuffers(PacketFrames(sid, ps)), [], false)
    ensures socket.Valid() && socket.State() == S.Fresh(fmq.delivered)
  {
    hide PacketBytes, PacketFrame, ListenerBuffers, S.Run, Encode, F.RingFeedAll, EncodeAll, S.NonEmpty, S.ShortReads,
         Readable, Concat;
    ReceiversAgree(sid, ps, cuts);
    fmq := new F.FmqReceiver();
    socket := new S.SocketConnection();
    ghost var fs := PacketFrames(sid, ps);
    assert cuts[0..] == cuts;
    for i := 0 to |cuts|
      invariant fmq.Valid() && fresh(fmq) && fresh(fmq.ring) && fresh(fmq.ring.buffer)
      invariant socket.Valid() && fresh(socket) && fresh(socket.ring) && fresh(socket.ring.buffer)
      invariant fmq.ring != socket.ring && fmq.ring.buffer != socket.ring.buffer
      invariant socket.State() == S.Fresh(socket.delivered)
      invariant F.RingFeedAll(fmq.State(), Flatten(cuts[i..])) == F.RingFeedAll(F.EMPTY, Flatten(cuts))
      invariant S.Run(socket.State(), Flatten(cuts[i..])) == S.Run(S.Fresh([]), Flatten(cuts))
    {
      var chunks := cuts[i];
      assert cuts[i..][0] == chunks && cuts[i..][1..] == cuts[i + 1..];
      RingSplit(fmq.State(), chunks, Flatten(cuts[i + 1..]));
      RunSplit(socket.State(), chunks, Flatten(cuts[i + 1..]));
      assert fs[i] == PacketFrame(sid, ps[i]);
      FrameToBoth(fmq, socket, sid, ps[i], chunks);
    }
    NothingMore(fmq.State(), socket.State());
  }

  lemma {:induction false} RingSplit(d: F.Decoded, a: seq<seq<byte>>, b: seq<seq<byte>>)
    ensures F.RingFeedAll(d, a + b) == F.RingFeedAll(F.RingFeedAll(d, a), b)
    decreases |a|
  {
    hide F.RingFeed;
    if a == [] {
      assert a + b == b;
    } else {
      assert (a + b)[0] == a[0] && (a + b)[1..] == a[1..] + b;
      RingSplit(F.RingFeed(d, a[0]), a[1..], b);
    }
  }
}
