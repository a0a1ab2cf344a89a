/** The report pipeline end to end: SubSource_SendData, frames, arbitrary arrivals, readLoop, onData,
    the segment queue and getSpu, under every interleaving of arrivals and parser calls. */
module ReportPipelines {
  import opened Bytes
  import opened CodecIds
  import opened IpcFrames
  import opened FmqReceivers
  import opened FrameStreams
  import opened SubtitleReports
  import opened DataSources
  import opened AssParsers

  // ---- One packet ---------------------------------------------------------------------------

  /** What getSpu should make of a packet. */
  function Expected(p: Packet): Outcome {
    ParseBody(p.codec, Wrap64(p.pts), p.duration % TWO32, p.data)
  }

  /** Packets the text parser reads whole: a 24-bit codec other than the two DVD ones. */
  predicate Readable(p: Packet) {
    && p.codec < 0x100_0000 && p.codec != CODEC_DVD && p.codec != CODEC_VOB
    && 0 < |p.data| < 0x8000_0000 - PACKET_HEADER_SIZE
  }

  lemma Slices(a: seq<byte>, b: seq<byte>, c: seq<byte>, d: seq<byte>, e: seq<byte>)
    requires |a| == 5 && |b| == 3 && |c| == 4 && |d| == 8 && |e| == 4
    ensures var h := a + b + c + d + e;
            && h[..4] == a[..4] && h[4..8] == [a[4]] + b && h[8..12] == c && h[12..20] == d && h[20..24] == e
  {
  }

  lemma HeaderLayout(codec: nat, len: nat, pts: int, duration: int)
    requires len < TWO32 && codec < 0x100_0000
    ensures var h := PacketHeader(codec, len, pts, duration);
            && BE(h[..4]) == PARSER_SYNC_WORD
            && BE(h[4..8]) % 0x100_0000 == codec
            && BE(h[8..12]) == len
            && Wrap64(BE(h[12..20])) == Wrap64(pts)
            && BE(h[20..24]) == duration % TWO32
  {
    hide BEBytes, BE;
    var a := [0x41, 0x4d, 0x4c, 0x55, 0x77];
    Slices(a, BEBytes(codec, 3), BEBytes(len, 4), BEBytes(pts, 8), BEBytes(duration, 4));
    assert a[..4] == [0x41, 0x4d, 0x4c, 0x55];
    SyncValue();
    LeadingByte(0x77, BEBytes(codec, 3));
    BERoundTrip(codec, 3);
    BERoundTrip(len, 4);
    BERoundTrip(pts, 8);
    BERoundTrip(duration, 4);
    Pow256Values();
    assert Pow256(3) == 256 * 256 * 256 * Pow256(0);
  }

  lemma SyncValue()
    ensures BE([0x41, 0x4d, 0x4c, 0x55]) == PARSER_SYNC_WORD
  {
    assert [0x41, 0x4d, 0x4c, 0x55][..3] == [0x41, 0x4d, 0x4c];
    assert [0x41, 0x4d, 0x4c][..2] == [0x41, 0x4d];
    assert [0x41, 0x4d][..1] == [0x41];
  }

  lemma {:induction false} LeadingByte(b: byte, s: seq<byte>)
    ensures BE([b] + s) == b * Pow256(|s|) + BE(s)
  {
    if s == [] {
      assert [b] + s == [b];
    } else {
      var t := s[..|s| - 1];
      assert ([b] + s)[..|s|] == [b] + t;
      LeadingByte(b, t);
      assert 256 * (b * Pow256(|t|)) == b * Pow256(|s|);
    }
  }

  /** getSpu on a stream that begins with a whole packet takes exactly that packet. */
  lemma PacketTaken(p: Packet, rest: seq<byte>)
    requires Readable(p)
    ensures TakePacket(PacketBytes(p) + rest) == (Expected(p), rest)
  {
    var h := PacketHeader(p.codec, |p.data|, p.pts, p.duration);
    HeaderLayout(p.codec, |p.data|, p.pts, p.duration);
    hide BE, PacketHeader, ParseBody, Wrap64;
    var s := PacketBytes(p) + rest;
    assert s == h + p.data + rest;
    PacketSlices(h, p.data, rest);
  }

  lemma PacketSlices(h: seq<byte>, data: seq<byte>, rest: seq<byte>)
    requires |h| == 24
    ensures var s := h + data + rest;
            && s[..20][..4] == h[..4] && s[..20][4..8] == h[4..8]
            && s[..20][8..12] == h[8..12] && s[..20][12..20] == h[12..20]
            && s[20..][..4] == h[20..24] && s[20..][4..4 + |data|] == data && s[20..][4 + |data|..] == rest
  {
  }

  // ---- Runs ---------------------------------------------------------------------------------

  datatype Event = Arrive(chunk: seq<byte>) | ParseOnce

  /** Receiver bytes, the reported fields, the byte stream, and what getSpu returned so far. */
  datatype Pipe = Pipe(
    rest: seq<byte>, fault: bool,
    total: int, subType: int, stream: seq<byte>,
    outcomes: seq<Outcome>)

  /** The listener's side of onData, on values. */
  function OnBuffer(p: Pipe, buffer: seq<byte>): Pipe {
    if !WellSized(buffer) then p   // a field the source would read past the buffer for
    else
      p.(total := if PeekWord(buffer, 0) == SUBTITLE_TOTAL then Wrap32(PeekWord(buffer, 4)) else p.total,
         subType := if PeekWord(buffer, 0) == SUBTITLE_TYPE then Wrap32(PeekWord(buffer, 4)) else p.subType,
         stream := p.stream + Queued(Reported(p.total, p.subType), buffer))
  }

  function OnBuffers(p: Pipe, buffers: seq<seq<byte>>): Pipe
    decreases |buffers|
  {
    if buffers == [] then p else OnBuffers(OnBuffer(p, buffers[0]), buffers[1..])
  }

  function PipeStep(p: Pipe, e: Event): Pipe {
    match e
    case Arrive(chunk) =>
      var d := RingFeed(Decoded([], p.rest, p.fault), chunk);
      OnBuffers(p.(rest := d.rest, fault := d.fault), d.delivered)
    case ParseOnce =>
      var (out, s) := TakePacket(p.stream);
      if out.NoData? then p else p.(stream := s, outcomes := p.outcomes + [out])
  }

  function PipeRun(p: Pipe, es: seq<Event>): Pipe
    decreases |es|
  {
    if es == [] then p else PipeRun(PipeStep(p, es[0]), es[1..])
  }

  function Arrived(es: seq<Event>): seq<byte>
    decreases |es|
  {
    if es == [] then [] else (if es[0].Arrive? then es[0].chunk else []) + Arrived(es[1..])
  }

  /** The pieces that arrive. */
  function Chunks(es: seq<Event>): seq<seq<byte>>
    decreases |es|
  {
    if es == [] then [] else (if es[0].Arrive? then [es[0].chunk] else []) + Chunks(es[1..])
  }

  lemma {:induction false} ChunksArrived(es: seq<Event>)
    ensures Concat(Chunks(es)) == Arrived(es)
    decreases |es|
  {
    if es != [] {
      ChunksArrived(es[1..]);
      if es[0].Arrive? {
        assert Chunks(es)[1..] == Chunks(es[1..]);
      } else {
        assert Chunks(es) == Chunks(es[1..]);
      }
    }
  }

  function PacketFrames(sid: int, ps: seq<Packet>): (fs: seq<Frame>)
    ensures |fs| == |ps| && forall i | 0 <= i < |ps| :: fs[i] == PacketFrame(sid, ps[i])
  {
    seq(|ps|, i requires 0 <= i < |ps| => PacketFrame(sid, ps[i]))
  }

  function PacketStream(ps: seq<Packet>): seq<byte>
    decreases |ps|
  {
    if ps == [] then [] else PacketBytes(ps[0]) + PacketStream(ps[1..])
  }

  function Outcomes(ps: seq<Packet>): (os: seq<Outcome>)
    ensures |os| == |ps|
  {
    seq(|ps|, i requires 0 <= i < |ps| => Expected(ps[i]))
  }

  ghost predicate AllReadable(ps: seq<Packet>) {
    forall i | 0 <= i < |ps| :: Readable(ps[i])
  }

  /** After n bytes of the packets' frames: k packets are through the receiver, j of them parsed, and
      the ones between are exactly what the stream holds. */
  ghost predicate PipeInv(p: Pipe, sid: int, ps: seq<Packet>, n: nat, j: nat)
    requires n <= |EncodeAll(PacketFrames(sid, ps))|
  {
    var fs := PacketFrames(sid, ps);
    var k := WholeFrames(fs, n);
    var d := Decode(EncodeAll(fs)[..n]);
    && j <= k
    && p.rest == d.rest && !p.fault && !d.fault
    && Reported(p.total, p.subType)
    && p.outcomes == Outcomes(ps[..j])
    && p.stream == PacketStream(ps[j..k])
  }

  lemma FramesOfPackets(sid: int, ps: seq<Packet>)
    requires AllReadable(ps)
    ensures var fs := PacketFrames(sid, ps);
            AllValid(fs) && forall i | 0 <= i < |fs| :: fs[i].payload != []
  {
    hide PacketBytes;
    var fs := PacketFrames(sid, ps);
    forall i | 0 <= i < |fs|
      ensures fs[i].Valid() && fs[i].payload != []
    {
      assert Readable(ps[i]);
    }
  }

  lemma {:induction false} ListenerBuffersAt(fs: seq<Frame>, i: nat)
    requires i < |fs|
    ensures ListenerBuffers(fs)[i] == ListenerBuffer(fs[i].pkgType, fs[i].payload)
  {
    hide ListenerBuffer;
    if i > 0 {
      ListenerBuffersAt(fs[1..], i - 1);
    }
  }

  lemma PacketStreamCons(ps: seq<Packet>)
    requires ps != []
    ensures PacketStream(ps) == PacketBytes(ps[0]) + PacketStream(ps[1..])
  {
  }

  lemma NoStream()
    ensures PacketStream([]) == []
  {
  }

  lemma {:induction false} PacketStreamSplit(a: seq<Packet>, b: seq<Packet>)
    ensures PacketStream(a + b) == PacketStream(a) + PacketStream(b)
    decreases |a|
  {
    hide PacketBytes, PacketStream;
    if a == [] {
      assert a + b == b;
      assert PacketStream([]) == [] by { NoStream(); }
    } else {
      assert (a + b)[0] == a[0] && (a + b)[1..] == a[1..] + b;
      PacketStreamCons(a);
      PacketStreamCons(a + b);
      PacketStreamSplit(a[1..], b);
      Assoc(PacketBytes(a[0]), PacketStream(a[1..]), PacketStream(b));
    }
  }

  /** A packet that has been received joins the byte stream unchanged. */
  lemma PacketQueued(p: Pipe, pk: Packet)
    requires Reported(p.total, p.subType)
    ensures OnBuffer(p, ListenerBuffer(SUBTITLE_DATA, PacketBytes(pk))) == p.(stream := p.stream + PacketBytes(pk))
  {
    hide PacketBytes;
    DataBuffer(PacketBytes(pk));
  }

  lemma DataBuffer(payload: seq<byte>)
    ensures var b := ListenerBuffer(SUBTITLE_DATA, payload);
            |b| == 4 + |payload| && PeekWord(b, 0) == SUBTITLE_DATA && b[4..] == payload
  {
    hide LEBytes;
    var b := ListenerBuffer(SUBTITLE_DATA, payload);
    assert b[0..4] == LEBytes(SUBTITLE_DATA, 4);
    WordAt(b, 0, SUBTITLE_DATA);
  }

  lemma {:induction false} PacketsQueued(p: Pipe, ps: seq<Packet>, bs: seq<seq<byte>>)
    requires Reported(p.total, p.subType) && |bs| == |ps|
    requires forall i | 0 <= i < |ps| :: bs[i] == ListenerBuffer(SUBTITLE_DATA, PacketBytes(ps[i]))
    ensures OnBuffers(p, bs) == p.(stream := p.stream + PacketStream(ps))
    decreases |ps|
  {
    hide ListenerBuffer, PacketBytes, OnBuffer;
    if ps == [] {
      assert p.stream + [] == p.stream;
    } else {
      PacketQueued(p, ps[0]);
      PacketsQueued(OnBuffer(p, bs[0]), ps[1..], bs[1..]);
      Assoc(p.stream, PacketBytes(ps[0]), PacketStream(ps[1..]));
    }
  }

  /** PrefixDecodes, keeping only what is delivered. */
  lemma PrefixDelivers(fs: seq<Frame>, n: nat)
    requires AllValid(fs) && (forall i | 0 <= i < |fs| :: fs[i].payload != [])
    requires n <= |EncodeAll(fs)|
    ensures !Decode(EncodeAll(fs)[..n]).fault
    ensures Delivers(Decode(EncodeAll(fs)[..n]).delivered, fs, 0, WholeFrames(fs, n))
  {
    hide Decode, EncodeAll, WholeFrames, ListenerBuffer, ListenerBuffers;
    PrefixDecodes(fs, n);
    var k := WholeFrames(fs, n);
    forall i | 0 <= i < k
      ensures ListenerBuffers(fs[..k])[i] == ListenerBuffer(fs[i].pkgType, fs[i].payload)
    {
      ListenerBuffersAt(fs[..k], i);
    }
  }

  /** bs are the listener buffers of frames lo..hi. */
  ghost predicate Delivers(bs: seq<seq<byte>>, fs: seq<Frame>, lo: nat, hi: nat) {
    && lo <= hi <= |fs| && |bs| == hi - lo
    && forall i | 0 <= i < hi - lo :: bs[i] == ListenerBuffer(fs[lo + i].pkgType, fs[lo + i].payload)
  }

  lemma DeliversRest(a: seq<seq<byte>>, b: seq<seq<byte>>, fs: seq<Frame>, k: nat, k': nat)
    requires Delivers(a, fs, 0, k) && Delivers(a + b, fs, 0, k')
    ensures Delivers(b, fs, k, k')
  {
    hide ListenerBuffer;
    forall i | 0 <= i < k' - k
      ensures b[i] == ListenerBuffer(fs[k + i].pkgType, fs[k + i].payload)
    {
      assert b[i] == (a + b)[k + i];
      assert k + i == 0 + (k + i);
    }
  }

  /** The buffers one arrival delivers are those of the frames it completes. */
  lemma NewBuffers(fs: seq<Frame>, n: nat, chunk: seq<byte>)
    requires AllValid(fs) && (forall i | 0 <= i < |fs| :: fs[i].payload != [])
    requires n + |chunk| <= |EncodeAll(fs)| && chunk == EncodeAll(fs)[n..n + |chunk|]
    ensures var d, d' := Decode(EncodeAll(fs)[..n]), Decode(EncodeAll(fs)[..n + |chunk|]);
            var e := Feed(Decoded([], d.rest, d.fault), chunk);
            && e.rest == d'.rest && !e.fault && !d'.fault
            && Delivers(e.delivered, fs, WholeFrames(fs, n), WholeFrames(fs, n + |chunk|))
  {
    hide Decode, EncodeAll, WholeFrames, Delivers;
    var s := EncodeAll(fs);
    PrefixDelivers(fs, n);
    PrefixDelivers(fs, n + |chunk|);
    assert s[..n + |chunk|] == s[..n] + chunk;
    DecodeAppend(s[..n], chunk);
    var d, e := Decode(s[..n]), Decode(Decode(s[..n]).rest + chunk);
    assert [] + e.delivered == e.delivered;
    DeliversRest(d.delivered, e.delivered, fs, WholeFrames(fs, n), WholeFrames(fs, n + |chunk|));
  }

  lemma PacketsDelivered(p: Pipe, sid: int, ps: seq<Packet>, bs: seq<seq<byte>>, k: nat, k': nat)
    requires Reported(p.total, p.subType) && Delivers(bs, PacketFrames(sid, ps), k, k')
    ensures OnBuffers(p, bs) == p.(stream := p.stream + PacketStream(ps[k..k']))
  {
    hide ListenerBuffer, OnBuffers, PacketBytes, PacketStream;
    PacketsQueued(p, ps[k..k'], bs);
  }

  lemma ArriveKeeps(p: Pipe, sid: int, ps: seq<Packet>, n: nat, j: nat, chunk: seq<byte>)
    requires AllReadable(ps)
    requires n + |chunk| <= |EncodeAll(PacketFrames(sid, ps))|
    requires chunk == EncodeAll(PacketFrames(sid, ps))[n..n + |chunk|]
    requires PipeInv(p, sid, ps, n, j) && |p.rest| + |chunk| <= CAPACITY
    ensures PipeInv(PipeStep(p, Arrive(chunk)), sid, ps, n + |chunk|, j)
  {
    hide Decode, WholeFrames, EncodeAll, PacketStream, OnBuffers, Feed, Outcomes, ListenerBuffer;
    var fs := PacketFrames(sid, ps);
    FramesOfPackets(sid, ps);
    NewBuffers(fs, n, chunk);
    var k, k' := WholeFrames(fs, n), WholeFrames(fs, n + |chunk|);
    var e := Feed(Decoded([], p.rest, p.fault), chunk);
    PacketsDelivered(p.(rest := e.rest, fault := e.fault), sid, ps, e.delivered, k, k');
    StreamJoin(ps, j, k, k');
  }

  lemma StreamJoin(ps: seq<Packet>, j: nat, k: nat, k': nat)
    requires j <= k <= k' <= |ps|
    ensures PacketStream(ps[j..k]) + PacketStream(ps[k..k']) == PacketStream(ps[j..k'])
  {
    hide PacketStream;
    PacketStreamSplit(ps[j..k], ps[k..k']);
    assert ps[j..k] + ps[k..k'] == ps[j..k'];
  }

  lemma ParseKeeps(p: Pipe, sid: int, ps: seq<Packet>, n: nat, j: nat) returns (j': nat)
    requires AllReadable(ps) && n <= |EncodeAll(PacketFrames(sid, ps))|
    requires PipeInv(p, sid, ps, n, j)
    ensures PipeInv(PipeStep(p, ParseOnce), sid, ps, n, j')
    ensures j' == if j < WholeFrames(PacketFrames(sid, ps), n) then j + 1 else j
  {
    hide Decode, WholeFrames, PacketBytes, EncodeAll, PacketFrames;
    var k := WholeFrames(PacketFrames(sid, ps), n);
    if j < k {
      j' := j + 1;
      StreamHead(ps, j, k);
      hide TakePacket, PacketStream, Outcomes, Expected;
      PacketTaken(ps[j], PacketStream(ps[j + 1..k]));
      ExpectedData(ps[j]);
    } else {
      j' := j;
      assert p.stream == [];
    }
  }

  lemma ExpectedData(p: Packet)
    ensures !Expected(p).NoData?
  {
  }

  lemma StreamHead(ps: seq<Packet>, j: nat, k: nat)
    requires j < k <= |ps|
    ensures PacketStream(ps[j..k]) == PacketBytes(ps[j]) + PacketStream(ps[j + 1..k])
    ensures Outcomes(ps[..j + 1]) == Outcomes(ps[..j]) + [Expected(ps[j])]
  {
    hide PacketBytes, Expected;
    assert ps[j..k][0] == ps[j] && ps[j..k][1..] == ps[j + 1..k];
  }

  lemma {:induction false} RunKeeps(p: Pipe, sid: int, ps: seq<Packet>, n: nat, j: nat, es: seq<Event>)
      returns (j': nat)
    requires AllReadable(ps)
    requires n + |Arrived(es)| <= |EncodeAll(PacketFrames(sid, ps))|
    requires Arrived(es) == EncodeAll(PacketFrames(sid, ps))[n..n + |Arrived(es)|]
    requires PipeInv(p, sid, ps, n, j) && Fit(Decode(EncodeAll(PacketFrames(sid, ps))[..n]), Chunks(es))
    ensures PipeInv(PipeRun(p, es), sid, ps, n + |Arrived(es)|, j')
    decreases |es|
  {
    hide PipeInv, PipeStep, EncodeAll, PacketFrames, Decode, Fit;
    if es == [] {
      j' := j;
    } else {
      var j0 := EventKeeps(p, sid, ps, n, j, es);
      j' := RunKeeps(PipeStep(p, es[0]), sid, ps, n + |Arrived(es)| - |Arrived(es[1..])|, j0, es[1..]);
    }
  }

  lemma EventKeeps(p: Pipe, sid: int, ps: seq<Packet>, n: nat, j: nat, es: seq<Event>) returns (j': nat)
    requires AllReadable(ps) && es != []
    requires n + |Arrived(es)| <= |EncodeAll(PacketFrames(sid, ps))|
    requires Arrived(es) == EncodeAll(PacketFrames(sid, ps))[n..n + |Arrived(es)|]
    requires PipeInv(p, sid, ps, n, j) && Fit(Decode(EncodeAll(PacketFrames(sid, ps))[..n]), Chunks(es))
    ensures var s := EncodeAll(PacketFrames(sid, ps));
            var later := Arrived(es[1..]);
            var n' := n + |Arrived(es)| - |later|;
            && n <= n' && later == s[n'..n' + |later|]
            && PipeInv(PipeStep(p, es[0]), sid, ps, n', j') && Fit(Decode(s[..n']), Chunks(es[1..]))
  {
    hide PipeInv, PipeStep, EncodeAll, PacketFrames, Decode, Fit, Arrived, Chunks;
    var s := EncodeAll(PacketFrames(sid, ps));
    match es[0]
    case Arrive(chunk) =>
      OnePiece(chunk, es);
      ArrivedSplit(s, n, chunk, Arrived(es[1..]));
      FitNext(s, n, chunk, Chunks(es[1..]));
      InvRest(p, sid, ps, n, j);
      ArriveKeeps(p, sid, ps, n, j, chunk);
      j' := j;
    case ParseOnce =>
      NoPiece(es);
      j' := ParseKeeps(p, sid, ps, n, j);
  }

  lemma FitNext(s: seq<byte>, n: nat, chunk: seq<byte>, later: seq<seq<byte>>)
    requires n + |chunk| <= |s| && chunk == s[n..n + |chunk|] && Fit(Decode(s[..n]), [chunk] + later)
    ensures |Decode(s[..n]).rest| + |chunk| <= CAPACITY && Fit(Decode(s[..n + |chunk|]), later)
  {
    hide Decode;
    assert ([chunk] + later)[0] == chunk && ([chunk] + later)[1..] == later;
    assert s[..n + |chunk|] == s[..n] + chunk;
    DecodeAppend(s[..n], chunk);
  }

  lemma OnePiece(chunk: seq<byte>, es: seq<Event>)
    requires es != [] && es[0] == Arrive(chunk)
    ensures Chunks(es) == [chunk] + Chunks(es[1..]) && Arrived(es) == chunk + Arrived(es[1..])
  {
  }

  lemma NoPiece(es: seq<Event>)
    requires es != [] && es[0].ParseOnce?
    ensures Chunks(es) == Chunks(es[1..]) && Arrived(es) == Arrived(es[1..])
  {
  }

  lemma InvRest(p: Pipe, sid: int, ps: seq<Packet>, n: nat, j: nat)
    requires n <= |EncodeAll(PacketFrames(sid, ps))| && PipeInv(p, sid, ps, n, j)
    ensures p.rest == Decode(EncodeAll(PacketFrames(sid, ps))[..n]).rest && !p.fault
  {
    hide Decode, EncodeAll, PacketFrames, PacketStream, Outcomes, WholeFrames;
  }

  lemma ArrivedSplit(s: seq<byte>, n: nat, chunk: seq<byte>, later: seq<byte>)
    requires n + |chunk + later| <= |s| && chunk + later == s[n..n + |chunk + later|]
    ensures chunk == s[n..n + |chunk|] && later == s[n + |chunk|..n + |chunk| + |later|]
  {
    var t := chunk + later;
    assert chunk == t[..|chunk|] && later == t[|chunk|..];
  }

  /** A pipe with nothing in it, whose listener knows a track count or a subtitle type. */
  predicate Ready(p: Pipe) {
    p.rest == [] && !p.fault && Reported(p.total, p.subType) && p.stream == [] && p.outcomes == []
  }

  lemma ReadyInv(p: Pipe, sid: int, ps: seq<Packet>)
    requires Ready(p)
    ensures PipeInv(p, sid, ps, 0, 0)
  {
    hide Encode;
    var fs := PacketFrames(sid, ps);
    DecodeNothing();
    assert EncodeAll(fs)[..0] == [];
    assert ps[0..0] == [] && ps[..0] == [];
    assert WholeFrames(fs, 0) == 0;
  }

  /** Main result: whatever part of the packets' frames has arrived, cut into any pieces that find room in the
      ring, and however calls of getSpu fall between the arrivals, the calls have returned a prefix of the packets
      sent, each with its own codec, time, end time and text, in order; what has been received and not returned
      is exactly the stream the next calls will read. */
  lemma EndToEnd(p: Pipe, sid: int, ps: seq<Packet>, es: seq<Event>) returns (j: nat)
    requires Ready(p) && AllReadable(ps)
    requires Arrived(es) <= EncodeAll(PacketFrames(sid, ps)) && Fit(EMPTY, Chunks(es))
    ensures var k := WholeFrames(PacketFrames(sid, ps), |Arrived(es)|);
            var q := PipeRun(p, es);
            && j <= k
            && q.outcomes == Outcomes(ps[..j])
            && q.stream == PacketStream(ps[j..k])
  {
    hide WholeFrames, PacketStream, Decode, EncodeAll, Fit;
    ReadyInv(p, sid, ps);
    var s := EncodeAll(PacketFrames(sid, ps));
    assert Arrived(es) == s[0..0 + |Arrived(es)|];
    assert s[..0] == [];
    DecodeNothing();
    j := RunKeeps(p, sid, ps, 0, 0, es);
  }

  /** Pieces and packets that together never outgrow the ring: 44 is the length of both headers. */
  ghost predicate Sized(ps: seq<Packet>, es: seq<Event>) {
    forall p, c | p in ps && c in Chunks(es) :: |p.data| + 44 + |c| <= CAPACITY + 1
  }

  /** Such pieces find room. */
  lemma SizedFits(sid: int, ps: seq<Packet>, es: seq<Event>)
    requires AllReadable(ps) && Sized(ps, es) && Arrived(es) <= EncodeAll(PacketFrames(sid, ps))
    ensures Fit(EMPTY, Chunks(es))
  {
    hide Chunks, EncodeAll, Fit, PacketBytes, Encode;
    var fs := PacketFrames(sid, ps);
    FramesOfPackets(sid, ps);
    ChunksArrived(es);
    forall f, c | f in fs && c in Chunks(es)
      ensures |Encode(f)| + |c| <= CAPACITY + 1
    {
      var i :| 0 <= i < |fs| && fs[i] == f;
      assert ps[i] in ps;
    }
    RoomyFits(fs, Chunks(es));
  }

  /** With a 64-bit time, what comes out for each packet: plain text (0x17002), SSA (0x17004), SubRip (0x17808),
      WebVTT (0x17809) and ASS (0x1780d) with their own text and times, MOV_TEXT (0x17005) without its first two
      bytes, and no other codec at all. */
  lemma OutcomeFields(ps: seq<Packet>, i: nat)
    requires i < |ps| && Readable(ps[i])
    requires -0x8000_0000_0000_0000 <= ps[i].pts < 0x8000_0000_0000_0000 && 0 <= ps[i].duration < 0x1_0000_0000
    ensures var p, out := ps[i], Outcomes(ps)[i];
            var end := if p.duration == 0 then 0 else Wrap64(p.pts + p.duration);
            && (p.codec in {0x17002, 0x17004, 0x17808, 0x17809, 0x1780d} ==>
                  out == Parsed(p.codec, Spu(3, |p.data| + 1, p.pts, end, p.data)))
            && (p.codec == 0x17005 && |p.data| > 2 ==>
                  out == Parsed(p.codec, Spu(5, |p.data| + 1, p.pts, end, p.data[2..])))
            && (p.codec == 0x17005 && |p.data| == 2 ==> out == Rejected)
            && (p.codec == 0x17005 && |p.data| < 2 ==> out == Undefined)
            && (p.codec !in {0x17002, 0x17004, 0x17005, 0x17808, 0x17809, 0x1780d} ==> out == Rejected)
  {
  }

  function Parses(m: nat): seq<Event> {
    seq(m, _ => ParseOnce)
  }

  lemma {:induction false} DrainKeeps(p: Pipe, sid: int, ps: seq<Packet>, n: nat, j: nat, m: nat)
    requires AllReadable(ps) && n <= |EncodeAll(PacketFrames(sid, ps))|
    requires PipeInv(p, sid, ps, n, j) && m >= WholeFrames(PacketFrames(sid, ps), n) - j
    ensures PipeInv(PipeRun(p, Parses(m)), sid, ps, n, WholeFrames(PacketFrames(sid, ps), n))
    decreases m
  {
    hide PipeStep, WholeFrames, EncodeAll, Decode;
    if m > 0 {
      var j' := ParseKeeps(p, sid, ps, n, j);
      assert Parses(m)[1..] == Parses(m - 1);
      DrainKeeps(PipeStep(p, ParseOnce), sid, ps, n, j', m - 1);
    }
  }

  lemma {:induction false} PipeRunSplit(p: Pipe, a: seq<Event>, b: seq<Event>)
    ensures PipeRun(p, a + b) == PipeRun(PipeRun(p, a), b)
    decreases |a|
  {
    hide PipeStep;
    if a == [] {
      assert a + b == b;
    } else {
      assert (a + b)[0] == a[0] && (a + b)[1..] == a[1..] + b;
      PipeRunSplit(PipeStep(p, a[0]), a[1..], b);
    }
  }

  /** Once every frame has arrived, as many further calls as there are packets return the rest. */
  lemma EndToEndComplete(p: Pipe, sid: int, ps: seq<Packet>, es: seq<Event>, m: nat)
    requires Ready(p) && AllReadable(ps) && m >= |ps|
    requires Arrived(es) == EncodeAll(PacketFrames(sid, ps)) && Fit(EMPTY, Chunks(es))
    ensures PipeRun(p, es + Parses(m)).outcomes == Outcomes(ps)
    ensures PipeRun(p, es + Parses(m)).stream == []
  {
    hide WholeFrames, Decode, EncodeAll, PipeRun, Outcomes, Fit;
    var fs := PacketFrames(sid, ps);
    var s := EncodeAll(fs);
    ReadyInv(p, sid, ps);
    assert Arrived(es) == s[0..0 + |Arrived(es)|];
    assert s[..0] == [];
    DecodeNothing();
    var j := RunKeeps(p, sid, ps, 0, 0, es);
    DrainKeeps(PipeRun(p, es), sid, ps, |s|, j, m);
    PipeRunSplit(p, es, Parses(m));
    AllWhole(fs);
    assert ps[..|ps|] == ps;
  }

  lemma {:induction false} AllWhole(fs: seq<Frame>)
    ensures WholeFrames(fs, |EncodeAll(fs)|) == |fs|
  {
    hide Encode;
    if fs != [] {
      AllWhole(fs[1..]);
    }
  }

  // ---- The sender's side --------------------------------------------------------------------

  /** The packets a sequence of SubSource_SendData calls puts on the wire, and the bytes. */
  function SentPackets(last: int, rs: seq<Request>): seq<Packet>
    decreases |rs|
  {
    if rs == [] then []
    else (if Accepted(rs[0]) then [PacketOf(last, rs[0])] else []) + SentPackets(DurationAfter(last, rs[0]), rs[1..])
  }

  /** Some request so far sets the last duration to 0: one with text (0x17002), ASS (0x1780d) or SubRip (0x17808)
      data. */
  ghost predicate Cleared(rs: seq<Request>) {
    exists i | 0 <= i < |rs| :: rs[i].data != [] && rs[i].codec in {0x17002, 0x1780d, 0x17808}
  }

  /** The last duration behind some requests. */
  function DurationBehind(last: int, rs: seq<Request>): int
    decreases |rs|
  {
    if rs == [] then last else DurationBehind(DurationAfter(last, rs[0]), rs[1..])
  }

  lemma {:induction false} DurationExactly(last: int, rs: seq<Request>)
    ensures DurationBehind(last, rs) == if Cleared(rs) then 0 else last
    decreases |rs|
  {
    if rs != [] {
      DurationExactly(DurationAfter(last, rs[0]), rs[1..]);
      if i :| 0 <= i < |rs| && rs[i].data != [] && rs[i].codec in {0x17002, 0x1780d, 0x17808} {
        assert i > 0 ==> rs[1..][i - 1] == rs[i];
      }
      if i :| 0 <= i < |rs[1..]| && rs[1..][i].data != [] && rs[1..][i].codec in {0x17002, 0x1780d, 0x17808} {
        assert rs[1..][i] == rs[i + 1];
      }
    }
  }

  lemma {:induction false} SentBehind(last: int, rs: seq<Request>, r: Request)
    ensures SentPackets(last, rs + [r]) == SentPackets(last, rs) + SentPackets(DurationBehind(last, rs), [r])
    decreases |rs|
  {
    hide Accepted, DurationAfter, PacketOf;
    if rs == [] {
      assert [] + [r] == [r];
      assert [] + SentPackets(last, [r]) == SentPackets(last, [r]);
    } else {
      assert (rs + [r])[0] == rs[0] && (rs + [r])[1..] == rs[1..] + [r];
      var next := DurationAfter(last, rs[0]);
      var first := if Accepted(rs[0]) then [PacketOf(last, rs[0])] else [];
      SentBehind(next, rs[1..], r);
      Assoc(first, SentPackets(next, rs[1..]), SentPackets(DurationBehind(next, rs[1..]), [r]));
    }
  }

  /** What each further request adds to what was sent: nothing when it is empty or XSUB (0x17003); otherwise its
      own data and time, DVD (0x17000) renumbered to VOB (0x1700a), and a duration of 0 from the first text, ASS
      or SubRip packet on. */
  lemma SentExactly(last: int, rs: seq<Request>, r: Request)
    ensures SentPackets(last, rs + [r]) == SentPackets(last, rs) +
            (if r.data == [] || r.codec == 0x17003 then []
             else [Packet(if r.codec == 0x17000 then 0x1700a else r.codec, r.pts,
                          if Cleared(rs + [r]) then 0 else last, r.data)])
  {
    hide SentPackets;
    SentBehind(last, rs, r);
    DurationExactly(last, rs);
    DurationExactly(last, rs + [r]);
    DurationSnoc(last, rs, r);
    SentOne(DurationBehind(last, rs), r);
  }

  lemma SentOne(last: int, r: Request)
    ensures SentPackets(last, [r]) == if Accepted(r) then [PacketOf(last, r)] else []
  {
    assert [r][1..] == [];
    assert SentPackets(DurationAfter(last, r), []) == [];
  }

  lemma {:induction false} DurationSnoc(last: int, rs: seq<Request>, r: Request)
    ensures DurationBehind(last, rs + [r]) == DurationAfter(DurationBehind(last, rs), r)
    decreases |rs|
  {
    hide DurationAfter;
    if rs == [] {
      assert rs + [r] == [r] && [r][1..] == [];
    } else {
      assert (rs + [r])[0] == rs[0] && (rs + [r])[1..] == rs[1..] + [r];
      DurationSnoc(DurationAfter(last, rs[0]), rs[1..], r);
    }
  }

  method SendAll(ctx: SubtitleReport, rs: seq<Request>)
    requires forall i | 0 <= i < |rs| :: |rs[i].data| + PACKET_HEADER_SIZE + HEADER_SIZE < 0x8000_0000
    modifies ctx
    ensures ctx.sent == old(ctx.sent) + EncodeAll(PacketFrames(ctx.sId, SentPackets(old(ctx.lastDuration), rs)))
  {
    hide Encode, PacketOf, Accepted, DurationAfter;
    ghost var start, last := ctx.sent, ctx.lastDuration;
    ghost var done := [];
    assert start + EncodeAll(PacketFrames(ctx.sId, [])) == start;
    for i := 0 to |rs|
      invariant ctx.sent == start + EncodeAll(PacketFrames(ctx.sId, done))
      invariant SentPackets(last, rs) == done + SentPackets(ctx.lastDuration, rs[i..])
    {
      ghost var now := ctx.lastDuration;
      assert rs[i..][0] == rs[i] && rs[i..][1..] == rs[i + 1..];
      var _ := ctx.SendData(rs[i]);
      if Accepted(rs[i]) {
        var p := PacketOf(now, rs[i]);
        FrameAdded(ctx.sId, done, p, start);
        Assoc(done, [p], SentPackets(ctx.lastDuration, rs[i + 1..]));
        done := done + [p];
      } else {
        assert [] + SentPackets(ctx.lastDuration, rs[i + 1..]) == SentPackets(ctx.lastDuration, rs[i + 1..]);
        assert ctx.sent + [] == ctx.sent;
      }
    }
    assert done + [] == done;
  }

  lemma FrameAdded(sid: int, done: seq<Packet>, p: Packet, start: seq<byte>)
    ensures start + EncodeAll(PacketFrames(sid, done + [p]))
         == start + EncodeAll(PacketFrames(sid, done)) + Encode(PacketFrame(sid, p))
  {
    hide Encode, PacketBytes;
    var f := PacketFrame(sid, p);
    EncodeAllSplit(PacketFrames(sid, done), [f]);
    assert PacketFrames(sid, done + [p]) == PacketFrames(sid, done) + [f];
    assert EncodeAll([f]) == Encode(f) + EncodeAll([f][1..]);
    assert EncodeAll([f]) == Encode(f);
    Assoc(start, EncodeAll(PacketFrames(sid, done)), Encode(f));
  }

  /** Subtitle data is dropped while neither a type (0x53545950) nor a track count (0x53544F54) other than -1 has
      been reported, and joins the stream once either has. */
  lemma ReportOpensQueue(p: Pipe, v: int, payload: seq<byte>)
    requires payload != []
    ensures OnBuffer(p, ListenerBuffer(SUBTITLE_TYPE, LEBytes(v, 4))) == p.(subType := Wrap32(v))
    ensures OnBuffer(p, ListenerBuffer(SUBTITLE_TOTAL, LEBytes(v, 4))) == p.(total := Wrap32(v))
    ensures OnBuffer(p, ListenerBuffer(SUBTITLE_DATA, payload)) == p <==> p.total == -1 && p.subType == -1
    ensures p.total != -1 || p.subType != -1 ==>
              OnBuffer(p, ListenerBuffer(SUBTITLE_DATA, payload)) == p.(stream := p.stream + payload)
    ensures SUBTITLE_TYPE == 0x5354_5950 && SUBTITLE_TOTAL == 0x5354_4F54 && SUBTITLE_DATA == 0x504C_4454
  {
    DataBuffer(payload);
    ReportBuffer(SUBTITLE_TYPE, v);
    ReportBuffer(SUBTITLE_TOTAL, v);
    assert p.stream + [] == p.stream;
    hide LEBytes, Wrap32, ListenerBuffer;
    assert |p.stream + payload| > |p.stream|;
  }

  /** So a track count alone opens the queue, as a type alone does, unless it is -1. */
  lemma CountAlone(p: Pipe, v: int, payload: seq<byte>)
    requires payload != [] && p.total == -1 && p.subType == -1 && -0x8000_0000 <= v < 0x8000_0000
    ensures var count, kind := OnBuffer(p, ListenerBuffer(SUBTITLE_TOTAL, LEBytes(v, 4))),
                               OnBuffer(p, ListenerBuffer(SUBTITLE_TYPE, LEBytes(v, 4)));
            var data := ListenerBuffer(SUBTITLE_DATA, payload);
            && OnBuffer(p, data).stream == p.stream
            && OnBuffer(count, data).stream == (if v == -1 then p.stream else p.stream + payload)
            && OnBuffer(kind, data).stream == (if v == -1 then p.stream else p.stream + payload)
  {
    hide OnBuffer, LEBytes, ListenerBuffer, Wrap32;
    ReportOpensQueue(p, v, payload);
    ReportOpensQueue(p.(total := v), v, payload);
    ReportOpensQueue(p.(subType := v), v, payload);
  }

  lemma ReportBuffer(kind: nat, v: int)
    requires kind < TWO32
    ensures var b := ListenerBuffer(kind, LEBytes(v, 4));
            |b| == 8 && PeekWord(b, 0) == kind && Wrap32(PeekWord(b, 4)) == Wrap32(v)
  {
    hide LEBytes, PeekWord;
    var b := ListenerBuffer(kind, LEBytes(v, 4));
    assert b[0..4] == LEBytes(kind, 4) && b[4..8] == LEBytes(v, 4);
    WordAt(b, 0, kind);
    WordAt(b, 4, v);
  }

  // ---- The objects themselves ---------------------------------------------------------------

  /** The listener can read every field of what an arrival of packets delivers. */
  lemma DeliveredSized(p: Pipe, sid: int, ps: seq<Packet>, n: nat, j: nat, chunk: seq<byte>)
    requires AllReadable(ps) && n + |chunk| <= |EncodeAll(PacketFrames(sid, ps))|
    requires chunk == EncodeAll(PacketFrames(sid, ps))[n..n + |chunk|]
    requires PipeInv(p, sid, ps, n, j) && |p.rest| + |chunk| <= CAPACITY
    ensures forall b | b in RingFeed(Decoded([], p.rest, false), chunk).delivered :: WellSized(b)
  {
    hide Decode, WholeFrames, EncodeAll, PacketStream, Feed, Outcomes, ListenerBuffer, PacketBytes, WellSized;
    var fs := PacketFrames(sid, ps);
    FramesOfPackets(sid, ps);
    NewBuffers(fs, n, chunk);
    var bs := Feed(Decoded([], p.rest, false), chunk).delivered;
    forall b | b in bs
      ensures WellSized(b)
    {
      var i :| 0 <= i < |bs| && bs[i] == b;
      DataBufferSized(PacketBytes(ps[WholeFrames(fs, n) + i]));
    }
  }

  lemma DataBufferSized(payload: seq<byte>)
    ensures WellSized(ListenerBuffer(SUBTITLE_DATA, payload))
  {
    hide ListenerBuffer, PeekWord;
    DataBuffer(payload);
  }

  /** No call leaves a length in mRestLen. */
  lemma NothingKept(p: Pipe, sid: int, ps: seq<Packet>, n: nat, j: nat)
    requires AllReadable(ps) && n <= |EncodeAll(PacketFrames(sid, ps))| && PipeInv(p, sid, ps, n, j)
    ensures !TakePacket(p.stream).0.RestKept?
  {
    hide Decode, WholeFrames, PacketBytes, EncodeAll, PacketFrames;
    var k := WholeFrames(PacketFrames(sid, ps), n);
    if j < k {
      StreamHead(ps, j, k);
      hide TakePacket, PacketStream, Outcomes;
      PacketTaken(ps[j], PacketStream(ps[j + 1..k]));
    } else {
      assert p.stream == [];
    }
  }

  /** The receiver, the data source and the parser wired as the server wires them. */
  class PipelineObjects {
    const receiver: FmqReceiver
    const source: ExternalDataSource
    const parser: AssParser
    var forwarded: nat            // how many delivered buffers onData has seen
    ghost var outcomes: seq<Outcome>

    ghost predicate Valid()
      reads this, receiver, receiver.ring, source, source.segment, parser
    {
      && receiver.Valid() && source.Valid() && parser.source == source
      && source.Running() && !parser.state.Stop?
      && forwarded == |receiver.delivered|
    }

    ghost function State(): Pipe
      requires Valid()
      reads this, receiver, receiver.ring, receiver.ring.buffer, source, source.segment, parser
    {
      Pipe(receiver.State().rest, receiver.fault, source.totalSubtitle, source.subtitleType, source.Stream(), outcomes)
    }

    constructor ()
      ensures Valid() && parser.restLen == 0
      ensures State() == Pipe([], false, -1, -1, [], [])
      ensures fresh(receiver) && fresh(receiver.ring) && fresh(receiver.ring.buffer)
      ensures fresh(source) && fresh(source.segment) && fresh(parser)
    {
      receiver := new FmqReceiver();
      var src := new ExternalDataSource();
      source := src;
      parser := new AssParser(src);
      forwarded, outcomes := 0, [];
      new;
      source.Start();
    }

    /** An arrival: readLoop runs and its listener gets what was delivered. */
    method OnArrive(chunk: seq<byte>)
      requires Valid() && !receiver.fault
      requires forall b | b in RingFeed(Decoded([], State().rest, false), chunk).delivered :: WellSized(b)
      modifies this`forwarded, receiver, receiver.ring, receiver.ring.buffer, source, source.segment
      ensures Valid() && State() == PipeStep(old(State()), Arrive(chunk))
    {
      hide Decode, Feed, OnBuffers;
      ghost var was := receiver.State();
      ghost var d := RingFeed(Decoded([], was.rest, false), chunk);
      FeedDelivered(was, Fitting(|was.rest|, chunk));
      receiver.Receive(chunk);
      assert receiver.delivered[forwarded..] == d.delivered;
      ForwardAll(d.rest, d.fault, d.delivered);
    }

    /** The listener calls: onData for each delivered buffer, in order. */
    method ForwardAll(ghost rest: seq<byte>, ghost fault: bool, ghost bs: seq<seq<byte>>)
      requires source.Valid() && source.Running()
      requires forwarded <= |receiver.delivered| && bs == receiver.delivered[forwarded..]
      requires forall b | b in bs :: WellSized(b)
      modifies this`forwarded, source, source.segment
      ensures source.Valid() && source.Running() && forwarded == |receiver.delivered|
      ensures SourcePipe(rest, fault) == OnBuffers(old(SourcePipe(rest, fault)), bs)
    {
      hide OnBuffer, WellSized;
      ghost var target, todo := OnBuffers(SourcePipe(rest, fault), bs), bs;
      while forwarded < |receiver.delivered|
        invariant forwarded <= |receiver.delivered| && todo == receiver.delivered[forwarded..]
        invariant source.Valid() && source.Running()
        invariant forall b | b in todo :: WellSized(b)
        invariant target == OnBuffers(SourcePipe(rest, fault), todo)
        decreases |receiver.delivered| - forwarded
      {
        assert todo[0] == receiver.delivered[forwarded];
        ForwardOne(receiver.delivered[forwarded], rest, fault);
        forwarded := forwarded + 1;
        todo := todo[1..];
      }
    }

    method ForwardOne(buffer: seq<byte>, ghost rest: seq<byte>, ghost fault: bool)
      requires source.Valid() && source.Running() && WellSized(buffer)
      modifies source, source.segment
      ensures source.Valid() && source.Running()
      ensures SourcePipe(rest, fault) == OnBuffer(old(SourcePipe(rest, fault)), buffer)
    {
      hide PeekWord;
      source.OnData(buffer);
    }

    ghost function SourcePipe(rest: seq<byte>, fault: bool): Pipe
      requires source.Valid()
      reads this`outcomes, source, source.segment
    {
      Pipe(rest, fault, source.totalSubtitle, source.subtitleType, source.Stream(), outcomes)
    }

    /** A call of getSpu; defined while no DVD packet has been counted into mRestLen. */
    method OnParse() returns (out: Outcome)
      requires Valid() && parser.restLen == 0
      modifies this`outcomes, parser, source`currentItem, source`state, source.segment
      ensures Valid() && State() == PipeStep(old(State()), ParseOnce)
      ensures out == TakePacket(old(State().stream)).0
      ensures parser.restLen == if out.RestKept? then out.restLen else 0
    {
      hide TakePacket;
      out := parser.GetSpu();
      if !out.NoData? {
        outcomes := outcomes + [out];
      } else {
        NothingTaken(old(source.Stream()));
      }
    }

    /** The first event of what is to come. */
    method OnEvent(e: Event, ghost sid: int, ghost ps: seq<Packet>, ghost n: nat, ghost j: nat, ghost es: seq<Event>)
      requires Valid() && parser.restLen == 0 && AllReadable(ps)
      requires es != [] && e == es[0] && Underway(State(), sid, ps, n, j, es)
      modifies this, receiver, receiver.ring, receiver.ring.buffer, source, source.segment, parser
      ensures Valid() && parser.restLen == 0 && State() == PipeStep(old(State()), e)
    {
      hide PipeInv, EncodeAll, PacketFrames, TakePacket, OnBuffers, Feed, WellSized, Arrived, Chunks, Fit;
      InvRest(State(), sid, ps, n, j);
      match e
      case Arrive(chunk) =>
        PieceRoom(State(), sid, ps, n, j, es);
        DeliveredSized(State(), sid, ps, n, j, chunk);
        OnArrive(chunk);
      case ParseOnce =>
        NothingKept(State(), sid, ps, n, j);
        var _ := OnParse();
    }

    /** The objects through a whole run of arrivals and calls: what EndToEnd says of the pipe, they do. */
    method RunEvents(es: seq<Event>, ghost sid: int, ghost ps: seq<Packet>) returns (ghost j: nat)
      requires Valid() && parser.restLen == 0 && Ready(State()) && AllReadable(ps)
      requires Arrived(es) <= EncodeAll(PacketFrames(sid, ps)) && Fit(EMPTY, Chunks(es))
      modifies this, receiver, receiver.ring, receiver.ring.buffer, source, source.segment, parser
      ensures Valid() && parser.restLen == 0 && State() == PipeRun(old(State()), es)
      ensures var k := WholeFrames(PacketFrames(sid, ps), |Arrived(es)|);
              j <= k && State().outcomes == Outcomes(ps[..j]) && State().stream == PacketStream(ps[j..k])
    {
      hide Underway, PipeStep, EncodeAll, PacketFrames, Fit, Chunks, Arrived, WholeFrames, PacketStream, Outcomes,
           Ready, PipelineObjects.State, Valid;
      ghost var start := State();
      ghost var n: nat := 0;
      j := 0;
      ReadyUnderway(start, sid, ps, es);
      assert es[0..] == es;
      for i := 0 to |es|
        invariant Valid() && parser.restLen == 0 && PipeRun(start, es) == PipeRun(State(), es[i..])
        invariant n + |Arrived(es[i..])| == |Arrived(es)| && Underway(State(), sid, ps, n, j, es[i..])
      {
        ghost var todo := es[i..];
        assert todo[0] == es[i] && todo[1..] == es[i + 1..];
        ghost var n', j' := UnderwayKeeps(State(), sid, ps, n, j, todo);
        OnEvent(es[i], sid, ps, n, j, todo);
        n, j := n', j';
      }
      RunOutcomes(State(), sid, ps, n, j, |Arrived(es)|);
    }
  }

  /** n bytes have come, j packets are parsed, and these events bring more of the same stream in pieces that
      find room. */
  ghost predicate Underway(p: Pipe, sid: int, ps: seq<Packet>, n: nat, j: nat, es: seq<Event>) {
    var s := EncodeAll(PacketFrames(sid, ps));
    && n + |Arrived(es)| <= |s| && Arrived(es) == s[n..n + |Arrived(es)|]
    && PipeInv(p, sid, ps, n, j) && Fit(Decode(s[..n]), Chunks(es))
  }

  lemma ReadyUnderway(p: Pipe, sid: int, ps: seq<Packet>, es: seq<Event>)
    requires Ready(p) && Arrived(es) <= EncodeAll(PacketFrames(sid, ps)) && Fit(EMPTY, Chunks(es))
    ensures Underway(p, sid, ps, 0, 0, es)
  {
    hide PipeInv, EncodeAll, PacketFrames, Decode, Fit, Chunks, Arrived, Ready;
    var s := EncodeAll(PacketFrames(sid, ps));
    ReadyInv(p, sid, ps);
    DecodeNothing();
    assert s[..0] == [] && Arrived(es) == s[0..0 + |Arrived(es)|];
  }

  lemma UnderwayKeeps(p: Pipe, sid: int, ps: seq<Packet>, n: nat, j: nat, es: seq<Event>) returns (n': nat, j': nat)
    requires AllReadable(ps) && es != [] && Underway(p, sid, ps, n, j, es)
    ensures n' + |Arrived(es[1..])| == n + |Arrived(es)| && Underway(PipeStep(p, es[0]), sid, ps, n', j', es[1..])
  {
    hide PipeInv, PipeStep, EncodeAll, PacketFrames, Decode, Fit, Chunks, Arrived;
    j' := EventKeeps(p, sid, ps, n, j, es);
    n' := n + |Arrived(es)| - |Arrived(es[1..])|;
  }

  lemma RunOutcomes(p: Pipe, sid: int, ps: seq<Packet>, n: nat, j: nat, total: nat)
    requires n + |Arrived([])| == total && Underway(p, sid, ps, n, j, [])
    ensures var k := WholeFrames(PacketFrames(sid, ps), total);
            j <= k && p.outcomes == Outcomes(ps[..j]) && p.stream == PacketStream(ps[j..k])
  {
    hide Decode, EncodeAll, PacketFrames, PacketStream, Outcomes, WholeFrames;
  }

  /** The next arrival is the next piece of the stream and finds room. */
  lemma PieceRoom(p: Pipe, sid: int, ps: seq<Packet>, n: nat, j: nat, es: seq<Event>)
    requires es != [] && Underway(p, sid, ps, n, j, es)
    ensures es[0].Arrive? ==>
              var chunk := es[0].chunk;
              && n + |chunk| <= |EncodeAll(PacketFrames(sid, ps))|
              && chunk == EncodeAll(PacketFrames(sid, ps))[n..n + |chunk|] && |p.rest| + |chunk| <= CAPACITY
  {
    hide PipeInv, EncodeAll, PacketFrames, Decode;
    InvRest(p, sid, ps, n, j);
    if es[0].Arrive? {
      OnePiece(es[0].chunk, es);
      ArrivedSplit(EncodeAll(PacketFrames(sid, ps)), n, es[0].chunk, Arrived(es[1..]));
    }
  }

  /** A type report in one piece makes a new pipe ready. */
  lemma ReportArrives(p: Pipe, sid: int, v: int)
    requires p == Pipe([], false, -1, -1, [], []) && Wrap32(v) != -1
    ensures var chunk := Encode(Frame(sid, SUBTITLE_TYPE, LEBytes(v, 4)));
            && Ready(PipeStep(p, Arrive(chunk)))
            && forall b | b in RingFeed(Decoded([], p.rest, false), chunk).delivered :: WellSized(b)
  {
    hide Encode, Decode, ListenerBuffer, LEBytes, OnBuffer, Wrap32, EncodeAll, WellSized;
    var f := Frame(sid, SUBTITLE_TYPE, LEBytes(v, 4));
    var b := ListenerBuffer(f.pkgType, f.payload);
    OneFrame(f);
    ReportBuffer(SUBTITLE_TYPE, v);
    ReportSized(v);
    ReportOpensQueue(p, v, [0]);
    var chunk := Encode(f);
    assert [] + chunk == chunk;
    var none: seq<seq<byte>> := [];
    assert none + [b] == [b] && [b][1..] == none;
    assert RingFeed(EMPTY, chunk) == Decoded([b], [], false);
    var q := OnBuffer(p, b);
    assert q == p.(subType := Wrap32(v));
    assert OnBuffers(p, [b]) == OnBuffers(q, none) == q;
    assert PipeStep(p, Arrive(chunk)) == q;
  }

  lemma OneFrame(f: Frame)
    requires f.Valid() && f.payload != []
    ensures Decode(Encode(f)) == Decoded([ListenerBuffer(f.pkgType, f.payload)], [], false)
  {
    hide Encode, Decode, ListenerBuffer;
    DecodeNothing();
    DecodeFrames([f], []);
    assert EncodeAll([f]) == Encode(f) + EncodeAll([f][1..]);
    assert Encode(f) + [] + [] == Encode(f);
    assert ListenerBuffers([f]) == [ListenerBuffer(f.pkgType, f.payload)] + ListenerBuffers([f][1..]);
  }

  /** New objects, a type report, and then a whole run. */
  method Session(sid: int, v: int, es: seq<Event>, ghost ps: seq<Packet>)
      returns (pipeline: PipelineObjects, ghost j: nat)
    requires Wrap32(v) != -1 && AllReadable(ps)
    requires Arrived(es) <= EncodeAll(PacketFrames(sid, ps)) && Fit(EMPTY, Chunks(es))
    ensures pipeline.Valid()
    ensures var k := WholeFrames(PacketFrames(sid, ps), |Arrived(es)|);
            && j <= k && pipeline.State().outcomes == Outcomes(ps[..j])
            && pipeline.State().stream == PacketStream(ps[j..k])
  {
    hide Encode, EncodeAll, PacketFrames, RingFeed, Fit, Chunks, Arrived, WholeFrames, PacketStream, Outcomes, PipeStep,
         Wrap32, AllReadable;
    pipeline := new PipelineObjects();
    ReportArrives(pipeline.State(), sid, v);
    pipeline.OnArrive(Encode(Frame(sid, SUBTITLE_TYPE, LEBytes(v, 4))));
    j := pipeline.RunEvents(es, sid, ps);
  }

  lemma ReportSized(v: int)
    ensures WellSized(ListenerBuffer(SUBTITLE_TYPE, LEBytes(v, 4)))
  {
    hide ListenerBuffer, PeekWord, LEBytes;
    ReportBuffer(SUBTITLE_TYPE, v);
  }

  lemma FeedDelivered(was: Decoded, chunk: seq<byte>)
    requires !was.fault
    ensures var d := Feed(Decoded([], was.rest, false), chunk);
            Feed(was, chunk) == Decoded(was.delivered + d.delivered, d.rest, d.fault)
  {
    hide Decode;
    var e := Decode(was.rest + chunk);
    assert [] + e.delivered == e.delivered;
  }

  lemma NothingTaken(s: seq<byte>)
    requires TakePacket(s).0.NoData?
    ensures TakePacket(s).1 == s
  {
  }
}
