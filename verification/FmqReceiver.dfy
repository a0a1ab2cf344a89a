/** libsubtitle/ipc/FmqReceiver.cpp: reassembling frames from an arbitrarily cut byte stream. */
module FmqReceivers {
  import opened Bytes
  import opened RingBuffers
  import opened IpcFrames

  const CAPACITY := 1024 * 1024

  /** What one round of the inner loop does with more than HEADER_SIZE buffered bytes. */
  datatype Step =
    | SkipWord                                     // neither flag is in place: drop four bytes
    | NeedMore                                     // the payload has not all arrived
    | DropHeader                                   // a negative size no block can be allocated for
    | Corrupt                                      // a size of -4..-1: the block is too small for the type word
    | Deliver(pkgType: nat, size: nat)

  function InnerStep(s: seq<byte>): (step: Step)
    requires |s| > HEADER_SIZE
    ensures step.Deliver? ==> HEADER_SIZE + step.size <= |s|
  {
    if PeekWord(s, 0) != START_FLAG && PeekWord(s, 8) != MAGIC_FLAG then
      SkipWord
    else
      // the size is an int, and the sum is compared as a size_t
      var size := Wrap32(PeekWord(s, 12));
      if size < -HEADER_SIZE || |s| < HEADER_SIZE + size then NeedMore
      else if size + 4 < 0 then DropHeader
      else if size < 0 then Corrupt
      else Deliver(PeekWord(s, 16), size)
  }

  /** The round in the header's own numbers: without either flag four bytes go; a size from 0 on waits for its
      payload or delivers it; a size below -20 waits for ever, one down to -20 drops the header, and -4 to -1 leave
      no room for the type word. */
  lemma StepExactly(s: seq<byte>)
    requires |s| > 20
    ensures var size := Wrap32(LE(s[12..16]));
            InnerStep(s) ==
            if LE(s[0..4]) != 0xF0D0_C0B1 && LE(s[8..12]) != 0xCFFF_FFFB then SkipWord
            else if size < -20 then NeedMore
            else if size < -4 then DropHeader
            else if size < 0 then Corrupt
            else if |s| < 20 + size then NeedMore
            else Deliver(LE(s[16..20]), size)
  {
    hide PeekWord, LE, Wrap32;
    PeekWordIsLE(s, 0);
    PeekWordIsLE(s, 8);
    PeekWordIsLE(s, 12);
    PeekWordIsLE(s, 16);
  }

  /** Buffers handed to the listener, bytes still buffered, and whether behaviour became undefined. */
  datatype Decoded = Decoded(delivered: seq<seq<byte>>, rest: seq<byte>, fault: bool)

  /** The inner loop run to its end. */
  function Decode(s: seq<byte>): Decoded
    decreases |s|
  {
    if |s| <= HEADER_SIZE then Decoded([], s, false)
    else match InnerStep(s)
      case SkipWord => Decode(s[4..])
      case NeedMore => Decoded([], s, false)
      case DropHeader => Decode(s[HEADER_SIZE..])
      case Corrupt => Decoded([], [], true)
      case Deliver(t, n) =>
        var d := Decode(s[HEADER_SIZE + n..]);
        d.(delivered := [ListenerBuffer(t, s[HEADER_SIZE..HEADER_SIZE + n])] + d.delivered)
  }

  /** One arrival: the bytes join what is buffered and the inner loop runs. */
  function Feed(d: Decoded, chunk: seq<byte>): Decoded {
    if d.fault then d
    else var e := Decode(d.rest + chunk); e.(delivered := d.delivered + e.delivered)
  }

  function FeedAll(d: Decoded, chunks: seq<seq<byte>>): Decoded
    decreases |chunks|
  {
    if chunks == [] then d else FeedAll(Feed(d, chunks[0]), chunks[1..])
  }

  const EMPTY := Decoded([], [], false)

  /** What the ring still takes of an arrival, that many bytes being buffered; the rest is dropped. */
  function Fitting(buffered: nat, chunk: seq<byte>): (s: seq<byte>)
    ensures s <= chunk
  {
    if buffered + |chunk| <= CAPACITY then chunk
    else if buffered < CAPACITY then chunk[..CAPACITY - buffered]
    else []
  }

  /** One arrival through the ring. */
  function RingFeed(d: Decoded, chunk: seq<byte>): Decoded {
    Feed(d, Fitting(|d.rest|, chunk))
  }

  function RingFeedAll(d: Decoded, chunks: seq<seq<byte>>): Decoded
    decreases |chunks|
  {
    if chunks == [] then d else RingFeedAll(RingFeed(d, chunks[0]), chunks[1..])
  }

  /** Every arrival finds room for all of it. */
  predicate Fit(d: Decoded, chunks: seq<seq<byte>>)
    decreases |chunks|
  {
    chunks == [] || (|d.rest| + |chunks[0]| <= CAPACITY && Fit(Feed(d, chunks[0]), chunks[1..]))
  }

  class FmqReceiver {
    const ring: RingBuffer
    var delivered: seq<seq<byte>>
    var fault: bool

    ghost predicate Valid()
      reads this, ring
    {
      ring.Valid() && ring.buffer.Length == CAPACITY
    }

    ghost function State(): Decoded
      requires Valid()
      reads this, ring, ring.buffer
    {
      Decoded(delivered, if fault then [] else ring.Content(), fault)
    }

    constructor ()
      ensures Valid() && State() == EMPTY && fresh(ring) && fresh(ring.buffer)
    {
      ring := new RingBuffer(CAPACITY);
      delivered := [];
      fault := false;
    }

    /** One pass of the outer loop over an arrival; what the ring has no room for is lost. */
    method Receive(chunk: seq<byte>)
      requires Valid() && !fault
      modifies this, ring, ring.buffer
      ensures Valid()
      ensures State() == RingFeed(old(State()), chunk)
    {
      ghost var target := RingFeed(State(), chunk);
      var count := ring.Write(chunk);
      assert chunk[..count] == Fitting(|old(ring.Content())|, chunk);
      assert ring.Content() == old(ring.Content()) + chunk[..count];
      var more := true;
      while more && ring.readAvail > HEADER_SIZE
        invariant Valid() && (more ==> !fault)
        invariant more ==> target == Continue(delivered, ring.Content())
        invariant !more ==> target == State()
        decreases ring.readAvail, more
      {
        more := Round();
      }
    }

    /** The passes over arrivals one after the other. */
    method ReceiveAll(chunks: seq<seq<byte>>)
      requires Valid()
      modifies this, ring, ring.buffer
      ensures Valid()
      ensures State() == RingFeedAll(old(State()), chunks)
    {
      hide RingFeed;
      ghost var target := RingFeedAll(State(), chunks);
      for i := 0 to |chunks|
        invariant Valid() && target == RingFeedAll(State(), chunks[i..])
      {
        assert chunks[i..][0] == chunks[i] && chunks[i..][1..] == chunks[i + 1..];
        if fault {
          FaultStays(State(), chunks[i]);
        } else {
          Receive(chunks[i]);
        }
      }
    }

    /** One round of the inner loop; false when the source leaves the loop. */
    method Round() returns (more: bool)
      requires Valid() && !fault && ring.readAvail > HEADER_SIZE
      modifies this, ring
      ensures Valid()
      ensures more ==> !fault && ring.readAvail <= old(ring.readAvail) - 4
      ensures more ==> Continue(old(delivered), old(ring.Content())) == Continue(delivered, ring.Content())
      ensures !more ==> Continue(old(delivered), old(ring.Content())) == State()
      ensures ring.readAvail <= old(ring.readAvail)
    {
      hide Continue;
      var step := PeekStep();
      RoundContinues(delivered, ring.Content());
      match step
      case SkipWord =>
        Eat(4);
        return true;
      case NeedMore =>
        return false;
      case DropHeader =>
        Eat(HEADER_SIZE);
        return true;
      case Corrupt =>
        Eat(HEADER_SIZE);
        fault := true;
        return false;
      case Deliver(pkgType, dataSize) =>
        var payload := TakePayload(dataSize);
        delivered := delivered + [ListenerBuffer(pkgType, payload)];
        return true;
    }

    method TakePayload(n: nat) returns (payload: seq<byte>)
      requires Valid() && HEADER_SIZE + n <= ring.readAvail
      modifies ring
      ensures Valid()
      ensures payload == old(ring.Content())[HEADER_SIZE..HEADER_SIZE + n]
      ensures ring.Content() == old(ring.Content())[HEADER_SIZE + n..]
      ensures ring.readAvail == old(ring.readAvail) - HEADER_SIZE - n
    {
      ghost var s := ring.Content();
      Eat(HEADER_SIZE);
      payload := ring.Read(n);
      PayloadRead(s, ring.Content(), payload, n);
    }

    /** The checks made on the peeked header. */
    method PeekStep() returns (step: Step)
      requires Valid() && ring.readAvail > HEADER_SIZE
      ensures step == InnerStep(ring.Content())
    {
      var buffer := ring.Peek(HEADER_SIZE);
      PeekedHeader(ring.Content(), buffer);
      if PeekWord(buffer, 0) != START_FLAG && PeekWord(buffer, 8) != MAGIC_FLAG {
        return SkipWord;
      }
      var dataSize := Wrap32(PeekWord(buffer, 12));
      var pkgType := PeekWord(buffer, 16);
      if dataSize < -HEADER_SIZE || ring.readAvail < HEADER_SIZE + dataSize {
        return NeedMore;
      } else if dataSize + 4 < 0 {
        return DropHeader;
      } else if dataSize < 0 {
        return Corrupt;
      }
      return Deliver(pkgType, dataSize);
    }

    method Eat(n: nat)
      requires Valid() && n <= ring.readAvail && n < CAPACITY
      modifies ring
      ensures Valid()
      ensures ring.Content() == old(ring.Content())[n..]
      ensures ring.readAvail == old(ring.readAvail) - n
    {
      ghost var s := ring.Content();
      var dst := ring.Read(n);
      assert |dst| == n;
      assert (dst + ring.Content())[n..] == ring.Content();
    }
  }

  /** The outcome of decoding s after the given deliveries. */
  function Continue(delivered: seq<seq<byte>>, s: seq<byte>): Decoded {
    var d := Decode(s);
    d.(delivered := delivered + d.delivered)
  }

  /** What is still to be delivered is unchanged by a round. */
  lemma RoundContinues(delivered: seq<seq<byte>>, s: seq<byte>)
    requires |s| > HEADER_SIZE
    ensures match InnerStep(s)
            case SkipWord => Continue(delivered, s) == Continue(delivered, s[4..])
            case NeedMore => Continue(delivered, s) == Decoded(delivered, s, false)
            case DropHeader => Continue(delivered, s) == Continue(delivered, s[HEADER_SIZE..])
            case Corrupt => Continue(delivered, s) == Decoded(delivered, [], true)
            case Deliver(t, n) =>
              var m := ListenerBuffer(t, s[HEADER_SIZE..HEADER_SIZE + n]);
              Continue(delivered, s) == Continue(delivered + [m], s[HEADER_SIZE + n..])
  {
    assert delivered + [] == delivered;
    match InnerStep(s)
    case Deliver(t, n) =>
      var m := ListenerBuffer(t, s[HEADER_SIZE..HEADER_SIZE + n]);
      var d := Decode(s[HEADER_SIZE + n..]);
      assert (delivered + [m]) + d.delivered == delivered + ([m] + d.delivered);
    case _ =>
  }

  lemma PeekedHeader(s: seq<byte>, buffer: seq<byte>)
    requires |s| > HEADER_SIZE && buffer == s[..HEADER_SIZE]
    ensures forall at: nat | at + 4 <= HEADER_SIZE :: PeekWord(buffer, at) == PeekWord(s, at)
  {
  }

  lemma PayloadRead(s: seq<byte>, after: seq<byte>, payload: seq<byte>, n: nat)
    requires HEADER_SIZE + n <= |s| && |payload| == n
    requires s[HEADER_SIZE..] == payload + after
    ensures payload == s[HEADER_SIZE..HEADER_SIZE + n]
    ensures after == s[HEADER_SIZE + n..]
  {
    var t := s[HEADER_SIZE..];
    assert payload == t[..n] == s[HEADER_SIZE..HEADER_SIZE + n];
    assert after == t[n..] == s[HEADER_SIZE + n..];
  }

  // ---- Chunk independence -------------------------------------------------------------------

  /** More bytes never change what a round does, unless it was waiting. */
  lemma StepMonotone(a: seq<byte>, b: seq<byte>)
    requires |a| > HEADER_SIZE && !InnerStep(a).NeedMore?
    ensures InnerStep(a + b) == InnerStep(a)
  {
    hide PeekWord;
    PeekWordLeft(a, b, 0);
    PeekWordLeft(a, b, 8);
    PeekWordLeft(a, b, 12);
    PeekWordLeft(a, b, 16);
  }

  /** Decoding a + b is decoding a and then the unconsumed rest followed by b. */
  lemma {:induction false} DecodeAppend(a: seq<byte>, b: seq<byte>)
    ensures Decode(a + b) == Feed(Decode(a), b)
    decreases |a|
  {
    hide InnerStep, ListenerBuffer;
    if |a| <= HEADER_SIZE || InnerStep(a).NeedMore? {
      assert [] + Decode(a + b).delivered == Decode(a + b).delivered;
    } else {
      StepMonotone(a, b);
      var step := InnerStep(a);
      var n := Consumed(step);
      assert (a + b)[n..] == a[n..] + b;
      if !step.Corrupt? {
        DecodeAppend(a[n..], b);
        if step.Deliver? {
          var m := a[HEADER_SIZE..n];
          assert (a + b)[HEADER_SIZE..n] == m;
          DeliveredFirst(ListenerBuffer(step.pkgType, m), Decode(a[n..]), b);
        }
      }
    }
  }

  lemma DeliveredFirst(m: seq<byte>, d: Decoded, b: seq<byte>)
    ensures Feed(d.(delivered := [m] + d.delivered), b)
         == Feed(d, b).(delivered := [m] + Feed(d, b).delivered)
  {
    var e := Decode(d.rest + b);
    assert ([m] + d.delivered) + e.delivered == [m] + (d.delivered + e.delivered);
  }

  function Consumed(step: Step): nat {
    match step
    case SkipWord => 4
    case NeedMore => 0
    case DropHeader => HEADER_SIZE
    case Corrupt => 0
    case Deliver(_, n) => HEADER_SIZE + n
  }

  /** However a stream is cut, the listener sees what decoding the whole stream at once delivers. */
  lemma {:induction false} ChunkIndependence(s: seq<byte>, chunks: seq<seq<byte>>)
    ensures FeedAll(Decode(s), chunks) == Decode(s + Concat(chunks))
    decreases |chunks|
  {
    hide Decode, Feed;
    if chunks == [] {
      assert s + Concat(chunks) == s;
    } else {
      DecodeAppend(s, chunks[0]);
      ChunkIndependence(s + chunks[0], chunks[1..]);
      assert s + chunks[0] + Concat(chunks[1..]) == s + Concat(chunks);
    }
  }

  // ---- The ring's room ----------------------------------------------------------------------

  lemma FaultStays(d: Decoded, chunk: seq<byte>)
    requires d.fault
    ensures RingFeed(d, chunk) == d
  {
  }

  /** While everything fits, the ring changes nothing. */
  lemma {:induction false} FitFeeds(d: Decoded, chunks: seq<seq<byte>>)
    requires Fit(d, chunks)
    ensures RingFeedAll(d, chunks) == FeedAll(d, chunks)
    decreases |chunks|
  {
    hide Feed;
    if chunks != [] {
      FitFeeds(Feed(d, chunks[0]), chunks[1..]);
    }
  }

  /** The stream bytes that delivered buffers stand for: each replaces a header by a type word. */
  function Spent(delivered: seq<seq<byte>>): nat {
    if delivered == [] then 0 else |delivered[0]| + HEADER_SIZE - 4 + Spent(delivered[1..])
  }

  function Weight(d: Decoded): nat {
    Spent(d.delivered) + |d.rest|
  }

  lemma {:induction false} SpentJoin(a: seq<seq<byte>>, b: seq<seq<byte>>)
    ensures Spent(a + b) == Spent(a) + Spent(b)
    decreases |a|
  {
    if a == [] {
      assert a + b == b;
    } else {
      assert (a + b)[0] == a[0] && (a + b)[1..] == a[1..] + b;
      SpentJoin(a[1..], b);
    }
  }

  /** Decoding makes nothing up. */
  lemma {:induction false} DecodeWeight(s: seq<byte>)
    ensures Weight(Decode(s)) <= |s|
    decreases |s|
  {
    hide InnerStep;
    if |s| > HEADER_SIZE {
      match InnerStep(s)
      case SkipWord => DecodeWeight(s[4..]);
      case NeedMore =>
      case DropHeader => DecodeWeight(s[HEADER_SIZE..]);
      case Corrupt =>
      case Deliver(t, n) =>
        assert HEADER_SIZE + n <= |s| by { DeliverRoom(s); }
        var m, d := ListenerBuffer(t, s[HEADER_SIZE..HEADER_SIZE + n]), Decode(s[HEADER_SIZE + n..]);
        DecodeWeight(s[HEADER_SIZE + n..]);
        assert ([m] + d.delivered)[1..] == d.delivered;
    }
  }

  lemma DeliverRoom(s: seq<byte>)
    requires |s| > HEADER_SIZE
    ensures InnerStep(s).Deliver? ==> HEADER_SIZE + InnerStep(s).size <= |s|
  {
  }

  lemma FeedWeight(d: Decoded, chunk: seq<byte>)
    ensures Weight(Feed(d, chunk)) <= Weight(d) + |chunk|
    ensures |Feed(d, chunk).rest| <= |d.rest| + |chunk|
  {
    hide Decode;
    DecodeWeight(d.rest + chunk);
    SpentJoin(d.delivered, Decode(d.rest + chunk).delivered);
  }

  /** A dropped byte is missing for good. */
  lemma {:induction false} RingWeight(d: Decoded, chunks: seq<seq<byte>>)
    requires |d.rest| <= CAPACITY
    ensures Weight(RingFeedAll(d, chunks)) <= Weight(d) + |Concat(chunks)|
    ensures !Fit(d, chunks) ==> Weight(RingFeedAll(d, chunks)) < Weight(d) + |Concat(chunks)|
    decreases |chunks|
  {
    hide Feed, Weight;
    if chunks != [] {
      var kept := Fitting(|d.rest|, chunks[0]);
      FeedWeight(d, kept);
      RingWeight(Feed(d, kept), chunks[1..]);
    }
  }
}
