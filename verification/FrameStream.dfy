/** What the frame receiver delivers for the byte streams the report client produces. */
module FrameStreams {
  import opened Bytes
  import opened IpcFrames
  import opened FmqReceivers

  ghost predicate AllValid(fs: seq<Frame>) {
    forall i | 0 <= i < |fs| :: fs[i].Valid()
  }

  /** The receiver looks at a header only once more than a header is buffered, so a frame without
      payload needs something after it. */
  predicate EndsVisibly(fs: seq<Frame>, tail: seq<byte>) {
    fs == [] || tail != [] || fs[|fs| - 1].payload != []
  }

  lemma FrameStep(f: Frame, t: seq<byte>)
    requires f.Valid() && |f.payload| + |t| > 0
    ensures InnerStep(Encode(f) + t) == Deliver(f.pkgType, |f.payload|)
    ensures (Encode(f) + t)[HEADER_SIZE..HEADER_SIZE + |f.payload|] == f.payload
    ensures (Encode(f) + t)[HEADER_SIZE + |f.payload|..] == t
  {
    hide Header;
    HeaderWords(f.sessionId, f.pkgType, |f.payload|, f.payload + t);
    assert Encode(f) + t == Header(f.sessionId, f.pkgType, |f.payload|) + (f.payload + t);
  }

  /** Whole frames are delivered in order, and decoding goes on with what follows them. */
  lemma {:induction false} DecodeFrames(fs: seq<Frame>, tail: seq<byte>)
    requires AllValid(fs) && EndsVisibly(fs, tail)
    ensures Decode(EncodeAll(fs) + tail)
         == Decode(tail).(delivered := ListenerBuffers(fs) + Decode(tail).delivered)
  {
    hide InnerStep, Header, ListenerBuffer;
    var d := Decode(tail);
    if fs == [] {
      assert EncodeAll(fs) + tail == tail;
      assert ListenerBuffers(fs) + d.delivered == d.delivered;
    } else {
      var f, rest := fs[0], EncodeAll(fs[1..]) + tail;
      assert EncodeAll(fs) + tail == Encode(f) + rest;
      if f.payload == [] && fs[1..] != [] {
        assert EncodeAll(fs[1..]) == Encode(fs[1]) + EncodeAll(fs[1..][1..]);
      }
      FrameStep(f, rest);
      DecodeFrames(fs[1..], tail);
      assert ListenerBuffers(fs) + d.delivered
          == [ListenerBuffer(f.pkgType, f.payload)] + (ListenerBuffers(fs[1..]) + d.delivered);
    }
  }

  /** A strict prefix of a frame stays buffered. */
  lemma ProperPrefixWaits(f: Frame, s: seq<byte>)
    requires f.Valid() && s < Encode(f)
    ensures Decode(s) == Decoded([], s, false)
  {
    hide Header;
    hide PeekWord;
    if |s| > HEADER_SIZE {
      HeaderWords(f.sessionId, f.pkgType, |f.payload|, s[HEADER_SIZE..]);
      assert s == Header(f.sessionId, f.pkgType, |f.payload|) + s[HEADER_SIZE..];
    }
  }

  /** How many whole frames lie within the first n bytes of the stream. */
  function WholeFrames(fs: seq<Frame>, n: nat): (k: nat)
    ensures k <= |fs|
  {
    if fs == [] || n < |Encode(fs[0])| then 0 else 1 + WholeFrames(fs[1..], n - |Encode(fs[0])|)
  }

  lemma {:induction false} WholeFramesCut(fs: seq<Frame>, n: nat)
    requires n <= |EncodeAll(fs)|
    ensures var k := WholeFrames(fs, n);
            && |EncodeAll(fs[..k])| <= n
            && (k < |fs| ==> n < |EncodeAll(fs[..k])| + |Encode(fs[k])|)
            && (k == |fs| ==> n == |EncodeAll(fs)|)
  {
    hide Encode;
    if fs != [] && n >= |Encode(fs[0])| {
      WholeFramesCut(fs[1..], n - |Encode(fs[0])|);
      var k := WholeFrames(fs[1..], n - |Encode(fs[0])|);
      assert fs[..k + 1][1..] == fs[1..][..k];
    } else {
      assert fs[..0] == [];
    }
  }

  /** The first n bytes of the stream are whole frames and a strict prefix of the next one. */
  lemma StreamCut(fs: seq<Frame>, n: nat)
    requires n <= |EncodeAll(fs)|
    ensures var k := WholeFrames(fs, n);
            var m := |EncodeAll(fs[..k])|;
            && m <= n
            && EncodeAll(fs)[..n] == EncodeAll(fs[..k]) + EncodeAll(fs)[m..n]
            && (if k < |fs| then EncodeAll(fs)[m..n] < Encode(fs[k]) else EncodeAll(fs)[m..n] == [])
  {
    hide Encode, WholeFrames;
    var k := WholeFrames(fs, n);
    WholeFramesCut(fs, n);
    var m := |EncodeAll(fs[..k])|;
    EncodeAllSplit(fs[..k], fs[k..]);
    assert fs == fs[..k] + fs[k..];
    if k < |fs| {
      assert EncodeAll(fs[k..]) == Encode(fs[k]) + EncodeAll(fs[k..][1..]);
      assert EncodeAll(fs)[m..n] == Encode(fs[k])[..n - m];
    }
  }

  /** However much of the stream has arrived, exactly the frames wholly contained in it have been
      delivered, and what is buffered is a strict prefix of the next frame. */
  lemma PrefixDecodes(fs: seq<Frame>, n: nat)
    requires AllValid(fs) && n <= |EncodeAll(fs)|
    requires forall i | 0 <= i < |fs| :: fs[i].payload != []
    ensures var k := WholeFrames(fs, n);
            var d := Decode(EncodeAll(fs)[..n]);
            && d.delivered == ListenerBuffers(fs[..k]) && !d.fault
            && EncodeAll(fs)[..n] == EncodeAll(fs[..k]) + d.rest
            && (if k < |fs| then d.rest < Encode(fs[k]) else d.rest == [])
  {
    hide Encode, Decode, ListenerBuffers, WholeFrames;
    var k := WholeFrames(fs, n);
    StreamCut(fs, n);
    var tail := EncodeAll(fs)[|EncodeAll(fs[..k])|..n];
    DecodeFrames(fs[..k], tail);
    if k < |fs| {
      ProperPrefixWaits(fs[k], tail);
    } else {
      DecodeNothing();
    }
    assert ListenerBuffers(fs[..k]) + [] == ListenerBuffers(fs[..k]);
  }

  lemma DecodeNothing()
    ensures Decode([]) == EMPTY
  {
  }

  /** Without a bound on the buffer, cutting the stream anywhere delivers exactly its frames and leaves nothing,
      if and only if the last frame has a payload. */
  lemma FramesDecode(fs: seq<Frame>, chunks: seq<seq<byte>>)
    requires AllValid(fs) && Concat(chunks) == EncodeAll(fs)
    ensures FeedAll(EMPTY, chunks) == Decoded(ListenerBuffers(fs), [], false) <==> EndsVisibly(fs, [])
  {
    hide InnerStep, Header, ListenerBuffer, Decode;
    var s := EncodeAll(fs);
    DecodeNothing();
    assert [] + Concat(chunks) == s;
    ChunkIndependence([], chunks);
    assert s + [] == s;
    if EndsVisibly(fs, []) {
      DecodeFrames(fs, []);
      assert ListenerBuffers(fs) + [] == ListenerBuffers(fs);
    } else {
      var last := |fs| - 1;
      EncodeAllSplit(fs[..last], fs[last..]);
      assert fs == fs[..last] + fs[last..];
      var h := Encode(fs[last]);
      assert EncodeAll(fs[last..]) == h + EncodeAll(fs[last..][1..]) == h;
      assert s == EncodeAll(fs[..last]) + h;
      DecodeFrames(fs[..last], h);
      BareHeaderWaits(h);
    }
  }

  lemma {:induction false} SpentFrames(fs: seq<Frame>)
    ensures Spent(ListenerBuffers(fs)) == |EncodeAll(fs)|
  {
    if fs != [] {
      SpentFrames(fs[1..]);
      var bs := ListenerBuffers(fs);
      assert bs[1..] == ListenerBuffers(fs[1..]);
    }
  }

  /** Main result: cut the stream of any frames anywhere, and the receiver with its ring of 1 MiB delivers
      exactly those frames and leaves nothing, if and only if the last frame has a payload and every piece
      finds room when it arrives. */
  lemma FramesArrive(fs: seq<Frame>, chunks: seq<seq<byte>>)
    requires AllValid(fs) && Concat(chunks) == EncodeAll(fs)
    ensures RingFeedAll(EMPTY, chunks) == Decoded(ListenerBuffers(fs), [], false) <==>
            EndsVisibly(fs, []) && Fit(EMPTY, chunks)
  {
    hide FeedAll, RingFeedAll, EncodeAll, Fit, ListenerBuffers;
    FramesDecode(fs, chunks);
    if Fit(EMPTY, chunks) {
      FitFeeds(EMPTY, chunks);
    } else {
      RingWeight(EMPTY, chunks);
      SpentFrames(fs);
    }
  }

  /** Whatever pieces of the stream have arrived: the frames wholly contained in them have been delivered
      and the rest is buffered, if and only if every piece found room. */
  lemma PrefixArrives(fs: seq<Frame>, chunks: seq<seq<byte>>)
    requires AllValid(fs) && Concat(chunks) <= EncodeAll(fs)
    requires forall i | 0 <= i < |fs| :: fs[i].payload != []
    ensures var k := WholeFrames(fs, |Concat(chunks)|);
            var d := RingFeedAll(EMPTY, chunks);
            (d.delivered == ListenerBuffers(fs[..k]) && !d.fault && Concat(chunks) == EncodeAll(fs[..k]) + d.rest)
            <==> Fit(EMPTY, chunks)
  {
    hide FeedAll, RingFeedAll, EncodeAll, Fit, ListenerBuffers, WholeFrames, Decode;
    var n := |Concat(chunks)|;
    assert Concat(chunks) == EncodeAll(fs)[..n];
    if Fit(EMPTY, chunks) {
      FitFeeds(EMPTY, chunks);
      DecodeNothing();
      ChunkIndependence([], chunks);
      assert [] + Concat(chunks) == Concat(chunks);
      PrefixDecodes(fs, n);
    } else {
      RingWeight(EMPTY, chunks);
      SpentFrames(fs[..WholeFrames(fs, n)]);
    }
  }

  /** A frame and a piece never outgrow the ring by more than the byte that completes the frame. */
  ghost predicate Roomy(fs: seq<Frame>, chunks: seq<seq<byte>>) {
    forall f, c | f in fs && c in chunks :: |Encode(f)| + |c| <= CAPACITY + 1
  }

  lemma PieceFits(fs: seq<Frame>, n: nat, chunk: seq<byte>)
    requires AllValid(fs) && (forall i | 0 <= i < |fs| :: fs[i].payload != []) && Roomy(fs, [chunk])
    requires n + |chunk| <= |EncodeAll(fs)|
    ensures |Decode(EncodeAll(fs)[..n]).rest| + |chunk| <= CAPACITY
  {
    hide Decode, EncodeAll, WholeFrames;
    PrefixDecodes(fs, n);
    WholeFramesCut(fs, n);
    var k := WholeFrames(fs, n);
    if k < |fs| {
      assert fs[k] in fs && chunk in [chunk];
    }
  }

  lemma {:induction false} PiecesFit(fs: seq<Frame>, n: nat, chunks: seq<seq<byte>>)
    requires AllValid(fs) && (forall i | 0 <= i < |fs| :: fs[i].payload != []) && Roomy(fs, chunks)
    requires n + |Concat(chunks)| <= |EncodeAll(fs)| && Concat(chunks) == EncodeAll(fs)[n..n + |Concat(chunks)|]
    ensures Fit(Decode(EncodeAll(fs)[..n]), chunks)
    decreases |chunks|
  {
    hide Decode, EncodeAll, AllValid;
    var s := EncodeAll(fs);
    if chunks != [] {
      var c, later := chunks[0], Concat(chunks[1..]);
      assert Roomy(fs, [c]) && Roomy(fs, chunks[1..]);
      PieceFits(fs, n, c);
      assert c + later == s[n..n + |c + later|];
      assert (c + later)[..|c|] == c && (c + later)[|c|..] == later;
      assert s[..n + |c|] == s[..n] + c;
      DecodeAppend(s[..n], c);
      PiecesFit(fs, n + |c|, chunks[1..]);
    }
  }

  /** Then everything fits, whatever part of the stream arrives. */
  lemma RoomyFits(fs: seq<Frame>, chunks: seq<seq<byte>>)
    requires AllValid(fs) && (forall i | 0 <= i < |fs| :: fs[i].payload != []) && Roomy(fs, chunks)
    requires Concat(chunks) <= EncodeAll(fs)
    ensures Fit(EMPTY, chunks)
  {
    hide Decode, EncodeAll, AllValid, Fit, Roomy;
    assert EncodeAll(fs)[..0] == [];
    DecodeNothing();
    assert Concat(chunks) == EncodeAll(fs)[0..0 + |Concat(chunks)|];
    PiecesFit(fs, 0, chunks);
  }

  /** A frame larger than the ring fills it and stays there: nothing is ever delivered again. */
  lemma {:induction false} OversizeStays(f: Frame, r: seq<byte>, d: seq<seq<byte>>, chunks: seq<seq<byte>>,
                                         tail: seq<byte>)
    requires f.Valid() && |Encode(f)| > CAPACITY && r <= Encode(f) && |r| <= CAPACITY
    requires |r| == CAPACITY || r + Concat(chunks) <= Encode(f) + tail
    ensures RingFeedAll(Decoded(d, r, false), chunks).delivered == d
    decreases |chunks|
  {
    hide Decode, Encode;
    if chunks != [] {
      var kept := Fitting(|r|, chunks[0]);
      if |r| < CAPACITY {
        PrefixKept(r, chunks[0], kept, Concat(chunks[1..]), Encode(f), tail);
      } else {
        assert r + kept == r;
      }
      assert r + kept < Encode(f);
      ProperPrefixWaits(f, r + kept);
      assert d + [] == d;
      OversizeStays(f, r + kept, d, chunks[1..], tail);
    }
  }

  lemma PrefixKept(r: seq<byte>, chunk: seq<byte>, kept: seq<byte>, later: seq<byte>, e: seq<byte>, tail: seq<byte>)
    requires r + (chunk + later) <= e + tail && kept <= chunk && |r + kept| <= |e|
    ensures r + kept <= e
    ensures kept == chunk ==> (r + kept) + later <= e + tail
  {
    Assoc(r, chunk, later);
    var t := r + (chunk + later);
    assert r + kept == t[..|r + kept|] == (e + tail)[..|r + kept|] == e[..|r + kept|];
  }

  lemma OversizeNeverDelivered(f: Frame, tail: seq<byte>, d: seq<seq<byte>>, chunks: seq<seq<byte>>)
    requires f.Valid() && |Encode(f)| > CAPACITY && Concat(chunks) <= Encode(f) + tail
    ensures RingFeedAll(Decoded(d, [], false), chunks).delivered == d
  {
    hide RingFeedAll, Encode;
    assert [] + Concat(chunks) == Concat(chunks);
    OversizeStays(f, [], d, chunks, tail);
  }

  lemma BareHeaderWaits(h: seq<byte>)
    requires |h| == HEADER_SIZE
    ensures Decode(h) == Decoded([], h, false)
  {
  }

  lemma {:induction false} EncodeAllSplit(a: seq<Frame>, b: seq<Frame>)
    ensures EncodeAll(a + b) == EncodeAll(a) + EncodeAll(b)
  {
    hide Encode;
    if a == [] {
      assert a + b == b;
    } else {
      EncodeAllSplit(a[1..], b);
      assert (a + b)[0] == a[0] && (a + b)[1..] == a[1..] + b;
      Assoc(Encode(a[0]), EncodeAll(a[1..]), EncodeAll(b));
    }
  }

  // ---- Resynchronisation --------------------------------------------------------------------

  /** Whole words none of which is one of the two flags. */
  ghost predicate Garbage(g: seq<byte>) {
    && |g| % 4 == 0
    && forall i: nat | i % 4 == 0 && i + 4 <= |g| :: PeekWord(g, i) != START_FLAG && PeekWord(g, i) != MAGIC_FLAG
  }

  lemma GarbageTail(g: seq<byte>)
    requires Garbage(g) && g != []
    ensures |g| >= 4 && Garbage(g[4..])
  {
    forall i: nat | i % 4 == 0 && i + 4 <= |g[4..]|
      ensures PeekWord(g[4..], i) != START_FLAG && PeekWord(g[4..], i) != MAGIC_FLAG
    {
      assert g[4..][i..i + 4] == g[i + 4..i + 8];
      PeekWordSame(g[4..], i, g, i + 4);
    }
  }

  /** The first and third word a round sees in garbage followed by a frame. */
  lemma GarbageWords(g: seq<byte>, f: Frame, t: seq<byte>)
    requires Garbage(g) && g != [] && f.Valid() && |f.payload| + |t| > 0
    ensures var s := g + (Encode(f) + t);
            && PeekWord(s, 0) != START_FLAG
            && (|g| == 4 ==> PeekWord(s, 8) == f.sessionId % TWO32 && PeekWord(s, 12) == MAGIC_FLAG)
            && (|g| > 4 ==> PeekWord(s, 8) != MAGIC_FLAG)
  {
    hide PeekWord, Header;
    var e := Encode(f) + t;
    HeaderWords(f.sessionId, f.pkgType, |f.payload|, f.payload + t);
    assert e == Header(f.sessionId, f.pkgType, |f.payload|) + (f.payload + t);
    PeekWordLeft(g, e, 0);
    if |g| == 4 {
      PeekWordRight(g, e, 4);
      PeekWordRight(g, e, 8);
    } else if |g| == 8 {
      PeekWordRight(g, e, 0);
    } else {
      PeekWordLeft(g, e, 8);
    }
  }

  /** Garbage before a frame is skipped, whatever its length, when the session id is not the magic word. */
  lemma {:induction false} GarbageSkipped(g: seq<byte>, f: Frame, t: seq<byte>)
    requires Garbage(g) && f.Valid() && |f.payload| + |t| > 0
    requires f.sessionId % TWO32 != MAGIC_FLAG
    ensures Decode(g + (Encode(f) + t)) == Decode(Encode(f) + t)
    decreases |g|
  {
    hide Header, PeekWord, Garbage;
    var e := Encode(f) + t;
    if g == [] {
      assert g + e == e;
    } else {
      GarbageWords(g, f, t);
      GarbageTail(g);
      assert InnerStep(g + e).SkipWord?;
      assert (g + e)[4..] == g[4..] + e;
      GarbageSkipped(g[4..], f, t);
    }
  }

  /** With that session id the last garbage word is taken for a header whose size never arrives. */
  lemma {:induction false} GarbageTraps(g: seq<byte>, f: Frame, t: seq<byte>)
    requires Garbage(g) && g != [] && f.Valid() && |f.payload| + |t| > 0
    requires f.sessionId % TWO32 == MAGIC_FLAG
    ensures Decode(g + (Encode(f) + t)).delivered == []
    decreases |g|
  {
    hide Header, PeekWord, Garbage;
    var e := Encode(f) + t;
    GarbageWords(g, f, t);
    GarbageTail(g);
    if |g| == 4 {
      assert Wrap32(MAGIC_FLAG) < -HEADER_SIZE;
      assert InnerStep(g + e).NeedMore?;
    } else {
      assert InnerStep(g + e).SkipWord?;
      assert (g + e)[4..] == g[4..] + e;
      GarbageTraps(g[4..], f, t);
    }
  }

  /** Resynchronisation is exact if and only if the next frame's session id is not the magic word. */
  lemma ResyncExact(g: seq<byte>, f: Frame, t: seq<byte>)
    requires Garbage(g) && g != [] && f.Valid() && |f.payload| + |t| > 0
    ensures Decode(g + Encode(f) + t) == Decode(Encode(f) + t) <==> f.sessionId % TWO32 != MAGIC_FLAG
  {
    hide Header, Garbage;
    assert g + Encode(f) + t == g + (Encode(f) + t);
    if f.sessionId % TWO32 != MAGIC_FLAG {
      GarbageSkipped(g, f, t);
    } else {
      GarbageTraps(g, f, t);
      FrameStep(f, t);
    }
  }
}
