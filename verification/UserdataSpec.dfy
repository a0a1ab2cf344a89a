/** libsubtitle/io/Userdata.c on values: the reorder queue, its release by the video clock, and the
    stamping of what is handed on. Packets carry their arrival number so that stability can be stated. */
module UserdataSpec {
  import opened Bytes

  const MAX_CC_NUM := 64
  const MAX_CC_DATA_LEN := 1024 * 5 + 4
  const POC_RESTART := 30

  datatype CCPacket = CCPacket(data: seq<byte>, pts: int, ptsValid: bool, duration: int, poc: int, arrival: nat)

  // ---- Order --------------------------------------------------------------------------------

  /** By time, then picture order count, then arrival. */
  predicate Before(a: CCPacket, b: CCPacket) {
    a.pts < b.pts || (a.pts == b.pts && (a.poc < b.poc || (a.poc == b.poc && a.arrival < b.arrival)))
  }

  ghost predicate Sorted(q: seq<CCPacket>) {
    forall i, j | 0 <= i < j < |q| :: Before(q[i], q[j])
  }

  /** Where the insertion scan stops. */
  predicate StopsAt(c: CCPacket, p: CCPacket) {
    if c.pts == p.pts then c.poc > p.poc else c.pts > p.pts
  }

  function InsertIndex(q: seq<CCPacket>, p: CCPacket): (i: nat)
    ensures i <= |q|
    ensures forall j | 0 <= j < i :: !StopsAt(q[j], p)
    ensures i < |q| ==> StopsAt(q[i], p)
  {
    if q == [] || StopsAt(q[0], p) then 0 else 1 + InsertIndex(q[1..], p)
  }

  /** s with x put in at i. */
  function Splice<T>(s: seq<T>, i: nat, x: T): (r: seq<T>)
    requires i <= |s|
    ensures |r| == |s| + 1
  {
    s[..i] + [x] + s[i..]
  }

  function Insert(q: seq<CCPacket>, p: CCPacket): seq<CCPacket> {
    Splice(q, InsertIndex(q, p), p)
  }

  /** Queue and emissions after a step. */
  datatype Effect = Effect(emitted: seq<CCPacket>, queue: seq<CCPacket>)

  /** A full queue gives up its head. */
  function MakeRoom(q: seq<CCPacket>): Effect {
    if |q| >= MAX_CC_NUM then Effect([q[0]], q[1..]) else Effect([], q)
  }

  /** A picture order count far below the head's flushes the queue. */
  function Restart(q: seq<CCPacket>, p: CCPacket): Effect {
    if q != [] && p.poc < q[0].poc - POC_RESTART then Effect(q, []) else Effect([], q)
  }

  /** aml_add_cc_data */
  function Add(q: seq<CCPacket>, p: CCPacket): Effect {
    var a := MakeRoom(q);
    var b := Restart(a.queue, p);
    Effect(a.emitted + b.emitted, Insert(b.queue, p))
  }

  /** p arrived after everything in q. */
  ghost predicate Newest(q: seq<CCPacket>, p: CCPacket) {
    forall i | 0 <= i < |q| :: q[i].arrival < p.arrival
  }

  lemma InsertSorted(q: seq<CCPacket>, p: CCPacket)
    requires Sorted(q) && Newest(q, p)
    ensures Sorted(Insert(q, p))
  {
    var k := InsertIndex(q, p);
    var r := Insert(q, p);
    forall i, j | 0 <= i < j < |r|
      ensures Before(r[i], r[j])
    {
      if j == k {
        assert r[i] == q[i];
      } else if i == k {
        assert r[j] == q[j - 1] && (k == j - 1 || Before(q[k], q[j - 1]));
      } else if j < k {
        assert r[i] == q[i] && r[j] == q[j];
      } else {
        assert r[j] == q[j - 1] && r[i] == if i < k then q[i] else q[i - 1];
      }
    }
  }

  lemma InsertMultiset(q: seq<CCPacket>, p: CCPacket)
    ensures multiset(Insert(q, p)) == multiset(q) + multiset{p}
  {
    var i := InsertIndex(q, p);
    assert q == q[..i] + q[i..];
  }

  lemma TailSorted(q: seq<CCPacket>, p: CCPacket)
    requires Sorted(q) && Newest(q, p)
    ensures q != [] ==> Sorted(q[1..]) && Newest(q[1..], p)
  {
  }

  /** Adding keeps the queue stably sorted and within bounds, loses nothing and invents nothing. */
  lemma AddKeeps(q: seq<CCPacket>, p: CCPacket)
    requires Sorted(q) && Newest(q, p) && |q| <= MAX_CC_NUM
    ensures Sorted(Add(q, p).queue) && 0 < |Add(q, p).queue| <= MAX_CC_NUM
    ensures multiset(Add(q, p).emitted) + multiset(Add(q, p).queue) == multiset(q) + multiset{p}
  {
    hide Insert, Sorted;
    TailSorted(q, p);
    var a := MakeRoom(q);
    if |q| >= MAX_CC_NUM {
      assert q == [q[0]] + q[1..];
    }
    var b := Restart(a.queue, p);
    assert Sorted([]) by { EmptySorted(); }
    InsertSorted(b.queue, p);
    InsertMultiset(b.queue, p);
    InsertLength(b.queue, p);
  }

  lemma EmptySorted()
    ensures Sorted([])
  {
  }

  /** A packet no more than 30 below the head's picture order count joins the queue and nothing is emitted; one
      further below sends the whole queue out, in order, and stands in it alone. */
  ghost predicate Joins(q: seq<CCPacket>, p: CCPacket, emitted: seq<CCPacket>, queue: seq<CCPacket>) {
    if q == [] || p.poc >= q[0].poc - 30 then
      emitted == [] && Sorted(queue) && multiset(queue) == multiset(q) + multiset{p}
    else emitted == q && queue == [p]
  }

  /** From 64 packets on the head goes first. */
  ghost predicate Added(q: seq<CCPacket>, p: CCPacket, emitted: seq<CCPacket>, queue: seq<CCPacket>) {
    if |q| < 64 then Joins(q, p, emitted, queue)
    else emitted != [] && emitted[0] == q[0] && Joins(q[1..], p, emitted[1..], queue)
  }

  lemma AddExactly(q: seq<CCPacket>, p: CCPacket)
    requires Sorted(q) && Newest(q, p) && |q| <= MAX_CC_NUM
    ensures Added(q, p, Add(q, p).emitted, Add(q, p).queue)
  {
    hide Sorted;
    TailSorted(q, p);
    var a := MakeRoom(q);
    var b := Restart(a.queue, p);
    if |q| >= 64 {
      assert ([q[0]] + b.emitted)[1..] == b.emitted;
    }
    assert Sorted([]) by { EmptySorted(); }
    InsertSorted(b.queue, p);
    InsertMultiset(b.queue, p);
    assert Insert([], p) == [p];
  }

  lemma InsertLength(q: seq<CCPacket>, p: CCPacket)
    ensures |Insert(q, p)| == |q| + 1
  {
  }

  // ---- Release by the clock -----------------------------------------------------------------

  /** The scan of aml_h264_userdata_package from position i, with the clock's k-th reading next: a
      packet the clock has passed is emitted and the scan starts over. */
  function Release(q: seq<CCPacket>, i: nat, clock: nat -> int, k: nat): (r: (Effect, nat))
    requires i <= |q|
    ensures |r.0.queue| <= |q|
    decreases |q|, |q| - i
  {
    if i == |q| then (Effect([], q), k)
    else if clock(k) > q[i].pts then
      var (e, k') := Release(q[..i] + q[i + 1..], 0, clock, k + 1);
      (Effect([q[i]] + e.emitted, e.queue), k')
    else Release(q, i + 1, clock, k + 1)
  }

  lemma RemoveMultiset(q: seq<CCPacket>, i: nat)
    requires i < |q|
    ensures multiset(q) == multiset{q[i]} + multiset(q[..i] + q[i + 1..])
    ensures Sorted(q) ==> Sorted(q[..i] + q[i + 1..])
  {
    assert q == q[..i] + [q[i]] + q[i + 1..];
  }

  /** Whatever the clock does, release conserves packets and keeps the queue sorted. */
  lemma {:induction false} ReleaseConserves(q: seq<CCPacket>, i: nat, clock: nat -> int, k: nat)
    requires i <= |q|
    ensures var e := Release(q, i, clock, k).0;
            && multiset(e.emitted) + multiset(e.queue) == multiset(q)
            && (Sorted(q) ==> Sorted(e.queue))
    decreases |q|, |q| - i
  {
    hide Sorted;
    if i < |q| {
      if clock(k) > q[i].pts {
        RemoveMultiset(q, i);
        ReleaseConserves(q[..i] + q[i + 1..], 0, clock, k + 1);
      } else {
        ReleaseConserves(q, i + 1, clock, k + 1);
      }
    }
  }

  /** Some reading from k to k' had passed the packet. */
  ghost predicate SeenPast(x: CCPacket, clock: nat -> int, k: nat, k': nat) {
    exists m: nat :: k <= m < k' && clock(m) > x.pts
  }

  /** The last i readings before k were one pass over the first i packets and passed none of them. */
  ghost predicate PassOver(q: seq<CCPacket>, i: nat, clock: nat -> int, k: nat) {
    i <= |q| && i <= k && forall j | 0 <= j < i :: clock(k - i + j) <= q[j].pts
  }

  /** It emits only what some reading had passed, and ends with a full pass whose readings had passed
      nothing that is left. */
  lemma {:induction false} ReleaseReadings(q: seq<CCPacket>, i: nat, clock: nat -> int, k: nat)
    requires PassOver(q, i, clock, k)
    ensures var (e, k') := Release(q, i, clock, k);
            && k <= k' && PassOver(e.queue, |e.queue|, clock, k')
            && forall j | 0 <= j < |e.emitted| :: SeenPast(e.emitted[j], clock, k, k')
    decreases |q|, |q| - i
  {
    if i < |q| {
      if clock(k) > q[i].pts {
        var rest := q[..i] + q[i + 1..];
        ReleaseReadings(rest, 0, clock, k + 1);
        var (e, k') := Release(rest, 0, clock, k + 1);
        SeenLater(e.emitted, clock, k, k');
        assert SeenPast(q[i], clock, k, k');
      } else {
        NextReading(q, i, clock, k);
        ReleaseReadings(q, i + 1, clock, k + 1);
        var (e, k') := Release(q, i + 1, clock, k + 1);
        SeenLater(e.emitted, clock, k, k');
      }
    }
  }

  lemma NextReading(q: seq<CCPacket>, i: nat, clock: nat -> int, k: nat)
    requires PassOver(q, i, clock, k) && i < |q| && clock(k) <= q[i].pts
    ensures PassOver(q, i + 1, clock, k + 1)
  {
    forall j | 0 <= j < i + 1
      ensures clock(k + 1 - (i + 1) + j) <= q[j].pts
    {
      assert k + 1 - (i + 1) + j == k - i + j;
    }
  }

  lemma SeenLater(xs: seq<CCPacket>, clock: nat -> int, k: nat, k': nat)
    requires forall j | 0 <= j < |xs| :: SeenPast(xs[j], clock, k + 1, k')
    ensures forall j | 0 <= j < |xs| :: SeenPast(xs[j], clock, k, k')
  {
    forall j | 0 <= j < |xs|
      ensures SeenPast(xs[j], clock, k, k')
    {
      var m: nat :| k + 1 <= m < k' && clock(m) > xs[j].pts;
      assert k <= m < k' && clock(m) > xs[j].pts;
    }
  }

  function Passed(q: seq<CCPacket>, v: int): seq<CCPacket> {
    if q == [] then [] else (if q[0].pts < v then [q[0]] else []) + Passed(q[1..], v)
  }

  function NotPassed(q: seq<CCPacket>, v: int): seq<CCPacket> {
    if q == [] then [] else (if q[0].pts < v then [] else [q[0]]) + NotPassed(q[1..], v)
  }

  lemma {:induction false} PassedSplit(a: seq<CCPacket>, b: seq<CCPacket>, v: int)
    ensures Passed(a + b, v) == Passed(a, v) + Passed(b, v)
    ensures NotPassed(a + b, v) == NotPassed(a, v) + NotPassed(b, v)
  {
    if a == [] {
      assert a + b == b;
    } else {
      assert (a + b)[0] == a[0] && (a + b)[1..] == a[1..] + b;
      PassedSplit(a[1..], b, v);
    }
  }

  lemma {:induction false} NonePassed(a: seq<CCPacket>, v: int)
    requires forall j | 0 <= j < |a| :: a[j].pts >= v
    ensures Passed(a, v) == [] && NotPassed(a, v) == a
  {
    if a != [] {
      NonePassed(a[1..], v);
    }
  }

  /** While the clock stands at v, exactly the packets before v are emitted, in queue order, and
      exactly the others stay, in queue order. */
  lemma {:induction false} ReleaseAtRest(q: seq<CCPacket>, i: nat, v: int, k: nat)
    requires i <= |q| && forall j | 0 <= j < i :: q[j].pts >= v
    ensures Release(q, i, _ => v, k).0 == Effect(Passed(q, v), NotPassed(q, v))
    decreases |q|, |q| - i
  {
    hide Passed, NotPassed;
    if i == |q| {
      NonePassed(q, v);
    } else if v > q[i].pts {
      ReleaseAtRest(q[..i] + q[i + 1..], 0, v, k + 1);
      PassedOut(q, i, v);
    } else {
      ReleaseAtRest(q, i + 1, v, k + 1);
    }
  }

  lemma PassedOut(q: seq<CCPacket>, i: nat, v: int)
    requires i < |q| && v > q[i].pts && forall j | 0 <= j < i :: q[j].pts >= v
    ensures var rest := q[..i] + q[i + 1..];
            Passed(q, v) == [q[i]] + Passed(rest, v) && NotPassed(q, v) == NotPassed(rest, v)
  {
    var a, b := q[..i], q[i + 1..];
    NonePassed(a, v);
    PassedSplit(a, b, v);
    assert q == a + ([q[i]] + b);
    PassedSplit(a, [q[i]] + b, v);
    assert ([q[i]] + b)[1..] == b;
  }

  /** For a sorted queue those are a prefix and the rest. */
  lemma {:induction false} PassedIsPrefix(q: seq<CCPacket>, v: int)
    requires Sorted(q)
    ensures q == Passed(q, v) + NotPassed(q, v) && Sorted(Passed(q, v))
  {
    if q != [] {
      if q[0].pts < v {
        PassedIsPrefix(q[1..], v);
        assert Passed(q, v) <= q;
      } else {
        NonePassed(q, v);
      }
    }
  }

  /** A clock that moves during the scan can release a later packet first. */
  lemma RisingClockReorders()
    ensures var a := CCPacket([], 10, true, 0, 0, 0);
            var b := CCPacket([], 20, true, 0, 0, 1);
            && Sorted([a, b])
            && Release([a, b], 0, k => if k == 0 then 5 else 25, 0).0.emitted == [b, a]
  {
    var a := CCPacket([], 10, true, 0, 0, 0);
    var b := CCPacket([], 20, true, 0, 0, 1);
    var clock: nat -> int := k => if k == 0 then 5 else 25;
    assert [a, b][..1] + [a, b][2..] == [a];
    assert [a][..0] + [a][1..] == [];
    assert Release([], 0, clock, 3).0 == Effect([], []);
    assert Release([a], 0, clock, 2).0 == Effect([a], []);
    assert Release([a, b], 1, clock, 1).0 == Effect([b, a], []);
  }

  /** One pass over the packets from position i on finds none of them passed. */
  predicate Misses(q: seq<CCPacket>, i: nat, clock: nat -> int, k: nat)
    requires i <= |q|
    decreases |q| - i
  {
    i == |q| || (clock(k) <= q[i].pts && Misses(q, i + 1, clock, k + 1))
  }

  lemma {:induction false} MissesEach(q: seq<CCPacket>, i: nat, clock: nat -> int, k: nat)
    requires i <= |q|
    ensures Misses(q, i, clock, k) <==> forall j | i <= j < |q| :: clock(k + (j - i)) <= q[j].pts
    decreases |q| - i
  {
    if i < |q| {
      MissesEach(q, i + 1, clock, k + 1);
      forall j | i + 1 <= j < |q|
        ensures clock(k + 1 + (j - (i + 1))) <= q[j].pts <==> clock(k + (j - i)) <= q[j].pts
      {
        assert k + 1 + (j - (i + 1)) == k + (j - i);
      }
      assert clock(k + (i - i)) <= q[i].pts <==> clock(k) <= q[i].pts;
    }
  }

  /** Every reading finds the head of what is left passed, until one whole pass finds nothing passed. */
  predicate HeadFirst(q: seq<CCPacket>, clock: nat -> int, k: nat)
    decreases |q|
  {
    if q != [] && clock(k) > q[0].pts then HeadFirst(q[1..], clock, k + 1) else Misses(q, 0, clock, k)
  }

  /** The first packet that the pass finds passed, if there is one, is emitted first. */
  lemma {:induction false} ScanEmits(q: seq<CCPacket>, i: nat, clock: nat -> int, k: nat)
    requires i <= |q|
    ensures var e := Release(q, i, clock, k).0;
            if Misses(q, i, clock, k) then e == Effect([], q)
            else e.emitted != [] && exists j | i <= j < |q| :: e.emitted[0] == q[j]
    decreases |q| - i
  {
    if i < |q| && clock(k) <= q[i].pts {
      ScanEmits(q, i + 1, clock, k + 1);
    }
  }

  lemma ReleaseHead(q: seq<CCPacket>, clock: nat -> int, k: nat)
    requires q != [] && clock(k) > q[0].pts
    ensures var e := Release(q[1..], 0, clock, k + 1).0;
            Release(q, 0, clock, k).0 == Effect([q[0]] + e.emitted, e.queue)
  {
    assert q[..0] + q[0 + 1..] == q[1..];
  }

  lemma SortedTail(q: seq<CCPacket>)
    requires Sorted(q) && q != []
    ensures Sorted(q[1..]) && forall j | 1 <= j < |q| :: q[j] != q[0] && q[j].pts >= q[0].pts
  {
    forall j | 1 <= j < |q|
      ensures q[j] != q[0] && q[j].pts >= q[0].pts
    {
      assert Before(q[0], q[j]);
    }
  }

  /** Release keeps queue order, emitting a prefix of the queue, if and only if the readings pass its packets
      from the head on. */
  lemma {:induction false} ReleaseInOrder(q: seq<CCPacket>, clock: nat -> int, k: nat)
    requires Sorted(q)
    ensures var e := Release(q, 0, clock, k).0;
            && (e.emitted <= q <==> HeadFirst(q, clock, k))
            && (HeadFirst(q, clock, k) ==> q == e.emitted + e.queue)
    decreases |q|
  {
    hide Sorted, Release, Misses;
    var e := Release(q, 0, clock, k).0;
    if q != [] && clock(k) > q[0].pts {
      var rest := Release(q[1..], 0, clock, k + 1).0;
      SortedTail(q);
      ReleaseHead(q, clock, k);
      ReleaseInOrder(q[1..], clock, k + 1);
      PrefixBehind(q[0], rest.emitted, q[1..]);
      assert q == [q[0]] + q[1..];
      Assoc([q[0]], rest.emitted, rest.queue);
    } else {
      ScanEmits(q, 0, clock, k);
      if q != [] && !Misses(q, 0, clock, k) {
        NotHeadFirst(q, clock, k);
      }
      assert q == [] + q;
      assert q == [] ==> Misses(q, 0, clock, k) by {
        MissesEach(q, 0, clock, k);
      }
    }
  }

  lemma NotHeadFirst(q: seq<CCPacket>, clock: nat -> int, k: nat)
    requires Sorted(q) && q != [] && clock(k) <= q[0].pts && !Misses(q, 0, clock, k)
    ensures !(Release(q, 0, clock, k).0.emitted <= q)
  {
    hide Sorted;
    SortedTail(q);
    ScanEmits(q, 1, clock, k + 1);
    assert Misses(q, 0, clock, k) <==> Misses(q, 1, clock, k + 1);
  }

  lemma PrefixBehind<T>(x: T, a: seq<T>, b: seq<T>)
    ensures [x] + a <= [x] + b <==> a <= b
  {
    assert ([x] + a)[1..] == a && ([x] + b)[1..] == b;
    if [x] + a <= [x] + b {
      assert a == ([x] + b)[..|a| + 1][1..] == b[..|a|];
    }
  }

  /** So a clock that never rises keeps order. */
  lemma {:induction false} SteadyClockInOrder(q: seq<CCPacket>, clock: nat -> int, k: nat)
    requires Sorted(q)
    requires forall m: nat, n: nat | k <= m <= n :: clock(n) <= clock(m)
    ensures var e := Release(q, 0, clock, k).0;
            HeadFirst(q, clock, k) && q == e.emitted + e.queue
    decreases |q|
  {
    hide Sorted, Release, Misses;
    if q != [] {
      SortedTail(q);
      if clock(k) > q[0].pts {
        SteadyClockInOrder(q[1..], clock, k + 1);
      } else {
        forall j | 0 <= j < |q|
          ensures clock(k + (j - 0)) <= q[j].pts
        {
          assert clock(k + j) <= clock(k);
        }
      }
    }
    MissesEach(q, 0, clock, k);
    ReleaseInOrder(q, clock, k);
  }

  // ---- Stamps -------------------------------------------------------------------------------

  /** curr_pts and curr_duration. */
  datatype Clocking = Clocking(pts: int, duration: int)

  function StampOf(c: Clocking, p: CCPacket): int {
    if p.ptsValid then p.pts else c.pts + c.duration
  }

  function AfterStamp(c: Clocking, p: CCPacket): Clocking {
    Clocking(StampOf(c, p), p.duration)
  }

  /** The bytes handed to write_package: the stamp's low 32 bits, then the payload. */
  function Stamped(c: Clocking, p: CCPacket): seq<byte> {
    LEBytes(StampOf(c, p), 4) + p.data
  }

  /** The first four bytes are the stamp modulo 2^32, little-endian: the packet's own time if it is valid, else
      the last stamp and duration together. The payload follows. */
  lemma StampedBytes(c: Clocking, p: CCPacket)
    ensures var w := Stamped(c, p);
            && |w| == 4 + |p.data| && w[4..] == p.data
            && LE(w[..4]) == (if p.ptsValid then p.pts else c.pts + c.duration) % 0x1_0000_0000
  {
    var pts := if p.ptsValid then p.pts else c.pts + c.duration;
    LERoundTrip(pts, 4);
    Pow256Values();
    assert Stamped(c, p)[..4] == LEBytes(pts, 4);
  }

  lemma StampedIs(c: Clocking, p: CCPacket)
    ensures Stamped(c, p) == LEBytes(if p.ptsValid then p.pts else c.pts + c.duration, 4) + p.data
  {
  }

  function StampAll(c: Clocking, ps: seq<CCPacket>): seq<seq<byte>>
    decreases |ps|
  {
    if ps == [] then [] else [Stamped(c, ps[0])] + StampAll(AfterStamp(c, ps[0]), ps[1..])
  }

  function AfterAll(c: Clocking, ps: seq<CCPacket>): Clocking
    decreases |ps|
  {
    if ps == [] then c else AfterAll(AfterStamp(c, ps[0]), ps[1..])
  }

  lemma {:induction false} StampSplit(c: Clocking, a: seq<CCPacket>, b: seq<CCPacket>)
    ensures StampAll(c, a + b) == StampAll(c, a) + StampAll(AfterAll(c, a), b)
    ensures AfterAll(c, a + b) == AfterAll(AfterAll(c, a), b)
    decreases |a|
  {
    hide Stamped;
    if a == [] {
      assert a + b == b;
    } else {
      assert (a + b)[0] == a[0] && (a + b)[1..] == a[1..] + b;
      var c1 := AfterStamp(c, a[0]);
      StampSplit(c1, a[1..], b);
      Assoc([Stamped(c, a[0])], StampAll(c1, a[1..]), StampAll(AfterAll(c1, a[1..]), b));
    }
  }

  /** Everything handed to write_package so far: the buffers, the stamp state, the packets. */
  datatype Out = Out(written: seq<seq<byte>>, stamps: Clocking, emitted: seq<CCPacket>)

  function Emit(o: Out, ps: seq<CCPacket>): Out {
    Out(o.written + StampAll(o.stamps, ps), AfterAll(o.stamps, ps), o.emitted + ps)
  }

  lemma EmitOne(o: Out, p: CCPacket)
    ensures Emit(o, [p]) == Out(o.written + [Stamped(o.stamps, p)], AfterStamp(o.stamps, p), o.emitted + [p])
  {
    hide Stamped;
    assert StampAll(o.stamps, [p]) == [Stamped(o.stamps, p)] + StampAll(AfterStamp(o.stamps, p), [p][1..]);
    assert AfterAll(o.stamps, [p]) == AfterAll(AfterStamp(o.stamps, p), [p][1..]);
  }

  lemma EmitEmit(o: Out, a: seq<CCPacket>, b: seq<CCPacket>)
    ensures Emit(Emit(o, a), b) == Emit(o, a + b)
    ensures Emit(o, []) == o
  {
    StampSplit(o.stamps, a, b);
    Assoc(o.written, StampAll(o.stamps, a), StampAll(AfterAll(o.stamps, a), b));
    Assoc(o.emitted, a, b);
    assert o.written + [] == o.written && o.emitted + [] == o.emitted;
  }

  function Durations(ps: seq<CCPacket>): int {
    if ps == [] then 0 else ps[0].duration + Durations(ps[1..])
  }

  /** A packet without a valid time is stamped with the last valid packet's time plus the durations
      emitted since, however long ago that was. */
  lemma {:induction false} StampExtrapolates(c: Clocking, valid: CCPacket, since: seq<CCPacket>, p: CCPacket)
    requires valid.ptsValid && !p.ptsValid
    requires forall i | 0 <= i < |since| :: !since[i].ptsValid
    ensures StampOf(AfterAll(c, [valid] + since), p) == valid.pts + Durations([valid] + since)
  {
    assert ([valid] + since)[1..] == since;
    Extrapolated(AfterStamp(c, valid), since);
  }

  lemma {:induction false} Extrapolated(c: Clocking, since: seq<CCPacket>)
    requires forall i | 0 <= i < |since| :: !since[i].ptsValid
    ensures AfterAll(c, since).pts + AfterAll(c, since).duration == c.pts + c.duration + Durations(since)
    decreases |since|
  {
    if since != [] {
      Extrapolated(AfterStamp(c, since[0]), since[1..]);
    }
  }

  // ---- The ledger ---------------------------------------------------------------------------

  /** What every run keeps: the queue is stably sorted and bounded, each accepted packet is queued or
      was emitted, once, and what was written is what was emitted, stamped in turn from start. */
  ghost predicate Ledger(q: seq<CCPacket>, accepted: seq<CCPacket>, outs: Out, start: Clocking) {
    && Sorted(q) && |q| <= MAX_CC_NUM
    && multiset(accepted) == multiset(outs.emitted) + multiset(q)
    && (forall i | 0 <= i < |accepted| :: accepted[i].arrival == i)
    && outs == Emit(Out([], start, []), outs.emitted)
  }

  lemma EmittedOn(outs: Out, start: Clocking, ps: seq<CCPacket>)
    requires outs == Emit(Out([], start, []), outs.emitted)
    ensures Emit(outs, ps) == Emit(Out([], start, []), outs.emitted + ps)
    ensures Emit(outs, ps).emitted == outs.emitted + ps
  {
    EmitEmit(Out([], start, []), outs.emitted, ps);
  }

  lemma LedgerNewest(q: seq<CCPacket>, accepted: seq<CCPacket>, outs: Out, start: Clocking, p: CCPacket)
    requires Ledger(q, accepted, outs, start) && p.arrival >= |accepted|
    ensures Newest(q, p)
  {
    hide Sorted, Emit;
    forall i | 0 <= i < |q|
      ensures q[i].arrival < p.arrival
    {
      assert q[i] in multiset(accepted);
      assert q[i] in accepted;
    }
  }

  lemma LedgerAdd(q: seq<CCPacket>, accepted: seq<CCPacket>, outs: Out, start: Clocking, p: CCPacket)
    requires Ledger(q, accepted, outs, start) && p.arrival == |accepted|
    ensures Ledger(Add(q, p).queue, accepted + [p], Emit(outs, Add(q, p).emitted), start)
  {
    hide Sorted, Emit, Add;
    LedgerNewest(q, accepted, outs, start, p);
    AddKeeps(q, p);
    var e := Add(q, p);
    EmittedOn(outs, start, e.emitted);
    assert multiset(accepted + [p]) == multiset(accepted) + multiset{p};
    assert multiset(outs.emitted + e.emitted) == multiset(outs.emitted) + multiset(e.emitted);
    assert multiset(accepted + [p]) == multiset(outs.emitted) + (multiset(q) + multiset{p});
  }

  lemma LedgerAddExactly(q: seq<CCPacket>, accepted: seq<CCPacket>, outs: Out, start: Clocking, p: CCPacket)
    requires Ledger(q, accepted, outs, start) && p.arrival == |accepted|
    ensures var e := Add(q, p);
            && Added(q, p, e.emitted, e.queue)
            && Emit(outs, e.emitted).emitted == outs.emitted + e.emitted
  {
    hide Sorted, Add, Added;
    LedgerNewest(q, accepted, outs, start, p);
    AddExactly(q, p);
  }

  lemma LedgerMove(q: seq<CCPacket>, accepted: seq<CCPacket>, outs: Out, start: Clocking, e: Effect)
    requires Ledger(q, accepted, outs, start)
    requires multiset(e.emitted) + multiset(e.queue) == multiset(q) && Sorted(e.queue) && |e.queue| <= |q|
    ensures Ledger(e.queue, accepted, Emit(outs, e.emitted), start)
  {
    hide Sorted, Emit;
    EmittedOn(outs, start, e.emitted);
  }

  /** No packet is accepted twice, so none is emitted twice or both emitted and queued. */
  lemma EmittedOnce(q: seq<CCPacket>, accepted: seq<CCPacket>, outs: Out, start: Clocking, p: CCPacket)
    requires Ledger(q, accepted, outs, start) && p in accepted
    ensures multiset(outs.emitted)[p] + multiset(q)[p] == 1
  {
    hide Sorted, Emit;
    OnceByArrival(accepted, p);
  }

  lemma {:induction false} OnceByArrival(accepted: seq<CCPacket>, p: CCPacket)
    requires forall i | 0 <= i < |accepted| :: accepted[i].arrival == i
    ensures multiset(accepted)[p] == if p in accepted then 1 else 0
  {
    if accepted != [] {
      var n := |accepted| - 1;
      assert accepted == accepted[..n] + [accepted[n]];
      OnceByArrival(accepted[..n], p);
      assert p in accepted <==> p in accepted[..n] || p == accepted[n];
    }
  }
}
