/** The event table of libsubtitle/utils/AmlogicEvent.c: fifty buckets of linked subscriptions, refined to a map
    from device, type and callback to user data in which the first registration wins. */
module EventTables {
  import opened Wrappers

  const BUCKETS := 50

  datatype Key = Key(device: int, kind: nat, callback: int)

  datatype Entry = Entry(key: Key, data: int)

  /** The buckets, each with its newest entry first. */
  type Table = seq<seq<Entry>>

  predicate Shaped(t: Table) {
    |t| == BUCKETS
  }

  function Place(kind: nat): (p: nat)
    ensures p < BUCKETS
  {
    kind % BUCKETS
  }

  // ---- The operations on values -------------------------------------------------------------

  predicate Has(b: seq<Entry>, k: Key) {
    exists i | 0 <= i < |b| :: b[i].key == k
  }

  predicate HasAnywhere(t: Table, k: Key) {
    exists p | 0 <= p < |t| :: Has(t[p], k)
  }

  function Subscribed(t: Table, e: Entry): Table
    requires Shaped(t)
  {
    if HasAnywhere(t, e.key) then t else t[Place(e.key.kind) := [e] + t[Place(e.key.kind)]]
  }

  /** The bucket without its first entry equal to e. */
  function Without(b: seq<Entry>, e: Entry): (r: seq<Entry>)
    ensures |r| <= |b|
  {
    if b == [] then []
    else if b[0] == e then b[1..]
    else [b[0]] + Without(b[1..], e)
  }

  function Unsubscribed(t: Table, e: Entry): Table
    requires Shaped(t)
  {
    t[Place(e.key.kind) := Without(t[Place(e.key.kind)], e)]
  }

  /** Whom a signal calls, and with which data. */
  function Called(b: seq<Entry>, device: int, kind: nat): seq<Entry> {
    if b == [] then []
    else
      (if b[0].key.device == device && b[0].key.kind == kind then [b[0]] else []) + Called(b[1..], device, kind)
  }

  // ---- The invariant ------------------------------------------------------------------------

  predicate InPlace(t: Table) {
    forall p, i | 0 <= p < |t| && 0 <= i < |t[p]| :: Place(t[p][i].key.kind) == p
  }

  predicate NoTwins(b: seq<Entry>) {
    forall i, j | 0 <= i < j < |b| :: b[i].key != b[j].key
  }

  predicate NoTwinsAnywhere(t: Table) {
    forall p | 0 <= p < |t| :: NoTwins(t[p])
  }

  predicate Ok(t: Table) {
    Shaped(t) && InPlace(t) && NoTwinsAnywhere(t)
  }

  // ---- The map ------------------------------------------------------------------------------

  function Find(b: seq<Entry>, k: Key): Option<int> {
    if b == [] then None else if b[0].key == k then Some(b[0].data) else Find(b[1..], k)
  }

  /** The map the table stands for. */
  function Lookup(t: Table, k: Key): Option<int>
    requires Shaped(t)
  {
    Find(t[Place(k.kind)], k)
  }

  lemma {:induction false} FindHas(b: seq<Entry>, k: Key)
    ensures Find(b, k).Some? <==> Has(b, k)
  {
    if b != [] {
      FindHas(b[1..], k);
      if Has(b, k) && b[0].key != k {
        var i :| 0 <= i < |b| && b[i].key == k;
        assert b[1..][i - 1].key == k;
      }
      if Has(b[1..], k) {
        var i :| 0 <= i < |b[1..]| && b[1..][i].key == k;
        assert b[i + 1].key == k;
      }
    }
  }

  lemma HasInPlace(t: Table, k: Key)
    requires Ok(t)
    ensures HasAnywhere(t, k) <==> Has(t[Place(k.kind)], k)
  {
    if HasAnywhere(t, k) {
      var p :| 0 <= p < |t| && Has(t[p], k);
      var i :| 0 <= i < |t[p]| && t[p][i].key == k;
      assert Place(t[p][i].key.kind) == p;
    }
  }

  /** The first registration of a key wins; other keys stay as they are. */
  lemma SubscribeIsInsert(t: Table, e: Entry, k: Key)
    requires Ok(t)
    ensures Lookup(Subscribed(t, e), k) ==
            if k == e.key && Lookup(t, k).None? then Some(e.data) else Lookup(t, k)
  {
    hide InPlace, NoTwinsAnywhere;
    HasInPlace(t, e.key);
    FindHas(t[Place(e.key.kind)], e.key);
    var b := t[Place(e.key.kind)];
    assert ([e] + b)[1..] == b;
  }

  lemma SubscribeKeeps(t: Table, e: Entry)
    requires Ok(t)
    ensures Ok(Subscribed(t, e))
  {
    hide Place;
    if !HasAnywhere(t, e.key) {
      var p := Place(e.key.kind);
      var u: Table := Subscribed(t, e);
      assert NoTwins(u[p]) by { NoTwinsFront(t[p], e); }
      forall q, i | 0 <= q < |u| && 0 <= i < |u[q]|
        ensures Place(u[q][i].key.kind) == q
      {
        if q == p && i > 0 {
          assert u[q][i] == t[q][i - 1];
        }
      }
    }
  }

  lemma NoTwinsFront(b: seq<Entry>, e: Entry)
    requires NoTwins(b) && !Has(b, e.key)
    ensures NoTwins([e] + b)
  {
    var u := [e] + b;
    forall i, j | 0 <= i < j < |u|
      ensures u[i].key != u[j].key
    {
      assert u[j] == b[j - 1];
      if i > 0 {
        assert u[i] == b[i - 1];
      }
    }
  }

  lemma FrontAlone(b: seq<Entry>)
    requires NoTwins(b) && b != []
    ensures NoTwins(b[1..]) && !Has(b[1..], b[0].key)
  {
    forall i | 0 <= i < |b[1..]|
      ensures b[1..][i].key != b[0].key
    {
      assert b[1..][i] == b[i + 1];
    }
  }

  predicate PartOf(r: seq<Entry>, b: seq<Entry>) {
    forall i | 0 <= i < |r| :: r[i] in b
  }

  lemma PartLacks(r: seq<Entry>, b: seq<Entry>, k: Key)
    requires PartOf(r, b) && !Has(b, k)
    ensures !Has(r, k)
  {
    forall i | 0 <= i < |r|
      ensures r[i].key != k
    {
      var j :| 0 <= j < |b| && b[j] == r[i];
    }
  }

  lemma PartFront(r: seq<Entry>, b: seq<Entry>)
    requires b != [] && PartOf(r, b[1..])
    ensures PartOf(r, b) && PartOf([b[0]] + r, b)
  {
  }

  lemma {:induction false} WithoutIs(b: seq<Entry>, e: Entry, k: Key)
    requires NoTwins(b)
    ensures Find(Without(b, e), k) == if k == e.key && Find(b, k) == Some(e.data) then None else Find(b, k)
    ensures NoTwins(Without(b, e)) && PartOf(Without(b, e), b)
  {
    hide NoTwins, Has, PartOf;
    if b == [] {
      assert PartOf([], b) by { PartNothing(b); }
    } else {
      FrontAlone(b);
      FindHas(b[1..], b[0].key);
      if b[0] == e {
        PartSelf(b[1..]);
        PartFront(b[1..], b);
      } else {
        WithoutIs(b[1..], e, k);
        var r := Without(b[1..], e);
        assert ([b[0]] + r)[1..] == r;
        PartLacks(r, b[1..], b[0].key);
        NoTwinsFront(r, b[0]);
        PartFront(r, b);
      }
    }
  }

  lemma PartNothing(b: seq<Entry>)
    ensures PartOf([], b)
  {
  }

  lemma PartSelf(b: seq<Entry>)
    ensures PartOf(b, b)
  {
  }

  /** Unsubscribing removes the key with that data and nothing else. */
  lemma UnsubscribeIsRemove(t: Table, e: Entry, k: Key)
    requires Ok(t)
    ensures Lookup(Unsubscribed(t, e), k) ==
            if k == e.key && Lookup(t, k) == Some(e.data) then None else Lookup(t, k)
  {
    hide Without, Find;
    WithoutIs(t[Place(e.key.kind)], e, k);
  }

  lemma UnsubscribeKeeps(t: Table, e: Entry)
    requires Ok(t)
    ensures Ok(Unsubscribed(t, e))
  {
    hide Place, Without;
    var p := Place(e.key.kind);
    WithoutIs(t[p], e, e.key);
    var u: Table := Unsubscribed(t, e);
    forall q, i | 0 <= q < |u| && 0 <= i < |u[q]|
      ensures Place(u[q][i].key.kind) == q
    {
      if q == p {
        assert u[q][i] in t[q];
      }
    }
  }

  lemma {:induction false} CalledAre(b: seq<Entry>, device: int, kind: nat)
    requires NoTwins(b)
    ensures var calls := Called(b, device, kind);
            && PartOf(calls, b) && NoTwins(calls)
            && forall e :: e in calls <==> e in b && e.key.device == device && e.key.kind == kind
  {
    hide NoTwins, Has, PartOf;
    if b == [] {
      PartNothing(b);
    } else {
      FrontAlone(b);
      CalledAre(b[1..], device, kind);
      var rest := Called(b[1..], device, kind);
      PartFront(rest, b);
      if b[0].key.device == device && b[0].key.kind == kind {
        PartLacks(rest, b[1..], b[0].key);
        NoTwinsFront(rest, b[0]);
      } else {
        assert [] + rest == rest;
      }
    }
  }

  lemma {:induction false} FindIn(b: seq<Entry>, e: Entry)
    requires NoTwins(b)
    ensures e in b <==> Find(b, e.key) == Some(e.data)
  {
    hide NoTwins;
    if b != [] {
      FrontAlone(b);
      FindIn(b[1..], e);
      FindHas(b[1..], b[0].key);
      assert e in b <==> e == b[0] || e in b[1..];
      assert e in b[1..] ==> e.key != b[0].key;
    }
  }

  /** A signal calls each matching subscription exactly once, with the data the map holds for it. */
  lemma SignalCalls(t: Table, device: int, kind: nat, e: Entry)
    requires Ok(t)
    ensures var calls := Called(t[Place(kind)], device, kind);
            && (e in calls <==> e.key.device == device && e.key.kind == kind && Lookup(t, e.key) == Some(e.data))
            && NoTwins(calls)
  {
    hide Called, Find, Place, NoTwins;
    var b := t[Place(kind)];
    CalledAre(b, device, kind);
    FindIn(b, e);
  }

  // ---- Runs ---------------------------------------------------------------------------------

  datatype Op = Subscribe(entry: Entry) | Unsubscribe(entry: Entry)

  function Empty(): (t: Table)
    ensures |t| == BUCKETS && forall p | 0 <= p < |t| :: t[p] == []
  {
    seq(BUCKETS, _ => [])
  }

  function Step(t: Table, op: Op): (u: Table)
    requires Shaped(t)
    ensures Shaped(u)
  {
    match op
    case Subscribe(e) => Subscribed(t, e)
    case Unsubscribe(e) => Unsubscribed(t, e)
  }

  function Run(ops: seq<Op>): (t: Table)
    ensures Shaped(t)
  {
    if ops == [] then Empty() else Step(Run(ops[..|ops| - 1]), ops[|ops| - 1])
  }

  /** The same operations on a map. */
  function MapStep(m: map<Key, int>, op: Op): map<Key, int> {
    match op
    case Subscribe(e) => if e.key in m then m else m[e.key := e.data]
    case Unsubscribe(e) => if e.key in m && m[e.key] == e.data then m - {e.key} else m
  }

  function MapRun(ops: seq<Op>): map<Key, int> {
    if ops == [] then map[] else MapStep(MapRun(ops[..|ops| - 1]), ops[|ops| - 1])
  }

  predicate Agrees(t: Table, m: map<Key, int>, k: Key)
    requires Shaped(t)
  {
    Lookup(t, k) == if k in m then Some(m[k]) else None
  }

  lemma StepRefines(t: Table, m: map<Key, int>, op: Op, k: Key)
    requires Ok(t) && Agrees(t, m, k) && Agrees(t, m, op.entry.key)
    ensures Ok(Step(t, op)) && Agrees(Step(t, op), MapStep(m, op), k)
  {
    hide Ok, Lookup, Subscribed, Unsubscribed;
    match op
    case Subscribe(e) =>
      SubscribeKeeps(t, e);
      SubscribeIsInsert(t, e, k);
    case Unsubscribe(e) =>
      UnsubscribeKeeps(t, e);
      UnsubscribeIsRemove(t, e, k);
  }

  /** Over every run the table is in order and stands for the map. */
  lemma {:induction false} RunRefines(ops: seq<Op>, k: Key)
    ensures Ok(Run(ops)) && Agrees(Run(ops), MapRun(ops), k)
  {
    hide Ok, Agrees, Step, MapStep;
    if ops == [] {
      EmptyAgrees(k);
    } else {
      var init, last := ops[..|ops| - 1], ops[|ops| - 1];
      RunRefines(init, k);
      RunRefines(init, last.entry.key);
      StepRefines(Run(init), MapRun(init), last, k);
    }
  }

  /** Over every run there are fifty buckets, and an entry lies in the one its type leaves modulo 50. */
  lemma RunPlaces(ops: seq<Op>, p: nat, i: nat)
    requires p < |Run(ops)| && i < |Run(ops)[p]|
    ensures |Run(ops)| == 50 && Run(ops)[p][i].key.kind % 50 == p
  {
    hide Run;
    RunRefines(ops, Run(ops)[p][i].key);
    assert Place(Run(ops)[p][i].key.kind) == p;
  }

  lemma EmptyAgrees(k: Key)
    ensures Ok(Empty()) && Agrees(Empty(), map[], k)
  {
  }

  // ---- The linked buckets -------------------------------------------------------------------

  class Event {
    var next: Event?
    const key: Key
    const data: int

    constructor (entry: Entry)
      ensures key == entry.key && data == entry.data
    {
      key, data := entry.key, entry.data;
      next := null;
    }

    function Value(): Entry {
      Entry(key, data)
    }
  }

  function Values(l: seq<Event>): (v: seq<Entry>)
    ensures |v| == |l| && forall i | 0 <= i < |l| :: v[i] == l[i].Value()
  {
    seq(|l|, i requires 0 <= i < |l| => l[i].Value())
  }

  function AllValues(ls: seq<seq<Event>>): (t: Table)
    ensures |t| == |ls| && forall p | 0 <= p < |ls| :: t[p] == Values(ls[p])
  {
    seq(|ls|, p requires 0 <= p < |ls| => Values(ls[p]))
  }

  ghost predicate Linked(head: Event?, l: seq<Event>)
    reads l
  {
    && head == (if l == [] then null else l[0])
    && forall i {:trigger l[i].next} | 0 <= i < |l| :: l[i].next == (if i + 1 < |l| then l[i + 1] else null)
  }

  class EventTable {
    const events: array<Event?>
    ghost var lists: seq<seq<Event>>

    ghost predicate Valid()
      reads this, events, Nodes()
    {
      && events.Length == |lists| == BUCKETS
      && (forall p | 0 <= p < BUCKETS :: Linked(events[p], lists[p]))
      && Ok(Abs())
    }

    ghost function Nodes(): set<Event>
      reads this
    {
      set p, i | 0 <= p < |lists| && 0 <= i < |lists[p]| :: lists[p][i]
    }

    /** What the buckets hold. */
    ghost function Abs(): Table
      reads this
    {
      AllValues(lists)
    }

    constructor ()
      ensures Valid() && fresh(events) && Abs() == Empty()
    {
      events := new Event?[BUCKETS](_ => null);
      lists := seq(BUCKETS, _ => []);
      new;
      assert Abs() == Empty();
      EmptyAgrees(Key(0, 0, 0));
    }

    /** AmlogicEventSubscribe: all buckets are searched, the one of the type gets the entry in front. */
    method Subscribe(e: Entry) returns (added: bool)
      requires Valid()
      modifies this, events
      ensures Valid() && Abs() == Subscribed(old(Abs()), e)
      ensures added <==> Lookup(old(Abs()), e.key).None?
      ensures fresh(Nodes() - old(Nodes()))
    {
      hide Ok, Find;
      var found := SearchAll(e.key);
      if found {
        return false;
      }
      ghost var l := lists[Place(e.key.kind)];
      assert Linked(events[Place(e.key.kind)], l);
      var evt := new Event(e);
      var pos := e.key.kind % BUCKETS;
      evt.next := events[pos];
      PushFront(events[pos], l, evt);
      events[pos] := evt;
      lists := lists[pos := [evt] + lists[pos]];
      assert Values([evt] + l) == [e] + Values(l);
      assert Abs() == Subscribed(old(Abs()), e);
      SubscribeKeeps(old(Abs()), e);
      added := true;
    }

    method SearchAll(k: Key) returns (found: bool)
      requires Valid()
      ensures found <==> HasAnywhere(Abs(), k)
      ensures found <==> Lookup(Abs(), k).Some?
    {
      hide Ok, Find;
      HasInPlace(Abs(), k);
      FindHas(Abs()[Place(k.kind)], k);
      var p := 0;
      while p < BUCKETS
        invariant 0 <= p <= BUCKETS
        invariant forall q | 0 <= q < p :: !Has(Abs()[q], k)
      {
        found := Search(p, k);
        if found {
          return;
        }
        p := p + 1;
      }
      found := false;
    }

    method Search(p: nat, k: Key) returns (found: bool)
      requires Valid() && p < BUCKETS
      ensures found <==> Has(Abs()[p], k)
    {
      hide Ok;
      ghost var l := lists[p];
      var evt := events[p];
      ghost var i := 0;
      while evt != null
        invariant 0 <= i <= |l| && evt == (if i < |l| then l[i] else null)
        invariant forall j | 0 <= j < i :: l[j].key != k
        decreases |l| - i
      {
        if evt.key == k {
          assert Abs()[p][i].key == k;
          return true;
        }
        evt := evt.next;
        i := i + 1;
      }
      found := false;
    }

    /** AmlogicEventUnsubscribe: the entry with that key and that data is unlinked. */
    method Unsubscribe(e: Entry) returns (removed: bool)
      requires Valid()
      modifies this, events, Nodes()
      ensures Valid() && Abs() == Unsubscribed(old(Abs()), e) && Nodes() <= old(Nodes())
      ensures removed <==> Lookup(old(Abs()), e.key) == Some(e.data)
    {
      hide Ok, Find, Without;
      var pos := e.key.kind % BUCKETS;
      ghost var l := lists[pos];
      OkBucket(Abs(), pos);
      FindIn(Abs()[pos], e);
      var eprev: Event?, evt := null, events[pos];
      ghost var i := 0;
      while evt != null && !(evt.key == e.key && evt.data == e.data)
        invariant 0 <= i <= |l| && evt == (if i < |l| then l[i] else null)
        invariant eprev == (if i == 0 then null else l[i - 1])
        invariant forall j | 0 <= j < i :: Values(l)[j] != e
        modifies {}
        decreases |l| - i
      {
        eprev := evt;
        evt := evt.next;
        i := i + 1;
      }
      UnsubscribeKeeps(Abs(), e);
      removed := evt != null;
      if removed {
        assert Values(l)[i] == e;
        WithoutAt(Values(l), e, i);
        assert Values(l[..i] + l[i + 1..]) == Values(l)[..i] + Values(l)[i + 1..];
        Unlink(pos, eprev, evt, i);
      } else {
        WithoutMissing(Values(l), e);
        assert Unsubscribed(Abs(), e) == Abs();
      }
    }

    method Unlink(pos: nat, eprev: Event?, evt: Event, ghost i: nat)
      requires Valid() && pos < BUCKETS && i < |lists[pos]| && evt == lists[pos][i]
      requires eprev == (if i == 0 then null else lists[pos][i - 1])
      requires Ok(Abs()[pos := Values(lists[pos][..i] + lists[pos][i + 1..])])
      modifies this, events, Nodes()
      ensures Valid() && Nodes() <= old(Nodes())
      ensures Abs() == old(Abs()[pos := Values(lists[pos][..i] + lists[pos][i + 1..])])
    {
      hide Ok;
      ghost var l := lists[pos];
      ghost var r := l[..i] + l[i + 1..];
      OthersApart(pos);
      OwnApart(pos);
      if eprev != null {
        eprev.next := evt.next;
      } else {
        events[pos] := evt.next;
      }
      lists := lists[pos := r];
      assert Linked(events[pos], r);
      assert Abs() == old(Abs()[pos := Values(r)]);
      forall x | x in Nodes()
        ensures x in old(Nodes())
      {
        var q, k :| 0 <= q < |lists| && 0 <= k < |lists[q]| && lists[q][k] == x;
        if q == pos {
          assert x in l;
        }
      }
    }

    /** Nodes of different buckets differ by their types, nodes of one bucket by their keys. */
    lemma OthersApart(p: nat)
      requires Valid() && p < BUCKETS
      ensures forall q, i, j | 0 <= q < BUCKETS && q != p && 0 <= i < |lists[q]| && 0 <= j < |lists[p]| ::
                lists[q][i] != lists[p][j]
    {
      forall q, i, j | 0 <= q < BUCKETS && q != p && 0 <= i < |lists[q]| && 0 <= j < |lists[p]|
        ensures lists[q][i] != lists[p][j]
      {
        assert Place(Abs()[q][i].key.kind) == q && Place(Abs()[p][j].key.kind) == p;
      }
    }

    lemma OwnApart(p: nat)
      requires Valid() && p < BUCKETS
      ensures forall i, j | 0 <= i < j < |lists[p]| :: lists[p][i] != lists[p][j]
    {
      OkBucket(Abs(), p);
      forall i, j | 0 <= i < j < |lists[p]|
        ensures lists[p][i] != lists[p][j]
      {
        assert Abs()[p][i].key != Abs()[p][j].key;
      }
    }

    /** AmlogicEventSignal: the data of the callbacks it calls, in that order. */
    method Signal(device: int, kind: nat) returns (calls: seq<Entry>)
      requires Valid()
      ensures calls == Called(Abs()[Place(kind)], device, kind)
    {
      hide Ok;
      var pos := kind % BUCKETS;
      ghost var l := lists[pos];
      ghost var v := Values(l);
      var evt := events[pos];
      ghost var i := 0;
      calls := [];
      assert v[0..] == v;
      while evt != null
        invariant 0 <= i <= |l| && evt == (if i < |l| then l[i] else null)
        invariant calls + Called(v[i..], device, kind) == Called(v, device, kind)
        decreases |l| - i
      {
        assert v[i..][0] == evt.Value() && v[i..][1..] == v[i + 1..];
        if evt.key.device == device && evt.key.kind == kind {
          calls := calls + [evt.Value()];
        }
        evt := evt.next;
        i := i + 1;
      }
    }
  }

  lemma OkBucket(t: Table, p: nat)
    requires Ok(t) && p < BUCKETS
    ensures NoTwins(t[p])
  {
  }

  lemma PushFront(head: Event?, l: seq<Event>, evt: Event)
    requires Linked(head, l) && evt !in l && evt.next == head
    ensures Linked(evt, [evt] + l)
  {
    forall i | 0 <= i < |l| + 1
      ensures ([evt] + l)[i].next == (if i + 1 < |l| + 1 then ([evt] + l)[i + 1] else null)
    {
      if i > 0 {
        assert ([evt] + l)[i] == l[i - 1];
      }
    }
  }

  lemma {:induction false} WithoutAt(b: seq<Entry>, e: Entry, i: nat)
    requires i < |b| && b[i] == e && forall j | 0 <= j < i :: b[j] != e
    ensures Without(b, e) == b[..i] + b[i + 1..]
  {
    if i > 0 {
      WithoutAt(b[1..], e, i - 1);
      assert b[..i] == [b[0]] + b[1..][..i - 1] && b[1..][i..] == b[i + 1..];
    }
  }

  lemma {:induction false} WithoutMissing(b: seq<Entry>, e: Entry)
    requires forall j | 0 <= j < |b| :: b[j] != e
    ensures Without(b, e) == b
  {
    if b != [] {
      WithoutMissing(b[1..], e);
    }
  }
}
