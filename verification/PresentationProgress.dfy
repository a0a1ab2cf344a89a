/** What becomes of a queued subtitle, in milliseconds and nanoseconds: which items one message keeps, which it throws
    out, which it shows and with what text, and how long a shown one stays. */
module PresentationProgress {
  import opened Bytes
  import opened PresentationSpecs
  import opened PresentationSafety

  // ---- The rules in numbers -----------------------------------------------------------------

  /** Less than ten minutes ahead of the clock, for immediate display, or with more than 32 bits against a clock
      that has no more. */
  predicate Waiting(i: Item, now: nat) {
    || i.immediate
    || i.pts < (now / 1_000_000 + 600_000) * 90
    || (i.pts >= 0x1_0000_0000 && now / 1_000_000 * 90 < 0x1_0000_0000)
  }

  lemma TooFarExactly(i: Item, now: nat)
    requires now <= CLOCK_LIMIT && Int64(i.pts)
    ensures TooFar(i, now) <==> !Waiting(i, now)
  {
    WholeMillis(now);
    var ms := now / 1_000_000 + 600_000;
    assert i.pts >= ms * 90 <==> i.pts / 90 >= ms;
    if i.pts >= 0 {
      assert U64(i.pts) == i.pts;
    }
  }

  /** An external item whose end the clock has reached. */
  predicate Over(i: Item, now: nat) {
    i.external && i.delay > 0 && now / 1_000_000 >= i.delay / 90
  }

  /** Exactly the leading items that are over leave. */
  lemma {:induction false} SkipExactly(l: seq<Item>, now: nat) returns (n: nat)
    requires now <= CLOCK_LIMIT
    ensures n <= |l| && SkipExpired(l, now) == l[n..]
    ensures (forall i | 0 <= i < n :: Over(l[i], now)) && (n < |l| ==> !Over(l[n], now))
  {
    n := 0;
    if l != [] && Expired(l[0], now) {
      var m := SkipExactly(l[1..], now);
      n := m + 1;
    }
  }

  /** Throwing out is a filter: it keeps exactly the items that may wait, in order. */
  lemma {:induction false} ThrowExactly(a: seq<Item>, b: seq<Item>, i: Item, now: nat)
    requires now <= CLOCK_LIMIT && Int64(i.pts)
    ensures ThrowFar(a + b, now) == ThrowFar(a, now) + ThrowFar(b, now)
    ensures ThrowFar([i], now) == if Waiting(i, now) then [i] else []
  {
    hide TooFar, Waiting;
    TooFarExactly(i, now);
    assert [i][1..] == [];
    if a == [] {
      assert a + b == b;
    } else {
      assert (a + b)[0] == a[0] && (a + b)[1..] == a[1..] + b;
      ThrowExactly(a[1..], b, i, now);
      Assoc(if TooFar(a[0], now) then [] else [a[0]], ThrowFar(a[1..], now), ThrowFar(b, now));
    }
  }

  /** A time the 64-bit product holds, in nanoseconds. */
  function Nanos(pts: int): int {
    pts * 1_000_000 / 90
  }

  predicate Held(pts: int) {
    0 <= pts && pts * 1_000_000 < 0x8000_0000_0000_0000
  }

  lemma HeldExact(pts: int)
    requires Held(pts)
    ensures Dvb2Ns(pts) == Nanos(pts) && 0 <= Nanos(pts) && U64(Dvb2Ns(pts)) == Nanos(pts)
  {
    Dvb2NsExact(pts);
    U64Signed(Nanos(pts));
  }

  /** A new item keeps its time if it is external or within 200 seconds of the clock; any other gets a start one
      second behind the clock's present position and two seconds on screen. */
  lemma SettleExactly(i: Item, now: nat)
    requires now <= CLOCK_LIMIT && Held(i.pts)
    ensures var apart := if Nanos(i.pts) > now then Nanos(i.pts) - now else now - Nanos(i.pts);
            var start := (now + 1_000_000_000) / 1_000_000 * 90;
            Settle(i, now) ==
            if i.external || apart < 200_000_000_000 then i else i.(pts := start, delay := start + 180_000)
  {
    hide Dvb2Ns, Ns2Dvb, U64;
    HeldExact(i.pts);
    WholeMillis(now + 1_000_000_000);
  }

  /** The sizes are added up. */
  lemma {:induction false} TotalExactly(a: seq<Item>, b: seq<Item>, i: Item)
    ensures TotalSize(a + b) == TotalSize(a) + TotalSize(b) && TotalSize([i]) == i.size
  {
    assert TotalSize([i]) == i.size + TotalSize([i][1..]);
    if a == [] {
      assert a + b == b;
    } else {
      assert (a + b)[0] == a[0] && (a + b)[1..] == a[1..] + b;
      TotalExactly(a[1..], b, i);
    }
  }

  /** A new item joins unless the clock is 0, it has a time and is no caption; then, if its size and all sizes
      queued come to 41472000 bytes, the earlier half goes. */
  lemma ArriveExactly(l: seq<Item>, i: Item, now: nat)
    ensures var x := Settle(i, now);
            var all := if i.caption || now != 0 || x.pts == 0 then l + [x] else l;
            exists m | Orders(m, all, l) ::
              Arrive(l, i, now) == if i.size + TotalSize(m) >= 41_472_000 then m[|m| / 2..] else m
  {
    hide SortByPts, TotalSize, Dvb2Ns, Ns2Dvb, Distance;
    var x := Settle(i, now);
    SortIsStable(l + [x], 0);
    var all := if i.caption || now != 0 || x.pts == 0 then l + [x] else l;
    var m := if Admitted(x, now) then SortByPts(all) else all;
    assert Orders(m, all, l);
  }

  /** m holds all, by time; or, when nothing joined l, it is l as it was. */
  ghost predicate Orders(m: seq<Item>, all: seq<Item>, l: seq<Item>) {
    multiset(m) == multiset(all) && if all == l then m == l else Sorted(m)
  }

  // ---- What the corrections make of the front -----------------------------------------------

  /** An item without a time gets the clock's and two seconds; one of more than 32 bits against a positive clock
      of no more is cut to 32; a missing end is four seconds behind the start. */
  lemma PrepareExactly(i: Item, now: nat)
    requires now <= CLOCK_LIMIT && 0 <= i.pts < 0x4000_0000_0000_0000 && Int64(i.delay)
    ensures var v := now / 1_000_000 * 90;
            var j := if i.pts < 90 && !i.immediate then i.(pts := v, delay := v + 180_000)
                     else if i.pts >= 0x1_0000_0000 && 0 < v < 0x1_0000_0000 then
                       i.(pts := i.pts % 0x1_0000_0000, delay := i.delay % 0x1_0000_0000)
                     else i;
            Prepare(i, now) == if j.delay <= 0 then j.(delay := j.pts + 360_000) else j
  {
    hide Ns2Dvb, Wrap64;
    WholeMillis(now);
    U64Small(i.pts);
    U64Small(now / 1_000_000 * 90);
    SmallWraps(now / 1_000_000 * 90 + 180_000);
    if i.delay <= 0 {
      SmallWraps(i.pts + 360_000);
    }
    SmallWraps(i.pts % 0x1_0000_0000 + 360_000);
  }

  lemma SmallWraps(x: int)
    requires Int64(x)
    ensures Wrap64(x) == x
  {
  }

  /** An item for immediate display stays four seconds from now; any other until its own end, if that is at least
      one second behind its start, or else five seconds. */
  lemma FadingExactly(i: Item, now: nat)
    requires now <= CLOCK_LIMIT && 0 <= i.pts < 0x4000_0000_0000_0000
    requires -0x4000_0000_0000_0000 <= i.delay && Int64(i.delay)
    ensures var v := now / 1_000_000 * 90;
            FixFading(i, now) ==
            if i.immediate then i.(pts := v, delay := v + 360_000)
            else if i.delay - i.pts >= 90_000 then i
            else i.(delay := i.pts + 450_000)
  {
    hide Ns2Dvb, Wrap64;
    WholeMillis(now);
    SmallWraps(now / 1_000_000 * 90 + 360_000);
    SmallWraps(i.pts + 450_000);
    if i.delay >= i.pts {
      SmallWraps(i.delay - i.pts);
    }
  }

  /** The fading item is hidden, if it is not to be kept, exactly when the clock is not 0 and has reached its end, or
      its end lies more than 100 seconds ahead, 5 for an external item. */
  lemma FadeExactly(s: State, now: nat)
    requires now <= CLOCK_LIMIT && s.fading != [] && Held(s.fading[0].delay)
    ensures var f := s.fading[0];
            var end := Nanos(f.delay);
            var ahead := if f.external then 5_000_000_000 else 100_000_000_000;
            Fade(s, now) ==
            if !f.keep && now != 0 && (end <= now || end - now > ahead) then
              State(s.showing, s.fading[1..], s.calls + [Hide(f)])
            else s
  {
    hide Dvb2Ns, Faded;
    FadedExactly(s.fading[0], now);
    HeldExact(s.fading[0].delay);
  }

  // ---- What one message keeps ---------------------------------------------------------------

  ghost predicate HandedIn(calls: seq<Call>, serial: nat) {
    exists k | 0 <= k < |calls| :: (calls[k].Show? || calls[k].Hide?) && calls[k].item.serial == serial
  }

  /** Its text was shown below the text of another item of the same time. */
  ghost predicate CombinedIn(calls: seq<Call>, x: Item) {
    exists k, text | 0 <= k < |calls| && Below(calls[k], text, x) :: calls[k].Show?
  }

  ghost predicate Below(c: Call, text: seq<byte>, x: Item) {
    c.Show? && c.item.pts == x.pts && c.item.data == Data(text + [10] + TextOf(x.data))
  }

  /** It waits in the queue, was handed to the renderer, or was combined with an item that was. */
  ghost predicate Kept(x: Item, showing: seq<Item>, calls: seq<Call>) {
    x.serial in Serials(showing) || HandedIn(calls, x.serial) || CombinedIn(calls, x)
  }

  /** The front of the queue has just been thrown out, and yet its converted time, having overflowed, passes the
      test: the source then shows it and takes the next item off the list in its place. */
  predicate Misfires(l: seq<Item>, now: nat) {
    l != [] && !Waiting(l[0], now) &&
    var c := Quot(Wrap64(l[0].pts * 1_000_000), 90);
    c <= now + 33_000_000 && (c >= 0 || now + 33_000_000 - c <= 2_000_000_000)
  }

  /** It does so only if the conversion does not hold its time. */
  lemma MisfireOverflows(l: seq<Item>, now: nat)
    requires now <= CLOCK_LIMIT && Misfires(l, now) && Int64(l[0].pts)
    ensures !Held(l[0].pts)
  {
    if Held(l[0].pts) {
      HeldExact(l[0].pts);
    }
  }

  /** Where an item that may wait stands once the others are thrown out. */
  lemma {:induction false} ThrowIndex(l: seq<Item>, now: nat, k: nat) returns (p: nat)
    requires k < |l| && !TooFar(l[k], now)
    ensures p < |ThrowFar(l, now)| && ThrowFar(l, now)[p] == l[k]
    ensures p == 0 <==> forall j | 0 <= j < k :: TooFar(l[j], now)
  {
    hide TooFar;
    if k == 0 {
      p := 0;
    } else {
      var q := ThrowIndex(l[1..], now, k - 1);
      p := if TooFar(l[0], now) then q else q + 1;
      if TooFar(l[0], now) {
        assert forall j | 0 <= j < k :: TooFar(l[j], now) <==> j == 0 || TooFar(l[1..][j - 1], now);
      }
    }
  }

  lemma InSerials(l: seq<Item>, p: nat)
    requires p < |l|
    ensures l[p].serial in Serials(l)
  {
  }

  /** Of the list that is left, everything behind its first item is still there when one has been shown, or was
      combined. */
  lemma ShowKept(s: State, i: Item, now: nat, p: nat)
    requires 0 < p < |s.showing|
    ensures var t := ShowItem(s, i, now);
            s.calls <= t.calls && Kept(s.showing[p], t.showing, t.calls[|s.calls|..])
  {
    hide FixFading, Serials;
    var rest := s.showing[1..];
    var (j, left) := TakeFront(i, rest);
    var t := ShowItem(s, i, now);
    var removed := if s.fading == [] then [] else [Remove(s.fading[0])];
    assert t.calls == s.calls + ([Handover(j, now)] + removed);
    var calls := t.calls[|s.calls|..];
    assert calls[0] == Handover(j, now);
    assert rest[p - 1] == s.showing[p];
    if left == rest {
      InSerials(left, p - 1);
    } else if p == 1 {
      assert Below(calls[0], TextOf(i.data), s.showing[1]);
      assert CombinedIn(calls, s.showing[p]);
    } else {
      assert left[p - 2] == s.showing[p];
      InSerials(left, p - 2);
    }
  }

  lemma ShowHands(s: State, i: Item, now: nat)
    requires s.showing != []
    ensures var t := ShowItem(s, i, now);
            s.calls < t.calls && HandedIn(t.calls[|s.calls|..], i.serial)
  {
    hide FixFading;
    var j := TakeFront(i, s.showing[1..]).0;
    var t := ShowItem(s, i, now);
    var removed := if s.fading == [] then [] else [Remove(s.fading[0])];
    assert t.calls == s.calls + ([Handover(j, now)] + removed);
    assert t.calls[|s.calls|..][0] == Handover(j, now);
  }

  /** A thrown-out front is looked at with its own time. */
  lemma ThrownFront(l: seq<Item>, now: nat)
    requires l != [] && now <= CLOCK_LIMIT && Int64(l[0].pts) && TooFar(l[0], now)
    ensures Due(Prepare(l[0], now), now) <==> Misfires(l, now)
  {
    hide Due, Ns2Dvb, ThrowFar, Wrap64;
    TooFarExactly(l[0], now);
    WholeMillis(now);
    var p := Prepare(l[0], now);
    U64Small(l[0].pts);
    U64Small(now / 1_000_000 * 90);
    assert p.pts == l[0].pts && p.immediate == l[0].immediate;
    DueExactly(p, now);
  }

  lemma FrontKept(s: State, now: nat, k: nat)
    requires Words(s.showing) && k < |s.showing| && now <= CLOCK_LIMIT && Waiting(s.showing[k], now)
    requires Misfires(s.showing, now) ==> exists j | 0 <= j < k :: Waiting(s.showing[j], now)
    ensures var t := PresentFront(s, now);
            s.calls <= t.calls && Kept(s.showing[k], t.showing, t.calls[|s.calls|..])
  {
    hide Due, Prepare, ShowItem, TooFar, ThrowFar, Waiting, Misfires, Serials, HandedIn, CombinedIn;
    var front, l := s.showing[0], ThrowFar(s.showing, now);
    FarLiterals(s.showing, now);
    var p := ThrowIndex(s.showing, now, k);
    var i := Prepare(front, now);
    PrepareWords(front, now);
    var l' := if TooFar(front, now) then l else l[0 := i];
    if !TooFar(front, now) {
      ThrowFront(s.showing, now);
    } else {
      ThrownFront(s.showing, now);
    }
    if Due(i, now) {
      if p == 0 {
        ShowHands(s.(showing := l'), i, now);
      } else {
        ShowKept(s.(showing := l'), i, now, p);
      }
    } else {
      assert l'[p].serial == s.showing[k].serial;
      InSerials(l', p);
    }
  }

  lemma FarLiterals(l: seq<Item>, now: nat)
    requires Words(l) && now <= CLOCK_LIMIT
    ensures forall j | 0 <= j < |l| :: TooFar(l[j], now) <==> !Waiting(l[j], now)
  {
    hide TooFar, Waiting;
    forall j | 0 <= j < |l|
      ensures TooFar(l[j], now) <==> !Waiting(l[j], now)
    {
      TooFarExactly(l[j], now);
    }
  }

  /** Main result: no message loses an item that may wait. Every such item of the queue it looks at stays in the
      queue, is handed to the renderer, or is combined with one that is; only the first of them is lost, and only
      when the front of the queue misfires. */
  lemma ItemKept(s: State, arrival: Arrival, now: nat, k: nat)
    requires Words(s.showing) && MessageOk(CheckSpu(arrival, now))
    requires var l := Looked(s, arrival, now);
             && k < |l| && Waiting(l[k], now)
             && (Misfires(l, now) ==> exists j | 0 <= j < k :: Waiting(l[j], now))
    ensures var t := Step(s, CheckSpu(arrival, now));
            s.calls <= t.calls && Kept(Looked(s, arrival, now)[k], t.showing, t.calls[|s.calls|..])
  {
    hide Arrive, SkipExpired, PresentFront, ThrowFar, Waiting, Misfires, Faded, Kept, Settle;
    var u := if arrival.New? then s.(showing := Arrive(s.showing, arrival.item, now)) else s;
    if arrival.New? {
      ArriveWords(s.showing, arrival.item, now);
    }
    SkipWords(u.showing, now);
    var l := Looked(s, arrival, now);
    FrontKept(u.(showing := l), now, k);
    var v := Present(u, now);
    FadeMore(v, now, s.calls, l[k]);
  }

  lemma FadeMore(v: State, now: nat, before: seq<Call>, x: Item)
    requires before <= v.calls && Kept(x, v.showing, v.calls[|before|..])
    ensures before <= Fade(v, now).calls && Kept(x, Fade(v, now).showing, Fade(v, now).calls[|before|..])
  {
    hide Faded, Serials;
    var f := Fade(v, now);
    var old', new' := v.calls[|before|..], f.calls[|before|..];
    assert forall k | 0 <= k < |old'| :: new'[k] == old'[k];
    if HandedIn(old', x.serial) {
      var k :| 0 <= k < |old'| && (old'[k].Show? || old'[k].Hide?) && old'[k].item.serial == x.serial;
      assert new'[k] == old'[k];
    } else if CombinedIn(old', x) {
      var k, text :| 0 <= k < |old'| && Below(old'[k], text, x) && old'[k].Show?;
      assert new'[k] == old'[k] && Below(new'[k], text, x);
    }
  }

  // ---- What it throws out -------------------------------------------------------------------

  lemma {:induction false} ThrownAway(l: seq<Item>, now: nat, serial: nat)
    requires forall j | 0 <= j < |l| && l[j].serial == serial :: TooFar(l[j], now)
    ensures serial !in Serials(ThrowFar(l, now))
  {
    hide TooFar;
    if l != [] {
      ThrownAway(l[1..], now, serial);
      var t := ThrowFar(l[1..], now);
      if !TooFar(l[0], now) {
        SerialsCons(l[0], t);
      } else {
        assert [] + t == t;
      }
    }
  }

  lemma SerialsCons(i: Item, l: seq<Item>)
    ensures Serials([i] + l) == {i.serial} + Serials(l)
  {
    var m := [i] + l;
    forall x | x in {i.serial} + Serials(l)
      ensures x in Serials(m)
    {
      if x == i.serial {
        assert m[0].serial == x;
      } else {
        var k :| 0 <= k < |l| && l[k].serial == x;
        assert m[k + 1] == l[k];
      }
    }
  }

  /** An item that may not wait, whose number no other item has, is not in the queue after the message. */
  lemma FarGone(s: State, arrival: Arrival, now: nat, k: nat)
    requires Words(s.showing) && MessageOk(CheckSpu(arrival, now))
    requires var l := Looked(s, arrival, now);
             && k < |l| && !Waiting(l[k], now) && forall j | 0 <= j < |l| && j != k :: l[j].serial != l[k].serial
    ensures Looked(s, arrival, now)[k].serial !in Serials(Step(s, CheckSpu(arrival, now)).showing)
  {
    hide Arrive, SkipExpired, ThrowFar, Waiting, Faded, Due, Prepare, TooFar, Settle, Serials, FixFading;
    var u := if arrival.New? then s.(showing := Arrive(s.showing, arrival.item, now)) else s;
    if arrival.New? {
      ArriveWords(s.showing, arrival.item, now);
    }
    SkipWords(u.showing, now);
    var l := Looked(s, arrival, now);
    FarLiterals(l, now);
    var serial := l[k].serial;
    ThrownAway(l, now, serial);
    var t := ThrowFar(l, now);
    if t != [] {
      var i := Prepare(l[0], now);
      PrepareWords(l[0], now);
      var t' := if TooFar(l[0], now) then t else t[0 := i];
      if !TooFar(l[0], now) {
        ThrowFront(l, now);
      }
      assert Serials(t') == Serials(t) by { SameSerials(t, t'); }
      SuffixSerials(t', 1);
      if |t'| > 1 {
        SuffixSerials(t', 2);
        assert t'[1..][1..] == t'[2..];
      }
    }
  }

  /** The first item that may wait behind a front that misfires is lost: it leaves the queue and the renderer never
      hears of it. */
  lemma MisfireLoses(s: State, arrival: Arrival, now: nat, k: nat)
    requires Words(s.showing) && MessageOk(CheckSpu(arrival, now))
    requires var l := Looked(s, arrival, now);
             && Misfires(l, now) && k < |l| && Waiting(l[k], now) && (forall j | 0 <= j < k :: !Waiting(l[j], now))
             && (forall j | 0 <= j < |l| && j != k :: l[j].serial != l[k].serial)
             && l[k].serial !in Serials(s.fading)
    ensures var t, serial := Step(s, CheckSpu(arrival, now)), Looked(s, arrival, now)[k].serial;
            && serial !in Serials(t.showing)
            && s.calls <= t.calls && !HandedIn(t.calls[|s.calls|..], serial)
  {
    hide Arrive, SkipExpired, ThrowFar, Waiting, Faded, Due, Prepare, TooFar, Settle, Serials, FixFading, Misfires;
    var u := if arrival.New? then s.(showing := Arrive(s.showing, arrival.item, now)) else s;
    if arrival.New? {
      ArriveWords(s.showing, arrival.item, now);
    }
    SkipWords(u.showing, now);
    var l := Looked(s, arrival, now);
    var serial := l[k].serial;
    FarLiterals(l, now);
    assert !Waiting(l[0], now) by { MisfireFar(l, now); }
    ThrownFront(l, now);
    var p := ThrowIndex(l, now, k);
    var t := ThrowFar(l, now);
    var i := Prepare(l[0], now);
    PrepareWords(l[0], now);
    NoOther(l, now, k);
    var v := ShowItem(u.(showing := t), i, now);
    assert Present(u, now) == v;
    if |t| > 1 {
      SuffixSerials(t[1..], 1);
    }
    assert serial !in Serials(v.showing);
    var j := TakeFront(i, t[1..]).0;
    var removed := if s.fading == [] then [] else [Remove(s.fading[0])];
    assert v.calls == s.calls + ([Handover(j, now)] + removed);
    FixFadingSerial(j, now);
    HeadSerial(s.fading);
    var left := if s.fading == [] then [] else s.fading[1..];
    HeadSerial(left + [FixFading(j, now)]);
    if s.fading != [] {
      SuffixSerials(s.fading, 1);
      HeadSerial(s.fading[1..]);
    }
  }

  /** A caption six years ahead waits at clock 0. Fourteen hours later, when an external item for immediate display
      comes, it misfires and that item is lost. */
  lemma MisfireWitness()
    ensures var x := Item(0, 18_446_744_083_710, 360_000, 0, false, false, false, false, true, Data([65]));
            var y := Item(1, 18_446_744_083_710, 0, 0, false, true, true, false, false, Data([66]));
            var s := Run(START, [CheckSpu(New(x), 0)]);
            var t := Step(s, CheckSpu(New(y), 50_400_000_000_000));
            && 1 !in Serials(t.showing)
            && s.calls <= t.calls && !HandedIn(t.calls[|s.calls|..], 1)
  {
    hide Step, Run, Misfires, Waiting, Looked, HandedIn, Serials;
    var x := Item(0, 18_446_744_083_710, 360_000, 0, false, false, false, false, true, Data([65]));
    var y := Item(1, 18_446_744_083_710, 0, 0, false, true, true, false, false, Data([66]));
    var now := 50_400_000_000_000;
    var s1 := State([x.(delay := 360_000)], [], []);
    FirstWaits(x);
    assert Run(START, [CheckSpu(New(x), 0)]) == Step(START, CheckSpu(New(x), 0)) by {
      RunOne(CheckSpu(New(x), 0));
    }
    SecondQueue(x, y);
    assert 1 !in Serials([]) by { NoSerials(1); }
    MisfireLoses(s1, New(y), now, 1);
  }

  lemma NoSerials(n: nat)
    ensures n !in Serials([])
  {
  }

  lemma RunOne(m: Message)
    ensures Run(START, [m]) == Step(START, m)
  {
    hide Step;
    assert [m][..0] == [];
    assert Run(START, []) == START;
  }

  lemma OverflowOf(pts: int)
    requires pts == 18_446_744_083_710
    ensures Wrap64(pts * 1_000_000) == 10_000_448_384 && Dvb2Ns(pts) == 111_116_093
  {
    ModUnique(pts * 1_000_000, TWO64, 1, 10_000_448_384);
  }

  lemma FirstWaits(x: Item)
    requires x == Item(0, 18_446_744_083_710, 360_000, 0, false, false, false, false, true, Data([65]))
    ensures Step(START, CheckSpu(New(x), 0)) == State([x], [], [])
  {
    hide Dvb2Ns, Ns2Dvb, SortByPts, ThrowFar, SkipExpired, Due, TooFar;
    OverflowOf(x.pts);
    WholeMillis(0);
    assert Settle(x, 0) == x by { U64Signed(111_116_093); }
    SortOne(x);
    assert [] + [x] == [x];
    assert Arrive([], x, 0) == [x] by { assert TotalSize([x]) == 0; }
    assert Waiting(x, 0);
    TooFarExactly(x, 0);
    assert ThrowFar([x], 0) == [x] by { ThrowExactly([], [], x, 0); }
    assert SkipExpired([x], 0) == [x] by { SkipNone(x, 0); }
    assert Prepare(x, 0) == x by { PrepareExactly(x, 0); }
    DueExactly(x, 0);
    assert [x][0 := x] == [x];
  }

  lemma SkipNone(x: Item, now: nat)
    requires !x.external
    ensures forall l: seq<Item> | l != [] && l[0] == x :: SkipExpired(l, now) == l
  {
  }

  lemma SortOne(x: Item)
    ensures SortByPts([x]) == [x]
  {
    assert [x][..0] == [] && [] + [x] == [x];
    assert SortByPts([]) == [];
  }

  lemma SecondQueue(x: Item, y: Item)
    requires x == Item(0, 18_446_744_083_710, 360_000, 0, false, false, false, false, true, Data([65]))
    requires y == Item(1, 18_446_744_083_710, 0, 0, false, true, true, false, false, Data([66]))
    ensures var l := Looked(State([x], [], []), New(y), 50_400_000_000_000);
            l == [x, y] && Misfires(l, 50_400_000_000_000) && Waiting(y, 50_400_000_000_000)
            && !Waiting(x, 50_400_000_000_000)
  {
    hide Dvb2Ns, Ns2Dvb;
    var now := 50_400_000_000_000;
    OverflowOf(x.pts);
    assert Settle(y, now) == y;
    SortOne(x);
    assert [x] + [y] == [x, y] && [x, y][..1] == [x];
    assert SortByPts([x, y]) == [x, y];
    TotalExactly([x], [y], x);
    TotalExactly([y], [], y);
    assert Arrive([x], y, now) == [x, y];
    SkipNone(x, now);
  }

  lemma MisfireFar(l: seq<Item>, now: nat)
    requires Misfires(l, now)
    ensures !Waiting(l[0], now)
  {
  }

  lemma HeadSerial(l: seq<Item>)
    ensures l != [] ==> l[0].serial in Serials(l)
  {
  }

  /** No item behind the first one that is left has its number. */
  lemma {:induction false} NoOther(l: seq<Item>, now: nat, k: nat)
    requires k < |l| && !TooFar(l[k], now) && forall j | 0 <= j < k :: TooFar(l[j], now)
    requires forall j | 0 <= j < |l| && j != k :: l[j].serial != l[k].serial
    ensures ThrowFar(l, now) != [] && ThrowFar(l, now)[0] == l[k]
    ensures l[k].serial !in Serials(ThrowFar(l, now)[1..])
  {
    hide TooFar, Serials;
    if k == 0 {
      var t := ThrowFar(l[1..], now);
      assert ThrowFar(l, now) == [l[0]] + t && ([l[0]] + t)[1..] == t;
      NotThrownIn(l[1..], now, l[0].serial);
    } else {
      NoOther(l[1..], now, k - 1);
      assert [] + ThrowFar(l[1..], now) == ThrowFar(l[1..], now);
    }
  }

  lemma {:induction false} NotThrownIn(l: seq<Item>, now: nat, serial: nat)
    requires forall j | 0 <= j < |l| :: l[j].serial != serial
    ensures serial !in Serials(ThrowFar(l, now))
  {
    hide TooFar;
    forall p | 0 <= p < |ThrowFar(l, now)|
      ensures ThrowFar(l, now)[p].serial != serial
    {
      var k := ThrownFrom(l, now, p);
    }
  }

  lemma SameSerials(a: seq<Item>, b: seq<Item>)
    requires |a| == |b| && forall j | 0 <= j < |a| :: a[j].serial == b[j].serial
    ensures Serials(a) == Serials(b)
  {
  }

  lemma SuffixSerials(l: seq<Item>, k: nat)
    requires k <= |l|
    ensures Serials(l[k..]) <= Serials(l)
  {
  }

  // ---- What it shows ------------------------------------------------------------------------

  /** The next item behind the front that may wait. */
  ghost predicate NextWaiting(l: seq<Item>, now: nat, j: int) {
    0 < j < |l| && Waiting(l[j], now) && forall k | 0 < k < j :: !Waiting(l[k], now)
  }

  /** That item's text joins the front's: the front is plain text, not external and not for immediate display, and
      both have one time. */
  ghost predicate Joined(x: Item, pts: int, l: seq<Item>, now: nat, j: int) {
    NextWaiting(l, now, j) && x.simple && !x.external && !x.immediate && l[j].pts == pts
  }

  /** The first new call shows the front as it should be, and the next removes the item that was fading. */
  ghost predicate Replaces(s: State, calls: seq<Call>, l: seq<Item>, now: nat) {
    && l != [] && s.calls < calls && ShownAs(calls[|s.calls|], l[0], l, now)
    && (s.fading != [] ==> |calls| >= |s.calls| + 2 && calls[|s.calls| + 1] == Remove(s.fading[0]))
  }

  /** The item that is shown and the text it is shown with: its own and below it the one that joins it, if one does. */
  ghost predicate ShownAs(c: Call, x: Item, l: seq<Item>, now: nat) {
    && (c.Show? || c.Hide?) && c.item.serial == x.serial
    && (c.Show? <==> c.item.data.Data?) && (c.Show? ==> c.at == now)
    && (forall j | Joined(x, c.item.pts, l, now, j) ::
          && c.item.data == Data(TextOf(x.data) + [10] + TextOf(l[j].data))
          && c.item.size == x.size + l[j].size + 2)
    && ((forall j :: !Joined(x, c.item.pts, l, now, j)) ==> c.item.data == x.data && c.item.size == x.size)
  }

  lemma {:induction false} ThrownFrom(l: seq<Item>, now: nat, p: nat) returns (k: nat)
    requires p < |ThrowFar(l, now)|
    ensures p <= k < |l| && l[k] == ThrowFar(l, now)[p] && !TooFar(l[k], now)
    ensures p == 0 ==> forall j | 0 <= j < k :: TooFar(l[j], now)
    decreases |l|
  {
    hide TooFar;
    if !TooFar(l[0], now) {
      if p == 0 {
        k := 0;
      } else {
        var k' := ThrownFrom(l[1..], now, p - 1);
        k := k' + 1;
      }
    } else {
      assert [] + ThrowFar(l[1..], now) == ThrowFar(l[1..], now);
      var k' := ThrownFrom(l[1..], now, p);
      k := k' + 1;
    }
  }

  /** A front item that is at most 33 milliseconds ahead is due, unless it has no time and the clock cannot be
      converted to 90 kHz and back. */
  lemma FrontDue(x: Item, now: nat)
    requires now <= CLOCK_LIMIT && Int64(x.pts) && Int64(x.delay)
    requires x.immediate || (Held(x.pts) && Nanos(x.pts) <= now + 33_000_000)
    requires x.immediate || x.pts >= 90 || now * 90 < 0x8000_0000_0000_0000
    ensures Waiting(x, now) && Due(Prepare(x, now), now)
  {
    hide Due, Ns2Dvb, Dvb2Ns, U64;
    var p := Prepare(x, now);
    WholeMillis(now);
    if x.immediate {
      PrepareKinds(x, now);
      ImmediateIsDue(p, now);
    } else if x.pts < 90 {
      NoPtsIsDue(x, now);
    } else {
      PrepareWords(x, now);
      assert 0 <= p.pts <= x.pts;
      HeldExact(p.pts);
      assert p.pts * 1_000_000 <= x.pts * 1_000_000;
      DueExactly(p, now);
    }
  }

  lemma ShowText(s: State, i: Item, x: Item, l: seq<Item>, now: nat)
    requires s.showing != [] && i.serial == x.serial && i.data == x.data && i.size == x.size
    requires i.simple == x.simple && i.external == x.external && i.immediate == x.immediate
    requires if |s.showing| > 1 then exists j :: NextWaiting(l, now, j) && l[j] == s.showing[1]
             else forall j :: !NextWaiting(l, now, j)
    ensures var t := ShowItem(s, i, now);
            && s.calls < t.calls && ShownAs(t.calls[|s.calls|], x, l, now)
            && (s.fading != [] ==> |t.calls| >= |s.calls| + 2 && t.calls[|s.calls| + 1] == Remove(s.fading[0]))
  {
    hide FixFading;
    var rest := s.showing[1..];
    var j := TakeFront(i, rest).0;
    var t := ShowItem(s, i, now);
    var removed := if s.fading == [] then [] else [Remove(s.fading[0])];
    assert t.calls == s.calls + ([Handover(j, now)] + removed);
    assert t.calls[|s.calls|] == Handover(j, now);
    if rest != [] {
      var m :| NextWaiting(l, now, m) && l[m] == s.showing[1];
      assert rest[0] == l[m];
      assert forall k | NextWaiting(l, now, k) :: k == m by { OneNext(l, now, m); }
      if Combines(i, rest[0]) {
        assert Joined(x, j.pts, l, now, m);
      }
    }
  }

  lemma OneNext(l: seq<Item>, now: nat, m: int)
    requires NextWaiting(l, now, m)
    ensures forall k | NextWaiting(l, now, k) :: k == m
  {
    hide Waiting;
  }

  /** Behind a front that stays, the next item of the filtered list is the next that may wait. */
  lemma NextLeft(l: seq<Item>, now: nat)
    requires Words(l) && now <= CLOCK_LIMIT && l != [] && !TooFar(l[0], now)
    ensures var t := ThrowFar(l, now);
            && t != []
            && if |t| > 1 then exists j :: NextWaiting(l, now, j) && l[j] == t[1]
               else forall j :: !NextWaiting(l, now, j)
  {
    hide TooFar, Waiting;
    FarLiterals(l, now);
    var t := ThrowFar(l[1..], now);
    assert ThrowFar(l, now) == [l[0]] + t;
    if t != [] {
      var k := ThrownFrom(l[1..], now, 0);
      assert l[1..][k] == l[k + 1];
      forall j | 0 < j < k + 1
        ensures !Waiting(l[j], now)
      {
        assert l[1..][j - 1] == l[j];
      }
      assert NextWaiting(l, now, k + 1);
    } else {
      forall j | NextWaiting(l, now, j)
        ensures false
      {
        assert l[1..][j - 1] == l[j];
        var p := ThrowIndex(l[1..], now, j - 1);
      }
    }
  }

  lemma FrontHanded(s: State, now: nat)
    requires Words(s.showing) && s.showing != [] && now <= CLOCK_LIMIT
    requires Waiting(s.showing[0], now) && Due(Prepare(s.showing[0], now), now)
    ensures var t := PresentFront(s, now);
            Replaces(s, t.calls, s.showing, now)
  {
    hide Due, Prepare, ShowItem, TooFar, ThrowFar, Waiting, ShownAs, NextWaiting;
    var front, l := s.showing[0], ThrowFar(s.showing, now);
    TooFarExactly(front, now);
    ThrowFront(s.showing, now);
    var i := Prepare(front, now);
    PrepareWords(front, now);
    PrepareKinds(front, now);
    var l' := l[0 := i];
    NextLeft(s.showing, now);
    ShowText(s.(showing := l'), i, front, s.showing, now);
  }

  /** Main result: a front item for immediate display, or whose time is at most 33 milliseconds ahead, is handed to
      the renderer by the message that finds it, with its own text or one more below it. */
  lemma FrontShown(s: State, arrival: Arrival, now: nat)
    requires Words(s.showing) && MessageOk(CheckSpu(arrival, now))
    requires var l := Looked(s, arrival, now);
             && l != []
             && (l[0].immediate || (Held(l[0].pts) && Nanos(l[0].pts) <= now + 33_000_000))
             && (l[0].immediate || l[0].pts >= 90 || now * 90 < 0x8000_0000_0000_0000)
    ensures var t := Step(s, CheckSpu(arrival, now));
            Replaces(s, t.calls, Looked(s, arrival, now), now)
  {
    hide Arrive, SkipExpired, PresentFront, ThrowFar, Waiting, Faded, ShownAs, Settle, Due, Prepare;
    var u := if arrival.New? then s.(showing := Arrive(s.showing, arrival.item, now)) else s;
    if arrival.New? {
      ArriveWords(s.showing, arrival.item, now);
    }
    SkipWords(u.showing, now);
    var l := Looked(s, arrival, now);
    FrontDue(l[0], now);
    FrontHanded(u.(showing := l), now);
    assert s.calls < Present(u, now).calls <= Fade(Present(u, now), now).calls;
  }

  lemma {:induction false} ThrowsAll(l: seq<Item>, now: nat)
    ensures ThrowFar(l, now) == [] <==> forall j | 0 <= j < |l| :: TooFar(l[j], now)
  {
    hide TooFar;
    if l != [] {
      ThrowsAll(l[1..], now);
      assert forall j | 0 <= j < |l| :: TooFar(l[j], now) <==> if j == 0 then TooFar(l[0], now)
                                                               else TooFar(l[1..][j - 1], now);
    }
  }

  /** A message that finds items in the queue and none that may wait empties it and leaves the fading item alone;
      every other looks at the fading item last. */
  lemma EmptiedEnds(s: State, arrival: Arrival, now: nat)
    requires Words(s.showing) && MessageOk(CheckSpu(arrival, now))
    ensures var u := if arrival.New? then s.(showing := Arrive(s.showing, arrival.item, now)) else s;
            var l := Looked(s, arrival, now);
            Step(s, CheckSpu(arrival, now)) ==
            if u.showing != [] && forall j | 0 <= j < |l| :: !Waiting(l[j], now) then State([], s.fading, s.calls)
            else Fade(Present(u, now), now)
  {
    hide Arrive, SkipExpired, ThrowFar, Waiting, Fade, Settle, TooFar, Prepare, ShowItem;
    var u := if arrival.New? then s.(showing := Arrive(s.showing, arrival.item, now)) else s;
    if arrival.New? {
      ArriveWords(s.showing, arrival.item, now);
    }
    SkipWords(u.showing, now);
    var l := Looked(s, arrival, now);
    FarLiterals(l, now);
    ThrowsAll(l, now);
  }
}
