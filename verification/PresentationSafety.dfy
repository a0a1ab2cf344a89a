/** What holds over every run of the presentation's messages: at most one item fading, nothing on screen that
    is not waiting to fade, nothing shown twice, nothing shown before its time. */
module PresentationSafety {
  import opened Bytes
  import opened PresentationSpecs

  /** Clocks are non-negative and leave room for the tolerance. */
  const CLOCK_LIMIT := 0x7FFF_FFFF_FFFF_FFFF - SECOND

  predicate Int64(x: int) {
    -0x8000_0000_0000_0000 <= x < 0x8000_0000_0000_0000
  }

  // ---- The stable sort ----------------------------------------------------------------------

  predicate Sorted(l: seq<Item>) {
    forall i, j | 0 <= i < j < |l| :: l[i].pts <= l[j].pts
  }

  function WithPts(l: seq<Item>, p: int): seq<Item> {
    if l == [] then []
    else WithPts(l[..|l| - 1], p) + (if l[|l| - 1].pts == p then [l[|l| - 1]] else [])
  }

  predicate AtMost(l: seq<Item>, p: int) {
    forall i | 0 <= i < |l| :: l[i].pts <= p
  }

  lemma SortedSnoc(l: seq<Item>, last: Item)
    requires Sorted(l) && AtMost(l, last.pts)
    ensures Sorted(l + [last])
  {
  }

  lemma SortedInit(l: seq<Item>)
    requires Sorted(l) && l != []
    ensures Sorted(l[..|l| - 1]) && AtMost(l, l[|l| - 1].pts) && l == l[..|l| - 1] + [l[|l| - 1]]
  {
  }

  lemma {:induction false} InsertAtMost(l: seq<Item>, i: Item, p: int)
    requires AtMost(l, p) && i.pts <= p
    ensures AtMost(InsertByPts(l, i), p)
    decreases |l|
  {
    if l != [] && l[|l| - 1].pts > i.pts {
      InsertAtMost(l[..|l| - 1], i, p);
    }
  }

  lemma {:induction false} InsertSorts(l: seq<Item>, i: Item)
    requires Sorted(l)
    ensures Sorted(InsertByPts(l, i))
    ensures multiset(InsertByPts(l, i)) == multiset(l) + multiset{i}
    decreases |l|
  {
    hide Sorted, AtMost;
    if l == [] || l[|l| - 1].pts <= i.pts {
      if l != [] {
        SortedInit(l);
        AtMostMore(l, l[|l| - 1].pts, i.pts);
      } else {
        AtMostMore(l, i.pts, i.pts);
      }
      SortedSnoc(l, i);
    } else {
      var init, last := l[..|l| - 1], l[|l| - 1];
      SortedInit(l);
      InsertSorts(init, i);
      AtMostInit(l, last.pts);
      InsertAtMost(init, i, last.pts);
      SortedSnoc(InsertByPts(init, i), last);
    }
  }

  lemma AtMostMore(l: seq<Item>, p: int, q: int)
    requires (l == [] || AtMost(l, p)) && p <= q
    ensures AtMost(l, q)
  {
  }

  lemma AtMostInit(l: seq<Item>, p: int)
    requires AtMost(l, p) && l != []
    ensures AtMost(l[..|l| - 1], p)
  {
  }

  lemma {:induction false} InsertStable(l: seq<Item>, i: Item, p: int)
    requires Sorted(l)
    ensures WithPts(InsertByPts(l, i), p) == WithPts(l + [i], p)
    decreases |l|
  {
    assert (l + [i])[..|l|] == l;
    if l != [] && l[|l| - 1].pts > i.pts {
      var init, last := l[..|l| - 1], l[|l| - 1];
      InsertStable(init, i, p);
      assert (init + [i])[..|init|] == init;
      var r := InsertByPts(init, i);
      assert (r + [last])[..|r|] == r;
    }
  }

  /** list::sort: sorted, a permutation, and items of equal pts stay in order. */
  lemma {:induction false} SortIsStable(l: seq<Item>, p: int)
    ensures Sorted(SortByPts(l)) && multiset(SortByPts(l)) == multiset(l)
    ensures WithPts(SortByPts(l), p) == WithPts(l, p)
    decreases |l|
  {
    hide Sorted, InsertByPts;
    if l == [] {
      assert Sorted([]) by { SortedEmpty(); }
    } else {
      var init, last := l[..|l| - 1], l[|l| - 1];
      SortIsStable(init, p);
      var m := SortByPts(init);
      InsertSorts(m, last);
      InsertStable(m, last, p);
      assert l == init + [last];
      assert (m + [last])[..|m|] == m;
    }
  }

  lemma SortedEmpty()
    ensures Sorted([])
  {
  }

  // ---- The time test ------------------------------------------------------------------------

  lemma Dvb2NsRange(pts: int)
    ensures -0x200_0000_0000_0000 < Dvb2Ns(pts) < 0x200_0000_0000_0000
  {
  }

  /** What the unsigned comparison decides, in signed terms. */
  lemma DueExactly(i: Item, now: nat)
    requires now <= CLOCK_LIMIT && !i.immediate
    ensures var c := Dvb2Ns(i.pts);
            Due(i, now) <==> c <= now + 33_000_000 && (c >= 0 || now + 33_000_000 - c <= 2_000_000_000)
  {
    hide Dvb2Ns;
    Dvb2NsRange(i.pts);
    var c := Dvb2Ns(i.pts);
    var t := now + TOLERANCE;
    U64Signed(c);
    U64Signed(t);
    if c >= 0 {
      U64Signed(t - c);
    } else {
      U64Shift(t - c);
    }
  }

  lemma U64Signed(x: int)
    requires Int64(x)
    ensures U64(x) == if x >= 0 then x else x + TWO64
  {
    if x < 0 {
      ModUnique(x, TWO64, -1, x + TWO64);
    }
  }

  /** Taking the wrapped negative time away adds it back. */
  lemma U64Shift(d: int)
    requires 0 <= d < TWO64
    ensures U64(d - TWO64) == d
  {
    ModUnique(d - TWO64, TWO64, -1, d);
  }

  /** Whole nanoseconds of a pts that the 64-bit product can hold. */
  lemma Dvb2NsExact(pts: int)
    requires 0 <= pts && pts * MILLI < 0x8000_0000_0000_0000
    ensures Dvb2Ns(pts) == pts * MILLI / DVB
  {
  }

  /** The item's time in nanoseconds lies beyond the clock and the tolerance. */
  predicate Early(i: Item, now: nat) {
    i.pts * MILLI / DVB > now + TOLERANCE
  }

  /** An item whose pts the conversion can hold is never shown early. */
  lemma NeverEarly(i: Item, now: nat)
    requires now <= CLOCK_LIMIT && !i.immediate
    requires 0 <= i.pts && i.pts * MILLI < 0x8000_0000_0000_0000
    ensures Due(i, now) ==> !Early(i, now)
  {
    hide Due, Dvb2Ns;
    DueExactly(i, now);
    Dvb2NsExact(i.pts);
  }

  /** An overflowing product comes out more than six years too small. */
  lemma OverflowIsLater(x: int)
    requires x >= 0x8000_0000_0000_0000
    ensures x / DVB >= Quot(Wrap64(x), DVB) + TWO64 / DVB - 1
  {
    var q := x / TWO64;
    assert x == q * TWO64 + x % TWO64;
    if q >= 1 {
      assert q * TWO64 >= TWO64;
    }
    assert x - Wrap64(x) >= TWO64;
  }

  /** To 90 kHz and back loses less than a millisecond, while the time in 90 kHz can be converted back. */
  lemma ClockRoundTrip(ns: nat)
    requires Int64(ns) && ns / MILLI * DVB * MILLI < 0x8000_0000_0000_0000
    ensures Ns2Dvb(ns) == ns / MILLI * DVB && Dvb2Ns(Ns2Dvb(ns)) == ns - ns % MILLI
  {
    var q := ns / MILLI;
    assert q * DVB * MILLI == q * MILLI * DVB;
    ModUnique(q * DVB * MILLI, DVB, q * MILLI, 0);
  }

  /** A clock beyond that comes back smaller by the whole overflow. */
  lemma ClockOverflow(ns: nat)
    requires Int64(ns) && ns / MILLI * DVB * MILLI >= 0x8000_0000_0000_0000
    ensures Ns2Dvb(ns) == ns / MILLI * DVB && Dvb2Ns(Ns2Dvb(ns)) <= ns - TWO64 / DVB + 1
    ensures ns * DVB >= 0x8000_0000_0000_0000
  {
    hide Quot, Wrap64;
    var q := ns / MILLI;
    WholeMillis(ns);
    OverflowIsLater(q * DVB * MILLI);
    assert q * DVB * MILLI == q * MILLI * DVB;
    ModUnique(q * MILLI * DVB, DVB, q * MILLI, 0);
    assert q * MILLI <= ns;
  }

  lemma WholeMillis(ns: nat)
    requires Int64(ns)
    ensures Ns2Dvb(ns) == ns / MILLI * DVB
  {
  }

  /** An item that comes without a time is due as soon as it is looked at, unless it waits for a clock that
      the conversions turn negative. */
  lemma NoPtsIsDue(i: Item, now: nat)
    requires now <= CLOCK_LIMIT && Quot(i.pts, DVB) <= 0
    ensures Due(Prepare(i, now), now) <==> i.immediate || Dvb2Ns(Ns2Dvb(now)) >= 0
    ensures now * DVB < 0x8000_0000_0000_0000 ==> Due(Prepare(i, now), now)
  {
    hide Due, Dvb2Ns, Ns2Dvb, IsMore32Bit;
    var p := Prepare(i, now);
    if !i.immediate {
      assert p.pts == Ns2Dvb(now);
      if now / MILLI * DVB * MILLI < 0x8000_0000_0000_0000 {
        ClockRoundTrip(now);
      } else {
        ClockOverflow(now);
        Dvb2NsRange(p.pts);
      }
      DueExactly(p, now);
    } else {
      assert Due(p, now) by { ImmediateIsDue(p, now); }
    }
  }

  lemma ImmediateIsDue(i: Item, now: nat)
    requires i.immediate
    ensures Due(i, now)
  {
  }

  /** A new item 200 seconds or more from the clock, if it is not external, is brought closer exactly while the
      clock a second later can be converted to 90 kHz and back. */
  lemma SettledNearby(i: Item, now: nat)
    requires now <= CLOCK_LIMIT && !i.external && Distance(U64(Dvb2Ns(i.pts)), now) >= FAR_AHEAD
    ensures Distance(U64(Dvb2Ns(Settle(i, now).pts)), now) < FAR_AHEAD <==>
            (now + SECOND) / MILLI * DVB * MILLI < 0x8000_0000_0000_0000
  {
    hide Dvb2Ns, Ns2Dvb;
    var later := now + SECOND;
    var d := Dvb2Ns(Ns2Dvb(later));
    Dvb2NsRange(Ns2Dvb(later));
    U64Signed(d);
    if later / MILLI * DVB * MILLI < 0x8000_0000_0000_0000 {
      ClockRoundTrip(later);
    } else {
      ClockOverflow(later);
    }
  }

  /** What the unsigned fading test decides, in signed terms: while the clock is not 0, an item fades once
      its end is reached, or while it lies too far ahead. */
  lemma FadedExactly(i: Item, now: nat)
    requires now <= CLOCK_LIMIT
    ensures var d := Dvb2Ns(i.delay);
            Faded(i, now) <==> now != 0 && (d <= now || d - now > (if i.external then 5 else 100) * SECOND)
  {
    hide Dvb2Ns;
    var d := Dvb2Ns(i.delay);
    Dvb2NsRange(i.delay);
    U64Signed(d);
    if d >= 0 {
      U64Signed(d - now);
      U64Small(d * 5);
    } else {
      U64Small(d + TWO64 - now);
    }
  }

  lemma U64Small(x: nat)
    requires x < TWO64
    ensures U64(x) == x
  {
  }

  // ---- Safety over runs ---------------------------------------------------------------------

  /** Who is on the screen after these calls. */
  function OnScreen(calls: seq<Call>): set<nat> {
    if calls == [] then {}
    else
      var before := OnScreen(calls[..|calls| - 1]);
      match calls[|calls| - 1]
      case Show(i, _) => before + {i.serial}
      case Hide(i) => before - {i.serial}
      case Remove(i) => before - {i.serial}
      case Reset => {}
  }

  function Serials(l: seq<Item>): set<nat> {
    set i | 0 <= i < |l| :: l[i].serial
  }

  /** The renderer has been handed the item of that number. */
  predicate Handed(calls: seq<Call>, serial: nat) {
    exists k | 0 <= k < |calls| ::
      (calls[k].Show? && calls[k].item.serial == serial) || (calls[k].Hide? && calls[k].item.serial == serial)
  }

  /** The clock is positive and has no more than 32 bits in 90 kHz: the times of items are cut to 32 bits too. */
  predicate Narrow(now: nat) {
    0 < Ns2Dvb(now) < TWO32
  }

  /** Every item shown was immediate, or its converted time, after correction, had been reached. That is its
      time in nanoseconds if the conversion holds it, and so it is against every narrow clock. */
  predicate OnTime(c: Call) {
    c.Show? && !c.item.immediate ==>
      && 0 <= c.item.pts && Int64(c.item.pts) && Dvb2Ns(c.item.pts) <= c.at + TOLERANCE
      && (Narrow(c.at) || c.item.pts * MILLI < 0x8000_0000_0000_0000 ==> !Early(c.item, c.at))
  }

  predicate AllOnTime(calls: seq<Call>) {
    forall k | 0 <= k < |calls| :: OnTime(calls[k])
  }

  predicate Words(l: seq<Item>) {
    forall i | 0 <= i < |l| :: Int64(l[i].pts) && Int64(l[i].delay)
  }

  ghost predicate Inv(s: State) {
    && |s.fading| <= 1
    && (forall i | 0 <= i < |s.fading| :: Handed(s.calls, s.fading[i].serial))
    && OnScreen(s.calls) <= Serials(s.fading)
    && AllOnTime(s.calls)
    && Words(s.showing)
  }

  predicate MessageOk(m: Message) {
    m.CheckSpu? ==>
      m.now <= CLOCK_LIMIT && (m.arrival.New? ==> Int64(m.arrival.item.pts) && Int64(m.arrival.item.delay))
  }

  lemma {:induction false} OnScreenSnoc(calls: seq<Call>, c: Call)
    ensures OnScreen(calls + [c]) ==
            (match c
             case Show(i, _) => OnScreen(calls) + {i.serial}
             case Hide(i) => OnScreen(calls) - {i.serial}
             case Remove(i) => OnScreen(calls) - {i.serial}
             case Reset => {})
  {
    assert (calls + [c])[..|calls|] == calls;
  }

  lemma HandedMore(calls: seq<Call>, more: seq<Call>, serial: nat)
    requires Handed(calls, serial)
    ensures Handed(calls + more, serial)
  {
    var k :| 0 <= k < |calls| &&
      ((calls[k].Show? && calls[k].item.serial == serial) || (calls[k].Hide? && calls[k].item.serial == serial));
    assert (calls + more)[k] == calls[k];
  }

  lemma OnTimeMore(calls: seq<Call>, c: Call)
    requires AllOnTime(calls) && OnTime(c)
    ensures AllOnTime(calls + [c])
  {
  }

  // ---- Each part of a message ---------------------------------------------------------------

  lemma {:induction false} SortWords(l: seq<Item>)
    requires Words(l)
    ensures Words(SortByPts(l))
  {
    SortIsStable(l, 0);
    forall i | 0 <= i < |SortByPts(l)|
      ensures Int64(SortByPts(l)[i].pts) && Int64(SortByPts(l)[i].delay)
    {
      assert SortByPts(l)[i] in multiset(SortByPts(l));
      assert SortByPts(l)[i] in multiset(l);
    }
  }

  lemma ArriveWords(l: seq<Item>, i0: Item, now: nat)
    requires Words(l) && Int64(i0.pts) && Int64(i0.delay)
    ensures Words(Arrive(l, i0, now))
  {
    hide SortByPts, TotalSize, Distance, Dvb2Ns, Ns2Dvb;
    var i := Settle(i0, now);
    assert Int64(i.pts) && Int64(i.delay) by { SettleWords(i0, now); }
    SortWords(l + [i]);
  }

  lemma SettleWords(i: Item, now: nat)
    requires Int64(i.pts) && Int64(i.delay)
    ensures Int64(Settle(i, now).pts) && Int64(Settle(i, now).delay) && Settle(i, now).serial == i.serial
  {
  }

  lemma {:induction false} SkipWords(l: seq<Item>, now: nat)
    requires Words(l)
    ensures Words(SkipExpired(l, now))
  {
    if l != [] && Expired(l[0], now) {
      SkipWords(l[1..], now);
    }
  }

  lemma {:induction false} ThrowWords(l: seq<Item>, now: nat)
    requires Words(l)
    ensures Words(ThrowFar(l, now))
    ensures l != [] && !TooFar(l[0], now) ==> ThrowFar(l, now) != [] && ThrowFar(l, now)[0] == l[0]
  {
    hide TooFar;
    if l != [] {
      ThrowWords(l[1..], now);
    }
  }

  lemma Ns2DvbRange(now: nat)
    requires now <= CLOCK_LIMIT
    ensures 0 <= Ns2Dvb(now) && Int64(Ns2Dvb(now))
  {
  }

  /** The corrections leave a non-negative pts on everything that waits for its time, and one of 32 bits against
      a narrow clock. */
  lemma PrepareWords(i: Item, now: nat)
    requires Int64(i.pts) && Int64(i.delay) && now <= CLOCK_LIMIT
    ensures var p := Prepare(i, now);
            Int64(p.pts) && Int64(p.delay) && p.serial == i.serial && p.immediate == i.immediate &&
            (!p.immediate ==> 0 <= p.pts && (Narrow(now) ==> p.pts < TWO32))
  {
    hide Ns2Dvb;
    Ns2DvbRange(now);
  }

  lemma DueIsOnTime(i: Item, now: nat)
    requires now <= CLOCK_LIMIT && Due(i, now) && Int64(i.pts)
    requires !i.immediate ==> 0 <= i.pts && (Narrow(now) ==> i.pts < TWO32)
    ensures OnTime(Show(i, now))
  {
    hide Due, Dvb2Ns, Narrow;
    if !i.immediate {
      DueExactly(i, now);
      if i.pts * MILLI < 0x8000_0000_0000_0000 {
        NeverEarly(i, now);
      }
    }
  }

  lemma ShowKeeps(s: State, i0: Item, now: nat)
    requires Inv(s) && s.showing != [] && now <= CLOCK_LIMIT
    requires Due(i0, now) && Int64(i0.pts)
    requires !i0.immediate ==> 0 <= i0.pts && (Narrow(now) ==> i0.pts < TWO32)
    ensures Inv(ShowItem(s, i0, now))
  {
    hide Due, OnScreen, Handed, OnTime, Dvb2Ns, Ns2Dvb, FixFading, Narrow;
    var (i, rest) := TakeFront(i0, s.showing[1..]);
    assert i.serial == i0.serial && i.pts == i0.pts && i.immediate == i0.immediate;
    assert FixFading(i, now).serial == i.serial by { FixFadingSerial(i, now); }
    var c := Handover(i, now);
    assert OnTime(c) by {
      SamePtsDue(i0, i, now);
      DueIsOnTime(i, now);
      HideIsOnTime(i);
    }
    OnTimeMore(s.calls, c);
    OnScreenSnoc(s.calls, c);
    assert Handed(s.calls + [c], i.serial) by { HandedLast(s.calls, i, now); }
    var calls := s.calls + [c];
    var f := FixFading(i, now);
    if s.fading != [] {
      var r := Remove(s.fading[0]);
      OnScreenSnoc(calls, r);
      assert OnTime(r) by { HideIsOnTime(s.fading[0]); }
      OnTimeMore(calls, r);
      HandedMore(calls, [r], i.serial);
      assert s.fading[1..] + [f] == [f];
      assert Serials(s.fading) == {s.fading[0].serial};
    } else {
      assert calls + [] == calls;
      assert [] + [f] == [f];
    }
    assert Serials([f]) == {f.serial} by { assert [f][0].serial == f.serial; }
  }

  lemma FixFadingSerial(i: Item, now: nat)
    ensures FixFading(i, now).serial == i.serial && FixFading(i, now).keep == i.keep
  {
  }

  lemma SamePtsDue(i: Item, j: Item, now: nat)
    requires Due(i, now) && i.pts == j.pts && i.immediate == j.immediate
    ensures Due(j, now)
  {
  }

  lemma HideIsOnTime(i: Item)
    ensures OnTime(Hide(i)) && OnTime(Remove(i)) && OnTime(Reset)
  {
  }

  lemma HandedLast(calls: seq<Call>, i: Item, now: nat)
    ensures Handed(calls + [Handover(i, now)], i.serial)
  {
    assert (calls + [Handover(i, now)])[|calls|] == Handover(i, now);
  }

  lemma ShowingOnly(s: State, l: seq<Item>)
    requires Inv(s) && Words(l)
    ensures Inv(s.(showing := l))
  {
    hide OnScreen, Handed, AllOnTime, Words;
  }

  lemma PresentKeeps(s: State, now: nat)
    requires Inv(s) && now <= CLOCK_LIMIT
    ensures Inv(Present(s, now))
  {
    hide Inv, Due, Prepare, ThrowFar, SkipExpired, ShowItem, TooFar, Narrow;
    var l := SkipExpired(s.showing, now);
    assert Words(s.showing) by { InvWords(s); }
    SkipWords(s.showing, now);
    ShowingOnly(s, l);
    if l != [] {
      var t := ThrowFar(l, now);
      ThrowWords(l, now);
      if t == [] {
        ShowingOnly(s.(showing := l), t);
      } else {
        var i := Prepare(l[0], now);
        PrepareWords(l[0], now);
        var t' := if TooFar(l[0], now) then t else t[0 := i];
        ShowingOnly(s.(showing := l), t');
        if Due(i, now) {
          ShowKeeps(s.(showing := l).(showing := t'), i, now);
        }
      }
    }
  }

  lemma InvWords(s: State)
    requires Inv(s)
    ensures Words(s.showing)
  {
    hide OnScreen, Handed, AllOnTime, Words;
  }

  lemma FadeKeeps(s: State, now: nat)
    requires Inv(s)
    ensures Inv(Fade(s, now))
  {
    hide OnScreen, Handed, OnTime, Faded, Words;
    if s.fading != [] {
      var h := Hide(s.fading[0]);
      OnScreenSnoc(s.calls, h);
      assert OnTime(h) by { HideIsOnTime(s.fading[0]); }
      OnTimeMore(s.calls, h);
      assert Serials(s.fading) == {s.fading[0].serial};
    }
  }

  lemma StepKeeps(s: State, m: Message)
    requires Inv(s) && MessageOk(m)
    ensures Inv(Step(s, m))
  {
    hide Inv, Arrive, Present, Fade, EndsEarly;
    match m
    case CheckSpu(arrival, now) =>
      var t := if arrival.New? then s.(showing := Arrive(s.showing, arrival.item, now)) else s;
      if arrival.New? {
        InvWords(s);
        ArriveWords(s.showing, arrival.item, now);
        ShowingOnly(s, t.showing);
      }
      PresentKeeps(t, now);
      FadeKeeps(Present(t, now), now);
    case ResetMessage =>
      ResetKeeps(s);
  }

  lemma ResetKeeps(s: State)
    requires Inv(s)
    ensures Inv(ResetQueue(s))
  {
    hide OnScreen, OnTime;
    OnScreenSnoc(s.calls, Reset);
    assert OnTime(Reset) by { HideIsOnTime(Item(0, 0, 0, 0, false, false, false, false, false, NoData)); }
    OnTimeMore(s.calls, Reset);
  }

  /** Over every run: at most one item fades, it was handed to the renderer, whatever is on screen is it, and
      nothing was shown before its time. */
  lemma {:induction false} RunSafe(ms: seq<Message>)
    requires forall k | 0 <= k < |ms| :: MessageOk(ms[k])
    ensures Inv(Run(START, ms))
    decreases |ms|
  {
    hide MessageOk, Step, Inv;
    if ms == [] {
      StartSafe();
    } else {
      RunSafe(ms[..|ms| - 1]);
      StepKeeps(Run(START, ms[..|ms| - 1]), ms[|ms| - 1]);
    }
  }

  lemma StartSafe()
    ensures Inv(START)
  {
  }

  /** So at most one item is on screen after any message, and the fading list can take it down. */
  lemma OneOnScreen(ms: seq<Message>)
    requires forall k | 0 <= k < |ms| :: MessageOk(ms[k])
    ensures var s := Run(START, ms);
            |OnScreen(s.calls)| <= 1 &&
            (OnScreen(s.calls) != {} ==> |s.fading| == 1 && OnScreen(s.calls) == {s.fading[0].serial})
  {
    hide MessageOk, OnScreen, Run, Handed, AllOnTime, Words;
    RunSafe(ms);
    var s := Run(START, ms);
    if s.fading == [] {
      assert Serials(s.fading) == {};
    } else {
      assert Serials(s.fading) == {s.fading[0].serial};
      var x := OnScreen(s.calls);
      if x != {} {
        assert s.fading[0].serial in x by {
          var y :| y in x;
        }
        assert x == {s.fading[0].serial};
      }
    }
  }

  // ---- Who is shown early -------------------------------------------------------------------

  /** An item that waits for its time, shown before it. */
  predicate EarlyShow(c: Call) {
    c.Show? && !c.item.immediate && Early(c.item, c.at)
  }

  predicate ShowsEarly(calls: seq<Call>) {
    exists k | 0 <= k < |calls| :: EarlyShow(calls[k])
  }

  lemma ShowsEarlyJoin(a: seq<Call>, b: seq<Call>)
    ensures ShowsEarly(a + b) <==> ShowsEarly(a) || ShowsEarly(b)
  {
    hide EarlyShow;
    if k :| 0 <= k < |a| && EarlyShow(a[k]) {
      assert EarlyShow((a + b)[k]);
    }
    if k :| 0 <= k < |b| && EarlyShow(b[k]) {
      assert EarlyShow((a + b)[|a| + k]);
    }
  }

  /** The queue as it is looked at when a message comes. */
  function Looked(s: State, arrival: Arrival, now: nat): seq<Item> {
    SkipExpired(if arrival.New? then Arrive(s.showing, arrival.item, now) else s.showing, now)
  }

  /** The front item, alone or with the next one, has something to show. */
  predicate HasText(l: seq<Item>, now: nat)
    requires l != [] && ThrowFar(l, now) != []
  {
    var rest := ThrowFar(l, now)[1..];
    l[0].data.Data? || (rest != [] && Combines(l[0], rest[0]))
  }

  /** The front item is looked at, too early, against a clock that does not cut it to 32 bits, and its
      overflowed time passes the test. */
  predicate Overflown(l: seq<Item>, now: nat) {
    && l != [] && ThrowFar(l, now) != [] && !l[0].immediate && HasText(l, now)
    && !Narrow(now) && Due(l[0], now) && Early(l[0], now)
  }

  /** The corrections remove every early item that a narrow clock looks at and make none. */
  lemma PrepareEarly(i: Item, now: nat)
    requires now <= CLOCK_LIMIT && Int64(i.pts) && Int64(i.delay) && !i.immediate
    ensures var p := Prepare(i, now);
            && (Due(p, now) && Early(p, now) <==> !Narrow(now) && Due(i, now) && Early(i, now))
            && (!Narrow(now) && Early(i, now) ==> p.pts == i.pts)
  {
    hide Due, Dvb2Ns, Ns2Dvb;
    var p := Prepare(i, now);
    PrepareWords(i, now);
    WholeMillis(now);
    if Quot(i.pts, DVB) <= 0 {
      assert p.pts == now / MILLI * DVB;
      ModUnique(now / MILLI * MILLI * DVB, DVB, now / MILLI * MILLI, 0);
      assert p.pts * MILLI == now / MILLI * MILLI * DVB;
    } else if Narrow(now) {
      NeverEarly(p, now);
    } else {
      SamePts(i, p, now);
    }
  }

  lemma SamePts(i: Item, p: Item, now: nat)
    requires i.pts == p.pts && i.immediate == p.immediate
    ensures Due(i, now) <==> Due(p, now)
  {
  }

  lemma ShowCalls(s: State, i0: Item, now: nat)
    requires s.showing != []
    ensures var i := TakeFront(i0, s.showing[1..]).0;
            var calls := ShowItem(s, i0, now).calls;
            s.calls <= calls && (ShowsEarly(calls[|s.calls|..]) <==> EarlyShow(Handover(i, now)))
  {
    hide EarlyShow, Handover, FixFading;
    var i := TakeFront(i0, s.showing[1..]).0;
    var removed := if s.fading == [] then [] else [Remove(s.fading[0])];
    var more := [Handover(i, now)] + removed;
    assert s.calls + [Handover(i, now)] + removed == s.calls + more;
    assert more[0] == Handover(i, now);
    assert !ShowsEarly(removed) by {
      if s.fading != [] {
        RemoveNotEarly(s.fading[0]);
      }
    }
    ShowsEarlyJoin([Handover(i, now)], removed);
    assert [Handover(i, now)][0] == Handover(i, now);
  }

  lemma RemoveNotEarly(i: Item)
    ensures !EarlyShow(Remove(i)) && !EarlyShow(Hide(i))
  {
  }

  lemma FrontEarly(s: State, now: nat)
    requires s.showing != [] && Words(s.showing) && now <= CLOCK_LIMIT
    ensures s.calls <= PresentFront(s, now).calls
    ensures ShowsEarly(PresentFront(s, now).calls[|s.calls|..]) <==> Overflown(s.showing, now)
  {
    hide ThrowFar, Due, Prepare, ShowItem, TooFar, Narrow, Early, Combine, ShowsEarly;
    var front, l := s.showing[0], ThrowFar(s.showing, now);
    NoCalls(s.calls);
    if l != [] {
      var i := Prepare(front, now);
      PrepareWords(front, now);
      PrepareKinds(front, now);
      var l' := if TooFar(front, now) then l else l[0 := i];
      if !front.immediate {
        PrepareEarly(front, now);
      }
      if Due(i, now) {
        assert l'[1..] == l[1..];
        ShowCalls(s.(showing := l'), i, now);
        var shown := TakeFront(i, l[1..]).0;
        TakeFrontKeeps(i, l[1..]);
        SameEarly(i, shown, now);
        assert EarlyShow(Handover(shown, now)) <==> shown.data.Data? && !shown.immediate && Early(shown, now);
        if Early(shown, now) && !front.immediate {
          SameEarly(front, i, now);
        }
      }
    }
  }

  lemma TakeFrontKeeps(i: Item, rest: seq<Item>)
    ensures var j := TakeFront(i, rest).0;
            && j.pts == i.pts && j.immediate == i.immediate
            && (j.data.Data? <==> i.data.Data? || (rest != [] && Combines(i, rest[0])))
  {
  }

  lemma NoCalls(calls: seq<Call>)
    ensures !ShowsEarly(calls[|calls|..])
  {
  }

  lemma PrepareKinds(i: Item, now: nat)
    ensures var p := Prepare(i, now);
            && p.external == i.external && p.simple == i.simple && p.data == i.data && p.immediate == i.immediate
            && p.size == i.size
  {
    hide Ns2Dvb, Quot, Wrap64, U64;
  }

  lemma SameEarly(i: Item, j: Item, now: nat)
    requires i.pts == j.pts
    ensures Early(i, now) <==> Early(j, now)
  {
  }

  /** A message shows an item early if and only if the front item of the queue has overflown. */
  lemma EarlyExactly(s: State, arrival: Arrival, now: nat)
    requires Words(s.showing) && MessageOk(CheckSpu(arrival, now))
    ensures var calls := Step(s, CheckSpu(arrival, now)).calls;
            s.calls <= calls && (ShowsEarly(calls[|s.calls|..]) <==> Overflown(Looked(s, arrival, now), now))
  {
    hide Arrive, SkipExpired, Overflown, PresentFront, ThrowFar, ShowsEarly, EarlyShow, Faded;
    var t := if arrival.New? then s.(showing := Arrive(s.showing, arrival.item, now)) else s;
    if arrival.New? {
      ArriveWords(s.showing, arrival.item, now);
    }
    var l := Looked(s, arrival, now);
    SkipWords(t.showing, now);
    NoCalls(s.calls);
    if l != [] {
      FrontEarly(t.(showing := l), now);
    } else {
      assert !Overflown(l, now) by { NothingOverflown(now); }
    }
    var u := Present(t, now);
    FadeNotEarly(u, now, s.calls);
  }

  lemma NothingOverflown(now: nat)
    ensures !Overflown([], now)
  {
  }

  lemma FadeNotEarly(u: State, now: nat, before: seq<Call>)
    requires before <= u.calls
    ensures before <= Fade(u, now).calls
    ensures ShowsEarly(Fade(u, now).calls[|before|..]) <==> ShowsEarly(u.calls[|before|..])
  {
    hide EarlyShow, Faded;
    var f := Fade(u, now);
    if f != u {
      var h := Hide(u.fading[0]);
      RemoveNotEarly(u.fading[0]);
      assert f.calls[|before|..] == u.calls[|before|..] + [h];
      ShowsEarlyJoin(u.calls[|before|..], [h]);
      assert !ShowsEarly([h]);
    }
  }

  /** A run shows an item early exactly when some message of it finds an overflown front item. */
  lemma {:induction false} RunEarly(ms: seq<Message>)
    requires forall k | 0 <= k < |ms| :: MessageOk(ms[k])
    ensures ShowsEarly(Run(START, ms).calls) <==> exists k | 0 <= k < |ms| :: OverflownAt(ms, k)
    decreases |ms|
  {
    hide MessageOk, Step, ShowsEarly, Overflown, Looked;
    if ms == [] {
      NoCalls([]);
    } else {
      var n := |ms| - 1;
      var init, m := ms[..n], ms[n];
      RunEarly(init);
      RunSafe(init);
      var s := Run(START, init);
      assert Words(s.showing) by { InvWords(s); }
      StepEarly(s, m);
      forall k | 0 <= k < n
        ensures OverflownAt(ms, k) <==> OverflownAt(init, k)
      {
        assert ms[..k] == init[..k];
      }
      assert OverflownAt(ms, n) <==> m.CheckSpu? && Overflown(Looked(s, m.arrival, m.now), m.now);
      hide OverflownAt;
      if k :| 0 <= k < n && OverflownAt(init, k) {
        assert OverflownAt(ms, k);
      }
      if k :| 0 <= k < |ms| && OverflownAt(ms, k) {
        assert k < n ==> OverflownAt(init, k);
      }
    }
  }

  predicate OverflownAt(ms: seq<Message>, k: nat)
    requires k < |ms|
  {
    ms[k].CheckSpu? && Overflown(Looked(Run(START, ms[..k]), ms[k].arrival, ms[k].now), ms[k].now)
  }

  lemma StepEarly(s: State, m: Message)
    requires Words(s.showing) && MessageOk(m)
    ensures ShowsEarly(Step(s, m).calls) <==>
            ShowsEarly(s.calls) || (m.CheckSpu? && Overflown(Looked(s, m.arrival, m.now), m.now))
  {
    hide Check, Words, ShowsEarly, Overflown, Looked;
    if m.CheckSpu? {
      EarlyExactly(s, m.arrival, m.now);
      var calls := Step(s, m).calls;
      assert calls == s.calls + calls[|s.calls|..];
      ShowsEarlyJoin(s.calls, calls[|s.calls|..]);
    } else {
      assert Step(s, m) == ResetQueue(s);
      ShowsEarlyJoin(s.calls, [Reset]);
      ResetNotEarly();
    }
  }

  lemma ResetNotEarly()
    ensures !ShowsEarly([Reset])
  {
  }

  /** Against narrow clocks no item is ever shown early, whatever its time. */
  lemma NarrowNeverEarly(ms: seq<Message>)
    requires forall k | 0 <= k < |ms| :: MessageOk(ms[k]) && (ms[k].CheckSpu? ==> Narrow(ms[k].now))
    ensures !ShowsEarly(Run(START, ms).calls)
  {
    hide MessageOk, Run, ShowsEarly, ThrowFar, Due, Narrow, Early;
    RunEarly(ms);
  }

  /** A caption six years ahead, shown at clock 0. */
  lemma EarlyWitness()
    ensures var i := Item(0, 18_446_744_073_710, 0, 0, false, false, false, false, true, Data([65]));
            ShowsEarly(Run(START, [CheckSpu(New(i), 0)]).calls)
  {
    hide Step, ShowsEarly, Run, ThrowFar, Due, Early, Narrow, SkipExpired, Arrive;
    var i := Item(0, 18_446_744_073_710, 0, 0, false, false, false, false, true, Data([65]));
    var ms := [CheckSpu(New(i), 0)];
    assert ms[..0] == [];
    assert Run(START, []) == START by { RunNothing(); }
    WitnessQueue(i);
    RunEarly(ms);
    assert OverflownAt(ms, 0);
  }

  lemma RunNothing()
    ensures Run(START, []) == START
  {
  }

  lemma WitnessQueue(i: Item)
    requires i == Item(0, 18_446_744_073_710, 0, 0, false, false, false, false, true, Data([65]))
    ensures Looked(START, New(i), 0) == [i] && ThrowFar([i], 0) == [i]
    ensures Due(i, 0) && Early(i, 0) && !Narrow(0)
  {
    var x := 18_446_744_073_710 * MILLI;
    ModUnique(x, TWO64, 1, 448_384);
    assert Wrap64(x) == 448_384;
    assert Settle(i, 0) == i;
    assert [i][..0] == [] && [i][0] == i && [] + [i] == [i] && [i][1..] == [];
    assert SortByPts([i]) == InsertByPts(SortByPts([]), i) == [i];
    assert Arrive([], i, 0) == [i] by {
      assert TotalSize([i]) == 0;
    }
    assert ThrowFar([], 0) == [];
  }

  // ---- Nothing is shown twice ---------------------------------------------------------------

  function One(same: bool): nat {
    if same then 1 else 0
  }

  /** How often the item of that number stands in a list, was shown, or came in. */
  function Count(l: seq<Item>, serial: nat): nat {
    if l == [] then 0 else One(l[0].serial == serial) + Count(l[1..], serial)
  }

  function TimesShown(calls: seq<Call>, serial: nat): nat {
    if calls == [] then 0
    else
      var c := calls[|calls| - 1];
      TimesShown(calls[..|calls| - 1], serial) + One(c.Show? && c.item.serial == serial)
  }

  function Arrives(m: Message, serial: nat): nat {
    One(m.CheckSpu? && m.arrival.New? && m.arrival.item.serial == serial)
  }

  function TimesArrived(ms: seq<Message>, serial: nat): nat {
    if ms == [] then 0 else TimesArrived(ms[..|ms| - 1], serial) + Arrives(ms[|ms| - 1], serial)
  }

  /** Queued or shown. */
  function Account(s: State, serial: nat): nat {
    Count(s.showing, serial) + TimesShown(s.calls, serial)
  }

  lemma {:induction false} CountJoin(a: seq<Item>, b: seq<Item>, serial: nat)
    ensures Count(a + b, serial) == Count(a, serial) + Count(b, serial)
  {
    if a == [] {
      assert a + b == b;
    } else {
      CountJoin(a[1..], b, serial);
      assert (a + b)[1..] == a[1..] + b;
    }
  }

  lemma CountSuffix(l: seq<Item>, k: nat, serial: nat)
    requires k <= |l|
    ensures Count(l[k..], serial) <= Count(l, serial)
  {
    CountJoin(l[..k], l[k..], serial);
    assert l[..k] + l[k..] == l;
  }

  lemma CountSnoc(l: seq<Item>, i: Item, serial: nat)
    ensures Count(l + [i], serial) == Count(l, serial) + One(i.serial == serial)
  {
    CountJoin(l, [i], serial);
    assert Count([i], serial) == One(i.serial == serial) + Count([], serial);
  }

  lemma {:induction false} InsertCount(l: seq<Item>, i: Item, serial: nat)
    ensures Count(InsertByPts(l, i), serial) == Count(l, serial) + One(i.serial == serial)
    decreases |l|
  {
    hide Count, One;
    CountSnoc(l, i, serial);
    if l != [] && l[|l| - 1].pts > i.pts {
      var init, last := l[..|l| - 1], l[|l| - 1];
      InsertCount(init, i, serial);
      CountSnoc(InsertByPts(init, i), last, serial);
      CountSnoc(init, last, serial);
      assert init + [last] == l;
    }
  }

  lemma {:induction false} SortCount(l: seq<Item>, serial: nat)
    ensures Count(SortByPts(l), serial) == Count(l, serial)
    decreases |l|
  {
    hide Count, One, InsertByPts;
    if l != [] {
      var init, last := l[..|l| - 1], l[|l| - 1];
      SortCount(init, serial);
      InsertCount(SortByPts(init), last, serial);
      CountSnoc(init, last, serial);
      assert init + [last] == l;
    }
  }

  lemma ArriveCount(l: seq<Item>, i0: Item, now: nat, serial: nat)
    ensures Count(Arrive(l, i0, now), serial) <= Count(l, serial) + One(i0.serial == serial)
  {
    hide SortByPts, TotalSize, Count, One, Settle, Admitted;
    var i := Settle(i0, now);
    assert i.serial == i0.serial by { SettleSerial(i0, now); }
    CountSnoc(l, i, serial);
    SortCount(l + [i], serial);
    var m := if Admitted(i, now) then SortByPts(l + [i]) else l;
    CountSuffix(m, |m| / 2, serial);
  }

  lemma SettleSerial(i: Item, now: nat)
    ensures Settle(i, now).serial == i.serial
  {
  }

  lemma {:induction false} SkipCount(l: seq<Item>, now: nat, serial: nat)
    ensures Count(SkipExpired(l, now), serial) <= Count(l, serial)
  {
    if l != [] && Expired(l[0], now) {
      SkipCount(l[1..], now, serial);
    }
  }

  lemma {:induction false} ThrowCount(l: seq<Item>, now: nat, serial: nat)
    ensures Count(ThrowFar(l, now), serial) <= Count(l, serial)
    ensures l != [] && TooFar(l[0], now) ==>
              Count(ThrowFar(l, now), serial) + One(l[0].serial == serial) <= Count(l, serial)
  {
    hide TooFar;
    if l != [] {
      ThrowCount(l[1..], now, serial);
      var rest := ThrowFar(l[1..], now);
      if TooFar(l[0], now) {
        assert [] + rest == rest;
      } else {
        assert ([l[0]] + rest)[1..] == rest;
      }
    }
  }

  lemma ShownSnoc(calls: seq<Call>, c: Call, serial: nat)
    ensures TimesShown(calls + [c], serial) ==
            TimesShown(calls, serial) + One(c.Show? && c.item.serial == serial)
  {
    assert (calls + [c])[..|calls|] == calls;
  }

  /** Showing moves an item from the queue to the shown ones, or takes one that the queue had given up. */
  lemma ShowAccount(s: State, i0: Item, now: nat, serial: nat)
    requires s.showing != []
    ensures Account(ShowItem(s, i0, now), serial) <=
            Count(s.showing[1..], serial) + TimesShown(s.calls, serial) + One(i0.serial == serial)
  {
    hide Count, TimesShown, FixFading;
    var (i, rest) := TakeFront(i0, s.showing[1..]);
    var tail := s.showing[1..];
    if tail != [] {
      CountSuffix(tail, 1, serial);
    }
    var c := Handover(i, now);
    ShownSnoc(s.calls, c, serial);
    if s.fading != [] {
      ShownSnoc(s.calls + [c], Remove(s.fading[0]), serial);
    } else {
      assert (s.calls + [c]) + [] == s.calls + [c];
    }
  }

  lemma PresentAccount(s: State, now: nat, serial: nat)
    ensures Account(Present(s, now), serial) <= Account(s, serial)
  {
    hide Due, Prepare, ThrowFar, SkipExpired, ShowItem, TooFar, Count, TimesShown, One;
    var l := SkipExpired(s.showing, now);
    SkipCount(s.showing, now, serial);
    if l != [] {
      var t := ThrowFar(l, now);
      ThrowCount(l, now, serial);
      if t != [] {
        var i := Prepare(l[0], now);
        assert i.serial == l[0].serial by { PrepareSerial(l[0], now); }
        var t' := if TooFar(l[0], now) then t else t[0 := i];
        if !TooFar(l[0], now) {
          ThrowFront(l, now);
        }
        FrontCount(t, serial);
        FrontCount(t', serial);
        if Due(i, now) {
          ShowAccount(s.(showing := l).(showing := t'), i, now, serial);
        }
      }
    }
  }

  lemma FrontCount(l: seq<Item>, serial: nat)
    requires l != []
    ensures Count(l, serial) == One(l[0].serial == serial) + Count(l[1..], serial)
  {
  }

  lemma ThrowFront(l: seq<Item>, now: nat)
    requires l != [] && !TooFar(l[0], now)
    ensures ThrowFar(l, now) != [] && ThrowFar(l, now)[0] == l[0]
  {
    hide TooFar;
  }

  lemma PrepareSerial(i: Item, now: nat)
    ensures Prepare(i, now).serial == i.serial
  {
  }

  lemma StepAccount(s: State, m: Message, serial: nat)
    ensures Account(Step(s, m), serial) <= Account(s, serial) + Arrives(m, serial)
  {
    hide Arrive, Present, EndsEarly, TimesShown, Faded;
    match m
    case CheckSpu(arrival, now) =>
      var t := if arrival.New? then s.(showing := Arrive(s.showing, arrival.item, now)) else s;
      if arrival.New? {
        ArriveCount(s.showing, arrival.item, now, serial);
      }
      PresentAccount(t, now, serial);
      var u := Present(t, now);
      if u.fading != [] {
        ShownSnoc(u.calls, Hide(u.fading[0]), serial);
      }
    case ResetMessage =>
      ShownSnoc(s.calls, Reset, serial);
  }

  /** Over every run, an item is shown and queued at most as often as it came in. */
  lemma {:induction false} RunAccount(ms: seq<Message>, serial: nat)
    ensures Account(Run(START, ms), serial) <= TimesArrived(ms, serial)
    decreases |ms|
  {
    hide Step, Arrives;
    if ms == [] {
    } else {
      RunAccount(ms[..|ms| - 1], serial);
      StepAccount(Run(START, ms[..|ms| - 1]), ms[|ms| - 1], serial);
    }
  }

  /** So an item that came in once is never shown twice, nor shown and still queued. */
  lemma ShownOnce(ms: seq<Message>, serial: nat)
    requires TimesArrived(ms, serial) <= 1
    ensures var s := Run(START, ms); TimesShown(s.calls, serial) + Count(s.showing, serial) <= 1
  {
    hide Run, TimesArrived, Count, TimesShown;
    RunAccount(ms, serial);
  }
}
