/** The stream-subtitle scheduler of libsubtitle/subtitle/Presentation.cpp as it runs: one object with a clock,
    a showing list, a fading list and a renderer, changed by each message. */
module Presentations {
  import opened Bytes
  import opened PresentationSpecs
  import opened PresentationSafety

  class Presentation {
    var currentTime: int
    var startModifier: int
    var showing: seq<Item>
    var fading: seq<Item>
    /** What the renderer has been told so far. */
    var calls: seq<Call>

    ghost function Abs(): State
      reads this
    {
      State(showing, fading, calls)
    }

    /** The clock of a message: the start stamp and the position together, unsigned. */
    function Timestamp(): nat
      reads this
    {
      U64(startModifier + currentTime)
    }

    constructor ()
      ensures Abs() == START && currentTime == 0 && startModifier == 0
    {
      currentTime, startModifier := 0, 0;
      showing, fading, calls := [], [], [];
    }

    method NotifyStartTimeStamp(start: int)
      modifies this`startModifier
      ensures startModifier == Dvb2Ns(start)
    {
      startModifier := Dvb2Ns(start);
    }

    /** A pts of 33 one-bits marks an invalid clock, unless it is narrowed to 32 bits first. Any other sets the
        clock to its whole nanoseconds. */
    method SyncCurrentPresentTime(pts0: int, narrow: bool) returns (ok: bool)
      modifies this`currentTime
      ensures !ok <==> !narrow && pts0 == INVALID_PTS
      ensures !ok ==> currentTime == -1
      ensures !narrow && ok ==> Truncates(currentTime, Wrap64(pts0 * MILLI), DVB)
      ensures narrow ==> Truncates(currentTime, pts0 % TWO32 * MILLI, DVB) && 0 <= currentTime < 47_722 * SECOND
      ensures narrow && pts0 == INVALID_PTS ==> currentTime == 0xFFFF_FFFF * MILLI / DVB
    {
      hide Quot;
      QuotTruncates(Wrap64(pts0 * MILLI), DVB);
      QuotTruncates(pts0 % TWO32 * MILLI, DVB);
      var pts := if narrow then pts0 % TWO32 else pts0;
      ok := pts != INVALID_PTS;
      currentTime := if ok then Dvb2Ns(pts) else -1;
    }

    /** handleMessage: without a clock every message waits. */
    method HandleMessage(reset: bool, arrival: Arrival)
      modifies this`showing, this`fading, this`calls
      ensures Abs() ==
              if old(currentTime) < 0 then old(Abs())
              else Step(old(Abs()), if reset then ResetMessage else CheckSpu(arrival, old(Timestamp())))
      ensures old(currentTime) >= 0 && reset ==> showing == [] && fading == [] && calls == old(calls) + [Reset]
    {
      hide Check;
      if currentTime < 0 {
        return;
      }
      if reset {
        showing, fading := [], [];
        calls := calls + [Reset];
      } else {
        CheckShowing(arrival);
      }
    }

    /** MSG_PTS_TIME_CHECK_SPU. */
    method CheckShowing(arrival: Arrival)
      modifies this`showing, this`fading, this`calls
      ensures Abs() == Check(old(Abs()), arrival, old(Timestamp()))
    {
      hide Arrive, SkipExpired, ThrowFar, PresentFront, Fade;
      var now := Timestamp();
      if arrival.New? {
        TakeIn(arrival.item, now);
      }
      if |showing| > 0 {
        DropExpired(now);
        if showing == [] {
          // the front of the list is null, and nothing is left after the ten-minute rule either
          assert ThrowFar(showing, now) == [] by { ThrowNothing(now); }
          return;
        }
        var front := showing[0];
        var ended := PresentSpu(front, now);
        if ended {
          return;
        }
      }
      FadeSpu(now);
    }

    /** A new item: its time is settled, it is sorted in, and memory is looked after. */
    method TakeIn(item: Item, now: nat)
      modifies this`showing
      ensures showing == Arrive(old(showing), item, now)
    {
      hide SortByPts, Dvb2Ns, Ns2Dvb;
      var spu := item;
      var pts := U64(Dvb2Ns(spu.pts));
      var ptsDiff := if pts > now then pts - now else now - pts;
      if ptsDiff >= FAR_AHEAD && !spu.external {
        var start := Ns2Dvb(now + SECOND);
        spu := spu.(pts := start, delay := Wrap64(start + 2 * 1000 * DVB));
      }
      if spu.caption || now != 0 || spu.pts == 0 {
        showing := SortByPts(showing + [spu]);
      }
      var size := TotalQueuedMemSize();
      if spu.size + size >= MAX_QUEUED_MEM {
        ghost var l := showing;
        var half := |showing| / 2;
        var i := 0;
        while i < half
          invariant i <= half && showing == l[i..]
        {
          showing := showing[1..];
          i := i + 1;
        }
      }
    }

    method TotalQueuedMemSize() returns (size: nat)
      ensures size == TotalSize(showing)
    {
      size := 0;
      var i := 0;
      assert showing[0..] == showing;
      while i < |showing|
        invariant i <= |showing| && size + TotalSize(showing[i..]) == TotalSize(showing)
      {
        assert showing[i..][0] == showing[i] && showing[i..][1..] == showing[i + 1..];
        size := size + showing[i].size;
        i := i + 1;
      }
    }

    /** After a seek: external items whose time is over. */
    method DropExpired(now: nat)
      modifies this`showing
      ensures showing == SkipExpired(old(showing), now)
    {
      while showing != [] && showing[0].external && showing[0].delay > 0 &&
            Ns2Ms(now) >= Quot(showing[0].delay, DVB)
        invariant SkipExpired(showing, now) == SkipExpired(old(showing), now)
        decreases |showing|
      {
        showing := showing[1..];
      }
    }

    /** The ten-minute rule, the corrections and the decision about the front item. */
    method PresentSpu(front: Item, now: nat) returns (ended: bool)
      requires showing != [] && front == showing[0]
      modifies this`showing, this`fading, this`calls
      ensures Abs() == PresentFront(old(Abs()), now)
      ensures ended <==> ThrowFar(old(showing), now) == []
    {
      hide ThrowFar, Dvb2Ns, Ns2Dvb, FixFading, TakeFront, U64;
      var attached := !TooFar(front, now);
      if attached {
        ThrowFront(showing, now);
      }
      showing := ThrowFar(showing, now);
      ended := showing == [];
      if ended {
        return;
      }
      var spu := Correct(front, now);
      if attached {
        showing := showing[0 := spu];
      }
      var pts := U64(Dvb2Ns(spu.pts));
      var showDiff := U64(now + TOLERANCE - pts);
      var limit := U64(now + TOLERANCE);
      if spu.immediate || pts <= limit || (showDiff <= MAX_SHOW_DIFF && showDiff >= 0) {
        ShowSpu(spu, now);
      } else if pts <= limit && showDiff > MAX_SHOW_DIFF {
        // an item this late has been shown already
        assert false;
      }
    }

    /** A missing pts, a pts wider than the clock, a missing delay. */
    method Correct(item: Item, now: nat) returns (spu: Item)
      ensures spu == Prepare(item, now)
    {
      hide Ns2Dvb, IsMore32Bit;
      spu := item;
      if Quot(spu.pts, DVB) <= 0 && !spu.immediate {
        var start := Ns2Dvb(now);
        spu := spu.(pts := start, delay := Wrap64(start + 2 * 1000 * DVB));
      }
      var vpts := Ns2Dvb(now);
      if !(spu.pts <= 0 || vpts <= 0) {
        if IsMore32Bit(spu.pts) && !IsMore32Bit(vpts) {
          spu := spu.(pts := spu.pts % TWO32, delay := spu.delay % TWO32);
        }
      }
      if spu.delay <= 0 {
        spu := spu.(delay := Wrap64(spu.pts + 4000 * DVB));
      }
    }

    method ShowSpu(item: Item, now: nat)
      requires showing != []
      modifies this`showing, this`fading, this`calls
      ensures Abs() == ShowItem(old(Abs()), item, now)
    {
      hide FixFading, Combine;
      var spu := item;
      showing := showing[1..];
      if |showing| > 0 {
        var second := showing[0];
        var combined := Combines(spu, second);
        if combined {
          spu := Combine(spu, second);
          showing := showing[1..];
        }
      }
      if spu.data.NoData? {
        calls := calls + [Hide(spu)];
      } else {
        calls := calls + [Show(spu, now)];
      }
      assert calls == old(calls) + [Handover(spu, now)];
      spu := FixFadingTime(spu, now);
      if fading != [] {
        var cached := fading[0];
        fading := fading[1..];
        calls := calls + [Remove(cached)];
      } else {
        assert calls + [] == calls;
      }
      fading := fading + [spu];
    }

    /** When the shown item is to fade: immediate items from now on, others that stay too short for longer. */
    method FixFadingTime(item: Item, now: nat) returns (spu: Item)
      ensures spu == FixFading(item, now)
    {
      hide Ns2Dvb;
      spu := item;
      if spu.immediate {
        var start := Ns2Dvb(now);
        spu := spu.(pts := start, delay := Wrap64(start + 4000 * DVB));
      } else if spu.delay == 0 || spu.delay < spu.pts || Wrap64(spu.delay - spu.pts) < 1000 * DVB {
        spu := spu.(delay := Wrap64(spu.pts + 5000 * DVB));
      }
    }

    method FadeSpu(now: nat)
      modifies this`fading, this`calls
      ensures Abs() == Fade(old(Abs()), now)
    {
      if |fading| > 0 {
        var spu := fading[0];
        if !spu.keep {
          var delayed := U64(Dvb2Ns(spu.delay));
          var tooLong := (if spu.external then 5 else 100) * SECOND;
          if delayed <= now && U64(delayed * 5) > now {
            fading := fading[1..];
            calls := calls + [Hide(spu)];
          } else if now != 0 && U64(delayed - now) > tooLong {
            fading := fading[1..];
            calls := calls + [Hide(spu)];
          }
        }
      }
    }
  }

  const INVALID_PTS := 0x1_FFFF_FFFF

  /** q is the quotient of a and b without its fraction. */
  predicate Truncates(q: int, a: int, b: int) {
    if a >= 0 then 0 <= a - q * b < b else 0 <= q * b - a < b
  }

  lemma QuotTruncates(a: int, b: int)
    requires b > 0
    ensures Truncates(Quot(a, b), a, b)
  {
  }

  lemma ThrowNothing(now: nat)
    ensures ThrowFar([], now) == []
  {
  }
}
