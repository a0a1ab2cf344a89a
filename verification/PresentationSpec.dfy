/** Presentation scheduling for stream subtitles (libsubtitle/subtitle/Presentation.cpp) on values: times,
    the showing and fading lists, and what one message does to them and to the renderer. */
module PresentationSpecs {
  import opened Bytes

  const DVB := 90
  const MILLI := 1_000_000
  const SECOND := 1_000_000_000

  const TOLERANCE := 33 * MILLI
  const MAX_SHOW_DIFF := 2 * SECOND
  const FAR_AHEAD := 200 * SECOND
  const MAX_QUEUED_MEM := 5 * 1920 * 1080 * 4
  const TEN_MINUTES_MS := 600_000

  // ---- Time ---------------------------------------------------------------------------------

  /** C++ division, which drops the fraction. */
  function Quot(a: int, b: int): int
    requires b > 0
  {
    if a >= 0 then a / b else -((-a) / b)
  }

  function U64(x: int): (u: nat)
    ensures u < TWO64
  {
    x % TWO64
  }

  /** convertDvbTime2Ns and convertNs2DvbTime, in 64 bits. */
  function Dvb2Ns(pts: int): int {
    Quot(Wrap64(pts * MILLI), DVB)
  }

  function Ns2Ms(ns: int): int {
    Quot(Wrap64(ns), MILLI)
  }

  function Ns2Dvb(ns: int): int {
    Wrap64(Ns2Ms(ns) * DVB)
  }

  predicate IsMore32Bit(pts: int) {
    U64(pts) >= TWO32
  }

  // ---- Items --------------------------------------------------------------------------------

  datatype Text = NoData | Data(text: seq<byte>)

  /** An AML_SPUVAR. The serial number stands for the object's identity. */
  datatype Item = Item(serial: nat, pts: int, delay: int, size: nat, simple: bool, immediate: bool,
                       external: bool, keep: bool, caption: bool, data: Text)

  /** What the renderer is told. A shown item is recorded with the clock at that time. */
  datatype Call =
    | Show(item: Item, at: nat)
    | Hide(item: Item)
    | Remove(item: Item)
    | Reset

  datatype State = State(showing: seq<Item>, fading: seq<Item>, calls: seq<Call>)

  // ---- A new item ---------------------------------------------------------------------------

  function Distance(a: nat, b: nat): nat {
    if a > b then a - b else b - a
  }

  /** An item more than 200 seconds away from the clock is given a start one second ahead. */
  function Settle(i: Item, now: nat): Item {
    if Distance(U64(Dvb2Ns(i.pts)), now) >= FAR_AHEAD && !i.external then
      var pts := Ns2Dvb(now + SECOND);
      i.(pts := pts, delay := Wrap64(pts + 2 * 1000 * DVB))
    else i
  }

  predicate Admitted(i: Item, now: nat) {
    i.caption || now != 0 || i.pts == 0
  }

  /** push_back and the stable sort by pts. */
  function InsertByPts(l: seq<Item>, i: Item): seq<Item>
    decreases |l|
  {
    if l == [] || l[|l| - 1].pts <= i.pts then l + [i]
    else InsertByPts(l[..|l| - 1], i) + [l[|l| - 1]]
  }

  function SortByPts(l: seq<Item>): (r: seq<Item>)
    decreases |l|
  {
    if l == [] then [] else InsertByPts(SortByPts(l[..|l| - 1]), l[|l| - 1])
  }

  function TotalSize(l: seq<Item>): nat {
    if l == [] then 0 else l[0].size + TotalSize(l[1..])
  }

  /** When the queue takes too much memory, the older half goes. */
  function Halve(l: seq<Item>, i: Item): seq<Item> {
    if i.size + TotalSize(l) >= MAX_QUEUED_MEM then l[|l| / 2..] else l
  }

  function Arrive(l: seq<Item>, i0: Item, now: nat): seq<Item> {
    var i := Settle(i0, now);
    Halve(if Admitted(i, now) then SortByPts(l + [i]) else l, i)
  }

  // ---- Throwing out -------------------------------------------------------------------------

  predicate Expired(i: Item, now: nat) {
    i.external && i.delay > 0 && Ns2Ms(now) >= Quot(i.delay, DVB)
  }

  function SkipExpired(l: seq<Item>, now: nat): (r: seq<Item>)
    ensures |r| <= |l|
  {
    if l != [] && Expired(l[0], now) then SkipExpired(l[1..], now) else l
  }

  /** Ten minutes ahead of the clock, unless only the clock lacks the upper half. */
  predicate TooFar(i: Item, now: nat) {
    Ns2Ms(now) + TEN_MINUTES_MS <= Quot(i.pts, DVB) && !i.immediate &&
    !(IsMore32Bit(i.pts) && !IsMore32Bit(Ns2Dvb(now)))
  }

  function ThrowFar(l: seq<Item>, now: nat): (r: seq<Item>)
    ensures |r| <= |l|
  {
    if l == [] then []
    else (if TooFar(l[0], now) then [] else [l[0]]) + ThrowFar(l[1..], now)
  }

  // ---- The front item -----------------------------------------------------------------------

  function FixPts(i: Item, now: nat): Item {
    if Quot(i.pts, DVB) <= 0 && !i.immediate then
      var pts := Ns2Dvb(now);
      i.(pts := pts, delay := Wrap64(pts + 2 * 1000 * DVB))
    else i
  }

  /** compareBitAndSyncPts against a clock of 32 bits. */
  function SyncBits(i: Item, now: nat): Item {
    var v := Ns2Dvb(now);
    if i.pts > 0 && v > 0 && IsMore32Bit(i.pts) && !IsMore32Bit(v) then
      i.(pts := i.pts % TWO32, delay := i.delay % TWO32)
    else i
  }

  function FixDelay(i: Item): Item {
    if i.delay <= 0 then i.(delay := Wrap64(i.pts + 4000 * DVB)) else i
  }

  function Prepare(i: Item, now: nat): Item {
    FixDelay(SyncBits(FixPts(i, now), now))
  }

  /** The test with its unsigned differences. */
  predicate Due(i: Item, now: nat) {
    var pts := U64(Dvb2Ns(i.pts));
    i.immediate || pts <= U64(now + TOLERANCE) || U64(now + TOLERANCE - pts) <= MAX_SHOW_DIFF
  }

  predicate Combines(i: Item, j: Item) {
    !i.external && !i.immediate && i.simple && i.pts == j.pts
  }

  function TextOf(t: Text): seq<byte> {
    if t.NoData? then [] else t.text
  }

  function Combine(i: Item, j: Item): Item {
    i.(data := Data(TextOf(i.data) + [10] + TextOf(j.data)), size := i.size + 1 + j.size + 1)
  }

  function Handover(i: Item, now: nat): Call {
    if i.data.NoData? then Hide(i) else Show(i, now)
  }

  /** The item as it waits to fade. */
  function FixFading(i: Item, now: nat): Item {
    if i.immediate then
      var pts := Ns2Dvb(now);
      i.(pts := pts, delay := Wrap64(pts + 4000 * DVB))
    else if i.delay == 0 || i.delay < i.pts || Wrap64(i.delay - i.pts) < 1000 * DVB then
      i.(delay := Wrap64(i.pts + 5000 * DVB))
    else i
  }

  /** The item and what is left of the list when it is shown. */
  function TakeFront(i: Item, rest: seq<Item>): (Item, seq<Item>) {
    if rest != [] && Combines(i, rest[0]) then (Combine(i, rest[0]), rest[1..]) else (i, rest)
  }

  function ShowItem(s: State, i0: Item, now: nat): State
    requires s.showing != []
  {
    var (i, rest) := TakeFront(i0, s.showing[1..]);
    var removed := if s.fading == [] then [] else [Remove(s.fading[0])];
    var left := if s.fading == [] then [] else s.fading[1..];
    State(rest, left + [FixFading(i, now)], s.calls + [Handover(i, now)] + removed)
  }

  /** The front of the list is looked at, even if the ten-minute rule has just thrown it out. */
  function PresentFront(s: State, now: nat): State
    requires s.showing != []
  {
    var front := s.showing[0];
    var l := ThrowFar(s.showing, now);
    if l == [] then s.(showing := l)
    else
      var i := Prepare(front, now);
      var l' := if TooFar(front, now) then l else l[0 := i];
      if Due(i, now) then ShowItem(s.(showing := l'), i, now) else s.(showing := l')
  }

  /** Whether the message ends before the fading list is looked at. */
  predicate EndsEarly(l: seq<Item>, now: nat) {
    l != [] && ThrowFar(SkipExpired(l, now), now) == []
  }

  function Present(s: State, now: nat): State {
    var l := SkipExpired(s.showing, now);
    if l == [] then s.(showing := l) else PresentFront(s.(showing := l), now)
  }

  // ---- Fading -------------------------------------------------------------------------------

  predicate Faded(i: Item, now: nat) {
    var delayed := U64(Dvb2Ns(i.delay));
    || (delayed <= now && U64(delayed * 5) > now)
    || (now != 0 && U64(delayed - now) > (if i.external then 5 else 100) * SECOND)
  }

  function Fade(s: State, now: nat): State {
    if s.fading != [] && !s.fading[0].keep && Faded(s.fading[0], now) then
      State(s.showing, s.fading[1..], s.calls + [Hide(s.fading[0])])
    else s
  }

  // ---- Messages -----------------------------------------------------------------------------

  datatype Arrival = Nothing | New(item: Item)

  /** MSG_PTS_TIME_CHECK_SPU with the clock at now, when the parser has this item or none. */
  function Check(s: State, arrival: Arrival, now: nat): State {
    var t := if arrival.New? then s.(showing := Arrive(s.showing, arrival.item, now)) else s;
    var u := Present(t, now);
    if EndsEarly(t.showing, now) then u else Fade(u, now)
  }

  /** MSG_RESET_MESSAGE_QUEUE. */
  function ResetQueue(s: State): State {
    State([], [], s.calls + [Reset])
  }

  datatype Message = CheckSpu(arrival: Arrival, now: nat) | ResetMessage

  function Step(s: State, m: Message): State {
    match m
    case CheckSpu(arrival, now) => Check(s, arrival, now)
    case ResetMessage => ResetQueue(s)
  }

  function Run(s: State, ms: seq<Message>): State
    decreases |ms|
  {
    if ms == [] then s else Step(Run(s, ms[..|ms| - 1]), ms[|ms| - 1])
  }

  const START := State([], [], [])
}
