/** The filter table of libsubtitle/io/DemuxDriver.c and the descriptor slots of libsubtitle/io/Demux.c behind
    it, for one device: opening, closing, allocating, freeing, starting and stopping. */
module DemuxTables {

  const FILTERS := 32
  const NO_FD := -1
  const NO_HANDLE := -1

  const SUCCESS := 0
  const ERROR_BASE := 0x100_0000
  const INVALID_DEV_NO := ERROR_BASE + 1
  const INVALID_ID := ERROR_BASE + 2
  const NOT_ALLOCATED := ERROR_BASE + 4
  const CANNOT_CREATE_THREAD := ERROR_BASE + 5
  const CANNOT_OPEN_DEV := ERROR_BASE + 6
  const NO_FREE_FILTER := ERROR_BASE + 8
  const NO_MEM := ERROR_BASE + 9
  const SYSTEM_ERROR := ERROR_BASE + 11

  datatype Filter = Filter(used: bool, enable: bool, fd: int)

  /** The device: how often it is open, its filters, the driver's slots while it is open, and every descriptor
      opened and closed so far. */
  datatype State = State(count: nat, filters: seq<Filter>, slots: seq<int>, acquired: seq<int>, released: seq<int>)

  // ---- The operations on values -------------------------------------------------------------

  /** dmx_stop_filter: error codes are positive, so the filter counts as disabled even when stopping failed. */
  function Stop(f: Filter, stopped: bool): (Filter, int) {
    if !f.used || !f.enable then (f, SUCCESS)
    else (f.(enable := false), if stopped then SUCCESS else SYSTEM_ERROR)
  }

  /** dmx_free_filter of filter number id. */
  function Free(s: State, id: nat, stopped: bool): (State, int)
    requires id < |s.filters| && id < |s.slots|
  {
    var f := s.filters[id];
    var (f', ret) := Stop(f, stopped);
    if !f.used then (s, SUCCESS)
    else if ret != SUCCESS then (s.(filters := s.filters[id := f']), ret)
    else
      (s.(filters := s.filters[id := f'.(used := false)], slots := s.slots[id := NO_FD],
          released := s.released + [f.fd]), SUCCESS)
  }

  predicate Shaped(s: State) {
    |s.filters| == FILTERS && (s.count > 0 ==> |s.slots| == FILTERS)
  }

  /** The driver's outcome: memory for the descriptors, and the thread. */
  function AfterOpen(s: State, memory: bool, thread: bool): (State, int) {
    if s.count > 0 then (s.(count := s.count + 1), SUCCESS)
    else if !memory then (s, NO_MEM)
    else
      var t := s.(slots := seq(FILTERS, _ => NO_FD));
      if thread then (t.(count := 1), SUCCESS) else (t, CANNOT_CREATE_THREAD)
  }

  /** The frees of the last close, up to filter number k. */
  function FreeAll(s: State, k: nat, stopped: seq<bool>): State
    requires |s.filters| == |s.slots| == |stopped| == FILTERS && k <= FILTERS
    ensures var t := FreeAll(s, k, stopped); |t.filters| == |t.slots| == FILTERS && t.count == s.count
  {
    if k == 0 then s else Free(FreeAll(s, k - 1, stopped), k - 1, stopped[k - 1]).0
  }

  function AfterClose(s: State, stopped: seq<bool>): (State, int)
    requires Shaped(s) && |stopped| == FILTERS
  {
    if s.count == 0 then (s, INVALID_DEV_NO)
    else if s.count == 1 then (FreeAll(s, FILTERS, stopped).(count := 0, slots := []), SUCCESS)
    else (s.(count := s.count - 1), SUCCESS)
  }

  /** The first filter not in use, or the number of filters. */
  function FirstFree(filters: seq<Filter>, from: nat): (id: nat)
    requires from <= |filters|
    ensures from <= id <= |filters|
    ensures id < |filters| ==> !filters[id].used
    ensures forall k | from <= k < id :: filters[k].used
    decreases |filters| - from
  {
    if from == |filters| || !filters[from].used then from else FirstFree(filters, from + 1)
  }

  /** No handle is given out on an error; fd is what opening the device node gave. */
  function AfterAllocate(s: State, fd: int): (State, int, int)
    requires Shaped(s)
  {
    if s.count == 0 then (s, INVALID_DEV_NO, NO_HANDLE)
    else
      var id: int := FirstFree(s.filters, 0);
      if id >= FILTERS then (s, NO_FREE_FILTER, NO_HANDLE)
      else if fd == NO_FD then (s, CANNOT_OPEN_DEV, NO_HANDLE)
      else
        (s.(filters := s.filters[id := s.filters[id].(used := true, fd := fd)], slots := s.slots[id := fd],
            acquired := s.acquired + [fd]),
         SUCCESS, id)
  }

  function Check(s: State, handle: int): int
    requires Shaped(s)
  {
    if s.count == 0 then INVALID_DEV_NO
    else if handle < 0 || handle >= FILTERS then INVALID_ID
    else if !s.filters[handle].used then NOT_ALLOCATED
    else SUCCESS
  }

  function AfterFree(s: State, handle: int, stopped: bool): (State, int)
    requires Shaped(s)
  {
    if Check(s, handle) != SUCCESS then (s, Check(s, handle)) else Free(s, handle, stopped)
  }

  /** For an allocated handle; the source looks at the filter before it looks at the error. */
  function AfterStart(s: State, handle: int, started: bool): (State, int)
    requires Shaped(s) && (s.count > 0 ==> Check(s, handle) == SUCCESS)
  {
    if s.count == 0 then (s, INVALID_DEV_NO)
    else
      var f := s.filters[handle];
      if f.enable then (s, SUCCESS)
      else if started then (s.(filters := s.filters[handle := f.(enable := true)]), SUCCESS)
      else (s, SYSTEM_ERROR)
  }

  function AfterStop(s: State, handle: int, stopped: bool): (State, int)
    requires Shaped(s)
  {
    if Check(s, handle) != SUCCESS then (s, Check(s, handle))
    else
      var (f, ret) := Stop(s.filters[handle], stopped);
      (s.(filters := s.filters[handle := f]), ret)
  }

  datatype Op =
    | OpenOp(memory: bool, thread: bool)
    | CloseOp(stopped: seq<bool>)
    | AllocateOp(fd: int)
    | FreeOp(handle: int, stoppedOne: bool)
    | StartOp(handle: int, started: bool)
    | StopOp(handle: int, stoppedOne: bool)

  predicate Legal(s: State, op: Op)
    requires Shaped(s)
  {
    match op
    case CloseOp(stopped) => |stopped| == FILTERS
    case StartOp(handle, _) => s.count > 0 ==> Check(s, handle) == SUCCESS
    case OpenOp(_, _) => true
    case AllocateOp(_) => true
    case FreeOp(_, _) => true
    case StopOp(_, _) => true
  }

  function Step(s: State, op: Op): (t: State)
    requires Shaped(s) && Legal(s, op)
    ensures Shaped(t)
  {
    match op
    case OpenOp(memory, thread) => AfterOpen(s, memory, thread).0
    case CloseOp(stopped) => AfterClose(s, stopped).0
    case AllocateOp(fd) => AfterAllocate(s, fd).0
    case FreeOp(handle, stopped) => AfterFree(s, handle, stopped).0
    case StartOp(handle, started) => AfterStart(s, handle, started).0
    case StopOp(handle, stopped) => AfterStop(s, handle, stopped).0
  }

  const CLOSED := State(0, seq(FILTERS, _ => Filter(false, false, 0)), [], [], [])

  // ---- What every operation keeps -----------------------------------------------------------

  predicate EnabledAreUsed(s: State) {
    forall i | 0 <= i < |s.filters| :: s.filters[i].enable ==> s.filters[i].used
  }

  /** While the device is open, a filter is in use exactly when its slot holds its descriptor. */
  predicate Coupled(s: State)
    requires Shaped(s)
  {
    s.count > 0 ==>
      forall i | 0 <= i < FILTERS ::
        (s.filters[i].used <==> s.slots[i] != NO_FD) && (s.filters[i].used ==> s.slots[i] == s.filters[i].fd)
  }

  predicate NoneUsed(s: State) {
    forall i | 0 <= i < |s.filters| :: !s.filters[i].used
  }

  /** The driver is opened anew over filters that an earlier close left behind. */
  predicate StaleOpen(s: State, op: Op) {
    op.OpenOp? && s.count == 0 && op.memory && op.thread && !NoneUsed(s)
  }

  lemma FreeKeeps(s: State, id: nat, stopped: bool)
    requires Shaped(s) && s.count > 0 && id < FILTERS
    ensures var t := Free(s, id, stopped).0;
            && Shaped(t) && t.count == s.count
            && (EnabledAreUsed(s) ==> EnabledAreUsed(t))
            && (Coupled(s) ==> Coupled(t))
  {
  }

  lemma {:induction false} FreeAllKeeps(s: State, k: nat, stopped: seq<bool>)
    requires Shaped(s) && s.count > 0 && |stopped| == FILTERS && k <= FILTERS
    ensures EnabledAreUsed(s) ==> EnabledAreUsed(FreeAll(s, k, stopped))
    ensures Coupled(s) ==> Coupled(FreeAll(s, k, stopped))
    ensures forall i | k <= i < FILTERS :: FreeAll(s, k, stopped).filters[i] == s.filters[i]
    ensures forall i | 0 <= i < k ::
              FreeAll(s, k, stopped).filters[i] ==
              if !s.filters[i].used then s.filters[i]
              else Filter(s.filters[i].enable && !stopped[i], false, s.filters[i].fd)
  {
    hide Coupled, EnabledAreUsed, Stop;
    if k > 0 {
      FreeAllKeeps(s, k - 1, stopped);
      FreeKeeps(FreeAll(s, k - 1, stopped), k - 1, stopped[k - 1]);
      FreeUses(FreeAll(s, k - 1, stopped), k - 1, stopped[k - 1]);
    }
  }

  lemma FreeUses(s: State, id: nat, stopped: bool)
    requires id < |s.filters| && id < |s.slots|
    ensures var t := Free(s, id, stopped).0;
            && |t.filters| == |s.filters|
            && t.filters[id] == (if !s.filters[id].used then s.filters[id]
                                 else Filter(s.filters[id].enable && !stopped, false, s.filters[id].fd))
            && (forall i | 0 <= i < |s.filters| && i != id :: t.filters[i] == s.filters[i])
  {
  }

  /** Enabled filters are in use, always. The coupling is kept by every operation but one. */
  lemma StepKeeps(s: State, op: Op)
    requires Shaped(s) && Legal(s, op)
    ensures EnabledAreUsed(s) ==> EnabledAreUsed(Step(s, op))
    ensures Coupled(s) ==> (Coupled(Step(s, op)) <==> !StaleOpen(s, op))
  {
    hide Free, FreeAll;
    match op
    case OpenOp(memory, thread) => OpenKeeps(s, memory, thread);
    case CloseOp(stopped) =>
      if s.count == 1 {
        FreeAllKeeps(s, FILTERS, stopped);
      }
    case FreeOp(handle, stopped) =>
      if Check(s, handle) == SUCCESS {
        FreeKeeps(s, handle, stopped);
      }
    case AllocateOp(fd) =>
    case StartOp(handle, started) =>
    case StopOp(handle, stopped) =>
  }

  lemma OpenKeeps(s: State, memory: bool, thread: bool)
    requires Shaped(s)
    ensures var t := AfterOpen(s, memory, thread).0;
            && (EnabledAreUsed(s) ==> EnabledAreUsed(t))
            && (Coupled(s) ==> (Coupled(t) <==> !StaleOpen(s, OpenOp(memory, thread))))
  {
    var t := AfterOpen(s, memory, thread).0;
    if StaleOpen(s, OpenOp(memory, thread)) {
      var i :| 0 <= i < FILTERS && s.filters[i].used;
      assert t.slots[i] == NO_FD;
    }
  }

  // ---- What each operation does -------------------------------------------------------------

  /** Only filter number id and its slot may differ. */
  predicate OthersKept(s: State, t: State, id: int) {
    && |t.filters| == |s.filters| && |t.slots| == |s.slots| && t.count == s.count
    && (forall i | 0 <= i < |s.filters| && i != id :: t.filters[i] == s.filters[i])
    && (forall i | 0 <= i < |s.slots| && i != id :: t.slots[i] == s.slots[i])
  }

  /** An open device holds a filter in use of that number. */
  predicate Allocated(s: State, handle: int) {
    s.count > 0 && 0 <= handle < |s.filters| && s.filters[handle].used
  }

  /** Every other handle is refused, with 1 while the device is closed, 2 for a number out of range and 4 for a
      filter not in use, above the base of the errors. */
  predicate Refused(s: State, handle: int, ret: int) {
    ret == if s.count == 0 then 0x100_0001 else if !(0 <= handle < 32) then 0x100_0002 else 0x100_0004
  }

  /** Freeing frees: an allocated filter that was not running, or whose stop succeeded, is no longer in use nor
      enabled, its descriptor closed and its slot -1. One whose stop failed stays, disabled, with its descriptor. */
  lemma FreeFrees(s: State, handle: int, stopped: bool)
    requires Shaped(s)
    ensures var (t, ret) := AfterFree(s, handle, stopped);
            if !Allocated(s, handle) then t == s && Refused(s, handle, ret)
            else
              && OthersKept(s, t, handle) && t.acquired == s.acquired
              && !t.filters[handle].enable && t.filters[handle].fd == s.filters[handle].fd
              && if s.filters[handle].enable && !stopped then
                   ret == 0x100_000B && t.filters[handle].used && t.slots == s.slots && t.released == s.released
                 else
                   && ret == 0 && !t.filters[handle].used && t.slots[handle] == -1
                   && t.released == s.released + [s.filters[handle].fd]
  {
  }

  /** Then the number can be given out again: the next allocation returns it or a lower one. */
  lemma FreedIsFree(s: State, handle: int, stopped: bool, fd: int)
    requires Shaped(s) && Allocated(s, handle) && (s.filters[handle].enable ==> stopped) && fd != -1
    ensures var (_, ret, next) := AfterAllocate(AfterFree(s, handle, stopped).0, fd);
            ret == 0 && 0 <= next <= handle
  {
    hide FirstFree;
    FreeFrees(s, handle, stopped);
  }

  /** The lowest unused filter is taken and holds the descriptor; with none left, without a descriptor or on a
      closed device nothing changes. */
  lemma AllocateTakes(s: State, fd: int)
    requires Shaped(s)
    ensures var (t, ret, handle) := AfterAllocate(s, fd);
            if s.count == 0 then t == s && ret == 0x100_0001 && handle == -1
            else if forall i | 0 <= i < 32 :: s.filters[i].used then t == s && ret == 0x100_0008 && handle == -1
            else if fd == -1 then t == s && ret == 0x100_0006 && handle == -1
            else
              && ret == 0 && 0 <= handle < 32 && OthersKept(s, t, handle)
              && !s.filters[handle].used && (forall i | 0 <= i < handle :: s.filters[i].used)
              && t.filters[handle] == Filter(true, s.filters[handle].enable, fd) && t.slots[handle] == fd
              && t.acquired == s.acquired + [fd] && t.released == s.released
  {
    hide FirstFree;
  }

  /** An allocated filter is enabled afterwards if it was or the driver started it; nothing else changes. */
  lemma StartEnables(s: State, handle: int, started: bool)
    requires Shaped(s) && (s.count > 0 ==> Allocated(s, handle))
    ensures Check(s, handle) == SUCCESS <==> Allocated(s, handle)
    ensures var (t, ret) := AfterStart(s, handle, started);
            if s.count == 0 then t == s && ret == 0x100_0001
            else
              && OthersKept(s, t, handle) && t.slots == s.slots && t.acquired == s.acquired && t.released == s.released
              && t.filters[handle].used && t.filters[handle].fd == s.filters[handle].fd
              && (t.filters[handle].enable <==> s.filters[handle].enable || started)
              && (ret == if s.filters[handle].enable || started then 0 else 0x100_000B)
  {
  }

  /** An allocated filter is not enabled afterwards, whether stopping it succeeded or not; nothing else changes. */
  lemma StopDisables(s: State, handle: int, stopped: bool)
    requires Shaped(s)
    ensures var (t, ret) := AfterStop(s, handle, stopped);
            if !Allocated(s, handle) then t == s && Refused(s, handle, ret)
            else
              && OthersKept(s, t, handle) && t.slots == s.slots && t.acquired == s.acquired && t.released == s.released
              && t.filters[handle] == Filter(true, false, s.filters[handle].fd)
              && (ret == if s.filters[handle].enable && !stopped then 0x100_000B else 0)
  {
  }

  /** An open device is only counted; a closed one gets slots of -1 and is open once if its thread starts. */
  lemma OpenCounts(s: State, memory: bool, thread: bool)
    requires Shaped(s)
    ensures var (t, ret) := AfterOpen(s, memory, thread);
            && t.filters == s.filters && t.acquired == s.acquired && t.released == s.released
            && if s.count > 0 then ret == 0 && t.count == s.count + 1 && t.slots == s.slots
               else if !memory then ret == 0x100_0009 && t == s
               else
                 && |t.slots| == 32 && (forall i | 0 <= i < 32 :: t.slots[i] == -1)
                 && t.count == (if thread then 1 else 0) && ret == (if thread then 0 else 0x100_0005)
  {
  }

  /** A device open more than once stays as it is; the last close frees every filter but those that were running
      and could not be stopped, and none is enabled any more. */
  lemma LastClose(s: State, stopped: seq<bool>)
    requires Shaped(s) && |stopped| == FILTERS
    ensures var (t, ret) := AfterClose(s, stopped);
            if s.count == 0 then t == s && ret == 0x100_0001
            else
              && ret == 0 && t.count == s.count - 1 && |t.filters| == 32
              && if s.count > 1 then t == s.(count := s.count - 1)
                 else
                   && t.slots == []
                   && forall i | 0 <= i < 32 ::
                        if !s.filters[i].used then t.filters[i] == s.filters[i]
                        else t.filters[i] == Filter(s.filters[i].enable && !stopped[i], false, s.filters[i].fd)
    ensures s.count == 1 ==> (NoneUsed(AfterClose(s, stopped).0) <==>
              forall i | 0 <= i < FILTERS :: s.filters[i].used && s.filters[i].enable ==> stopped[i])
  {
    hide FreeAll;
    if s.count == 1 {
      FreeAllKeeps(s, FILTERS, stopped);
    }
  }

  // ---- Runs ---------------------------------------------------------------------------------

  predicate LegalRun(s: State, ops: seq<Op>)
    requires Shaped(s)
    decreases |ops|
  {
    ops != [] ==> Legal(s, ops[0]) && LegalRun(Step(s, ops[0]), ops[1..])
  }

  /** The coupling holds in every state of the run. */
  predicate AlwaysCoupled(s: State, ops: seq<Op>)
    requires Shaped(s) && LegalRun(s, ops)
    decreases |ops|
  {
    Coupled(s) && (ops != [] ==> AlwaysCoupled(Step(s, ops[0]), ops[1..]))
  }

  predicate NeverStale(s: State, ops: seq<Op>)
    requires Shaped(s) && LegalRun(s, ops)
    decreases |ops|
  {
    ops != [] ==> !StaleOpen(s, ops[0]) && NeverStale(Step(s, ops[0]), ops[1..])
  }

  predicate AlwaysEnabledUsed(s: State, ops: seq<Op>)
    requires Shaped(s) && LegalRun(s, ops)
    decreases |ops|
  {
    EnabledAreUsed(s) && (ops != [] ==> AlwaysEnabledUsed(Step(s, ops[0]), ops[1..]))
  }

  /** Over every run, the filters in use are the descriptors held exactly when the device is never opened over
      filters that a close could not stop. */
  lemma {:induction false} RunCoupled(s: State, ops: seq<Op>)
    requires Shaped(s) && LegalRun(s, ops) && Coupled(s)
    ensures AlwaysCoupled(s, ops) <==> NeverStale(s, ops)
    decreases |ops|
  {
    hide Step, StaleOpen, Coupled, Legal;
    if ops != [] {
      StepKeeps(s, ops[0]);
      if !StaleOpen(s, ops[0]) {
        RunCoupled(Step(s, ops[0]), ops[1..]);
      } else if AlwaysCoupled(s, ops) {
        NotCoupled(Step(s, ops[0]), ops[1..]);
      }
    }
  }

  lemma NotCoupled(s: State, ops: seq<Op>)
    requires Shaped(s) && LegalRun(s, ops) && !Coupled(s)
    ensures !AlwaysCoupled(s, ops)
  {
    hide Coupled, Step;
  }

  lemma {:induction false} RunEnabledUsed(s: State, ops: seq<Op>)
    requires Shaped(s) && LegalRun(s, ops) && EnabledAreUsed(s)
    ensures AlwaysEnabledUsed(s, ops)
    decreases |ops|
  {
    hide Step, Legal, EnabledAreUsed;
    if ops != [] {
      StepKeeps(s, ops[0]);
      RunEnabledUsed(Step(s, ops[0]), ops[1..]);
    }
  }

  // ---- Descriptors and counts over runs -----------------------------------------------------

  function HeldBy(f: Filter): multiset<int> {
    if f.used then multiset{f.fd} else multiset{}
  }

  /** The descriptors of the filters in use. */
  function Held(filters: seq<Filter>): multiset<int> {
    if filters == [] then multiset{} else HeldBy(filters[0]) + Held(filters[1..])
  }

  lemma {:induction false} HeldUpdate(filters: seq<Filter>, id: nat, f: Filter)
    requires id < |filters|
    ensures Held(filters[id := f]) + HeldBy(filters[id]) == Held(filters) + HeldBy(f)
  {
    hide HeldBy;
    var g := filters[id := f];
    if id == 0 {
      assert g[1..] == filters[1..];
    } else {
      assert g[1..] == filters[1..][id - 1 := f] && g[0] == filters[0] && filters[1..][id - 1] == filters[id];
      HeldUpdate(filters[1..], id - 1, f);
      AddLeft(HeldBy(filters[0]), Held(g[1..]), HeldBy(filters[id]), Held(filters[1..]), HeldBy(f));
    }
  }

  lemma AddLeft(a: multiset<int>, b: multiset<int>, c: multiset<int>, d: multiset<int>, e: multiset<int>)
    requires b + c == d + e
    ensures (a + b) + c == (a + d) + e
  {
    assert (a + b) + c == a + (b + c) && (a + d) + e == a + (d + e);
  }

  lemma Balance(a: multiset<int>, a': multiset<int>, r: multiset<int>, r': multiset<int>, h: multiset<int>,
                h': multiset<int>, x: multiset<int>, y: multiset<int>)
    requires a == r + h && h' + x == h + y && a' + r + x == a + r' + y
    ensures a' == r' + h'
  {
    forall z: int
      ensures a'[z] == (r' + h')[z]
    {
      assert (h' + x)[z] == (h + y)[z] && (a' + r + x)[z] == (a + r' + y)[z] && a[z] == (r + h)[z];
    }
  }

  /** Every descriptor opened was closed, once, or belongs to a filter in use. */
  predicate Accounted(s: State) {
    multiset(s.acquired) == multiset(s.released) + Held(s.filters)
  }

  lemma UpdateAccounts(s: State, t: State, id: nat)
    requires id < |s.filters| && |t.filters| == |s.filters| && Accounted(s)
    requires t.filters == s.filters[id := t.filters[id]]
    requires multiset(t.acquired) + multiset(s.released) + HeldBy(s.filters[id]) ==
             multiset(s.acquired) + multiset(t.released) + HeldBy(t.filters[id])
    ensures Accounted(t)
  {
    hide Held, HeldBy;
    HeldUpdate(s.filters, id, t.filters[id]);
    Balance(multiset(s.acquired), multiset(t.acquired), multiset(s.released), multiset(t.released),
            Held(s.filters), Held(t.filters), HeldBy(s.filters[id]), HeldBy(t.filters[id]));
  }

  lemma FreeAccounts(s: State, id: nat, stopped: bool)
    requires Shaped(s) && s.count > 0 && id < FILTERS && Accounted(s)
    ensures Accounted(Free(s, id, stopped).0)
  {
    hide Held;
    var t := Free(s, id, stopped).0;
    assert t.filters == s.filters[id := t.filters[id]];
    assert multiset(s.released + [s.filters[id].fd]) == multiset(s.released) + multiset{s.filters[id].fd};
    UpdateAccounts(s, t, id);
  }

  lemma {:induction false} FreeAllAccounts(s: State, k: nat, stopped: seq<bool>)
    requires Shaped(s) && s.count > 0 && |stopped| == FILTERS && k <= FILTERS && Accounted(s)
    ensures Accounted(FreeAll(s, k, stopped))
  {
    hide Accounted, Free;
    if k > 0 {
      FreeAllAccounts(s, k - 1, stopped);
      FreeAccounts(FreeAll(s, k - 1, stopped), k - 1, stopped[k - 1]);
    }
  }

  lemma StepAccounts(s: State, op: Op)
    requires Shaped(s) && Legal(s, op) && Accounted(s)
    ensures Accounted(Step(s, op))
  {
    hide Free, FreeAll, Held;
    var t := Step(s, op);
    match op
    case OpenOp(memory, thread) =>
    case CloseOp(stopped) =>
      if s.count == 1 {
        FreeAllAccounts(s, FILTERS, stopped);
      }
    case AllocateOp(fd) =>
      var handle := AfterAllocate(s, fd).2;
      if handle >= 0 {
        AllocateTakes(s, fd);
        UpdateAccounts(s, t, handle);
      }
    case FreeOp(handle, stopped) =>
      if Check(s, handle) == SUCCESS {
        FreeAccounts(s, handle, stopped);
      }
    case StartOp(handle, started) =>
      if s.count > 0 {
        StartEnables(s, handle, started);
        UpdateAccounts(s, t, handle);
      }
    case StopOp(handle, stopped) =>
      if Check(s, handle) == SUCCESS {
        StopDisables(s, handle, stopped);
        UpdateAccounts(s, t, handle);
      }
  }

  function Steps(s: State, ops: seq<Op>): (t: State)
    requires Shaped(s) && LegalRun(s, ops)
    ensures Shaped(t)
    decreases |ops|
  {
    if ops == [] then s else Steps(Step(s, ops[0]), ops[1..])
  }

  /** Over every run no descriptor is lost and none is closed twice. */
  lemma {:induction false} RunAccounts(s: State, ops: seq<Op>)
    requires Shaped(s) && LegalRun(s, ops) && Accounted(s)
    ensures Accounted(Steps(s, ops))
    decreases |ops|
  {
    hide Step, Legal, Accounted;
    if ops != [] {
      StepAccounts(s, ops[0]);
      RunAccounts(Step(s, ops[0]), ops[1..]);
    }
  }

  /** How far an operation moves the count: up with every open of an open device or one whose driver opens, down
      with every close of an open device. */
  function Moves(count: nat, op: Op): int {
    match op
    case OpenOp(memory, thread) => if count > 0 || (memory && thread) then 1 else 0
    case CloseOp(_) => if count > 0 then -1 else 0
    case AllocateOp(_) => 0
    case FreeOp(_, _) => 0
    case StartOp(_, _) => 0
    case StopOp(_, _) => 0
  }

  function CountAfter(count: nat, ops: seq<Op>): nat
    decreases |ops|
  {
    if ops == [] then count else CountAfter(count + Moves(count, ops[0]), ops[1..])
  }

  /** The device is open as often as it was opened and not closed again, whatever else is done to it. */
  lemma {:induction false} RunCounts(s: State, ops: seq<Op>)
    requires Shaped(s) && LegalRun(s, ops)
    ensures Steps(s, ops).count == CountAfter(s.count, ops)
    decreases |ops|
  {
    hide Step, Legal;
    if ops != [] {
      StepCounts(s, ops[0]);
      RunCounts(Step(s, ops[0]), ops[1..]);
    }
  }

  lemma StepCounts(s: State, op: Op)
    requires Shaped(s) && Legal(s, op)
    ensures Step(s, op).count == s.count + Moves(s.count, op)
  {
    hide FirstFree;
  }

  /** A filter left over: open, allocate, start, close with a stop that fails, open again. It is in use and has
      no descriptor. */
  lemma LeftOver(fd: int)
    requires fd != NO_FD
    ensures var s1 := Step(CLOSED, OpenOp(true, true));
            var s2 := Step(s1, AllocateOp(fd));
            Legal(s2, StartOp(0, true)) &&
            var s3 := Step(s2, StartOp(0, true));
            var s4 := Step(s3, CloseOp(seq(FILTERS, _ => false)));
            var s5 := Step(s4, OpenOp(true, true));
            s5.count == 1 && s5.filters[0].used && s5.slots[0] == NO_FD && !Coupled(s5)
  {
    hide FreeAll;
    var s2 := Step(Step(CLOSED, OpenOp(true, true)), AllocateOp(fd));
    assert FirstFree(CLOSED.filters, 0) == 0;
    var s3 := Step(s2, StartOp(0, true));
    LastClose(s3, seq(FILTERS, _ => false));
  }

  // ---- The device ---------------------------------------------------------------------------

  class DemuxDevice {
    var openCount: nat
    const filters: array<Filter>
    /** The driver's descriptors, allocated when the driver is opened. */
    var slots: array?<int>
    ghost var acquired: seq<int>
    ghost var released: seq<int>

    ghost predicate Valid()
      reads this
    {
      filters.Length == FILTERS && (slots != null ==> slots.Length == FILTERS) && (openCount > 0 ==> slots != null)
    }

    ghost function Repr(): set<object>
      reads this
    {
      {this, filters} + (if slots == null then {} else {slots})
    }

    ghost function Abs(): State
      reads this, filters, slots
      requires Valid()
    {
      State(openCount, filters[..], if slots == null then [] else slots[..], acquired, released)
    }

    constructor ()
      ensures Valid() && fresh(Repr()) && Abs() == CLOSED
    {
      filters := new Filter[FILTERS](_ => Filter(false, false, 0));
      slots := null;
      openCount := 0;
      acquired, released := [], [];
      new;
      assert filters[..] == CLOSED.filters;
    }

    method Open(memory: bool, thread: bool) returns (ret: int)
      requires Valid()
      modifies this
      ensures Valid() && fresh(Repr() - old(Repr())) && (Abs(), ret) == AfterOpen(old(Abs()), memory, thread)
    {
      if openCount > 0 {
        openCount := openCount + 1;
        return SUCCESS;
      }
      if !memory {
        return NO_MEM;
      }
      slots := new int[FILTERS];
      var i := 0;
      while i < FILTERS
        invariant i <= FILTERS && slots != null && fresh(slots) && slots.Length == FILTERS
        invariant filters[..] == old(filters[..]) && openCount == 0
        invariant acquired == old(acquired) && released == old(released)
        invariant forall k | 0 <= k < i :: slots[k] == NO_FD
      {
        slots[i] := NO_FD;
        i := i + 1;
      }
      assert slots[..] == seq(FILTERS, _ => NO_FD);
      if !thread {
        return CANNOT_CREATE_THREAD;
      }
      openCount := 1;
      ret := SUCCESS;
    }

    method StopOne(id: nat, stopped: bool) returns (ret: int)
      requires Valid() && id < FILTERS
      modifies filters
      ensures Valid() && (filters[id], ret) == Stop(old(filters[id]), stopped)
      ensures filters[..] == old(filters[..])[id := filters[id]]
    {
      ret := SUCCESS;
      if !filters[id].used || !filters[id].enable {
        assert filters[..] == old(filters[..])[id := filters[id]];
        return;
      }
      ret := if stopped then SUCCESS else SYSTEM_ERROR;
      if ret >= 0 {
        filters[id] := filters[id].(enable := false);
      }
      assert filters[..] == old(filters[..])[id := filters[id]];
    }

    method FreeOne(id: nat, stopped: bool) returns (ret: int)
      requires Valid() && openCount > 0 && id < FILTERS
      modifies this`released, filters, slots
      ensures Valid() && (Abs(), ret) == Free(old(Abs()), id, stopped)
    {
      ret := SUCCESS;
      if !filters[id].used {
        return;
      }
      ret := StopOne(id, stopped);
      if ret == SUCCESS {
        released := released + [filters[id].fd];
        slots[id] := NO_FD;
      }
      if ret == SUCCESS {
        filters[id] := filters[id].(used := false);
        assert slots[..] == old(slots[..])[id := NO_FD];
      }
      assert filters[..] == old(filters[..])[id := filters[id]];
    }

    method Close(stopped: seq<bool>) returns (ret: int)
      requires Valid() && |stopped| == FILTERS
      modifies Repr()
      ensures Valid() && Repr() <= old(Repr()) && (Abs(), ret) == AfterClose(old(Abs()), stopped)
    {
      hide Free;
      if openCount <= 0 {
        return INVALID_DEV_NO;
      }
      ret := SUCCESS;
      if openCount == 1 {
        var i := 0;
        while i < FILTERS
          invariant i <= FILTERS && Valid() && openCount == 1 && slots == old(slots)
          invariant Abs() == FreeAll(old(Abs()), i, stopped)
        {
          var freed := FreeOne(i, stopped[i]);
          i := i + 1;
        }
        slots := null;
      }
      openCount := openCount - 1;
    }

    method AllocateFilter(fd: int) returns (ret: int, handle: int)
      requires Valid()
      modifies this`acquired, filters, slots
      ensures Valid() && (Abs(), ret, handle) == AfterAllocate(old(Abs()), fd)
    {
      if openCount <= 0 {
        return INVALID_DEV_NO, NO_HANDLE;
      }
      var fid := 0;
      assert |filters[..]| == FILTERS;
      while fid < FILTERS && filters[fid].used
        invariant fid <= FILTERS && FirstFree(filters[..], 0) == FirstFree(filters[..], fid)
      {
        fid := fid + 1;
      }
      if fid >= FILTERS {
        return NO_FREE_FILTER, NO_HANDLE;
      }
      if fd == NO_FD {
        return CANNOT_OPEN_DEV, NO_HANDLE;
      }
      assert FirstFree(filters[..], 0) == fid;
      acquired := acquired + [fd];
      slots[fid] := fd;
      filters[fid] := filters[fid].(fd := fd);
      filters[fid] := filters[fid].(used := true);
      assert filters[..] == old(filters[..])[fid := filters[fid]];
      assert slots[..] == old(slots[..])[fid := fd];
      ret, handle := SUCCESS, fid;
    }

    /** dmx_get_used_filter behind dmx_get_opened_dev. */
    method UsedFilter(handle: int) returns (ret: int)
      requires Valid()
      ensures ret == Check(Abs(), handle)
    {
      if openCount <= 0 {
        return INVALID_DEV_NO;
      }
      if handle < 0 || handle >= FILTERS {
        return INVALID_ID;
      }
      ret := if !filters[handle].used then NOT_ALLOCATED else SUCCESS;
    }

    method FreeFilter(handle: int, stopped: bool) returns (ret: int)
      requires Valid()
      modifies this`released, filters, slots
      ensures Valid() && (Abs(), ret) == AfterFree(old(Abs()), handle, stopped)
    {
      hide Free;
      ret := UsedFilter(handle);
      if ret == SUCCESS {
        ret := FreeOne(handle, stopped);
      }
    }

    method StartFilter(handle: int, started: bool) returns (ret: int)
      requires Valid() && (openCount > 0 ==> Check(Abs(), handle) == SUCCESS)
      modifies filters
      ensures Valid() && (Abs(), ret) == AfterStart(old(Abs()), handle, started)
    {
      if openCount <= 0 {
        return INVALID_DEV_NO;
      }
      ret := SUCCESS;
      if !filters[handle].enable {
        ret := if started then SUCCESS else SYSTEM_ERROR;
        if ret == SUCCESS {
          filters[handle] := filters[handle].(enable := true);
        }
      }
    }

    method StopFilter(handle: int, stopped: bool) returns (ret: int)
      requires Valid()
      modifies filters
      ensures Valid() && (Abs(), ret) == AfterStop(old(Abs()), handle, stopped)
    {
      ret := UsedFilter(handle);
      if ret == SUCCESS {
        if filters[handle].enable {
          ret := StopOne(handle, stopped);
        } else {
          assert filters[..][handle := filters[handle]] == filters[..];
        }
      }
    }
  }
}
