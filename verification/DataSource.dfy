/** libsubtitle/utils/Segment.h, Segment.cpp and libsubtitle/io/ExternalDataSource.cpp: pushed buffers
    read back as one byte stream, with the byte count kept beside them. */
module DataSources {
  import opened Bytes
  import opened IpcFrames
  import opened Wrappers

  /** A pushed buffer and how far it has been read. Each item belongs to the queue or to the reader,
      never to both, so reading replaces the reader's item. */
  datatype BufferItem = BufferItem(data: seq<byte>, ptr: nat, remainSize: nat) {
    ghost predicate Valid() {
      ptr + remainSize == |data|
    }

    function Rest(): (r: seq<byte>)
      requires Valid()
      ensures |r| == remainSize
    {
      data[ptr..]
    }
  }

  function NewItem(data: seq<byte>): (item: BufferItem)
    ensures item.Valid() && item.Rest() == data
  {
    BufferItem(data, 0, |data|)
  }

  /** read_l: moves the longest prefix of the rest that fits in size bytes to dst at off. */
  method ReadL(item: BufferItem, dst: array<byte>, off: nat, size: nat) returns (needRead: nat, item': BufferItem)
    requires item.Valid() && off + size <= dst.Length
    modifies dst
    ensures item'.Valid() && item'.data == item.data
    ensures needRead == if size < item.remainSize then size else item.remainSize
    ensures item'.Rest() == item.Rest()[needRead..]
    ensures dst[..] == Patch(old(dst[..]), off, item.Rest()[..needRead])
  {
    if size == 0 || item.remainSize == 0 {
      assert dst[..] == Patch(dst[..], off, []);
      return 0, item;
    }
    needRead := if size > item.remainSize then item.remainSize else size;
    forall k | 0 <= k < needRead {
      dst[off + k] := item.data[item.ptr + k];
    }
    item' := item.(ptr := item.ptr + needRead, remainSize := item.remainSize - needRead);
  }

  ghost predicate Untouched(items: seq<BufferItem>) {
    forall i | 0 <= i < |items| :: items[i] == NewItem(items[i].data) && items[i].data != []
  }

  function Datas(items: seq<BufferItem>): seq<seq<byte>> {
    seq(|items|, i requires 0 <= i < |items| => items[i].data)
  }

  /** The bytes queued, in order. */
  function Queue(items: seq<BufferItem>): seq<byte> {
    Concat(Datas(items))
  }

  lemma QueueSnoc(items: seq<BufferItem>, item: BufferItem)
    ensures Queue(items + [item]) == Queue(items) + item.data
  {
    ConcatSnoc(Datas(items), item.data);
    assert Datas(items + [item]) == Datas(items) + [item.data];
  }

  lemma QueueCons(items: seq<BufferItem>)
    requires items != []
    ensures Queue(items) == items[0].data + Queue(items[1..])
  {
    assert Datas(items)[1..] == Datas(items[1..]);
  }

  lemma EmptyQueue()
    ensures Queue([]) == [] && Concat([]) == []
  {
  }

  lemma TakeFirst(items: seq<BufferItem>)
    requires Untouched(items) && items != []
    ensures Untouched(items[1..]) && items[0] == NewItem(items[0].data) && items[0].data != []
    ensures Queue(items) == items[0].data + Queue(items[1..])
  {
    QueueCons(items);
  }

  class BufferSegment {
    var segments: seq<BufferItem>
    var availableDataSize: int
    var enabled: bool

    ghost predicate Valid()
      reads this
    {
      && Untouched(segments)
      && (enabled ==> availableDataSize == |Queue(segments)|)
    }

    constructor ()
      ensures Valid() && segments == [] && enabled
    {
      segments, availableDataSize, enabled := [], 0, true;
    }

    method Push(data: seq<byte>) returns (ok: bool)
      requires Valid()
      modifies this
      ensures Valid() && enabled == old(enabled)
      ensures ok <==> data != []
      ensures segments == if ok then old(segments) + [NewItem(data)] else old(segments)
      ensures Queue(segments) == old(Queue(segments)) + data
    {
      if |data| <= 0 {
        return false;
      }
      var item := NewItem(data);
      QueueSnoc(segments, item);
      segments := segments + [item];
      availableDataSize := availableDataSize + |data|;
      return true;
    }

    method NotifyExit()
      requires Valid()
      modifies this
      ensures Valid() && !enabled && segments == old(segments)
    {
      enabled := false;
      availableDataSize := 0;
    }

    /** The front item, once there is one. While the list is empty the caller sleeps; arrivals are
        the buffers other threads push meanwhile, and when they run out the source is stopped. A disabled
        queue does not wait. */
    method Pop(arrivals: seq<seq<byte>>) returns (item: Option<BufferItem>, used: nat)
      requires Valid()
      modifies this
      ensures Valid() && used <= |arrivals|
      ensures if old(enabled) then item.Some? <==> enabled
              else !enabled && used == 0 && (item.Some? <==> old(segments) != [])
      ensures item.Some? ==>
                && item.value == NewItem(item.value.data) && item.value.data != []
                && (used > 0 || |segments| < |old(segments)|)
      ensures (if item.Some? then item.value.data else []) + Queue(segments)
           == old(Queue(segments)) + Concat(arrivals[..used])
      ensures item.None? ==>
                && segments == [] && Queue([]) == []
                && (old(enabled) ==> used == |arrivals| && old(Queue(segments)) + Concat(arrivals) == [])
      ensures old(segments) != [] ==> used == 0
    {
      hide Queue, Concat;
      EmptyQueue();
      used := 0;
      assert arrivals[..0] == [];
      while segments == [] && enabled
        invariant Valid() && used <= |arrivals|
        invariant Queue(segments) == old(Queue(segments)) + Concat(arrivals[..used])
        invariant old(segments) != [] ==> used == 0
        invariant used == 0 ==> segments == old(segments)
        invariant if old(enabled) then !enabled ==> segments == [] && used == |arrivals| else !enabled && used == 0
        decreases |arrivals| - used, enabled
      {
        if used == |arrivals| {
          NotifyExit();
        } else {
          ConcatSnoc(arrivals[..used], arrivals[used]);
          assert arrivals[..used + 1] == arrivals[..used] + [arrivals[used]];
          Assoc(old(Queue(segments)), Concat(arrivals[..used]), arrivals[used]);
          var _ := Push(arrivals[used]);
          used := used + 1;
        }
      }
      if segments == [] {
        assert used == |arrivals| ==> arrivals[..used] == arrivals;
        return None, used;
      }
      TakeFirst(segments);
      item := Some(segments[0]);
      segments := segments[1..];
      availableDataSize := availableDataSize - |item.value.data|;
    }
  }

  datatype SourceState = Invalid | Started | Stopped

  function CString(s: seq<byte>): seq<byte> {
    if s == [] || s[0] == 0 then [] else [s[0]] + CString(s[1..])
  }

  /** A language is the bytes up to the first zero, or all of them. */
  lemma {:induction false} CStringExactly(s: seq<byte>) returns (n: nat)
    ensures n <= |s| && CString(s) == s[..n] && (forall i | 0 <= i < n :: s[i] != 0) && (n < |s| ==> s[n] == 0)
  {
    n := 0;
    if s != [] && s[0] != 0 {
      var m := CStringExactly(s[1..]);
      n := m + 1;
      assert s[..n] == [s[0]] + s[1..][..m];
    }
  }

  class ExternalDataSource {
    var totalSubtitle: int
    var subtitleType: int
    var language: seq<byte>
    var renderTimeUs: nat
    var startPts: nat
    const segment: BufferSegment
    var currentItem: Option<BufferItem>
    var state: SourceState

    ghost predicate Valid()
      reads this, segment
    {
      && segment.Valid()
      && (currentItem.Some? ==> currentItem.value.Valid())
      && (state.Stopped? ==> !segment.enabled)
    }

    /** Started, and not after a stop. */
    predicate Running()
      reads this, segment
    {
      state.Started? && segment.enabled
    }

    function Current(): seq<byte>
      requires currentItem.Some? ==> currentItem.value.Valid()
      reads this
    {
      if currentItem.None? then [] else currentItem.value.Rest()
    }

    /** The bytes pushed and not yet read. */
    ghost function Stream(): seq<byte>
      requires Valid()
      reads this, segment
    {
      Current() + Queue(segment.segments)
    }

    constructor ()
      ensures Valid() && Stream() == [] && state == Invalid
      ensures totalSubtitle == -1 && subtitleType == -1 && fresh(segment) && segment.enabled
    {
      totalSubtitle, subtitleType, language, renderTimeUs, startPts := -1, -1, [], 0, 0;
      segment := new BufferSegment();
      currentItem := None;
      state := Invalid;
    }

    /** After a stop the queue stays disabled. */
    method Start()
      requires Valid()
      modifies this`state
      ensures Valid() && state == Started && Stream() == old(Stream())
    {
      state := Started;
    }

    method Stop()
      requires Valid()
      modifies this`state, segment
      ensures Valid() && state == Stopped && !segment.enabled && Stream() == old(Stream())
    {
      state := Stopped;
      segment.NotifyExit();
    }

    /** availableDataSize: until the source is stopped, exactly the bytes pushed and not yet read. */
    method AvailableDataSize() returns (size: int)
      requires Valid() && segment.enabled
      ensures size == |Stream()|
    {
      size := 0;
      size := size + segment.availableDataSize;
      if currentItem.Some? {
        size := size + currentItem.value.remainSize;
      }
    }

    /** Fills dst at off with the next size bytes of the stream, sleeping for arrivals while it runs
        dry; short only when the source is stopped. After a stop and a start it does not sleep but spins, and
        comes back only if enough arrives. */
    method Read(dst: array<byte>, off: nat, size: nat, arrivals: seq<seq<byte>>) returns (read: nat, used: nat)
      requires Valid() && off + size <= dst.Length
      requires state.Started? && !segment.enabled ==> size <= |Stream() + Concat(arrivals)|
      modifies this`currentItem, this`state, segment, dst
      ensures Valid() && used <= |arrivals|
      ensures !old(state.Started?) ==> read == 0 && used == 0 && Stream() == old(Stream()) && state == old(state)
      ensures old(state.Started?) ==>
                var s := old(Stream()) + Concat(arrivals);
                && read == (if size < |s| then size else |s|)
                && dst[..] == Patch(old(dst[..]), off, s[..read])
                && Stream() + Concat(arrivals[used..]) == s[read..]
                && (if read == size then state.Started? else state.Stopped?)
      ensures size <= |old(Stream())| ==> used == 0
      ensures state.Started? ==> segment.enabled == old(segment.enabled)
    {
      read, used := 0, 0;
      if state.Started? {
        read, used := ReadWhileStarted(dst, off, size, arrivals);
      }
    }

    method ReadWhileStarted(dst: array<byte>, off: nat, size: nat, arrivals: seq<seq<byte>>)
        returns (read: nat, used: nat)
      requires Valid() && off + size <= dst.Length && state.Started?
      requires !segment.enabled ==> size <= |Stream() + Concat(arrivals)|
      modifies this`currentItem, this`state, segment, dst
      ensures Valid() && used <= |arrivals|
      ensures state.Started? ==> segment.enabled == old(segment.enabled)
      ensures var s := old(Stream()) + Concat(arrivals);
              && read == (if size < |s| then size else |s|)
              && dst[..] == Patch(old(dst[..]), off, s[..read])
              && Stream() + Concat(arrivals[used..]) == s[read..]
              && (if read == size then state.Started? else state.Stopped?)
      ensures size <= |old(Stream())| ==> used == 0
    {
      read, used := 0, 0;
      ghost var was := dst[..];
      ghost var s := Stream() + Concat(arrivals);
      ghost var got, todo := [], s;
      assert arrivals[0..] == arrivals;
      assert was == Patch(was, off, []);
      hide Concat, Stream, Valid, Patch;
      while read != size && state.Started?
        invariant Valid() && used <= |arrivals| && |got| == read <= size
        invariant dst[..] == Patch(was, off, got)
        invariant Stream() + Concat(arrivals[used..]) == todo && s == got + todo
        invariant used > 0 ==> |old(Stream())| < size
        invariant state.Started? || (state.Stopped? && todo == [] && read != size)
        invariant state.Started? ==> segment.enabled == old(segment.enabled)
        decreases state.Started?, |arrivals| - used, |segment.segments|, size - read
      {
        ghost var bytes;
        read, bytes, used := ReadStep(dst, off, size, read, arrivals, used, was, got);
        got, todo := MoveOver(got, todo, bytes, Stream() + Concat(arrivals[used..]));
      }
      SplitAt(s, got, todo);
    }

    /** One turn of the read loop: bytes from the current item, or the next item. */
    method ReadStep(dst: array<byte>, off: nat, size: nat, read: nat, arrivals: seq<seq<byte>>, used: nat,
                    ghost was: seq<byte>, ghost got: seq<byte>)
        returns (read': nat, ghost bytes: seq<byte>, used': nat)
      requires Valid() && off + size <= dst.Length && read < size && used <= |arrivals| && state.Started?
      requires |was| == dst.Length && |got| == read && dst[..] == Patch(was, off, got)
      requires segment.enabled || Stream() + Concat(arrivals[used..]) != []
      modifies this`currentItem, this`state, segment, dst
      ensures Valid() && read' == read + |bytes| <= size && used <= used' <= |arrivals|
      ensures dst[..] == Patch(was, off, got + bytes)
      ensures old(Stream()) + Concat(arrivals[used..]) == bytes + (Stream() + Concat(arrivals[used'..]))
      ensures old(Stream()) != [] ==> used' == used
      ensures if state.Started? then
                || used' > used
                || (used' == used && |segment.segments| < |old(segment.segments)|)
                || (used' == used && segment.segments == old(segment.segments) && bytes != [])
              else state.Stopped? && bytes == [] && Stream() + Concat(arrivals[used'..]) == []
      ensures state.Started? ==> segment.enabled == old(segment.enabled)
    {
      hide Concat, Stream, Valid, Patch;
      read', bytes, used' := read, [], used;
      if currentItem.Some? && currentItem.value.remainSize != 0 {
        var n;
        n, bytes := ReadCurrent(dst, off + read, size - read);
        PatchPatch(was, off, got, bytes);
        read' := read + n;
        Assoc(bytes, Stream(), Concat(arrivals[used..]));
      } else {
        var n := NextItem(arrivals[used..]);
        assert arrivals[used..][n..] == arrivals[used + n..];
        used' := used + n;
        assert got + [] == got;
      }
    }

    /** The current item supplies what it can. */
    method ReadCurrent(dst: array<byte>, at: nat, room: nat) returns (n: nat, ghost bytes: seq<byte>)
      requires Valid() && currentItem.Some? && currentItem.value.remainSize != 0
      requires at + room <= dst.Length && room > 0
      modifies this`currentItem, dst
      ensures Valid() && 0 < |bytes| == n <= room
      ensures dst[..] == Patch(old(dst[..]), at, bytes) && old(Stream()) == bytes + Stream()
    {
      hide Patch, Queue;
      ghost var rest, queued := Current(), Queue(segment.segments);
      var item;
      n, item := ReadL(currentItem.value, dst, at, room);
      currentItem := Some(item);
      bytes := rest[..n];
      Assoc(bytes, rest[n..], queued);
    }

    /** The current item is used up: the next one is popped, or the source stops. On a disabled queue the loop
        comes round again, and meanwhile a buffer is pushed. */
    method NextItem(arrivals: seq<seq<byte>>) returns (n: nat)
      requires Valid() && state.Started? && (currentItem.None? || currentItem.value.remainSize == 0)
      requires segment.enabled || Stream() + Concat(arrivals) != []
      modifies this`currentItem, this`state, segment
      ensures Valid() && n <= |arrivals|
      ensures Stream() + Concat(arrivals[n..]) == old(Stream()) + Concat(arrivals)
      ensures if state.Started? then n > 0 || |segment.segments| < |old(segment.segments)|
              else state.Stopped? && Stream() + Concat(arrivals[n..]) == []
      ensures state.Started? ==> segment.enabled == old(segment.enabled)
      ensures old(Stream()) != [] ==> n == 0
    {
      hide Concat, Queue, BufferSegment.Valid;
      var waits := segment.enabled;
      n := PopCurrent(arrivals);
      if currentItem.None? {
        if waits {
          state := Stopped;
        } else {
          n := PushWhileSpinning(arrivals);
        }
      }
    }

    method PopCurrent(arrivals: seq<seq<byte>>) returns (n: nat)
      requires Valid() && state.Started? && (currentItem.None? || currentItem.value.remainSize == 0)
      modifies this`currentItem, segment
      ensures segment.Valid() && (currentItem.Some? ==> currentItem.value.Valid()) && n <= |arrivals|
      ensures (Current() + Queue(segment.segments)) + Concat(arrivals[n..]) == old(Stream()) + Concat(arrivals)
      ensures currentItem.Some? ==> segment.enabled == old(segment.enabled)
      ensures currentItem.Some? ==> n > 0 || |segment.segments| < |old(segment.segments)|
      ensures currentItem.None? ==> !segment.enabled && Current() + Queue(segment.segments) == []
      ensures currentItem.None? ==> if old(segment.enabled) then Concat(arrivals[n..]) == [] else n == 0
      ensures old(Stream()) != [] ==> n == 0 && currentItem.Some?
    {
      ghost var queued := Queue(segment.segments);
      assert Stream() == queued && (segment.segments == [] ==> queued == []);
      hide Concat, Queue, Untouched, NewItem;
      currentItem, n := segment.Pop(arrivals);
      Reassociate(arrivals, n, queued, Current(), Queue(segment.segments));
    }

    method PushWhileSpinning(arrivals: seq<seq<byte>>) returns (n: nat)
      requires Valid() && !segment.enabled && currentItem.None? && Stream() == [] && Concat(arrivals) != []
      modifies segment
      ensures Valid() && !segment.enabled && n == 1 <= |arrivals|
      ensures Stream() + Concat(arrivals[n..]) == Concat(arrivals)
    {
      hide Queue;
      var _ := segment.Push(arrivals[0]);
      assert Stream() == arrivals[0];
      n := 1;
    }

    /** One message from the receiver, as onData sorts it. Fixed-size reports carry their field. */
    method OnData(buffer: seq<byte>)
      requires Valid() && WellSized(buffer)
      modifies this, segment
      ensures Valid() && state == old(state) && currentItem == old(currentItem)
      ensures segment.enabled == old(segment.enabled)
      ensures Stream() == old(Stream()) + Queued(Reported(old(totalSubtitle), old(subtitleType)), buffer)
      ensures totalSubtitle ==
              if PeekWord(buffer, 0) == SUBTITLE_TOTAL then Wrap32(PeekWord(buffer, 4)) else old(totalSubtitle)
      ensures subtitleType ==
              if PeekWord(buffer, 0) == SUBTITLE_TYPE then Wrap32(PeekWord(buffer, 4)) else old(subtitleType)
      ensures renderTimeUs ==
              if PeekWord(buffer, 0) == SUBTITLE_RENDER_TIME then LE(buffer[4..12]) else old(renderTimeUs)
      ensures startPts == if PeekWord(buffer, 0) == SUBTITLE_START_PTS then LE(buffer[4..12]) else old(startPts)
      ensures language == if PeekWord(buffer, 0) == SUBTITLE_LANG_STRING then CString(buffer[4..]) else old(language)
    {
      hide PeekWord, LE, Wrap32, CString;
      var kind := PeekWord(buffer, 0);
      assert Stream() + [] == Stream();
      if kind == SUBTITLE_RENDER_TIME {
        LongWord(buffer);
        renderTimeUs := PeekWord(buffer, 8) * TWO32 + PeekWord(buffer, 4);
      } else if kind == SUBTITLE_TOTAL {
        totalSubtitle := Wrap32(PeekWord(buffer, 4));
      } else if kind == SUBTITLE_START_PTS {
        LongWord(buffer);
        startPts := PeekWord(buffer, 8) * TWO32 + PeekWord(buffer, 4);
      } else if kind == SUBTITLE_TYPE {
        subtitleType := Wrap32(PeekWord(buffer, 4));
      } else if kind == SUBTITLE_DATA {
        if totalSubtitle != -1 || subtitleType != -1 {
          Enqueue(buffer[4..]);
        }
      } else if kind == SUBTITLE_LANG_STRING {
        language := CString(buffer[4..]);
      } else if kind == SUBTITLE_TYPE_STRING || kind == SUBTITLE_RESET_SERVER || kind == SUBTITLE_EXIT_SERVER {
      } else {
        Enqueue(buffer);
      }
    }

    method Enqueue(data: seq<byte>)
      requires Valid()
      modifies segment
      ensures Valid() && Stream() == old(Stream()) + data && segment.enabled == old(segment.enabled)
    {
      hide Queue;
      ghost var queued := Queue(segment.segments);
      var _ := segment.Push(data);
      assert Stream() == Current() + (queued + data);
    }
  }

  predicate Reported(totalSubtitle: int, subtitleType: int) {
    totalSubtitle != -1 || subtitleType != -1
  }

  predicate WellSized(buffer: seq<byte>) {
    && 4 <= |buffer|
    && (PeekWord(buffer, 0) in {SUBTITLE_TOTAL, SUBTITLE_TYPE} ==> 8 <= |buffer|)
    && (PeekWord(buffer, 0) in {SUBTITLE_RENDER_TIME, SUBTITLE_START_PTS} ==> 12 <= |buffer|)
  }

  /** What a message adds to the byte stream: subtitle data only once a track count or a type is
      known, and anything unrecognised whole. */
  function Queued(reported: bool, buffer: seq<byte>): seq<byte>
    requires 4 <= |buffer|
  {
    var kind := PeekWord(buffer, 0);
    if kind == SUBTITLE_DATA then (if reported then buffer[4..] else [])
    else if kind in {SUBTITLE_RENDER_TIME, SUBTITLE_TOTAL, SUBTITLE_START_PTS, SUBTITLE_TYPE, SUBTITLE_LANG_STRING,
                     SUBTITLE_TYPE_STRING, SUBTITLE_RESET_SERVER, SUBTITLE_EXIT_SERVER} then []
    else buffer
  }

  /** By number: data (0x504C4454) loses its type word and waits for a report; render time, total, start, type,
      language, type string, reset and exit add nothing; everything else is data as it stands. */
  lemma QueuedExactly(reported: bool, buffer: seq<byte>)
    requires 4 <= |buffer|
    ensures var kind := LE(buffer[..4]);
            Queued(reported, buffer) ==
            if kind == 0x504C_4454 then (if reported then buffer[4..] else [])
            else if kind in {0x5352_4454, 0x5354_4F54, 0x5350_5453, 0x5354_5950, 0x4C47_5352, 0x5450_5352,
                             0x4354_5244, 0x4344_4558} then []
            else buffer
  {
    hide PeekWord;
    PeekWordIsLE(buffer, 0);
  }

  lemma MoveOver(got: seq<byte>, todo: seq<byte>, bytes: seq<byte>, after: seq<byte>)
      returns (got': seq<byte>, todo': seq<byte>)
    requires todo == bytes + after
    ensures got' == got + bytes && todo' == after && got' + todo' == got + todo
  {
    got', todo' := got + bytes, after;
    Assoc(got, bytes, after);
  }

  lemma SplitAt(s: seq<byte>, got: seq<byte>, todo: seq<byte>)
    requires s == got + todo
    ensures got == s[..|got|] && todo == s[|got|..]
  {
  }

  lemma Reassociate(arrivals: seq<seq<byte>>, n: nat, queued: seq<byte>, data: seq<byte>, now: seq<byte>)
    requires n <= |arrivals| && data + now == queued + Concat(arrivals[..n])
    ensures (data + now) + Concat(arrivals[n..]) == queued + Concat(arrivals)
  {
    hide Concat;
    ConcatAppend(arrivals[..n], arrivals[n..]);
    assert arrivals == arrivals[..n] + arrivals[n..];
    Assoc(queued, Concat(arrivals[..n]), Concat(arrivals[n..]));
  }

  /** The two halves of a 64-bit field are one little-endian number. */
  lemma LongWord(buffer: seq<byte>)
    requires 12 <= |buffer|
    ensures PeekWord(buffer, 8) * TWO32 + PeekWord(buffer, 4) == LE(buffer[4..12])
  {
    PeekWordIsLE(buffer, 4);
    PeekWordIsLE(buffer, 8);
    LEConcat(buffer[4..8], buffer[8..12]);
    Pow256Values();
    assert buffer[4..12] == buffer[4..8] + buffer[8..12];
  }

  lemma {:induction false} LEConcat(a: seq<byte>, b: seq<byte>)
    ensures LE(a + b) == LE(a) + Pow256(|a|) * LE(b)
  {
    if a == [] {
      assert a + b == b;
    } else {
      assert (a + b)[1..] == a[1..] + b;
      LEConcat(a[1..], b);
      assert 256 * (Pow256(|a[1..]|) * LE(b)) == Pow256(|a|) * LE(b);
    }
  }
}
