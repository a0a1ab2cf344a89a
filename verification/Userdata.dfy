/** libsubtitle/io/Userdata.c: the linked reorder list and free list of caption nodes. */
module Userdatas {
  import opened Bytes
  import opened UserdataSpec

  class CCNode {
    var next: CCNode?
    var buf: seq<byte>       // the allocated buffer; its length is the capacity
    var size: nat
    var pts: int
    var ptsValid: bool
    var duration: int
    var poc: int
    ghost var arrival: nat

    constructor ()
      ensures next == null && buf == [] && size == 0 && poc == 0
    {
      next, buf, size, pts, ptsValid, duration, poc, arrival := null, [], 0, 0, false, 0, 0, 0;
    }

    ghost predicate Fits()
      reads this
    {
      size <= |buf| && size + 4 <= MAX_CC_DATA_LEN
    }

    ghost function Packet(): CCPacket
      requires Fits()
      reads this
    {
      CCPacket(buf[..size], pts, ptsValid, duration, poc, arrival)
    }
  }

  /** head leads through exactly the nodes of spine. */
  ghost predicate Linked(head: CCNode?, spine: seq<CCNode>)
    reads spine
  {
    && (if spine == [] then head == null else head == spine[0] && spine[|spine| - 1].next == null)
    && forall i {:trigger spine[i].next} | 0 <= i < |spine| - 1 :: spine[i].next == spine[i + 1]
  }

  ghost predicate Distinct<T>(s: seq<T>) {
    forall i, j | 0 <= i < j < |s| :: s[i] != s[j]
  }

  /** a and b share out the distinct things of all, each going to one of them. */
  ghost predicate Partition<T>(a: seq<T>, b: seq<T>, all: seq<T>) {
    Distinct(all) && multiset(a) + multiset(b) == multiset(all)
  }

  ghost predicate AllFit(nodes: seq<CCNode>)
    reads nodes
  {
    forall i | 0 <= i < |nodes| :: nodes[i].Fits()
  }

  ghost function Packets(nodes: seq<CCNode>): (ps: seq<CCPacket>)
    requires AllFit(nodes)
    reads nodes
    ensures |ps| == |nodes| && forall i | 0 <= i < |nodes| :: ps[i] == nodes[i].Packet()
  {
    seq(|nodes|, i requires 0 <= i < |nodes| && AllFit(nodes) reads nodes => nodes[i].Packet())
  }

  class Userdata {
    var ccList: CCNode?
    var freeList: CCNode?
    var ccNum: int
    var currPoc: int
    var currPts: int
    var currDuration: int
    var written: seq<seq<byte>>           // the buffers given to write_package, in order

    ghost var queue: seq<CCNode>          // the nodes on ccList
    ghost var spare: seq<CCNode>          // the nodes on freeList
    ghost var nodes: seq<CCNode>          // every node allocated and not yet freed
    ghost var accepted: seq<CCPacket>     // every packet added
    ghost var emitted: seq<CCPacket>      // every packet written
    ghost var start: Clocking             // the stamp state at the beginning

    /** cc leads through rest, both lists are acyclic, rest and the free list share out every node, and
        queued payloads lie in their buffers. */
    ghost predicate Lists(cc: CCNode?, rest: seq<CCNode>)
      reads this, rest, spare
    {
      Linked(cc, rest) && Linked(freeList, spare) && Partition(rest, spare, nodes) && AllFit(rest)
    }

    ghost function Repr(): set<CCNode>
      reads this
    {
      set n | n in nodes
    }

    ghost predicate Shape()
      reads this, queue, spare
    {
      Lists(ccList, queue) && ccNum == |queue|
    }

    /** What has been handed to write_package. */
    ghost function Outs(): Out
      reads this
    {
      Out(written, Clocking(currPts, currDuration), emitted)
    }

    ghost predicate Valid()
      reads this, queue, spare
    {
      Shape() && Ledger(Packets(queue), accepted, Outs(), start)
    }

    /** The stamp fields are left as malloc returns them. */
    constructor (unsetPts: int, unsetDuration: int)
      ensures Valid() && queue == [] && spare == [] && nodes == [] && accepted == [] && emitted == []
    {
      ccList, freeList, ccNum, currPoc := null, null, 0, -1;
      currPts, currDuration, written := unsetPts, unsetDuration, [];
      queue, spare, nodes, accepted, emitted := [], [], [], [], [];
      start := Clocking(unsetPts, unsetDuration);
    }

    /** aml_write_userdata on one node: the payload overwrites all but the low half of the stamp. */
    method WriteUserdata(cc: CCNode)
      requires cc.Fits()
      modifies this`currPts, this`currDuration, this`written, this`emitted
      ensures Outs() == Emit(old(Outs()), [cc.Packet()])
      ensures |written| == |old(written)| + 1 && written[..|old(written)|] == old(written)
      ensures var w := written[|old(written)|];
              && |w| == cc.size + 4 && w[4..] == cc.buf[..cc.size]
              && LE(w[..4]) == (if cc.ptsValid then cc.pts else old(currPts + currDuration)) % 0x1_0000_0000
      ensures currPts == (if cc.ptsValid then cc.pts else old(currPts + currDuration)) && currDuration == cc.duration
      ensures emitted == old(emitted) + [cc.Packet()]
    {
      hide Emit, Stamped;
      StampedBytes(Outs().stamps, cc.Packet());
      EmitOne(Outs(), cc.Packet());
      var pts := cc.pts;
      if !cc.ptsValid {
        pts := currPts + currDuration;
      }
      var withPts := WithPts(cc, pts);
      assert withPts == Stamped(Outs().stamps, cc.Packet()) by { StampedIs(Outs().stamps, cc.Packet()); }
      written := written + [withPts];
      currPts, currDuration := pts, cc.duration;
      emitted := emitted + [cc.Packet()];
    }

    /** The buffer the stamp and then the payload are copied to. */
    method WithPts(cc: CCNode, pts: int) returns (w: seq<byte>)
      requires cc.Fits()
      ensures w == LEBytes(pts, 4) + cc.buf[..cc.size]
    {
      var withPts := new byte[MAX_CC_DATA_LEN](_ => 0);
      var stamp := LEBytes(pts, 8);
      forall k | 0 <= k < 8 {
        withPts[k] := stamp[k];
      }
      forall k | 0 <= k < cc.size {
        withPts[4 + k] := cc.buf[k];
      }
      LEPrefix(pts, 8, 4);
      assert withPts[..4] == stamp[..4];
      assert withPts[4..4 + cc.size] == cc.buf[..cc.size];
      assert withPts[..4 + cc.size] == withPts[..4] + withPts[4..4 + cc.size];
      w := withPts[..cc.size + 4];
    }

    /** Puts a node on the free list. */
    method Recycle(cc: CCNode)
      requires Linked(freeList, spare) && cc !in spare
      modifies this`freeList, this`spare, cc`next
      ensures spare == [cc] + old(spare) && Linked(freeList, spare)
    {
      cc.next := freeList;
      freeList := cc;
      spare := [cc] + spare;
    }

    /** Takes the i-th node off the reorder list, leaving its own link as it was. */
    method Unlink(cc: CCNode, ghost i: nat)
      requires Linked(ccList, queue) && Distinct(queue) && i < |queue| && queue[i] == cc
      modifies this`ccList, this`queue, (if i > 0 then {queue[i - 1]} else {})`next
      ensures queue == Without(old(queue), i) && Linked(ccList, queue)
    {
      if cc == ccList {
        ccList := cc.next;
      } else {
        var tmp := ccList;
        ghost var j := 0;
        while tmp != null
          invariant j < i && tmp == queue[j]
          invariant Linked(ccList, queue) && ccList == old(ccList)
          decreases i - j
        {
          if tmp.next == cc {
            tmp.next := cc.next;
            break;
          }
          tmp := tmp.next;
          j := j + 1;
        }
      }
      queue := Without(queue, i);
    }

    /** A node goes from the reorder list to the free list; only links change. */
    method MoveToFree(cc: CCNode, ghost i: nat)
      requires Linked(ccList, queue) && Linked(freeList, spare) && i < |queue| && queue[i] == cc
      requires Distinct(queue) && forall n | n in queue :: n !in spare
      modifies this`ccList, this`freeList, this`queue, this`spare, cc`next, (if i > 0 then {queue[i - 1]} else {})`next
      ensures Linked(ccList, queue) && Linked(freeList, spare)
      ensures queue == Without(old(queue), i) && spare == [cc] + old(spare)
    {
      assert cc in queue && (i > 0 ==> queue[i - 1] in queue);
      NotWithout(queue, i);
      Unlink(cc, i);
      Recycle(cc);
    }

    /** The same for a written packet, with the count. */
    method Retire(cc: CCNode, ghost i: nat)
      requires Shape() && i < |queue| && queue[i] == cc
      modifies this`ccList, this`freeList, this`ccNum, this`queue, this`spare, cc`next,
               (if i > 0 then {queue[i - 1]} else {})`next
      ensures Shape()
      ensures queue == Without(old(queue), i) && Packets(queue) == Without(old(Packets(queue)), i)
    {
      hide Distinct, Packets, Without, Partition, Linked;
      DistinctParts(queue, spare, nodes);
      MovePart(queue, i, spare, nodes);
      PacketsWithout(queue, i);
      ccNum := ccNum - 1;
      MoveToFree(cc, i);
      SamePackets(queue);
    }

    /** Writes the i-th packet and retires its node. */
    method EmitAt(cc: CCNode, ghost i: nat)
      requires Shape() && i < |queue| && queue[i] == cc
      modifies this`ccList, this`freeList, this`ccNum, this`queue, this`spare,
               this`currPts, this`currDuration, this`written, this`emitted, Repr()
      ensures Shape()
      ensures queue == Without(old(queue), i) && Packets(queue) == Without(old(Packets(queue)), i)
      ensures Outs() == Emit(old(Outs()), [old(Packets(queue))[i]])
    {
      hide Linked, Partition, Emit, Without;
      InNodes(queue, spare, nodes);
      assert cc in queue && (i > 0 ==> queue[i - 1] in queue);
      WriteUserdata(cc);
      Retire(cc, i);
    }

    /** aml_flush_cc_data */
    method FlushCCData()
      requires Shape()
      modifies this`ccList, this`freeList, this`ccNum, this`queue, this`spare, this`currPoc,
               this`currPts, this`currDuration, this`written, this`emitted, Repr()
      ensures Shape() && queue == [] && currPoc == -1
      ensures Outs() == Emit(old(Outs()), old(Packets(queue)))
      ensures old(Valid()) ==> Valid()
    {
      hide Linked, Partition, Emit, Packets, Ledger;
      FlushLedger(Packets(queue), accepted, Outs(), start);
      var cc := ccList;
      ghost var rest, done, all := queue, [], Packets(queue);
      ghost var outs := Outs();
      EmitEmit(outs, [], []);
      ListsFit(cc, rest);
      InNodes(queue, spare, nodes);
      while cc != null
        invariant Lists(cc, rest) && AllFit(rest) && (cc != null <==> rest != []) && (cc != null ==> cc in rest)
        invariant nodes == old(nodes) && forall n | n in rest :: n in nodes
        invariant done + Packets(rest) == all
        invariant Outs() == Emit(outs, done)
        decreases |rest|
      {
        cc, rest, done := FlushOne(cc, rest, outs, done);
        ListsFit(cc, rest);
      }
      NoPackets();
      assert done + [] == done;
      assert cc == null && rest == [];
      Forget();
    }

    /** The reorder list's last node is gone. */
    method Forget()
      requires Lists(null, [])
      modifies this`ccList, this`queue, this`ccNum, this`currPoc
      ensures Shape() && queue == [] && currPoc == -1
      ensures Outs() == old(Outs())
    {
      ccList := null;
      ccNum := 0;
      currPoc := -1;
      queue := [];
    }

    lemma ListsFit(cc: CCNode?, rest: seq<CCNode>)
      requires Lists(cc, rest)
      ensures AllFit(rest) && (cc != null <==> rest != []) && (cc != null ==> cc in rest)
    {
    }

    method FlushOne(cc: CCNode, ghost rest: seq<CCNode>, ghost outs: Out, ghost done: seq<CCPacket>)
        returns (ncc: CCNode?, ghost rest': seq<CCNode>, ghost done': seq<CCPacket>)
      requires rest != [] && Lists(cc, rest) && Outs() == Emit(outs, done)
      modifies this`freeList, this`spare, this`currPts, this`currDuration, this`written, this`emitted, cc
      ensures rest' == rest[1..] && Lists(ncc, rest')
      ensures AllFit(rest') && done' + Packets(rest') == done + old(Packets(rest))
      ensures Outs() == Emit(outs, done')
    {
      hide Partition, Emit, Linked, Packets;
      NoneLinked(cc, rest);
      PacketsCons(rest);
      rest', done' := rest[1..], done + [cc.Packet()];
      EmitEmit(outs, done, [cc.Packet()]);
      Assoc(done, [cc.Packet()], Packets(rest'));
      WriteUserdata(cc);
      ncc := DropHead(cc, rest);
    }

    /** The head's node goes to the free list, on the whole of both lists. */
    method DropHead(cc: CCNode, ghost rest: seq<CCNode>) returns (ncc: CCNode?)
      requires rest != [] && Lists(cc, rest)
      modifies this`freeList, this`spare, cc`next
      ensures Lists(ncc, rest[1..]) && Packets(rest[1..]) == old(Packets(rest[1..]))
    {
      hide Partition, Linked, Packets, Distinct, Without;
      DistinctParts(rest, spare, nodes);
      MovePart(rest, 0, spare, nodes);
      NoneLinked(cc, rest);
      DropFirst(rest);
      PacketsCons(rest);
      ncc := HeadToFree(cc, rest);
      SamePackets(rest[1..]);
    }

    /** The head of a list goes to the free list; the list continues at its successor. */
    method HeadToFree(cc: CCNode, ghost rest: seq<CCNode>) returns (ncc: CCNode?)
      requires Linked(cc, rest) && Linked(freeList, spare) && rest != []
      requires Distinct(rest) && forall n | n in rest :: n !in spare
      modifies this`freeList, this`spare, cc`next
      ensures Linked(ncc, rest[1..]) && Linked(freeList, spare) && spare == [cc] + old(spare)
    {
      assert cc in rest && cc !in rest[1..];
      ncc := cc.next;
      Recycle(cc);
    }

    /** Where aml_add_cc_data's scan stops, and the node before it. */
    method FindPlace(pts: int, poc: int, ghost p: CCPacket) returns (prev: CCNode?, cc: CCNode?, ghost i: nat)
      requires Shape() && p.pts == pts && p.poc == poc
      ensures i == InsertIndex(Packets(queue), p)
      ensures prev == (if i == 0 then null else queue[i - 1]) && cc == (if i == |queue| then null else queue[i])
    {
      hide Partition, Linked, StopsAt;
      prev, cc, i := null, ccList, 0;
      NoneLinked(ccList, queue);
      while cc != null
        invariant i <= |queue|
        invariant prev == if i == 0 then null else queue[i - 1]
        invariant cc == if i == |queue| then null else queue[i]
        invariant forall j | 0 <= j < i :: !StopsAt(Packets(queue)[j], p)
        decreases |queue| - i
      {
        NextOnList(ccList, queue, i);
        StopTest(cc, p);
        if cc.pts == pts {
          if cc.poc > poc {
            break;
          }
        } else if cc.pts > pts {
          break;
        }
        prev := cc;
        cc := cc.next;
        i := i + 1;
      }
      StopIndex(Packets(queue), p, i);
    }

    /** A node to fill: the head of the free list, or a new one. */
    method TakeNode() returns (cc: CCNode)
      requires Shape()
      modifies this`freeList, this`spare, this`nodes
      ensures cc in old(Repr()) || fresh(cc)
      ensures Linked(freeList, spare) && Partition([cc] + queue, spare, nodes)
      ensures fresh(Repr() - old(Repr()))
    {
      hide Partition, Linked;
      NoneLinked(freeList, spare);
      InNodes(queue, spare, nodes);
      TakeSpare(queue, spare, nodes);
      if freeList != null {
        cc := freeList;
        NextLinked(cc, spare);
        freeList := cc.next;
        spare := spare[1..];
      } else {
        NotAmong(queue, spare, nodes);
        cc := new CCNode();
        AddNew(cc, queue, spare, nodes);
        nodes := nodes + [cc];
      }
    }

    /** Links a filled node in before cc. */
    method LinkIn(node: CCNode, prev: CCNode?, cc: CCNode?, ghost i: nat)
      requires Linked(ccList, queue) && i <= |queue| && Distinct([node] + queue)
      requires prev == (if i == 0 then null else queue[i - 1]) && cc == (if i == |queue| then null else queue[i])
      modifies this`ccList, this`queue, node`next, (if i > 0 then {queue[i - 1]} else {})`next
      ensures queue == Splice(old(queue), i, node) && Linked(ccList, queue)
    {
      NotIn(node, queue);
      node.next := cc;
      if prev == null {
        ccList := node;
      } else {
        prev.next := node;
      }
      queue := Splice(queue, i, node);
    }

    /** Fills a node with a packet, growing its buffer only when it is too small. */
    method FillNode(node: CCNode, poc: int, p: seq<byte>, pts: int, ptsValid: bool, duration: int, ghost arrival: nat)
      requires |p| + 4 <= MAX_CC_DATA_LEN
      modifies node`buf, node`size, node`poc, node`pts, node`ptsValid, node`duration, node`arrival
      ensures node.Fits() && node.Packet() == CCPacket(p, pts, ptsValid, duration, poc, arrival)
    {
      if |node.buf| < |p| {
        node.buf := p;
      } else {
        node.buf := p + node.buf[|p|..];
      }
      node.size := |p|;
      node.poc := poc;
      node.pts := pts;
      node.ptsValid := ptsValid;
      node.duration := duration;
      node.arrival := arrival;
    }

    /** A node holding the packet, off both lists. */
    method TakeFilled(poc: int, p: seq<byte>, pts: int, ptsValid: bool, duration: int, ghost arrival: nat)
        returns (node: CCNode)
      requires Shape() && |p| + 4 <= MAX_CC_DATA_LEN
      modifies this`freeList, this`spare, this`nodes, Repr()
      ensures node in old(Repr()) || fresh(node)
      ensures node.Fits() && node.Packet() == CCPacket(p, pts, ptsValid, duration, poc, arrival)
      ensures Linked(ccList, queue) && AllFit(queue) && Packets(queue) == old(Packets(queue))
      ensures Linked(freeList, spare) && Partition([node] + queue, spare, nodes)
      ensures fresh(Repr() - old(Repr()))
    {
      hide Linked, Partition, Packets;
      DistinctParts(queue, spare, nodes);
      node := TakeNode();
      DistinctParts([node] + queue, spare, nodes);
      NotIn(node, queue);
      assert node in [node] + queue && node !in spare;
      FillNode(node, poc, p, pts, ptsValid, duration, arrival);
      SamePackets(queue);
    }

    /** The filled node goes on the list. */
    method PlaceNode(node: CCNode, prev: CCNode?, cc: CCNode?, ghost i: nat)
      requires Linked(ccList, queue) && Linked(freeList, spare) && AllFit(queue) && node.Fits()
      requires Partition([node] + queue, spare, nodes) && i <= |queue| && ccNum == |queue|
      requires prev == (if i == 0 then null else queue[i - 1]) && cc == (if i == |queue| then null else queue[i])
      modifies this`ccList, this`queue, this`ccNum, node`next, (if i > 0 then {queue[i - 1]} else {})`next
      ensures Shape()
      ensures queue == Splice(old(queue), i, node)
      ensures Packets(queue) == old(Splice(Packets(queue), i, node.Packet()))
    {
      hide Linked, Partition, Packets, Splice;
      DistinctParts([node] + queue, spare, nodes);
      assert ([node] + queue)[0] == node && (i > 0 ==> ([node] + queue)[i] == queue[i - 1]);
      assert node in [node] + queue && (i > 0 ==> queue[i - 1] in [node] + queue);
      InsertPart(node, queue, i, spare, nodes);
      PacketsInsert(queue, node, i);
      ghost var q := Splice(queue, i, node);
      ccNum := ccNum + 1;
      LinkIn(node, prev, cc, i);
      SamePackets(q);
    }

    /** A packet is put on the list at its place. */
    method InsertPacket(poc: int, p: seq<byte>, pts: int, ptsValid: bool, duration: int, ghost arrival: nat)
      requires Shape() && |p| + 4 <= MAX_CC_DATA_LEN
      modifies this`ccList, this`freeList, this`ccNum, this`queue, this`spare, this`nodes, Repr()
      ensures Shape()
      ensures Packets(queue) == Insert(old(Packets(queue)), CCPacket(p, pts, ptsValid, duration, poc, arrival))
      ensures fresh(Repr() - old(Repr()))
    {
      hide Linked, Partition, Packets, InsertIndex, CCNode.Packet;
      var prev, cc, i := FindPlace(pts, poc, CCPacket(p, pts, ptsValid, duration, poc, arrival));
      InNodes(queue, spare, nodes);
      assert i > 0 ==> queue[i - 1] in queue;
      var node := TakeFilled(poc, p, pts, ptsValid, duration, arrival);
      PlaceNode(node, prev, cc, i);
    }

    /** aml_add_cc_data */
    method AddCCData(poc: int, p: seq<byte>, pts: int, ptsValid: bool, duration: int)
      requires Valid() && |p| + 4 <= MAX_CC_DATA_LEN
      modifies this, Repr()
      ensures Valid() && start == old(start)
      ensures accepted == old(accepted) + [CCPacket(p, pts, ptsValid, duration, poc, |old(accepted)|)]
      ensures Packets(queue) == Add(old(Packets(queue)), accepted[|accepted| - 1]).queue
      ensures Outs() == Emit(old(Outs()), Add(old(Packets(queue)), accepted[|accepted| - 1]).emitted)
      ensures |old(emitted)| <= |emitted| && emitted[..|old(emitted)|] == old(emitted)
      ensures Added(old(Packets(queue)), accepted[|accepted| - 1], emitted[|old(emitted)|..], Packets(queue))
      ensures fresh(Repr() - old(Repr()))
    {
      hide Linked, Partition, Packets, Emit, Add, Ledger, Added;
      ghost var pk := CCPacket(p, pts, ptsValid, duration, poc, |accepted|);
      LedgerAdd(Packets(queue), accepted, Outs(), start, pk);
      LedgerBound(Packets(queue), accepted, Outs(), start);
      LedgerAddExactly(Packets(queue), accepted, Outs(), start, pk);
      AddPacket(poc, p, pts, ptsValid, duration, pk);
      accepted := accepted + [pk];
    }

    method AddPacket(poc: int, p: seq<byte>, pts: int, ptsValid: bool, duration: int, ghost pk: CCPacket)
      requires Shape() && |queue| <= MAX_CC_NUM && |p| + 4 <= MAX_CC_DATA_LEN
      requires pk == CCPacket(p, pts, ptsValid, duration, poc, pk.arrival)
      modifies this`ccList, this`freeList, this`ccNum, this`queue, this`spare, this`nodes, this`currPoc,
               this`currPts, this`currDuration, this`written, this`emitted, Repr()
      ensures Shape()
      ensures Packets(queue) == Add(old(Packets(queue)), pk).queue
      ensures Outs() == Emit(old(Outs()), Add(old(Packets(queue)), pk).emitted)
      ensures fresh(Repr() - old(Repr()))
    {
      hide Linked, Partition, Packets, Emit, MakeRoom, Restart, Insert;
      ghost var q, outs := Packets(queue), Outs();
      MakeRoomFor();
      RestartFor(poc, pk);
      EmitEmit(outs, MakeRoom(q).emitted, Restart(MakeRoom(q).queue, pk).emitted);
      InsertPacket(poc, p, pts, ptsValid, duration, pk.arrival);
    }

    method MakeRoomFor()
      requires Shape() && |queue| <= MAX_CC_NUM
      modifies this`ccList, this`freeList, this`ccNum, this`queue, this`spare,
               this`currPts, this`currDuration, this`written, this`emitted, Repr()
      ensures Shape() && Packets(queue) == MakeRoom(old(Packets(queue))).queue
      ensures Outs() == Emit(old(Outs()), MakeRoom(old(Packets(queue))).emitted)
    {
      hide Linked, Partition, Packets, Emit;
      EmitEmit(Outs(), [], []);
      if ccNum >= MAX_CC_NUM {
        HeadOf(ccList, queue);
        EmitAt(ccList, 0);
      }
    }

    method RestartFor(poc: int, ghost pk: CCPacket)
      requires Shape() && pk.poc == poc
      modifies this`ccList, this`freeList, this`ccNum, this`queue, this`spare, this`currPoc,
               this`currPts, this`currDuration, this`written, this`emitted, Repr()
      ensures Shape() && Packets(queue) == Restart(old(Packets(queue)), pk).queue
      ensures Outs() == Emit(old(Outs()), Restart(old(Packets(queue)), pk).emitted)
    {
      hide Linked, Partition, Packets, Emit;
      EmitEmit(Outs(), [], []);
      HeadOf(ccList, queue);
      if ccList != null && poc < ccList.poc - POC_RESTART {
        FlushCCData();
        NoPackets();
      }
    }

    /** aml_h264_userdata_package: the packet is added, then the list is scanned against the clock,
        whose k-th reading during the call is clock(k). */
    method H264UserdataPackage(poc: int, p: seq<byte>, pts: int, ptsValid: bool, duration: int, clock: nat -> int)
      requires Valid() && |p| + 4 <= MAX_CC_DATA_LEN
      modifies this, Repr()
      ensures Valid() && start == old(start)
      ensures accepted == old(accepted) + [CCPacket(p, pts, ptsValid, duration, poc, |old(accepted)|)]
      ensures var a := Add(old(Packets(queue)), accepted[|accepted| - 1]);
              var e := Release(a.queue, 0, clock, 0).0;
              Packets(queue) == e.queue && Outs() == Emit(old(Outs()), a.emitted + e.emitted)
      ensures fresh(Repr() - old(Repr()))
    {
      hide Linked, Partition, Packets, Emit, Add, Ledger, Release;
      ghost var outs := Outs();
      ghost var pk := CCPacket(p, pts, ptsValid, duration, poc, |accepted|);
      ghost var a := Add(Packets(queue), pk);
      AddCCData(poc, p, pts, ptsValid, duration);
      ghost var e := Release(a.queue, 0, clock, 0).0;
      ReleaseLedger(a.queue, accepted, Outs(), start, clock);
      EmitEmit(outs, a.emitted, e.emitted);
      ReleaseBy(clock);
    }

    /** The scan: a packet the clock has passed is written and the scan starts over. */
    method ReleaseBy(clock: nat -> int)
      requires Shape()
      modifies this`ccList, this`freeList, this`ccNum, this`queue, this`spare, this`currPoc,
               this`currPts, this`currDuration, this`written, this`emitted, Repr()
      ensures Shape()
      ensures var e := Release(old(Packets(queue)), 0, clock, 0).0;
              Packets(queue) == e.queue && Outs() == Emit(old(Outs()), e.emitted)
    {
      hide Linked, Partition, Packets, Emit, Release, Continues;
      ghost var outs, done := Outs(), [];
      ghost var target := Release(Packets(queue), 0, clock, 0).0;
      ScanEnd(target, [], Packets(queue), clock, 0);
      EmitEmit(outs, [], []);
      HeadOf(ccList, queue);
      var cc := ccList;
      ghost var i: nat := 0;
      var k: nat := 0;
      while cc != null
        invariant Shape() && i <= |queue| && nodes == old(nodes)
        invariant cc == if i == |queue| then null else queue[i]
        invariant Outs() == Emit(outs, done)
        invariant Continues(target, done, Packets(queue), i, clock, k)
        decreases |queue|, |queue| - i
      {
        cc, i, done := ScanTurn(cc, clock(k), i, target, outs, done, clock, k);
        k := k + 1;
      }
      ScanEnd(target, done, Packets(queue), clock, k);
    }

    /** One node of the scan, against one reading of the clock. */
    method ScanTurn(cc: CCNode, reading: int, ghost i: nat, ghost target: Effect, ghost outs: Out,
                    ghost done: seq<CCPacket>, ghost clock: nat -> int, ghost k: nat)
        returns (cc': CCNode?, ghost i': nat, ghost done': seq<CCPacket>)
      requires Shape() && i < |queue| && cc == queue[i] && reading == clock(k)
      requires Outs() == Emit(outs, done) && Continues(target, done, Packets(queue), i, clock, k)
      modifies this`ccList, this`freeList, this`ccNum, this`queue, this`spare, this`currPoc,
               this`currPts, this`currDuration, this`written, this`emitted, Repr()
      ensures Shape() && i' <= |queue| && cc' == if i' == |queue| then null else queue[i']
      ensures Outs() == Emit(outs, done') && Continues(target, done', Packets(queue), i', clock, k + 1)
      ensures |queue| < |old(queue)| || (queue == old(queue) && i' == i + 1)
    {
      hide Linked, Partition, Packets, Emit, Continues, Without;
      ScanStep(target, done, Packets(queue), i, clock, k);
      if reading > cc.pts {
        ghost var x := Packets(queue)[i];
        EmitEmit(outs, done, [x]);
        done' := done + [x];
        var poc := cc.poc;
        EmitAt(cc, i);
        currPoc := poc;
        HeadOf(ccList, queue);
        cc', i' := ccList, 0;
      } else {
        NextOnList(ccList, queue, i);
        cc', i', done' := cc.next, i + 1, done;
      }
    }

    /** The node-freeing loops of aml_close: both lists, in turn. */
    method Close() returns (freed: seq<CCNode>)
      requires Valid()
      ensures Distinct(freed) && multiset(freed) == multiset(nodes)
    {
      hide Linked, Packets, Ledger;
      freed := FreeFrom(ccList, queue, []);
      freed := FreeFrom(freeList, spare, freed);
      assert freed == queue + spare;
      SameThings(freed, nodes);
    }

    /** One of the two loops: each node's link is read before the node is freed. */
    method FreeFrom(head: CCNode?, ghost spine: seq<CCNode>, before: seq<CCNode>) returns (freed: seq<CCNode>)
      requires Linked(head, spine)
      ensures freed == before + spine
    {
      hide Linked;
      freed := before;
      var cc := head;
      ghost var rest := spine;
      NoneLinked(cc, rest);
      while cc != null
        invariant Linked(cc, rest) && before + spine == freed + rest && (cc == null <==> rest == [])
        decreases |rest|
      {
        var next := cc.next;
        NextLinked(cc, rest);
        freed := freed + [cc];
        rest := rest[1..];
        cc := next;
        NoneLinked(cc, rest);
      }
    }
  }

  /** Distinctness depends only on how often each thing occurs. */
  lemma SameThings<T>(a: seq<T>, b: seq<T>)
    requires Distinct(b) && multiset(a) == multiset(b)
    ensures Distinct(a)
  {
    forall i, j | 0 <= i < j < |a|
      ensures a[i] != a[j]
    {
      CountedOnce(b, a[i]);
      CountedTwice(a, i, j);
    }
  }

  /** The rest of the scan from here gives the target. */
  ghost predicate Continues(target: Effect, done: seq<CCPacket>, q: seq<CCPacket>, i: nat, clock: nat -> int, k: nat) {
    i <= |q| && target == Effect(done + Release(q, i, clock, k).0.emitted, Release(q, i, clock, k).0.queue)
  }

  lemma ScanStep(target: Effect, done: seq<CCPacket>, q: seq<CCPacket>, i: nat, clock: nat -> int, k: nat)
    requires Continues(target, done, q, i, clock, k) && i < |q|
    ensures if clock(k) > q[i].pts then Continues(target, done + [q[i]], Without(q, i), 0, clock, k + 1)
            else Continues(target, done, q, i + 1, clock, k + 1)
  {
    if clock(k) > q[i].pts {
      Assoc(done, [q[i]], Release(Without(q, i), 0, clock, k + 1).0.emitted);
    }
  }

  lemma ScanEnd(target: Effect, done: seq<CCPacket>, q: seq<CCPacket>, clock: nat -> int, k: nat)
    ensures Continues(target, done, q, |q|, clock, k) ==> target == Effect(done, q)
    ensures Continues(Release(q, 0, clock, 0).0, [], q, 0, clock, 0)
  {
    assert done + [] == done;
    assert [] + Release(q, 0, clock, 0).0.emitted == Release(q, 0, clock, 0).0.emitted;
  }

  lemma ReleaseLedger(q: seq<CCPacket>, accepted: seq<CCPacket>, outs: Out, start: Clocking, clock: nat -> int)
    requires Ledger(q, accepted, outs, start)
    ensures var e := Release(q, 0, clock, 0).0;
            Ledger(e.queue, accepted, Emit(outs, e.emitted), start)
  {
    hide Emit, Sorted;
    LedgerSorted(q, accepted, outs, start);
    ReleaseConserves(q, 0, clock, 0);
    LedgerMove(q, accepted, outs, start, Release(q, 0, clock, 0).0);
  }

  lemma FlushLedger(q: seq<CCPacket>, accepted: seq<CCPacket>, outs: Out, start: Clocking)
    ensures Ledger(q, accepted, outs, start) ==> Ledger([], accepted, Emit(outs, q), start)
  {
    if Ledger(q, accepted, outs, start) {
      LedgerMove(q, accepted, outs, start, Effect(q, []));
    }
  }

  lemma LedgerSorted(q: seq<CCPacket>, accepted: seq<CCPacket>, outs: Out, start: Clocking)
    requires Ledger(q, accepted, outs, start)
    ensures Sorted(q)
  {
  }

  lemma InNodes<T>(a: seq<T>, b: seq<T>, all: seq<T>)
    requires Partition(a, b, all)
    ensures (forall x | x in a :: x in all) && (forall x | x in b :: x in all)
  {
    forall x | x in a
      ensures x in all
    {
      assert multiset(all)[x] == multiset(a)[x] + multiset(b)[x];
    }
    forall x | x in b
      ensures x in all
    {
      assert multiset(all)[x] == multiset(a)[x] + multiset(b)[x];
    }
  }

  lemma LedgerBound(q: seq<CCPacket>, accepted: seq<CCPacket>, outs: Out, start: Clocking)
    requires Ledger(q, accepted, outs, start)
    ensures |q| <= MAX_CC_NUM
  {
  }

  lemma DropFirst<T>(s: seq<T>)
    requires s != []
    ensures Without(s, 0) == s[1..]
  {
  }

  lemma HeadOf(head: CCNode?, spine: seq<CCNode>)
    requires Linked(head, spine) && AllFit(spine)
    ensures head == null <==> spine == []
    ensures head != null ==> head == spine[0] && head.Packet() == Packets(spine)[0]
    ensures spine != [] ==> Without(Packets(spine), 0) == Packets(spine)[1..]
  {
  }

  lemma InsertPart<T>(x: T, s: seq<T>, i: nat, t: seq<T>, all: seq<T>)
    requires i <= |s| && Partition([x] + s, t, all)
    ensures Partition(Splice(s, i, x), t, all)
    ensures forall y | y in Splice(s, i, x) :: y == x || y in s
  {
    assert s == s[..i] + s[i..];
    assert multiset([x] + s) == multiset{x} + multiset(s[..i] + s[i..]);
  }

  lemma PacketsInsert(nodes: seq<CCNode>, node: CCNode, i: nat)
    requires i <= |nodes| && AllFit(nodes) && node.Fits()
    ensures AllFit(Splice(nodes, i, node))
    ensures Packets(Splice(nodes, i, node)) == Splice(Packets(nodes), i, node.Packet())
  {
  }

  lemma NotIn<T>(x: T, s: seq<T>)
    requires Distinct([x] + s)
    ensures x !in s && Distinct(s)
  {
    var t := [x] + s;
    forall j | 0 <= j < |s|
      ensures s[j] != x
    {
      assert t[0] != t[j + 1];
    }
    forall i, j | 0 <= i < j < |s|
      ensures s[i] != s[j]
    {
      assert t[i + 1] != t[j + 1];
    }
  }

  lemma TakeSpare<T>(a: seq<T>, b: seq<T>, all: seq<T>)
    requires Partition(a, b, all)
    ensures b != [] ==> Partition([b[0]] + a, b[1..], all)
  {
    if b != [] {
      assert b == [b[0]] + b[1..];
    }
  }

  lemma NextOnList(head: CCNode?, spine: seq<CCNode>, i: nat)
    requires Linked(head, spine) && i < |spine|
    ensures spine[i].next == if i + 1 < |spine| then spine[i + 1] else null
  {
  }

  lemma StopTest(cc: CCNode, p: CCPacket)
    requires cc.Fits()
    ensures StopsAt(cc.Packet(), p) <==> if cc.pts == p.pts then cc.poc > p.poc else cc.pts > p.pts
  {
  }

  lemma NotAmong<T>(a: seq<T>, b: seq<T>, all: seq<T>)
    requires Partition(a, b, all)
    ensures forall x | x in all :: x in a || x in b
  {
    forall x | x in all
      ensures x in a || x in b
    {
      assert multiset(all)[x] == multiset(a)[x] + multiset(b)[x];
    }
  }

  lemma NextLinked(head: CCNode, spine: seq<CCNode>)
    requires Linked(head, spine)
    ensures spine != [] && head == spine[0] && Linked(head.next, spine[1..])
  {
  }

  lemma PacketsCons(nodes: seq<CCNode>)
    requires AllFit(nodes) && nodes != []
    ensures AllFit(nodes[1..]) && nodes[0].Packet() == Packets(nodes)[0]
    ensures Packets(nodes) == [Packets(nodes)[0]] + Packets(nodes[1..])
  {
  }

  lemma AddNew<T>(x: T, a: seq<T>, b: seq<T>, all: seq<T>)
    requires Partition(a, b, all)
    ensures x !in all ==> Partition([x] + a, b, all + [x])
  {
  }

  lemma NoneLinked(head: CCNode?, spine: seq<CCNode>)
    ensures Linked(head, spine) ==> (head == null <==> spine == [])
    ensures Linked(head, spine) && head != null ==> head == spine[0] && head in spine
    ensures Linked(null, [])
  {
  }

  lemma NoPackets()
    ensures AllFit([]) && Packets([]) == []
  {
  }

  lemma {:induction false} StopIndex(q: seq<CCPacket>, p: CCPacket, i: nat)
    requires i <= |q| && (i < |q| ==> StopsAt(q[i], p))
    requires forall j | 0 <= j < i :: !StopsAt(q[j], p)
    ensures i == InsertIndex(q, p)
    decreases i
  {
    if i > 0 {
      StopIndex(q[1..], p, i - 1);
    }
  }

  ghost function Without<T>(s: seq<T>, i: nat): (r: seq<T>)
    requires i < |s|
    ensures |r| == |s| - 1
  {
    s[..i] + s[i + 1..]
  }

  lemma MovePart<T>(s: seq<T>, i: nat, t: seq<T>, all: seq<T>)
    requires i < |s| && Partition(s, t, all)
    ensures Partition(Without(s, i), [s[i]] + t, all)
    ensures |Without(s, i)| == |s| - 1 && forall x | x in Without(s, i) :: x in s
  {
    assert s == s[..i] + [s[i]] + s[i + 1..];
  }

  lemma NotWithout<T>(s: seq<T>, i: nat)
    requires i < |s| && Distinct(s)
    ensures s[i] in s && s[i] !in Without(s, i)
  {
  }

  lemma PacketsWithout(nodes: seq<CCNode>, i: nat)
    requires i < |nodes| && AllFit(nodes)
    ensures AllFit(Without(nodes, i)) && Packets(Without(nodes, i)) == Without(Packets(nodes), i)
  {
  }

  /** Relinking leaves the packets alone. */
  twostate lemma SamePackets(nodes: seq<CCNode>)
    requires old(AllFit(nodes))
    requires forall n | n in nodes ::
               && n.buf == old(n.buf) && n.size == old(n.size) && n.pts == old(n.pts) && n.ptsValid == old(n.ptsValid)
               && n.duration == old(n.duration) && n.poc == old(n.poc) && n.arrival == old(n.arrival)
    ensures AllFit(nodes) && Packets(nodes) == old(Packets(nodes))
  {
  }

  /** Two lists that share out distinct things hold each once. */
  lemma DistinctParts<T>(a: seq<T>, b: seq<T>, all: seq<T>)
    requires Partition(a, b, all)
    ensures Distinct(a) && Distinct(b) && forall x | x in a :: x !in b
  {
    forall i, j | 0 <= i < j < |a|
      ensures a[i] != a[j]
    {
      CountedOnce(all, a[i]);
      CountedTwice(a, i, j);
    }
    forall i, j | 0 <= i < j < |b|
      ensures b[i] != b[j]
    {
      CountedOnce(all, b[i]);
      CountedTwice(b, i, j);
    }
    forall x | x in a
      ensures x !in b
    {
      CountedOnce(all, x);
      assert multiset(a)[x] >= 1;
    }
  }

  lemma CountedTwice<T>(s: seq<T>, i: nat, j: nat)
    requires i < j < |s|
    ensures s[i] == s[j] ==> multiset(s)[s[i]] >= 2
  {
    assert s == s[..i] + [s[i]] + s[i + 1..j] + [s[j]] + s[j + 1..];
  }

  lemma {:induction false} CountedOnce<T>(s: seq<T>, x: T)
    requires Distinct(s)
    ensures multiset(s)[x] <= 1
  {
    if s != [] {
      assert s == [s[0]] + s[1..];
      CountedOnce(s[1..], x);
      if s[0] == x {
        assert x !in s[1..];
      }
    }
  }

  lemma {:induction false} LEPrefix(v: int, n: nat, k: nat)
    requires k <= n
    ensures LEBytes(v, n)[..k] == LEBytes(v, k)
    decreases n
  {
    if k > 0 {
      LEPrefix(v / 256, n - 1, k - 1);
    }
  }
}
