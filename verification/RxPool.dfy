/** The receive pool as the driver keeps it: two lists of packets linked in place, each changed by one
    statement after the other.  What interleaved statements do is the subject of PoolMachine. */
module RxPool {

  /** A packet buffer: its link, the first bytes of its data and whether it holds a cluster. */
  class Mbuf {
    var nextpkt: Mbuf?
    var data: seq<bv8>
    const cluster: bool

    constructor (cluster: bool)
      ensures nextpkt == null && data == [] && this.cluster == cluster
    {
      nextpkt, data := null, [];
      this.cluster := cluster;
    }
  }

  class PacketList {
    var head: Mbuf?
    var tail: Mbuf?
    var num: int
    const capacity: nat
    ghost var queue: seq<Mbuf>
    ghost var nodes: set<Mbuf>

    ghost predicate Valid()
      reads this, nodes
    {
      && (forall i :: 0 <= i < |queue| ==> queue[i] in nodes)
      && num == |queue|
      && (queue == [] <==> head == null)
      && (queue != [] ==> head == queue[0] && tail == queue[|queue| - 1])
      && (forall i, j :: 0 <= i < j < |queue| ==> queue[i] != queue[j])
      && (forall i :: 0 <= i < |queue| ==> queue[i].nextpkt == Follower(i))
    }

    ghost function Follower(i: nat): Mbuf?
      reads this
    {
      if i + 1 < |queue| then queue[i + 1] else null
    }

    constructor (capacity: nat)
      ensures Valid() && queue == [] && nodes == {} && this.capacity == capacity
    {
      head, tail, num, queue, nodes := null, null, 0, [], {};
      this.capacity := capacity;
    }

    /** Links a packet behind the tail; the first one becomes head and tail. */
    method Append(m: Mbuf)
      requires Valid() && m !in nodes && m.nextpkt == null
      modifies this, nodes
      ensures Valid() && queue == old(queue) + [m] && nodes == old(nodes) + {m}
    {
      if head != null {
        tail.nextpkt := m;
        tail := m;
        num := num + 1;
      } else {
        head, tail := m, m;
        num := 1;
      }
      queue, nodes := queue + [m], nodes + {m};
      forall i | 0 <= i < |queue| ensures queue[i].nextpkt == Follower(i) {
      }
    }

    /** The oldest packet, unless it is the last. */
    method TakeUnlessLast() returns (m: Mbuf?)
      requires Valid()
      modifies this, nodes
      ensures Valid() && nodes == old(nodes) - (if m != null then {m} else {})
      ensures old(num) > 1 ==> m in old(nodes) && m == old(queue[0]) && queue == old(queue[1..]) && m.nextpkt == null
      ensures old(num) <= 1 ==> m == null && queue == old(queue)
    {
      m := null;
      if num > 1 {
        m := TakeHead();
      }
    }

    predicate Low()
      reads this
    {
      num < capacity - capacity / 2
    }

    /** Unlinks the head of a list of two or more. */
    method TakeHead() returns (m: Mbuf)
      requires Valid() && |queue| > 1
      modifies this, nodes
      ensures Valid() && m in old(nodes) && nodes == old(nodes) - {m} && m == old(queue[0])
          && queue == old(queue[1..]) && m.nextpkt == null
    {
      num := num - 1;
      m := head;
      assert m.nextpkt == Follower(0);
      head := m.nextpkt;
      m.nextpkt := null;
      queue, nodes := queue[1..], nodes - {m};
      forall i | 0 <= i < |queue| ensures queue[i].nextpkt == Follower(i) {
        assert queue[i] == old(queue)[i + 1];
        assert old(queue[i + 1].nextpkt) == old(Follower(i + 1));
      }
    }
  }

  /** The packets a list still takes. */
  function Room(l: PacketList): nat
    reads l
  {
    if l.num < l.capacity then l.capacity - l.num else 0
  }

  function Min(a: nat, b: nat): nat { if a < b then a else b }

  /** Allocates packets and appends them, as long as there is room and memory. */
  method TopUp(l: PacketList, cluster: bool, available: nat) returns (left: nat)
    requires l.Valid() && forall m :: m in l.nodes ==> m.cluster == cluster
    modifies l, l.nodes
    ensures l.Valid() && forall m :: m in l.nodes ==> m.cluster == cluster
    ensures left == available - Min(available, old(Room(l)))
    ensures |l.queue| == |old(l.queue)| + Min(available, old(Room(l))) && old(l.queue) <= l.queue
    ensures old(l.nodes) <= l.nodes && fresh(l.nodes - old(l.nodes))
  {
    left := available;
    ghost var n := |l.queue|;
    ghost var room := Room(l);
    while l.num < l.capacity && left > 0
      invariant l.Valid() && |l.queue| == n + available - left && left <= available && n <= |l.queue|
      invariant available - left <= room && Room(l) == room - (available - left)
      invariant old(l.queue) <= l.queue && old(l.nodes) <= l.nodes && fresh(l.nodes - old(l.nodes))
      invariant forall m :: m in l.nodes ==> m.cluster == cluster
      decreases left
    {
      var m := new Mbuf(cluster);
      l.Append(m);
      left := left - 1;
    }
  }

  /** A new list with as many packets as it takes and memory allows. */
  method Filled(capacity: nat, cluster: bool, available: nat) returns (l: PacketList, left: nat)
    ensures l.Valid() && fresh(l) && fresh(l.nodes) && l.capacity == capacity
    ensures forall m :: m in l.nodes ==> m.cluster == cluster
    ensures |l.queue| == Min(available, capacity) && left == available - |l.queue|
  {
    l := new PacketList(capacity);
    left := TopUp(l, cluster, available);
  }

  class Pool {
    const mPkt: PacketList
    const cPkt: PacketList
    const maxCopySize: nat
    var refillScheduled: bool

    ghost predicate Valid()
      reads this, mPkt, cPkt, mPkt.nodes, cPkt.nodes
    {
      && mPkt != cPkt && mPkt.Valid() && cPkt.Valid() && mPkt.nodes !! cPkt.nodes
      && (forall m :: m in mPkt.nodes ==> !m.cluster) && (forall m :: m in cPkt.nodes ==> m.cluster)
    }

    /** Fills both lists, if memory lasts for all their packets; otherwise both end up empty. */
    constructor (mbufCapacity: nat, clustCapacity: nat, maxCopySize: nat, available: nat)
      requires mbufCapacity > 0 && clustCapacity > 0
      ensures Valid() && fresh(mPkt) && fresh(cPkt) && fresh(mPkt.nodes) && fresh(cPkt.nodes)
      ensures this.maxCopySize == maxCopySize && !refillScheduled
      ensures mPkt.capacity == mbufCapacity && cPkt.capacity == clustCapacity
      ensures mbufCapacity + clustCapacity <= available ==> |mPkt.queue| == mbufCapacity && |cPkt.queue| == clustCapacity
      ensures available < mbufCapacity + clustCapacity ==> mPkt.queue == [] && cPkt.queue == []
    {
      var small, left := Filled(mbufCapacity, false, available);
      var big := new PacketList(clustCapacity);
      if small.num == mbufCapacity {
        big, left := Filled(clustCapacity, true, left);
      }
      if small.num < mbufCapacity || big.num < clustCapacity {
        small := new PacketList(mbufCapacity);
        big := new PacketList(clustCapacity);
      }
      mPkt, cPkt := small, big;
      this.maxCopySize := maxCopySize;
      refillScheduled := false;
    }

    /** A packet for size bytes: a new one if memory allows, else the oldest of the right list unless
        it is the last; a list that falls below half asks for a refill, once. */
    method GetPacket(size: nat, memoryLeft: bool) returns (m: Mbuf?, scheduled: bool)
      requires Valid()
      modifies this, mPkt, cPkt, mPkt.nodes, cPkt.nodes
      ensures Valid() && (m != null ==> m.cluster == (size > maxCopySize) && m.nextpkt == null)
      ensures size > maxCopySize ==> mPkt.queue == old(mPkt.queue)
      ensures size <= maxCopySize ==> cPkt.queue == old(cPkt.queue)
      ensures memoryLeft ==>
          m != null && fresh(m) && !scheduled && mPkt.queue == old(mPkt.queue) && cPkt.queue == old(cPkt.queue)
      ensures !memoryLeft && size > maxCopySize ==> TakenFrom(cPkt, old(cPkt.queue), m, scheduled, old(refillScheduled))
      ensures !memoryLeft && size <= maxCopySize ==> TakenFrom(mPkt, old(mPkt.queue), m, scheduled, old(refillScheduled))
      ensures var l := if size > maxCopySize then cPkt else mPkt;
        scheduled <==> !memoryLeft && old(|l.queue|) > 1 && l.num < l.capacity - l.capacity / 2 && !old(refillScheduled)
      ensures refillScheduled == (old(refillScheduled) || scheduled)
      ensures mPkt.nodes <= old(mPkt.nodes) && cPkt.nodes <= old(cPkt.nodes)
      ensures m != null ==>
          m !in mPkt.nodes && m !in cPkt.nodes && (fresh(m) || m in old(mPkt.nodes) || m in old(cPkt.nodes))
    {
      scheduled := false;
      if memoryLeft {
        m := new Mbuf(size > maxCopySize);
      } else if size > maxCopySize {
        m, scheduled := TakePacket(cPkt);
      } else {
        m, scheduled := TakePacket(mPkt);
      }
    }

    /** The oldest packet of a list, unless it is the last, and a refill if few are left. */
    method TakePacket(l: PacketList) returns (m: Mbuf?, scheduled: bool)
      requires l.Valid()
      modifies this`refillScheduled, l, l.nodes
      ensures l.Valid() && l.nodes == old(l.nodes) - (if m != null then {m} else {})
      ensures TakenFrom(l, old(l.queue), m, scheduled, old(refillScheduled))
      ensures m != null ==> m in old(l.nodes) && m.nextpkt == null
      ensures refillScheduled == (old(refillScheduled) || scheduled)
    {
      scheduled := false;
      m := l.TakeUnlessLast();
      if m != null && l.Low() && !refillScheduled {
        refillScheduled, scheduled := true, true;
      }
    }

    /** What taking a packet from a list did. */
    ghost predicate TakenFrom(l: PacketList, before: seq<Mbuf>, m: Mbuf?, scheduled: bool, wasScheduled: bool)
      reads l
    {
      if |before| > 1 then
        m == before[0] && l.queue == before[1..] && (scheduled <==> l.Low() && !wasScheduled)
      else m == null && l.queue == before && !scheduled
    }

    /** Tops up both lists, plain packets first, and lets the next refill be scheduled. */
    method RefillPool(available: nat)
      requires Valid()
      modifies this, mPkt, cPkt, mPkt.nodes, cPkt.nodes
      ensures Valid() && !refillScheduled
      ensures |mPkt.queue| == |old(mPkt.queue)| + Min(available, old(Room(mPkt)))
      ensures |cPkt.queue| == |old(cPkt.queue)| + Min(available - Min(available, old(Room(mPkt))), old(Room(cPkt)))
      ensures old(mPkt.queue) <= mPkt.queue && old(cPkt.queue) <= cPkt.queue
      ensures var (more, room) := (|mPkt.queue| - old(|mPkt.queue|), mPkt.capacity - old(|mPkt.queue|));
        (more == 0 || more <= room) && (more < room ==> more == available && cPkt.queue == old(cPkt.queue))
      ensures var (more, room) := (|cPkt.queue| - old(|cPkt.queue|), cPkt.capacity - old(|cPkt.queue|));
        (more == 0 || more <= room) && (more < room ==> more + |mPkt.queue| - old(|mPkt.queue|) == available)
    {
      var left := TopUp(mPkt, false, available);
      left := TopUp(cPkt, true, left);
      refillScheduled := false;
    }

    /** A long packet is passed on and replaced by an empty one; a short one is copied and stays.  With
        no packet to be had, the original stays and nothing is passed on. */
    method ReplaceOrCopyPacket(mp: Mbuf, len: nat, memoryLeft: bool) returns (newPkt: Mbuf?, inPlace: Mbuf, replaced: bool)
      requires Valid() && mp !in mPkt.nodes && mp !in cPkt.nodes && len <= |mp.data|
      modifies this, mPkt, cPkt, mPkt.nodes, cPkt.nodes
      ensures Valid() && mp !in mPkt.nodes && mp !in cPkt.nodes && mp.data == old(mp.data) && mp.nextpkt == old(mp.nextpkt)
      ensures replaced == (len > maxCopySize)
      ensures newPkt == null ==> inPlace == mp
      ensures newPkt != null && replaced ==> newPkt == mp && inPlace != mp && inPlace.cluster
      ensures newPkt != null && !replaced ==> inPlace == mp && newPkt != mp && newPkt.data == mp.data[..len]
      ensures newPkt == null <==> !memoryLeft && old(if len > maxCopySize then |cPkt.queue| else |mPkt.queue|) <= 1
    {
      var got, _ := GetPacket(len, memoryLeft);
      replaced := len > maxCopySize;
      newPkt, inPlace := null, mp;
      if got != null {
        if replaced {
          newPkt, inPlace := mp, got;
        } else {
          got.data := mp.data[..len];
          newPkt := got;
        }
      }
    }
  }
}
