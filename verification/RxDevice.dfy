/** The receive descriptors and the device that completes any number of them whenever it is given a
    turn, in the order of the ring and never beyond the tail. */
module RxDevice {
  import opened Rotation

  const NUM_RX_DESC: nat := 512

  datatype RxBuf = RxBuf(mbuf: nat, phyAddr: int)

  /** A descriptor holds an address for the hardware, or what the hardware has written over it. */
  datatype RxDesc = Armed(addr: int) | Done(err: bool, eop: bool, length: nat)

  /** Slots not consumed yet hold what the hardware completed, in its order; the others hold their
      buffer's address. */
  predicate Written(desc: seq<RxDesc>, bufs: seq<RxBuf>, next: nat, log: seq<RxDesc>) {
    && |desc| == |bufs| == NUM_RX_DESC && next <= |log| <= next + NUM_RX_DESC
    && (forall p :: next <= p < |log| ==> log[p].Done? && desc[Slot(p, NUM_RX_DESC)] == log[p])
    && (forall p: nat :: |log| <= p < next + NUM_RX_DESC ==>
          desc[Slot(p, NUM_RX_DESC)] == Armed(bufs[Slot(p, NUM_RX_DESC)].phyAddr))
  }

  /** Putting the address of its buffer back into the next slot moves the ring on by one. */
  lemma WrittenNext(desc: seq<RxDesc>, bufs: seq<RxBuf>, next: nat, log: seq<RxDesc>, b: RxBuf)
    requires Written(desc, bufs, next, log) && next < |log|
    ensures var i := Slot(next, NUM_RX_DESC); Written(desc[i := Armed(b.phyAddr)], bufs[i := b], next + 1, log)
  {
    hide Slot;
    var i := Slot(next, NUM_RX_DESC);
    forall p: nat | next + 1 <= p < next + 1 + NUM_RX_DESC
      ensures Slot(p, NUM_RX_DESC) == i <==> p == next + NUM_RX_DESC
    {
      if p < next + NUM_RX_DESC {
        DistinctSlots(next, p, NUM_RX_DESC);
      } else {
        SlotStep(next, NUM_RX_DESC, NUM_RX_DESC);
      }
    }
  }

  /** The hardware writes over the slot at its head. */
  lemma WrittenHead(desc: seq<RxDesc>, bufs: seq<RxBuf>, next: nat, log: seq<RxDesc>, d: RxDesc)
    requires Written(desc, bufs, next, log) && |log| < next + NUM_RX_DESC && d.Done?
    ensures Written(desc[Slot(|log|, NUM_RX_DESC) := d], bufs, next, log + [d])
  {
    hide Slot;
    var head := |log|;
    forall p: nat | next <= p < next + NUM_RX_DESC && p != head
      ensures Slot(p, NUM_RX_DESC) != Slot(head, NUM_RX_DESC)
    {
      if p < head {
        DistinctSlots(p, head, NUM_RX_DESC);
      } else {
        DistinctSlots(head, p, NUM_RX_DESC);
      }
    }
  }

  lemma IndexStep(p: nat)
    ensures Slot(Slot(p, NUM_RX_DESC) + 1, NUM_RX_DESC) == Slot(p + 1, NUM_RX_DESC)
    ensures Slot(Slot(p + 1, NUM_RX_DESC) + NUM_RX_DESC - 1, NUM_RX_DESC) == Slot(p + NUM_RX_DESC, NUM_RX_DESC)
  {
    hide Slot;
    SlotAdds(p, 1, NUM_RX_DESC);
    SlotAdds(p + 1, NUM_RX_DESC - 1, NUM_RX_DESC);
  }

  lemma RingEnds()
    ensures Slot(0, NUM_RX_DESC) == 0 && Slot(NUM_RX_DESC - 1, NUM_RX_DESC) == NUM_RX_DESC - 1
  {
  }

  lemma AllArmed(desc: seq<RxDesc>, bufs: seq<RxBuf>)
    requires |desc| == |bufs| == NUM_RX_DESC
    requires forall k :: 0 <= k < NUM_RX_DESC ==> desc[k] == Armed(bufs[k].phyAddr)
    ensures Written(desc, bufs, 0, [])
  {
    hide Slot;
  }

  lemma NextDone(desc: seq<RxDesc>, bufs: seq<RxBuf>, next: nat, log: seq<RxDesc>)
    requires Written(desc, bufs, next, log)
    ensures desc[Slot(next, NUM_RX_DESC)].Done? <==> next < |log|
    ensures next < |log| ==> desc[Slot(next, NUM_RX_DESC)] == log[next]
  {
    assert next == |log| ==> desc[Slot(next, NUM_RX_DESC)] == Armed(bufs[Slot(next, NUM_RX_DESC)].phyAddr);
  }

  lemma HeadBeforeTail(head: nat, tail: nat)
    requires head <= tail && Slot(head, NUM_RX_DESC) != Slot(tail, NUM_RX_DESC)
    ensures head < tail
  {
  }

  class Device {
    const rxDescArray: array<RxDesc>
    var headRegister: nat                 // the slot the hardware completes next
    var tailRegister: nat                 // the slot it must not touch
    ghost var log: seq<RxDesc>            // descriptors completed since the last reset

    /** Head and tail, and the absolute position of the tail. */
    ghost predicate Aligned(limit: nat)
      reads this
    {
      && rxDescArray.Length == NUM_RX_DESC && |log| <= limit
      && headRegister == Slot(|log|, NUM_RX_DESC) && tailRegister == Slot(limit, NUM_RX_DESC)
    }

    constructor (addr: nat -> int)
      ensures rxDescArray.Length == NUM_RX_DESC && fresh(rxDescArray)
      ensures forall k :: 0 <= k < NUM_RX_DESC ==> rxDescArray[k] == Armed(addr(k))
      ensures Aligned(NUM_RX_DESC - 1) && log == []
    {
      rxDescArray := new RxDesc[NUM_RX_DESC]((i: nat) => Armed(addr(i)));
      headRegister, tailRegister, log := 0, NUM_RX_DESC - 1, [];
    }

    /** The hardware completes the descriptor at its head, which is not the tail. */
    method CompleteOne(d: RxDesc, ghost bufs: seq<RxBuf>, ghost next: nat, ghost limit: nat)
      requires Aligned(limit) && limit < next + NUM_RX_DESC && Written(rxDescArray[..], bufs, next, log)
      requires d.Done? && |log| < limit
      modifies this`headRegister, this`log, rxDescArray
      ensures Aligned(limit) && Written(rxDescArray[..], bufs, next, log) && log == old(log) + [d]
    {
      hide Slot, Written;
      WrittenHead(rxDescArray[..], bufs, next, log, d);
      IndexStep(|log|);
      rxDescArray[headRegister] := d;
      headRegister := Slot(headRegister + 1, NUM_RX_DESC);
      log := log + [d];
    }

    /** The hardware completes any number of descriptors before the tail. */
    method Complete(ghost bufs: seq<RxBuf>, ghost next: nat, ghost limit: nat)
      requires Aligned(limit) && limit < next + NUM_RX_DESC && Written(rxDescArray[..], bufs, next, log)
      modifies this`headRegister, this`log, rxDescArray
      ensures Aligned(limit) && Written(rxDescArray[..], bufs, next, log) && old(log) <= log
    {
      hide Slot, Written;
      while *
        invariant Aligned(limit) && Written(rxDescArray[..], bufs, next, log) && old(log) <= log
        decreases limit - |log|
      {
        if headRegister == tailRegister {
          break;
        }
        var err: bool, eop: bool, length: nat := *, *, *;
        HeadBeforeTail(|log|, limit);
        CompleteOne(Done(err, eop, length), bufs, next, limit);
      }
    }
  }
}
