/** The receive ring without address translation: 512 slots, each owning a buffer.  The hardware
    completes descriptors before every look of the driver's loop and while a frame is being handled. */
module RxRing {
  import opened Rotation
  import opened Reassembly
  import opened Fragments
  import opened RxDevice

  const RX_BUFFER_WRITE: nat := 16

  /** What the pool comes up with: nothing, a buffer, or one with a second buffer chained to it. */
  datatype Supply = NoBuffer | Single | Chained

  /** A frame is given up if it is bad, no buffer is to be had, or a replacement does not come in one piece. */
  predicate Fails(d: RxDesc, supply: Supply, maxCopySize: nat)
    requires d.Done?
  {
    d.err || supply.NoBuffer? || (supply.Chained? && d.length > maxCopySize)
  }

  /** An event is about a descriptor the hardware completed. */
  predicate Describes(e: Event, d: RxDesc) {
    d.Done? && (d.err ==> e.Bad?) && (e.Good? ==> e.length == d.length && e.eop == d.eop)
  }

  /** The events since the last reset are about the completed descriptors, one each, in order. */
  predicate Faithful(events: seq<Event>, mark: nat, log: seq<RxDesc>, next: nat) {
    |events| == mark + next && next <= |log| && forall p :: 0 <= p < next ==> Describes(events[mark + p], log[p])
  }

  /** What a consumed descriptor makes of the buffer in its slot and of the packet being assembled.  A
      failure leaves the buffer; a long frame goes up in it, and a short one in the one the pool gave. */
  predicate Fate(e: Event, d: RxDesc, supply: Supply, before: nat, after: nat, maxCopySize: nat, newId: nat) {
    && Describes(e, d) && (e.Bad? <==> Fails(d, supply, maxCopySize))
    && (e.Bad? ==> after == before)
    && (e.Good? && d.length > maxCopySize ==> e.buffer == before && after == newId)
    && (e.Good? && d.length <= maxCopySize ==> e.buffer == newId && after == before)
  }

  // ------------------------------------------------------------ the account of a call

  /** Where a call starts: the descriptors consumed before it, what the slots held, and the buffer the
      pool will come up with first. */
  datatype Outset = Outset(consumed: nat, bufs: seq<RxBuf>, nextId: nat)

  /** The slot of the descriptor j on from a position. */
  function SlotFrom(start: nat, j: nat): (i: nat)
    ensures i < NUM_RX_DESC
  {
    Slot(start + j, NUM_RX_DESC)
  }

  /** The events a call has made are those of its frames in order, given the pool's answers, and no
      other slot has another buffer. */
  predicate Accounted(bufs: seq<RxBuf>, made: seq<Event>, frames: seq<RxDesc>, call: Outset, pool: nat -> Supply, maxCopySize: nat) {
    && |bufs| == |call.bufs| == NUM_RX_DESC && |made| == |frames| <= NUM_RX_DESC
    && (forall j :: 0 <= j < |made| ==>
          Fate(made[j], frames[j], pool(j), call.bufs[SlotFrom(call.consumed, j)].mbuf,
               bufs[SlotFrom(call.consumed, j)].mbuf, maxCopySize, call.nextId + j))
    && (forall j :: |made| <= j < NUM_RX_DESC ==> bufs[SlotFrom(call.consumed, j)].mbuf == call.bufs[SlotFrom(call.consumed, j)].mbuf)
  }

  lemma AccountedNext(bufs: seq<RxBuf>, bufs': seq<RxBuf>, made: seq<Event>, frames: seq<RxDesc>, e: Event, d: RxDesc,
      call: Outset, pool: nat -> Supply, maxCopySize: nat)
    requires Accounted(bufs, made, frames, call, pool, maxCopySize) && |made| < NUM_RX_DESC
    requires var i := SlotFrom(call.consumed, |made|);
      |bufs'| == NUM_RX_DESC && bufs' == bufs[i := bufs'[i]]
      && Fate(e, d, pool(|made|), bufs[i].mbuf, bufs'[i].mbuf, maxCopySize, call.nextId + |made|)
    ensures Accounted(bufs', made + [e], frames + [d], call, pool, maxCopySize)
  {
    hide Slot, Fate;
    var n := |made|;
    forall j | 0 <= j < NUM_RX_DESC && j != n ensures SlotFrom(call.consumed, j) != SlotFrom(call.consumed, n) {
      if j < n {
        DistinctSlots(call.consumed + j, call.consumed + n, NUM_RX_DESC);
      } else {
        DistinctSlots(call.consumed + n, call.consumed + j, NUM_RX_DESC);
      }
    }
  }

  lemma AccountedSame(bufs: seq<RxBuf>, bufs': seq<RxBuf>, made: seq<Event>, frames: seq<RxDesc>, call: Outset,
      pool: nat -> Supply, maxCopySize: nat)
    requires Accounted(bufs, made, frames, call, pool, maxCopySize)
    requires |bufs| == |bufs'| && forall k :: 0 <= k < |bufs| ==> bufs'[k].mbuf == bufs[k].mbuf
    ensures Accounted(bufs', made, frames, call, pool, maxCopySize)
  {
    hide Slot, Fate;
  }

  lemma NothingAccounted(call: Outset, pool: nat -> Supply, maxCopySize: nat)
    requires |call.bufs| == NUM_RX_DESC
    ensures Accounted(call.bufs, [], [], call, pool, maxCopySize)
  {
    hide Slot;
  }

  /** The account of a call without its terms. */
  lemma CallFates(bufs: seq<RxBuf>, made: seq<Event>, frames: seq<RxDesc>, call: Outset, pool: nat -> Supply, maxCopySize: nat)
    requires Accounted(bufs, made, frames, call, pool, maxCopySize)
    ensures |bufs| == |call.bufs| == NUM_RX_DESC && |made| == |frames|
    ensures forall j :: 0 <= j < |frames| ==>
      var (e, d, i) := (made[j], frames[j], SlotFrom(call.consumed, j));
      && d.Done? && (e.Bad? <==> d.err || pool(j).NoBuffer? || (pool(j).Chained? && d.length > maxCopySize))
      && (e.Good? ==> e.length == d.length && e.eop == d.eop
                      && e.buffer == if d.length > maxCopySize then call.bufs[i].mbuf else call.nextId + j)
      && bufs[i].mbuf == if e.Good? && d.length > maxCopySize then call.nextId + j else call.bufs[i].mbuf
    ensures forall j :: |frames| <= j < NUM_RX_DESC ==>
      bufs[SlotFrom(call.consumed, j)].mbuf == call.bufs[SlotFrom(call.consumed, j)].mbuf
  {
    hide SlotFrom;
  }

  // ------------------------------------------------------------ a frame in many descriptors

  /** The bytes of some completed descriptors. */
  function Bytes(frames: seq<RxDesc>): nat
    requires forall j :: 0 <= j < |frames| ==> frames[j].Done?
  {
    if frames == [] then 0 else Bytes(frames[..|frames| - 1]) + frames[|frames| - 1].length
  }

  lemma {:induction false} BytesAreLengths(made: seq<Event>, frames: seq<RxDesc>)
    requires |made| == |frames| && forall j :: 0 <= j < |frames| ==> frames[j].Done?
    requires forall j :: 0 <= j < |made| ==> made[j].Good? && made[j].length == frames[j].length
    ensures Lengths(made) == Bytes(frames)
  {
    if made != [] {
      BytesAreLengths(made[..|made| - 1], frames[..|made| - 1]);
    }
  }

  /** A frame spread over all descriptors of a call, with nothing pending before it, is one packet of
      all its buffers and bytes. */
  lemma WholeFrame(before: seq<Event>, made: seq<Event>, frames: seq<RxDesc>)
    requires |made| == |frames| > 0 && Fold(before).pending.buffers == []
    requires forall j :: 0 <= j < |frames| ==> frames[j].Done? && made[j].Good? && made[j].length == frames[j].length
    requires forall j :: 0 <= j < |frames| ==> made[j].eop == (j == |frames| - 1)
    ensures var (was, now) := (Fold(before).delivered, Fold(before + made).delivered);
      |now| == |was| + 1 && now == was + [Packet(Buffers(made), Bytes(frames))]
    ensures |Buffers(made)| == |frames| && forall j :: 0 <= j < |frames| ==> Buffers(made)[j] == made[j].buffer
  {
    hide Fold, Buffers, Lengths, Bytes, Join;
    var all, n := before + made, |before| + |made| - 1;
    NoChainNoSize(before);
    BuffersOfGood(made);
    BytesAreLengths(made, frames);
    assert all[..|before|] == before && all[|before|..n + 1] == made;
    assert all[n] == made[|made| - 1];
    forall k | |before| <= k < n ensures Continues(all[k]) {
      assert all[k] == made[k - |before|] && !made[k - |before|].eop;
    }
    OnePacket(all, |before|);
    AssembledMore(all, |before|, n);
  }

  /** So it is for a call whose pool answers each descriptor of the frame with a single buffer. */
  lemma CallFrame(before: seq<Event>, bufs: seq<RxBuf>, made: seq<Event>, frames: seq<RxDesc>, call: Outset,
      pool: nat -> Supply, maxCopySize: nat)
    requires Accounted(bufs, made, frames, call, pool, maxCopySize)
    ensures |made| == |frames| && forall j :: 0 <= j < |frames| ==> frames[j].Done?
    ensures
      (Fold(before).pending.buffers == [] && frames != []
       && forall j :: 0 <= j < |frames| ==> !frames[j].err && pool(j).Single? && frames[j].eop == (j == |frames| - 1))
      ==>
      (Fold(before + made).delivered == Fold(before).delivered + [Packet(Buffers(made), Bytes(frames))]
       && |Buffers(made)| == |frames| && forall j :: 0 <= j < |frames| ==> made[j].Good? && Buffers(made)[j] == made[j].buffer)
  {
    hide Fold, Slot, Bytes, Buffers;
    CallFates(bufs, made, frames, call, pool, maxCopySize);
    if Fold(before).pending.buffers == [] && frames != [] && forall j :: 0 <= j < |frames| ==>
      !frames[j].err && pool(j).Single? && frames[j].eop == (j == |frames| - 1)
    {
      WholeFrame(before, made, frames);
    }
  }

  /** Every slot owns a buffer of its own, and none that was passed on; none was passed on twice. */
  predicate Unshared(bufs: seq<RxBuf>, passed: seq<nat>, nextId: nat) {
    && (forall i :: 0 <= i < |bufs| ==> bufs[i].mbuf < nextId)
    && (forall i, j :: 0 <= i < j < |bufs| ==> bufs[i].mbuf != bufs[j].mbuf)
    && (forall i, k :: 0 <= i < |bufs| && 0 <= k < |passed| ==> bufs[i].mbuf != passed[k])
    && (forall k :: 0 <= k < |passed| ==> passed[k] < nextId)
    && (forall j, k :: 0 <= j < k < |passed| ==> passed[j] != passed[k])
  }

  /** The address a slot keeps is that of its buffer. */
  predicate Addressed(bufs: seq<RxBuf>, phys: nat -> int) {
    forall i :: 0 <= i < |bufs| ==> bufs[i].phyAddr == phys(bufs[i].mbuf)
  }

  predicate Owned(bufs: seq<RxBuf>, phys: nat -> int, passed: seq<nat>, nextId: nat) {
    Unshared(bufs, passed, nextId) && Addressed(bufs, phys)
  }

  lemma BuffersMore(events: seq<Event>, e: Event)
    ensures Buffers(events + [e]) == Buffers(events) + if e.Good? then [e.buffer] else []
  {
    assert (events + [e])[..|events|] == events;
  }

  class Ring {
    const rxBufArray: array<RxBuf>
    const device: Device
    const phys: nat -> int                // the physical address of a buffer
    const maxCopySize: nat
    var rxNextDescIndex: nat
    var rxCleanedCount: nat
    const frag: Fragment
    var nextId: nat                       // the pool never hands out the same buffer twice
    ghost var consumed: nat               // descriptors consumed since the last reset
    ghost var mark: nat                   // events before the last reset

    ghost predicate Shaped()
    {
      rxBufArray.Length == NUM_RX_DESC
    }

    /** Where driver, hardware and tail stand: the tail trails the next slot by what is cleaned. */
    ghost predicate Aligned()
      reads this, device
    {
      && rxNextDescIndex == Slot(consumed, NUM_RX_DESC) && rxCleanedCount < NUM_RX_DESC
      && consumed <= |device.log| && device.Aligned(consumed + NUM_RX_DESC - 1 - rxCleanedCount)
    }

    ghost predicate Valid()
      reads this, frag, device, rxBufArray, device.rxDescArray
    {
      && Shaped() && Aligned() && frag.Valid()
      && Written(device.rxDescArray[..], rxBufArray[..], consumed, device.log)
      && Faithful(frag.events, mark, device.log, consumed)
      && Owned(rxBufArray[..], phys, Buffers(frag.events), nextId)
    }

    /** A ring of fresh buffers, given to the hardware but for the last slot. */
    constructor (phys: nat -> int, maxCopySize: nat)
      ensures Valid() && frag.events == [] && frag.upstream == [] && consumed == 0 && device.log == []
      ensures fresh(frag) && fresh(device) && fresh(rxBufArray) && fresh(device.rxDescArray)
    {
      this.phys, this.maxCopySize := phys, maxCopySize;
      rxBufArray := new RxBuf[NUM_RX_DESC]((i: nat) => RxBuf(i, phys(i)));
      rxNextDescIndex, rxCleanedCount := 0, 0;
      device := new Device(phys);
      nextId, consumed, mark := NUM_RX_DESC, 0, 0;
      frag := new Fragment();
      new;
      hide Slot;
      RingEnds();
      AllArmed(device.rxDescArray[..], rxBufArray[..]);
    }

    /** The hardware takes a turn; the next slot then shows whether there is something to consume. */
    method HardwareRuns()
      requires Valid()
      modifies device`headRegister, device`log, device.rxDescArray
      ensures Valid() && old(device.log) <= device.log
      ensures rxNextDescIndex < NUM_RX_DESC && (device.rxDescArray[rxNextDescIndex].Done? <==> consumed < |device.log|)
      ensures consumed < |device.log| ==> device.rxDescArray[rxNextDescIndex] == device.log[consumed]
    {
      hide Slot, Fold, Owned, Written, Describes;
      device.Complete(rxBufArray[..], consumed, consumed + NUM_RX_DESC - 1 - rxCleanedCount);
      NextDone(device.rxDescArray[..], rxBufArray[..], consumed, device.log);
    }

    /** What becomes of a filled buffer: it is passed on and replaced, copied, or left in place. */
    method Receive(i: nat, status: RxDesc, supply: Supply) returns (addr: int, ended: bool)
      requires Shaped() && i < NUM_RX_DESC && status.Done? && frag.Valid()
          && Owned(rxBufArray[..], phys, Buffers(frag.events), nextId)
      modifies this`nextId, frag, rxBufArray
      ensures frag.Valid() && Owned(rxBufArray[..], phys, Buffers(frag.events), nextId) && nextId == old(nextId) + 1
      ensures rxBufArray[..] == old(rxBufArray[..])[i := rxBufArray[i]] && addr == rxBufArray[i].phyAddr
      ensures |frag.events| == |old(frag.events)| + 1 && frag.events[..|old(frag.events)|] == old(frag.events)
          && ended == Ends(frag.events[|old(frag.events)|])
      ensures |frag.upstream| == |old(frag.upstream)| + if ended then 1 else 0
      ensures Explains(frag.events[|old(frag.events)|], status, supply, old(rxBufArray[i]), rxBufArray[i],
                       maxCopySize, old(nextId))
    {
      hide Slot, Fold, Unshared, Written, Buffers;
      var bufPkt := rxBufArray[i].mbuf;
      addr, ended := rxBufArray[i].phyAddr, false;
      if Fails(status, supply, maxCopySize) {
        UnsharedBad(rxBufArray[..], Buffers(frag.events), nextId);
        nextId := nextId + 1;
        BuffersMore(frag.events, Bad);
        frag.Discard();
      } else {
        var newPkt := nextId;
        nextId := nextId + 1;
        if status.length > maxCopySize {
          UnsharedReplaced(rxBufArray[..], Buffers(frag.events), newPkt, i, phys(newPkt));
          addr := phys(newPkt);
          rxBufArray[i] := RxBuf(newPkt, addr);
          newPkt := bufPkt;
        } else {
          UnsharedCopied(rxBufArray[..], Buffers(frag.events), newPkt);
        }
        BuffersMore(frag.events, Good(newPkt, status.length, status.eop));
        ended := frag.Collect(newPkt, status.length, status.eop);
      }
    }

    /** The next completed descriptor, while the hardware goes on; its slot is armed again whatever becomes of its buffer. */
    method ConsumeOne(supply: Supply) returns (ended: bool)
      requires Valid() && consumed < |device.log|
      modifies this, frag, device, rxBufArray, device.rxDescArray
      ensures Valid() && consumed == old(consumed) + 1 && old(device.log) <= device.log && mark == old(mark)
      ensures rxCleanedCount == old(rxCleanedCount) + 1 && device.tailRegister == old(device.tailRegister)
      ensures |frag.events| == |old(frag.events)| + 1 && frag.events[..|old(frag.events)|] == old(frag.events)
      ensures ended == Ends(frag.events[|old(frag.events)|])
      ensures |frag.upstream| == |old(frag.upstream)| + if ended then 1 else 0
      ensures old(rxNextDescIndex) < NUM_RX_DESC && nextId == old(nextId) + 1
      ensures rxBufArray[..] == old(rxBufArray[..])[old(rxNextDescIndex) := rxBufArray[old(rxNextDescIndex)]]
      ensures Explains(frag.events[|old(frag.events)|], old(device.log)[old(consumed)], supply,
                       old(rxBufArray[rxNextDescIndex]), rxBufArray[old(rxNextDescIndex)], maxCopySize, old(nextId))
    {
      hide Slot, Fold, Owned, Written, Buffers;
      var i := rxNextDescIndex;
      NextDone(device.rxDescArray[..], rxBufArray[..], consumed, device.log);
      var status := device.rxDescArray[i];
      HardwareRuns();
      ghost var (desc, bufs) := (device.rxDescArray[..], rxBufArray[..]);
      var addr;
      addr, ended := Receive(i, status, supply);
      device.rxDescArray[i] := Armed(addr);
      WrittenNext(desc, bufs, consumed, device.log, rxBufArray[i]);
      IndexStep(consumed);
      rxNextDescIndex := Slot(i + 1, NUM_RX_DESC);
      rxCleanedCount := rxCleanedCount + 1;
      consumed := consumed + 1;
    }

    /** The next frame of a call, and the hardware's next turn. */
    method HandleFrame(pool: nat -> Supply, n: nat, ghost made: seq<Event>, ghost frames: seq<RxDesc>, ghost call: Outset)
      returns (ended: bool, ghost e: Event, ghost d: RxDesc)
      requires Valid() && consumed < |device.log| && n == |made| < NUM_RX_DESC
      requires consumed == call.consumed + n && nextId == call.nextId + n
      requires Accounted(rxBufArray[..], made, frames, call, pool, maxCopySize)
      modifies this, frag, device, rxBufArray, device.rxDescArray
      ensures Valid() && consumed == old(consumed) + 1 && old(device.log) <= device.log && mark == old(mark)
      ensures rxCleanedCount == old(rxCleanedCount) + 1 && nextId == old(nextId) + 1
      ensures device.tailRegister == old(device.tailRegister)
      ensures frag.events == old(frag.events) + [e] && d == old(device.log)[old(consumed)] && ended == Ends(e)
      ensures |frag.upstream| == |old(frag.upstream)| + if ended then 1 else 0
      ensures Accounted(rxBufArray[..], made + [e], frames + [d], call, pool, maxCopySize)
      ensures rxNextDescIndex < NUM_RX_DESC && (device.rxDescArray[rxNextDescIndex].Done? <==> consumed < |device.log|)
    {
      hide Slot, Fold, Owned, Written, Faithful, Accounted, Fate;
      ghost var (bufs, events) := (rxBufArray[..], frag.events);
      d := device.log[consumed];
      ended := ConsumeOne(pool(n));
      e := frag.events[|events|];
      AccountedNext(bufs, rxBufArray[..], made, frames, e, d, call, pool, maxCopySize);
      HardwareRuns();
    }

    /** Consumes completed descriptors until none is left or maxCount packets have gone up, and gives
        the slots back once there are sixteen of them.  The pool answers frame j of the call with pool(j).
        Of each frame it is said what event it made and what buffer its slot holds now; a packet the call
        finds whole, in any number of frames, goes up as one. */
    method RxInterrupt(maxCount: nat, pool: nat -> Supply) returns (goodPkts: nat, ghost frames: seq<RxDesc>, ghost made: seq<Event>)
      requires Valid()
      modifies this, frag, device, rxBufArray, device.rxDescArray
      ensures Valid() && rxCleanedCount < RX_BUFFER_WRITE && rxNextDescIndex < NUM_RX_DESC
      ensures old(consumed) <= consumed <= |device.log| && frames == device.log[old(consumed)..consumed] && frag.events == old(frag.events) + made
      ensures var kept := old(rxCleanedCount) + |frames|;
        && rxCleanedCount == (if kept >= RX_BUFFER_WRITE then 0 else kept)
        && device.tailRegister == if kept < RX_BUFFER_WRITE then old(device.tailRegister)
                                  else if rxNextDescIndex > 0 then rxNextDescIndex - 1 else NUM_RX_DESC - 1
      ensures goodPkts <= maxCount && |frag.upstream| == |old(frag.upstream)| + goodPkts
      ensures goodPkts < maxCount ==> consumed == |device.log|
      ensures old(device.log) <= device.log && mark == old(mark) && nextId == old(nextId) + |frames|
      ensures goodPkts <= |made| == |frames| == consumed - old(consumed)
      ensures forall j :: 0 <= j < |frames| ==>
        var (e, d, i) := (made[j], frames[j], SlotFrom(old(consumed), j));
        && d.Done? && (e.Bad? <==> d.err || pool(j).NoBuffer? || (pool(j).Chained? && d.length > maxCopySize))
        && (e.Good? ==> e.length == d.length && e.eop == d.eop
                        && e.buffer == if d.length > maxCopySize then old(rxBufArray[..])[i].mbuf else old(nextId) + j)
        && rxBufArray[i].mbuf == if e.Good? && d.length > maxCopySize then old(nextId) + j else old(rxBufArray[..])[i].mbuf
      ensures forall j :: |frames| <= j < NUM_RX_DESC ==>
        rxBufArray[SlotFrom(old(consumed), j)].mbuf == old(rxBufArray[..])[SlotFrom(old(consumed), j)].mbuf
      ensures
        (old(frag.rxPacketChain) == [] && frames != []
         && forall j :: 0 <= j < |frames| ==> !frames[j].err && pool(j).Single? && frames[j].eop == (j == |frames| - 1))
        ==>
        (|frag.upstream| == |old(frag.upstream)| + 1 && frag.upstream[..|old(frag.upstream)|] == old(frag.upstream)
         && var p := frag.upstream[|old(frag.upstream)|];
            |p.buffers| == |frames| && p.length == Bytes(frames)
            && forall j :: 0 <= j < |frames| ==> made[j].Good? && p.buffers[j] == made[j].buffer)
      ensures made != [] && goodPkts == maxCount ==> Ends(made[|made| - 1])
    {
      hide Slot, Fold, Owned, Written, Faithful, Accounted, Fate, Buffers;
      ghost var call, events := Outset(consumed, rxBufArray[..], nextId), frag.events;
      goodPkts, frames, made := Consume(maxCount, pool);
      CallFates(rxBufArray[..], made, frames, call, pool, maxCopySize);
      CallFrame(events, rxBufArray[..], made, frames, call, pool, maxCopySize);
      if rxCleanedCount >= RX_BUFFER_WRITE {
        TailBehind(consumed);
        device.tailRegister := if rxNextDescIndex > 0 then rxNextDescIndex - 1 else NUM_RX_DESC - 1;
        rxCleanedCount := 0;
      }
    }

    /** The loop over completed descriptors. */
    method Consume(maxCount: nat, pool: nat -> Supply) returns (goodPkts: nat, ghost frames: seq<RxDesc>, ghost made: seq<Event>)
      requires Valid()
      modifies this, frag, device, rxBufArray, device.rxDescArray
      ensures Valid() && rxNextDescIndex < NUM_RX_DESC && rxCleanedCount == old(rxCleanedCount) + |frames|
      ensures old(device.log) <= device.log && mark == old(mark) && device.tailRegister == old(device.tailRegister)
      ensures goodPkts <= maxCount && |frag.upstream| == |old(frag.upstream)| + goodPkts
      ensures goodPkts < maxCount ==> consumed == |device.log|
      ensures old(consumed) <= consumed <= |device.log| && frames == device.log[old(consumed)..consumed]
      ensures frag.events == old(frag.events) + made && goodPkts <= |made| == |frames| && nextId == old(nextId) + |frames|
      ensures Accounted(rxBufArray[..], made, frames, Outset(old(consumed), old(rxBufArray[..]), old(nextId)), pool, maxCopySize)
      ensures made != [] && goodPkts == maxCount ==> Ends(made[|made| - 1])
    {
      hide Slot, Fold, Owned, Written, Faithful, Accounted, Fate, Buffers;
      goodPkts, frames, made := 0, [], [];
      ghost var call, events := Outset(consumed, rxBufArray[..], nextId), frag.events;
      HardwareRuns();
      NothingAccounted(call, pool, maxCopySize);
      var n := 0;
      while device.rxDescArray[rxNextDescIndex].Done? && goodPkts < maxCount
        invariant Valid() && goodPkts <= maxCount && |frag.upstream| == |old(frag.upstream)| + goodPkts
        invariant old(device.log) <= device.log && mark == old(mark) && device.tailRegister == old(device.tailRegister)
        invariant rxNextDescIndex < NUM_RX_DESC && (device.rxDescArray[rxNextDescIndex].Done? <==> consumed < |device.log|)
        invariant consumed == old(consumed) + n && nextId == old(nextId) + n && rxCleanedCount == old(rxCleanedCount) + n
        invariant goodPkts <= n == |made| && frag.events == events + made && frames == device.log[old(consumed)..consumed]
        invariant Accounted(rxBufArray[..], made, frames, call, pool, maxCopySize)
        invariant made != [] && goodPkts == maxCount ==> Ends(made[|made| - 1])
        decreases NUM_RX_DESC - rxCleanedCount
      {
        ghost var log := device.log;
        var ended, e, d := HandleFrame(pool, n, made, frames, call);
        FramesMore(log, device.log, old(consumed), consumed - 1);
        made, frames := made + [e], frames + [d];
        goodPkts := goodPkts + if ended then 1 else 0;
        n := n + 1;
      }
    }

    /** Puts every slot's address back, forgets the fragment and starts over, all but the last slot
        with the hardware. */
    method ClearRing()
      requires Valid()
      modifies this, frag, device, device.rxDescArray
      ensures Valid() && consumed == 0 && device.log == [] && rxNextDescIndex == rxCleanedCount == 0
          && device.tailRegister == NUM_RX_DESC - 1
      ensures device.rxDescArray.Length == NUM_RX_DESC == rxBufArray.Length
      ensures forall k :: 0 <= k < NUM_RX_DESC ==> device.rxDescArray[k] == Armed(rxBufArray[k].phyAddr)
      ensures frag.events == old(frag.events) + [Bad] && frag.upstream == old(frag.upstream) && frag.rxPacketChain == []
    {
      hide Fold, Owned, Buffers, Written, Slot;
      RingEnds();
      var i := 0;
      while i < NUM_RX_DESC
        modifies device.rxDescArray
        invariant i <= NUM_RX_DESC && forall k :: 0 <= k < i ==> device.rxDescArray[k] == Armed(rxBufArray[k].phyAddr)
      {
        device.rxDescArray[i] := Armed(rxBufArray[i].phyAddr);
        i := i + 1;
      }
      AllArmed(device.rxDescArray[..], rxBufArray[..]);
      assert Buffers(frag.events) + [] == Buffers(frag.events);
      rxCleanedCount, rxNextDescIndex := 0, 0;
      BuffersMore(frag.events, Bad);
      frag.Discard();
      device.tailRegister := NUM_RX_DESC - 1;
      device.headRegister, device.log := 0, [];
      consumed, mark := 0, |frag.events|;
    }
  }

  /** What a consumed descriptor makes of a slot: one that keeps its buffer keeps its address. */
  predicate Explains(e: Event, d: RxDesc, supply: Supply, before: RxBuf, after: RxBuf, maxCopySize: nat, newId: nat) {
    && Fate(e, d, supply, before.mbuf, after.mbuf, maxCopySize, newId)
    && (e.Bad? || d.length <= maxCopySize ==> after == before)
  }

  /** The descriptors a call has consumed, and one more. */
  lemma FramesMore(log: seq<RxDesc>, log': seq<RxDesc>, start: nat, next: nat)
    requires start <= next < |log| && log <= log'
    ensures log'[start..next + 1] == log[start..next] + [log[next]]
  {
  }

  lemma TailBehind(next: nat)
    ensures Slot(next + NUM_RX_DESC - 1, NUM_RX_DESC)
         == if Slot(next, NUM_RX_DESC) > 0 then Slot(next, NUM_RX_DESC) - 1 else NUM_RX_DESC - 1
  {
    hide Slot;
    SlotStep(next, NUM_RX_DESC - 1, NUM_RX_DESC);
  }

  // ------------------------------------------------------------ who owns which buffer

  lemma UnsharedBad(bufs: seq<RxBuf>, passed: seq<nat>, nextId: nat)
    requires Unshared(bufs, passed, nextId)
    ensures Unshared(bufs, passed, nextId + 1) && passed + [] == passed
  {
  }

  /** The new buffer takes the slot, the old one goes up. */
  lemma UnsharedReplaced(bufs: seq<RxBuf>, passed: seq<nat>, nextId: nat, i: nat, addr: int)
    requires Unshared(bufs, passed, nextId) && i < |bufs|
    ensures Unshared(bufs[i := RxBuf(nextId, addr)], passed + [bufs[i].mbuf], nextId + 1)
  {
  }

  /** The new buffer goes up, the old one keeps the slot. */
  lemma UnsharedCopied(bufs: seq<RxBuf>, passed: seq<nat>, nextId: nat)
    requires Unshared(bufs, passed, nextId)
    ensures Unshared(bufs, passed + [nextId], nextId + 1)
  {
  }
}
