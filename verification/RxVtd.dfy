/** The receive ring with address translation: buffers are mapped for the device sixteen at a time, and
    a batch goes back to the device only when all of it has been consumed and mapped again. */
module RxVtd {
  import opened Rotation
  import opened Reassembly
  import opened Fragments
  import opened RxDevice
  import opened RxRing

  const BATCH: nat := 16
  const NUM_BATCHES: nat := 32

  /** A physical address; none is zero. */
  type Address = a: int | 0 < a witness 1

  /** The slots whose address is zero are exactly those whose range still maps another buffer, and those
      of a batch whose mapping was tried and failed; every other address is where the range's buffer
      lies.  Only consumed slots are in the first case. */
  ghost predicate Mapped(bufs: seq<RxBuf>, ranges: seq<nat>, phys: nat -> Address, base: nat, next: nat, tried: bool) {
    && |bufs| == |ranges| == NUM_RX_DESC && base <= next <= base + NUM_RX_DESC && (tried ==> base + BATCH <= next)
    && (forall i :: 0 <= i < NUM_RX_DESC && ranges[i] != bufs[i].mbuf ==> bufs[i].phyAddr == 0)
    && (forall i :: 0 <= i < NUM_RX_DESC && bufs[i].phyAddr == 0 ==> ranges[i] != bufs[i].mbuf || (tried && InFirst(base, i)))
    && (forall i :: 0 <= i < NUM_RX_DESC ==> bufs[i].phyAddr == 0 || bufs[i].phyAddr == phys(ranges[i]))
    && (forall p: nat :: next <= p < base + NUM_RX_DESC ==> bufs[Slot(p, NUM_RX_DESC)].phyAddr != 0)
  }

  /** A slot of the batch to be mapped next. */
  predicate InFirst(base: nat, i: nat) { Slot(base, NUM_RX_DESC) <= i < Slot(base, NUM_RX_DESC) + BATCH }

  // ------------------------------------------------------------ positions and batches

  /** Batches start at multiples of sixteen and do not wrap. */
  lemma BatchSlot(k: nat)
    ensures Slot(BATCH * k, NUM_RX_DESC) % BATCH == 0 && Slot(BATCH * k, NUM_RX_DESC) + BATCH <= NUM_RX_DESC
    ensures Slot(Slot(BATCH * k, NUM_RX_DESC) + BATCH, NUM_RX_DESC) == Slot(BATCH * (k + 1), NUM_RX_DESC)
  {
    var q, r := k / 32, k % 32;
    assert BATCH * k == 512 * q + 16 * r;
    Place512(q, 16 * r);
    if r < 31 {
      Place512(q, 16 * (r + 1));
    } else {
      Place512(q + 1, 0);
    }
  }

  lemma PlaceInBatch(p: nat)
    ensures Slot(p, NUM_RX_DESC) % BATCH == p % BATCH
  {
  }

  /** The last slot of a batch. */
  lemma BatchEnd(p: nat, k: nat)
    requires BATCH * k <= p < BATCH * k + BATCH
    ensures Slot(p, NUM_RX_DESC) % BATCH == BATCH - 1 <==> p + 1 == BATCH * (k + 1)
  {
    PlaceInBatch(p);
  }

  /** A slot lies in a batch exactly when its position, less than a turn on, does. */
  lemma InBatch(base: nat, p: nat)
    requires base <= p < base + NUM_RX_DESC + BATCH && Slot(base, NUM_RX_DESC) + BATCH <= NUM_RX_DESC
    ensures var i := Slot(base, NUM_RX_DESC);
      i <= Slot(p, NUM_RX_DESC) < i + BATCH <==> p < base + BATCH || p >= base + NUM_RX_DESC
  {
    hide Slot;
    if p < base + NUM_RX_DESC {
      SlotStep(base, p - base, NUM_RX_DESC);
    } else {
      SlotStep(base, NUM_RX_DESC, NUM_RX_DESC);
      SlotStep(base + NUM_RX_DESC, p - base - NUM_RX_DESC, NUM_RX_DESC);
    }
  }

  /** A batch armed again and otherwise unchanged: the ring moves on by it. */
  lemma WrittenBatch(desc: seq<RxDesc>, bufs: seq<RxBuf>, base: nat, log: seq<RxDesc>, desc': seq<RxDesc>,
      bufs': seq<RxBuf>)
    requires Written(desc, bufs, base, log) && base + BATCH <= |log| < base + NUM_RX_DESC
        && |desc'| == |bufs'| == NUM_RX_DESC
    requires Slot(base, NUM_RX_DESC) + BATCH <= NUM_RX_DESC
    requires var i := Slot(base, NUM_RX_DESC); forall k :: 0 <= k < NUM_RX_DESC ==>
      if i <= k < i + BATCH then desc'[k] == Armed(bufs'[k].phyAddr) else desc'[k] == desc[k] && bufs'[k] == bufs[k]
    ensures Written(desc', bufs', base + BATCH, log)
  {
    hide Slot;
    forall p: nat | base <= p < base + NUM_RX_DESC + BATCH
      ensures var (i, s) := (Slot(base, NUM_RX_DESC), Slot(p, NUM_RX_DESC));
        i <= s < i + BATCH <==> p < base + BATCH || p >= base + NUM_RX_DESC
    {
      InBatch(base, p);
    }
  }

  lemma MappedBatch(bufs: seq<RxBuf>, ranges: seq<nat>, phys: nat -> Address, base: nat, next: nat, tried: bool,
      bufs': seq<RxBuf>, ranges': seq<nat>)
    requires Mapped(bufs, ranges, phys, base, next, tried) && base + BATCH <= next && |bufs'| == |ranges'| == NUM_RX_DESC
    requires Slot(base, NUM_RX_DESC) + BATCH <= NUM_RX_DESC
    requires var i := Slot(base, NUM_RX_DESC); forall k :: 0 <= k < NUM_RX_DESC ==>
      bufs'[k].mbuf == bufs[k].mbuf
      && if i <= k < i + BATCH then ranges'[k] == bufs[k].mbuf && bufs'[k].phyAddr == phys(ranges'[k])
         else bufs'[k] == bufs[k] && ranges'[k] == ranges[k]
    ensures Mapped(bufs', ranges', phys, base + BATCH, next, false)
  {
    hide Slot;
    forall p: nat | next <= p < base + NUM_RX_DESC + BATCH
      ensures bufs'[Slot(p, NUM_RX_DESC)].phyAddr != 0
    {
      InBatch(base, p);
    }
  }

  /** A batch whose mapping fails has its ranges brought up to date and nothing else. */
  lemma MappedTried(bufs: seq<RxBuf>, ranges: seq<nat>, phys: nat -> Address, base: nat, next: nat, tried: bool,
      ranges': seq<nat>)
    requires Mapped(bufs, ranges, phys, base, next, tried) && base + BATCH <= next && |ranges'| == NUM_RX_DESC
    requires forall k :: 0 <= k < NUM_RX_DESC ==> ranges'[k] == if InFirst(base, k) then bufs[k].mbuf else ranges[k]
    ensures Mapped(bufs, ranges', phys, base, next, true)
  {
    hide Slot;
  }

  /** A buffer put into the next slot makes its mapping stale. */
  lemma MappedReplaced(bufs: seq<RxBuf>, ranges: seq<nat>, phys: nat -> Address, base: nat, next: nat, tried: bool,
      m: nat)
    requires Mapped(bufs, ranges, phys, base, next, tried) && next < base + NUM_RX_DESC
    requires ranges[Slot(next, NUM_RX_DESC)] != m
    ensures Mapped(bufs[Slot(next, NUM_RX_DESC) := RxBuf(m, 0)], ranges, phys, base, next + 1, tried)
  {
    hide Slot;
    forall p: nat | next + 1 <= p < base + NUM_RX_DESC
      ensures Slot(p, NUM_RX_DESC) != Slot(next, NUM_RX_DESC)
    {
      DistinctSlots(next, p, NUM_RX_DESC);
    }
  }

  lemma MappedKept(bufs: seq<RxBuf>, ranges: seq<nat>, phys: nat -> Address, base: nat, next: nat, tried: bool)
    requires Mapped(bufs, ranges, phys, base, next, tried) && next < base + NUM_RX_DESC
    ensures Mapped(bufs, ranges, phys, base, next + 1, tried)
  {
  }

  /** The next slot's buffer is the mapped one, as the slot has not been consumed since. */
  lemma NextIsMapped(bufs: seq<RxBuf>, ranges: seq<nat>, phys: nat -> Address, base: nat, next: nat, tried: bool)
    requires Mapped(bufs, ranges, phys, base, next, tried) && next < base + NUM_RX_DESC
    ensures var i := Slot(next, NUM_RX_DESC); ranges[i] == bufs[i].mbuf && bufs[i].phyAddr == phys(bufs[i].mbuf)
  {
  }

  /** Changing the buffer of a consumed slot does not concern the descriptors. */
  lemma WrittenReplaced(desc: seq<RxDesc>, bufs: seq<RxBuf>, base: nat, log: seq<RxDesc>, next: nat, b: RxBuf)
    requires Written(desc, bufs, base, log) && base <= next < |log|
    ensures Written(desc, bufs[Slot(next, NUM_RX_DESC) := b], base, log)
  {
    hide Slot;
    forall p: nat | |log| <= p < base + NUM_RX_DESC ensures Slot(p, NUM_RX_DESC) != Slot(next, NUM_RX_DESC) {
      DistinctSlots(next, p, NUM_RX_DESC);
    }
  }

  /** The driver's look at the next slot, when earlier slots still show their done bits. */
  lemma LookAhead(desc: seq<RxDesc>, bufs: seq<RxBuf>, base: nat, log: seq<RxDesc>, next: nat)
    requires Written(desc, bufs, base, log) && base <= next <= |log| < base + NUM_RX_DESC
    ensures desc[Slot(next, NUM_RX_DESC)].Done? <==> next < |log|
    ensures next < |log| ==> desc[Slot(next, NUM_RX_DESC)] == log[next]
  {
    assert next == |log| ==> desc[Slot(next, NUM_RX_DESC)] == Armed(bufs[Slot(next, NUM_RX_DESC)].phyAddr);
  }

  // ------------------------------------------------------------ the ring

  /** So many of a number of mappings are done: all, or those before the first that fails. */
  predicate UpToFailure(done: nat, count: nat, works: nat -> bool) {
    && done <= count && (forall k :: 0 <= k < done ==> works(k))
    && (done < count ==> !works(done))
  }

  /** All are done exactly when none fails. */
  lemma AllDoneExactly(done: nat, count: nat, works: nat -> bool)
    requires UpToFailure(done, count, works)
    ensures done <= count && (done == count <==> forall k :: 0 <= k < count ==> works(k))
    ensures done < count <==> exists k :: 0 <= k < count && !works(k)
  {
  }

  /** Mapping moves addresses, not buffers. */
  predicate SameBuffers(bufs: seq<RxBuf>, bufs': seq<RxBuf>) {
    |bufs| == |bufs'| && forall k :: 0 <= k < |bufs| ==> bufs'[k].mbuf == bufs[k].mbuf
  }

  class VtdRing {
    const rxBufArray: array<RxBuf>
    const rxMemRange: array<nat>          // the buffer each range maps
    const device: Device
    const frag: Fragment
    const phys: nat -> Address            // where a mapped buffer lies
    const maxCopySize: nat
    var rxNextDescIndex: nat
    var rxMapNextIndex: nat
    var rxCleanedCount: nat               // whole batches consumed and not tried to map again
    var nextId: nat                       // the pool never hands out the same buffer twice
    ghost var consumed: nat               // descriptors consumed since the last reset
    ghost var batches: nat                // batches mapped again since the last reset
    ghost var backlog: nat                // consumed batches no one counts any more, as a mapping failed
    ghost var tried: bool                 // the next batch to map is one whose mapping failed
    ghost var mark: nat                   // events before the last reset

    ghost predicate Shaped()
    {
      rxBufArray.Length == rxMemRange.Length == NUM_RX_DESC
    }

    /** The tail is the slot before the next batch to map, and the driver is less than a batch ahead
        of the whole batches it has consumed since. */
    ghost predicate Aligned(whole: nat)
      reads this, device
    {
      && rxNextDescIndex == Slot(consumed, NUM_RX_DESC) && rxMapNextIndex == Slot(BATCH * batches, NUM_RX_DESC)
      && BATCH * (batches + whole) <= consumed < BATCH * (batches + whole) + BATCH
      && consumed <= |device.log| && device.Aligned(BATCH * batches + NUM_RX_DESC - 1)
    }

    ghost predicate Valid()
      reads this, frag, device, rxBufArray, rxMemRange, device.rxDescArray
    {
      Behind(rxCleanedCount + backlog)
    }

    ghost predicate Behind(whole: nat)
      reads this, frag, device, rxBufArray, rxMemRange, device.rxDescArray
    {
      && Shaped() && Aligned(whole) && frag.Valid()
      && Written(device.rxDescArray[..], rxBufArray[..], BATCH * batches, device.log)
      && Mapped(rxBufArray[..], rxMemRange[..], phys, BATCH * batches, consumed, tried)
      && Unshared(rxBufArray[..], Buffers(frag.events), nextId)
      && RangesKnown(rxMemRange[..], nextId)
      && Faithful(frag.events, mark, device.log, consumed)
    }

    /** One batch: ranges of replaced buffers are updated; if the mapping works, all sixteen are mapped and
        armed, and the tail moves to the end of the batch. */
    method MapBatch(index: nat, update: bool, works: bool)
      requires Shaped() && device.rxDescArray.Length == NUM_RX_DESC && index + BATCH <= NUM_RX_DESC
      requires forall k :: index <= k < index + BATCH ==> rxBufArray[k].phyAddr == 0 || rxMemRange[k] == rxBufArray[k].mbuf
      modifies this`rxMapNextIndex, rxBufArray, rxMemRange, device`tailRegister, device.rxDescArray
      ensures forall k :: 0 <= k < NUM_RX_DESC ==>
        rxBufArray[k].mbuf == old(rxBufArray[k].mbuf)
        && rxMemRange[k] == if index <= k < index + BATCH then rxBufArray[k].mbuf else old(rxMemRange[k])
      ensures works ==> forall k :: index <= k < index + BATCH ==>
        rxBufArray[k].phyAddr == phys(rxMemRange[k]) && device.rxDescArray[k] == Armed(rxBufArray[k].phyAddr)
      ensures forall k :: 0 <= k < NUM_RX_DESC && (works ==> !(index <= k < index + BATCH)) ==>
        rxBufArray[k] == old(rxBufArray[k]) && device.rxDescArray[k] == old(device.rxDescArray[k])
      ensures rxMapNextIndex == if works then Slot(index + BATCH, NUM_RX_DESC) else old(rxMapNextIndex)
      ensures device.tailRegister == if works && update then index + BATCH - 1 else old(device.tailRegister)
    {
      hide Slot;
      var i, end := index, index + BATCH;
      while i < end
        modifies rxMemRange
        invariant index <= i <= end
        invariant forall k :: index <= k < i ==> rxMemRange[k] == rxBufArray[k].mbuf
        invariant forall k :: 0 <= k < NUM_RX_DESC && !(index <= k < i) ==> rxMemRange[k] == old(rxMemRange[k])
      {
        if rxBufArray[i].phyAddr == 0 {
          rxMemRange[i] := rxBufArray[i].mbuf;
        }
        i := i + 1;
      }
      if !works {
        return;
      }
      i := index;
      while i < end
        modifies rxBufArray, device.rxDescArray
        invariant index <= i <= end
        invariant forall k :: 0 <= k < NUM_RX_DESC ==> rxBufArray[k].mbuf == old(rxBufArray[k].mbuf)
        invariant forall k :: index <= k < i ==>
          rxBufArray[k].phyAddr == phys(rxMemRange[k]) && device.rxDescArray[k] == Armed(rxBufArray[k].phyAddr)
        invariant forall k :: 0 <= k < NUM_RX_DESC && !(index <= k < i) ==>
          rxBufArray[k] == old(rxBufArray[k]) && device.rxDescArray[k] == old(device.rxDescArray[k])
      {
        var pa := phys(rxMemRange[i]);
        rxBufArray[i] := RxBuf(rxBufArray[i].mbuf, pa);
        device.rxDescArray[i] := Armed(pa);
        i := i + 1;
      }
      rxMapNextIndex := Slot(index + BATCH, NUM_RX_DESC);
      if update {
        device.tailRegister := index + BATCH - 1;
      }
    }

    /** The device completes one descriptor. */
    method FrameArrives(d: RxDesc)
      requires Valid() && d.Done? && |device.log| < BATCH * batches + NUM_RX_DESC - 1
      modifies device`headRegister, device`log, device.rxDescArray
      ensures Valid() && device.log == old(device.log) + [d]
    {
      hide Slot, Written, Mapped, Unshared, Faithful, Fold, Buffers, RangesKnown;
      device.CompleteOne(d, rxBufArray[..], BATCH * batches, BATCH * batches + NUM_RX_DESC - 1);
      FaithfulMore(frag.events, mark, old(device.log), device.log, consumed);
    }

    /** The device takes a turn; the next slot then shows whether there is something to consume. */
    method HardwareRuns(ghost whole: nat)
      requires Behind(whole)
      modifies device`headRegister, device`log, device.rxDescArray
      ensures Behind(whole) && old(device.log) <= device.log
      ensures rxNextDescIndex < NUM_RX_DESC && (device.rxDescArray[rxNextDescIndex].Done? <==> consumed < |device.log|)
      ensures consumed < |device.log| ==> device.rxDescArray[rxNextDescIndex] == device.log[consumed]
    {
      hide Slot, Written, Mapped, Unshared, Faithful, Fold, Buffers, RangesKnown;
      device.Complete(rxBufArray[..], BATCH * batches, BATCH * batches + NUM_RX_DESC - 1);
      FaithfulMore(frag.events, mark, old(device.log), device.log, consumed);
      LookAhead(device.rxDescArray[..], rxBufArray[..], BATCH * batches, device.log, consumed);
    }

    /** Maps so many consumed batches again and hands them to the device, which may use each of them at
        once; the first mapping that fails ends it.  Mapping k of the call works if works(k). */
    method RxMapBuffers(count: nat, works: nat -> bool) returns (ghost done: nat)
      requires Behind(count + backlog)
      modifies this`rxMapNextIndex, this`batches, this`tried, rxBufArray, rxMemRange, device, device.rxDescArray
      ensures UpToFailure(done, count, works) && batches == old(batches) + done && Behind(count - done + backlog)
      ensures old(device.log) <= device.log && SameBuffers(old(rxBufArray[..]), rxBufArray[..])
    {
      hide Slot, Written, Mapped, Unshared, Faithful, Fold, Buffers, RangesKnown;
      var batch: nat := count;
      done := 0;
      while batch > 0
        invariant done + batch == count && batches == old(batches) + done && Behind(batch + backlog)
        invariant old(device.log) <= device.log && forall k :: 0 <= k < done ==> works(k)
        invariant SameBuffers(old(rxBufArray[..]), rxBufArray[..])
      {
        HardwareRuns(batch + backlog);
        MapNext(batch + backlog, works(count - batch));
        if !works(count - batch) {
          return;
        }
        done, batch := done + 1, batch - 1;
      }
    }

    /** The next batch, mapped again if the mapping works. */
    method MapNext(ghost whole: nat, works: bool)
      requires whole > 0 && Behind(whole)
      modifies this`rxMapNextIndex, this`batches, this`tried, rxBufArray, rxMemRange, device`tailRegister, device.rxDescArray
      ensures batches == old(batches) + (if works then 1 else 0) && Behind(if works then whole - 1 else whole)
      ensures SameBuffers(old(rxBufArray[..]), rxBufArray[..])
    {
      hide Slot, Written, Mapped, Unshared, Faithful, Fold, Buffers, RangesKnown;
      ghost var (bufs, ranges, desc) := (rxBufArray[..], rxMemRange[..], device.rxDescArray[..]);
      ghost var base := BATCH * batches;
      BatchSlot(batches);
      MappedOrStale(bufs, ranges, phys, base, consumed, tried);
      MapBatch(rxMapNextIndex, true, works);
      UnsharedSame(bufs, rxBufArray[..], Buffers(frag.events), nextId);
      RangesOfBuffers(bufs, ranges, rxMemRange[..], Buffers(frag.events), nextId);
      if works {
        WrittenBatch(desc, bufs, base, device.log, device.rxDescArray[..], rxBufArray[..]);
        MappedBatch(bufs, ranges, phys, base, consumed, tried, rxBufArray[..], rxMemRange[..]);
        TailOfBatch(batches);
        batches := batches + 1;
      } else {
        assert rxBufArray[..] == bufs && device.rxDescArray[..] == desc;
        MappedTried(bufs, ranges, phys, base, consumed, tried, rxMemRange[..]);
      }
      tried := !works;
    }

    /** A ring of fresh, mapped buffers, given to the device but for the last slot. */
    constructor (phys: nat -> Address, maxCopySize: nat)
      ensures Valid() && frag.events == [] && frag.upstream == [] && consumed == batches == backlog == 0 && device.log == []
      ensures fresh(frag) && fresh(device) && fresh(rxBufArray) && fresh(rxMemRange) && fresh(device.rxDescArray)
    {
      this.phys, this.maxCopySize := phys, maxCopySize;
      var bufs, ranges := NewBuffers(phys);
      rxBufArray, rxMemRange := bufs, ranges;
      rxNextDescIndex, rxMapNextIndex, rxCleanedCount := 0, 0, 0;
      nextId, consumed, batches, mark, backlog, tried := NUM_RX_DESC, 0, 0, 0, 0, false;
      device := new Device((i: nat) => phys(i) as int);
      frag := new Fragment();
      new;
      hide Slot, Written, Mapped, Unshared, Buffers, Faithful, RangesKnown, Fold;
      RingEnds();
      assert Aligned(0) && frag.Valid();
      NothingFaithful([]);
      StartsOut(device.rxDescArray[..], rxBufArray[..], rxMemRange[..], phys);
    }

    /** What becomes of a filled buffer: it is passed on and replaced, copied, or left in place.  A
        replaced buffer leaves its slot without an address. */
    method Receive(status: RxDesc, supply: Supply) returns (ended: bool)
      requires Valid() && status.Done? && consumed < |device.log| && rxNextDescIndex < NUM_RX_DESC
      modifies this`nextId, frag, rxBufArray
      ensures frag.Valid() && Unshared(rxBufArray[..], Buffers(frag.events), nextId) && nextId == old(nextId) + 1
      ensures rxBufArray[..] == old(rxBufArray[..])[rxNextDescIndex := rxBufArray[rxNextDescIndex]]
      ensures Written(device.rxDescArray[..], rxBufArray[..], BATCH * batches, device.log)
      ensures Mapped(rxBufArray[..], rxMemRange[..], phys, BATCH * batches, consumed + 1, tried)
      ensures |frag.events| == |old(frag.events)| + 1 && frag.events[..|old(frag.events)|] == old(frag.events)
      ensures ended == Ends(frag.events[|old(frag.events)|])
      ensures |frag.upstream| == |old(frag.upstream)| + if ended then 1 else 0
      ensures Explains(frag.events[|old(frag.events)|], status, supply, old(rxBufArray[rxNextDescIndex]),
                       rxBufArray[rxNextDescIndex], maxCopySize, old(nextId))
    {
      hide Slot, Fold, Unshared, Written, Buffers, Mapped, Faithful, RangesKnown;
      var i, bufPkt := rxNextDescIndex, rxBufArray[rxNextDescIndex].mbuf;
      ended := false;
      if status.err || supply.NoBuffer? || (supply.Chained? && status.length > maxCopySize) {
        UnsharedBad(rxBufArray[..], Buffers(frag.events), nextId);
        nextId := nextId + 1;
        BuffersMore(frag.events, Bad);
        frag.Discard();
        MappedKept(rxBufArray[..], rxMemRange[..], phys, BATCH * batches, consumed, tried);
      } else {
        var newPkt := nextId;
        nextId := nextId + 1;
        if status.length > maxCopySize {
          UnsharedReplaced(rxBufArray[..], Buffers(frag.events), newPkt, i, 0);
          RangeOther(rxMemRange[..], i, newPkt);
          MappedReplaced(rxBufArray[..], rxMemRange[..], phys, BATCH * batches, consumed, tried, newPkt);
          WrittenReplaced(device.rxDescArray[..], rxBufArray[..], BATCH * batches, device.log, consumed, RxBuf(newPkt, 0));
          rxBufArray[i] := RxBuf(newPkt, 0);
          newPkt := bufPkt;
        } else {
          UnsharedCopied(rxBufArray[..], Buffers(frag.events), newPkt);
          MappedKept(rxBufArray[..], rxMemRange[..], phys, BATCH * batches, consumed, tried);
        }
        BuffersMore(frag.events, Good(newPkt, status.length, status.eop));
        ended := frag.Collect(newPkt, status.length, status.eop);
      }
    }

    /** The next completed descriptor, while the device goes on.  Its done bit stays. */
    method ConsumeOne(supply: Supply) returns (ended: bool)
      requires Valid() && consumed < |device.log|
      modifies this, frag, device`headRegister, device`log, rxBufArray, device.rxDescArray
      ensures Valid() && consumed == old(consumed) + 1 && batches == old(batches) && mark == old(mark)
      ensures backlog == old(backlog) && nextId == old(nextId) + 1
      ensures old(device.log) <= device.log
      ensures |frag.events| == |old(frag.events)| + 1 && frag.events[..|old(frag.events)|] == old(frag.events)
      ensures ended == Ends(frag.events[|old(frag.events)|])
      ensures |frag.upstream| == |old(frag.upstream)| + if ended then 1 else 0
      ensures old(rxNextDescIndex) < NUM_RX_DESC
      ensures rxBufArray[..] == old(rxBufArray[..])[old(rxNextDescIndex) := rxBufArray[old(rxNextDescIndex)]]
      ensures Explains(frag.events[|old(frag.events)|], old(device.log)[old(consumed)], supply,
                       old(rxBufArray[rxNextDescIndex]), rxBufArray[old(rxNextDescIndex)], maxCopySize, old(nextId))
    {
      hide Slot, Fold, Unshared, Written, Buffers, Mapped, Faithful, Describes;
      LookAhead(device.rxDescArray[..], rxBufArray[..], BATCH * batches, device.log, consumed);
      var status := device.rxDescArray[rxNextDescIndex];
      HardwareRuns(rxCleanedCount + backlog);
      ended := Receive(status, supply);
      FaithfulNext(old(frag.events), mark, device.log, consumed, frag.events);
      NextSlot();
    }

    /** Moves on to the next slot; the last one of a batch counts the batch. */
    method NextSlot()
      requires Aligned(rxCleanedCount + backlog) && consumed < |device.log|
      modifies this`rxNextDescIndex, this`rxCleanedCount, this`consumed
      ensures Aligned(rxCleanedCount + backlog) && consumed == old(consumed) + 1
    {
      hide Slot;
      BatchEnd(consumed, batches + (rxCleanedCount + backlog));
      if rxNextDescIndex % BATCH == BATCH - 1 {
        rxCleanedCount := rxCleanedCount + 1;
      }
      IndexStep(consumed);
      rxNextDescIndex := Slot(rxNextDescIndex + 1, NUM_RX_DESC);
      consumed := consumed + 1;
    }

    /** The next frame of a call, and the device's next turn. */
    method HandleFrame(pool: nat -> Supply, n: nat, ghost made: seq<Event>, ghost frames: seq<RxDesc>, ghost call: Outset)
      returns (ended: bool, ghost e: Event, ghost d: RxDesc)
      requires Valid() && consumed < |device.log| && n == |made| < NUM_RX_DESC
      requires consumed == call.consumed + n && nextId == call.nextId + n
      requires Accounted(rxBufArray[..], made, frames, call, pool, maxCopySize)
      modifies this, frag, device`headRegister, device`log, rxBufArray, device.rxDescArray
      ensures Valid() && consumed == old(consumed) + 1 && old(device.log) <= device.log && mark == old(mark)
      ensures batches == old(batches) && backlog == old(backlog) && nextId == old(nextId) + 1
      ensures frag.events == old(frag.events) + [e] && d == old(device.log)[old(consumed)] && ended == Ends(e)
      ensures |frag.upstream| == |old(frag.upstream)| + if ended then 1 else 0
      ensures Accounted(rxBufArray[..], made + [e], frames + [d], call, pool, maxCopySize)
      ensures rxNextDescIndex < NUM_RX_DESC && (device.rxDescArray[rxNextDescIndex].Done? <==> consumed < |device.log|)
    {
      hide Slot, Fold, Unshared, Written, Mapped, Faithful, Buffers, RangesKnown, Accounted, Fate;
      ghost var (bufs, events) := (rxBufArray[..], frag.events);
      d := device.log[consumed];
      ended := ConsumeOne(pool(n));
      e := frag.events[|events|];
      AccountedNext(bufs, rxBufArray[..], made, frames, e, d, call, pool, maxCopySize);
      HardwareRuns(rxCleanedCount + backlog);
    }

    /** Consumes completed descriptors until none is left or maxCount packets have gone up, then maps
        the consumed batches again.  The pool answers frame j of the call with pool(j), and mapping k works
        if works(k); the first that fails leaves the rest of the batches to map to the backlog, which is
        never made up for.  What the device had completed at the last look is seen.  Of each frame it is
        said what event it made and what buffer its slot holds now; a packet the call finds whole, in any
        number of frames, goes up as one. */
    method RxInterruptVTD(maxCount: nat, pool: nat -> Supply, works: nat -> bool)
      returns (goodPkts: nat, ghost seen: seq<RxDesc>, ghost frames: seq<RxDesc>, ghost made: seq<Event>,
               ghost cleaned: nat, ghost done: nat)
      requires Valid()
      modifies this, frag, device, rxBufArray, rxMemRange, device.rxDescArray
      ensures Valid() && rxCleanedCount == 0 && BATCH * (batches + backlog) <= consumed < BATCH * (batches + backlog) + BATCH
      ensures UpToFailure(done, cleaned, works) && batches == old(batches) + done && backlog == old(backlog) + cleaned - done
      ensures backlog > old(backlog) <==> exists k :: 0 <= k < cleaned && !works(k)
      ensures rxMapNextIndex == rxNextDescIndex - rxNextDescIndex % BATCH <==> backlog == 0
      ensures Slot(rxMapNextIndex + BATCH * backlog, NUM_RX_DESC) == rxNextDescIndex - rxNextDescIndex % BATCH
      ensures device.tailRegister == if rxMapNextIndex > 0 then rxMapNextIndex - 1 else NUM_RX_DESC - 1
      ensures goodPkts <= maxCount && |frag.upstream| == |old(frag.upstream)| + goodPkts
      ensures old(device.log) <= seen <= device.log && (goodPkts < maxCount ==> consumed == |seen|)
      ensures old(consumed) <= consumed <= |seen| && frames == seen[old(consumed)..consumed] && frag.events == old(frag.events) + made
      ensures mark == old(mark) && goodPkts <= |made| == |frames| && nextId == old(nextId) + |frames|
      ensures forall j :: 0 <= j < |frames| ==>
        var (e, d, i) := (made[j], frames[j], SlotFrom(old(consumed), j));
        && d.Done? && (e.Bad? <==> d.err || pool(j).NoBuffer? || (pool(j).Chained? && d.length > maxCopySize))
        && (e.Good? ==> e.length == d.length && e.eop == d.eop
                        && e.buffer == if d.length > maxCopySize then old(rxBufArray[..])[i].mbuf else old(nextId) + j)
        && rxBufArray[i].mbuf == if e.Good? && d.length > maxCopySize then old(nextId) + j else old(rxBufArray[..])[i].mbuf
      ensures forall j :: |frames| <= j < NUM_RX_DESC ==>
        rxBufArray[SlotFrom(old(consumed), j)].mbuf == old(rxBufArray[..])[SlotFrom(old(consumed), j)].mbuf
      ensures
        (old(frag.rxPacketChain) == [] && frames != []
         && forall j :: 0 <= j < |frames| ==> !frames[j].err && pool(j).Single? && frames[j].eop == (j == |frames| - 1))
        ==>
        (|frag.upstream| == |old(frag.upstream)| + 1 && frag.upstream[..|old(frag.upstream)|] == old(frag.upstream)
         && var p := frag.upstream[|old(frag.upstream)|];
            |p.buffers| == |frames| && p.length == Bytes(frames)
            && forall j :: 0 <= j < |frames| ==> made[j].Good? && p.buffers[j] == made[j].buffer)
      ensures made != [] && goodPkts == maxCount ==> Ends(made[|made| - 1])
    {
      hide Slot, Fold, Unshared, Written, Mapped, Faithful, Buffers, RangesKnown, Accounted, Fate, UpToFailure;
      ghost var call, events := Outset(consumed, rxBufArray[..], nextId), frag.events;
      goodPkts, seen, frames, made := Consume(maxCount, pool);
      ghost var bufs := rxBufArray[..];
      cleaned, done := MapCleaned(works);
      AllDoneExactly(done, cleaned, works);
      AccountedSame(bufs, rxBufArray[..], made, frames, call, pool, maxCopySize);
      CallFates(rxBufArray[..], made, frames, call, pool, maxCopySize);
      CallFrame(events, rxBufArray[..], made, frames, call, pool, maxCopySize);
    }

    /** The loop over completed descriptors. */
    method Consume(maxCount: nat, pool: nat -> Supply)
      returns (goodPkts: nat, ghost seen: seq<RxDesc>, ghost frames: seq<RxDesc>, ghost made: seq<Event>)
      requires Valid()
      modifies this, frag, device`headRegister, device`log, rxBufArray, device.rxDescArray
      ensures Valid() && batches == old(batches) && backlog == old(backlog) && mark == old(mark)
      ensures goodPkts <= maxCount && |frag.upstream| == |old(frag.upstream)| + goodPkts
      ensures old(device.log) <= seen == device.log && (goodPkts < maxCount ==> consumed == |seen|)
      ensures old(consumed) <= consumed <= |seen| && frames == seen[old(consumed)..consumed] && frag.events == old(frag.events) + made
      ensures goodPkts <= |made| == |frames| && nextId == old(nextId) + |frames|
      ensures Accounted(rxBufArray[..], made, frames, Outset(old(consumed), old(rxBufArray[..]), old(nextId)), pool, maxCopySize)
      ensures made != [] && goodPkts == maxCount ==> Ends(made[|made| - 1])
    {
      hide Slot, Fold, Unshared, Written, Mapped, Faithful, Buffers, RangesKnown, Accounted, Fate;
      goodPkts, frames, made := 0, [], [];
      ghost var call, events := Outset(consumed, rxBufArray[..], nextId), frag.events;
      HardwareRuns(rxCleanedCount + backlog);
      NothingAccounted(call, pool, maxCopySize);
      var n := 0;
      while device.rxDescArray[rxNextDescIndex].Done? && goodPkts < maxCount
        invariant Valid() && batches == old(batches) && backlog == old(backlog) && goodPkts <= maxCount
        invariant |frag.upstream| == |old(frag.upstream)| + goodPkts && old(device.log) <= device.log && mark == old(mark)
        invariant rxNextDescIndex < NUM_RX_DESC && (device.rxDescArray[rxNextDescIndex].Done? <==> consumed < |device.log|)
        invariant consumed == old(consumed) + n && nextId == old(nextId) + n && consumed <= |device.log| < BATCH * batches + NUM_RX_DESC
        invariant goodPkts <= n == |made| && frag.events == events + made && frames == device.log[old(consumed)..consumed]
        invariant Accounted(rxBufArray[..], made, frames, call, pool, maxCopySize)
        invariant made != [] && goodPkts == maxCount ==> Ends(made[|made| - 1])
        decreases BATCH * batches + NUM_RX_DESC - consumed
      {
        ghost var log := device.log;
        var ended, e, d := HandleFrame(pool, n, made, frames, call);
        FramesMore(log, device.log, old(consumed), consumed - 1);
        made, frames := made + [e], frames + [d];
        goodPkts := goodPkts + if ended then 1 else 0;
        n := n + 1;
      }
      seen := device.log;
    }

    /** Maps every batch again as far as that works, arms every slot and starts over, all but the last slot
        with the device.  The fragment is given up.  A slot beyond the last batch mapped keeps the address
        it had, which is none if its buffer was replaced. */
    method ClearRing(works: nat -> bool) returns (ghost done: nat)
      requires Valid()
      modifies this, frag, device, rxBufArray, rxMemRange, device.rxDescArray
      ensures UpToFailure(done, NUM_BATCHES, works)
      ensures (forall k :: 0 <= k < NUM_BATCHES ==> works(k)) ==> done == NUM_BATCHES && Valid()
      ensures consumed == batches == backlog == 0 && device.log == [] && rxNextDescIndex == rxMapNextIndex == rxCleanedCount == 0
      ensures frag.events == old(frag.events) + [Bad] && frag.upstream == old(frag.upstream) && frag.rxPacketChain == []
      ensures forall k :: 0 <= k < NUM_RX_DESC ==>
        rxBufArray[k].mbuf == old(rxBufArray[k].mbuf) && device.rxDescArray[k] == Armed(rxBufArray[k].phyAddr)
      ensures forall k :: 0 <= k < BATCH * done ==>
        rxMemRange[k] == rxBufArray[k].mbuf && rxBufArray[k].phyAddr == phys(rxBufArray[k].mbuf)
      ensures forall k :: BATCH * done <= k < NUM_RX_DESC ==> rxBufArray[k] == old(rxBufArray[k])
    {
      hide Slot, Written, Mapped, Unshared, Faithful, Fold, Buffers, RangesKnown;
      ghost var (bufs, ranges) := (rxBufArray[..], rxMemRange[..]);
      done := MapAll(works);
      AllDoneExactly(done, NUM_BATCHES, works);
      ArmAll();
      UnsharedSame(bufs, rxBufArray[..], Buffers(frag.events), nextId);
      RangesOfBuffers(bufs, ranges, rxMemRange[..], Buffers(frag.events), nextId);
      AllArmed(device.rxDescArray[..], rxBufArray[..]);
      if done == NUM_BATCHES {
        AllMapped(rxBufArray[..], rxMemRange[..], phys);
      }
      BuffersMore(frag.events, Bad);
      assert Buffers(frag.events) + [] == Buffers(frag.events);
      frag.Discard();
      StartOver();
      NothingFaithful(frag.events);
    }

    /** Puts every slot's address back. */
    method ArmAll()
      requires rxBufArray.Length == device.rxDescArray.Length == NUM_RX_DESC
      modifies device.rxDescArray
      ensures forall k :: 0 <= k < NUM_RX_DESC ==> device.rxDescArray[k] == Armed(rxBufArray[k].phyAddr)
    {
      var i := 0;
      while i < NUM_RX_DESC
        invariant i <= NUM_RX_DESC && forall k :: 0 <= k < i ==> device.rxDescArray[k] == Armed(rxBufArray[k].phyAddr)
      {
        device.rxDescArray[i] := Armed(rxBufArray[i].phyAddr);
        i := i + 1;
      }
    }

    /** The indices of driver and device after a reset. */
    method StartOver()
      requires device.rxDescArray.Length == NUM_RX_DESC
      modifies this`rxNextDescIndex, this`rxMapNextIndex, this`rxCleanedCount, this`consumed, this`batches, this`mark,
               this`backlog, this`tried
      modifies device`headRegister, device`tailRegister, device`log
      ensures Aligned(0) && rxNextDescIndex == rxMapNextIndex == rxCleanedCount == consumed == batches == backlog == 0
      ensures mark == |frag.events| && device.log == [] && !tried
    {
      hide Slot;
      RingEnds();
      rxCleanedCount, rxNextDescIndex, rxMapNextIndex := 0, 0, 0;
      device.headRegister, device.tailRegister, device.log := 0, NUM_RX_DESC - 1, [];
      consumed, batches, mark, backlog, tried := 0, 0, |frag.events|, 0, false;
    }

    method MapAll(works: nat -> bool) returns (ghost done: nat)
      requires Valid()
      modifies this`rxMapNextIndex, rxBufArray, rxMemRange, device`tailRegister, device.rxDescArray
      ensures UpToFailure(done, NUM_BATCHES, works) && forall k :: 0 <= k < NUM_RX_DESC ==>
        rxBufArray[k].mbuf == old(rxBufArray[k].mbuf)
        && (rxMemRange[k] == rxBufArray[k].mbuf || rxMemRange[k] == old(rxMemRange[k]))
      ensures forall k :: 0 <= k < BATCH * done ==>
        rxMemRange[k] == rxBufArray[k].mbuf && rxBufArray[k].phyAddr == phys(rxMemRange[k])
      ensures forall k :: BATCH * done <= k < NUM_RX_DESC ==> rxBufArray[k] == old(rxBufArray[k])
    {
      hide Slot, Written, Mapped, Unshared, Faithful, Fold, Buffers, RangesKnown;
      MappedOrStale(rxBufArray[..], rxMemRange[..], phys, BATCH * batches, consumed, tried);
      var batch := 0;
      done := 0;
      while batch < NUM_BATCHES
        invariant done == batch <= NUM_BATCHES && forall k :: 0 <= k < done ==> works(k)
        invariant forall k :: 0 <= k < NUM_RX_DESC ==> rxBufArray[k].mbuf == old(rxBufArray[k].mbuf)
        invariant forall k :: 0 <= k < BATCH * batch ==>
          rxMemRange[k] == rxBufArray[k].mbuf && rxBufArray[k].phyAddr == phys(rxMemRange[k])
        invariant forall k :: BATCH * batch <= k < NUM_RX_DESC ==>
          rxBufArray[k] == old(rxBufArray[k]) && rxMemRange[k] == old(rxMemRange[k])
      {
        MapBatch(BATCH * batch, false, works(batch));
        if !works(batch) {
          return;
        }
        batch, done := batch + 1, done + 1;
      }
    }

    method MapCleaned(works: nat -> bool) returns (ghost cleaned: nat, ghost done: nat)
      requires Valid()
      modifies this`rxMapNextIndex, this`batches, this`rxCleanedCount, this`backlog, this`tried
      modifies rxBufArray, rxMemRange, device, device.rxDescArray
      ensures Valid() && old(device.log) <= device.log && rxCleanedCount == 0 && cleaned == old(rxCleanedCount)
      ensures SameBuffers(old(rxBufArray[..]), rxBufArray[..])
      ensures UpToFailure(done, cleaned, works) && batches == old(batches) + done && backlog == old(backlog) + cleaned - done
      ensures rxMapNextIndex == rxNextDescIndex - rxNextDescIndex % BATCH <==> backlog == 0
      ensures Slot(rxMapNextIndex + BATCH * backlog, NUM_RX_DESC) == rxNextDescIndex - rxNextDescIndex % BATCH
      ensures device.tailRegister == if rxMapNextIndex > 0 then rxMapNextIndex - 1 else NUM_RX_DESC - 1
    {
      hide Slot, Fold, Unshared, Written, Mapped, Faithful, Buffers, RangesKnown;
      cleaned, done := rxCleanedCount, 0;
      if rxCleanedCount > 0 {
        done := RxMapBuffers(rxCleanedCount, works);
        backlog := backlog + rxCleanedCount - done;
        rxCleanedCount := 0;
      }
      RoundedDown(consumed, batches, backlog);
      FullTurn(rxMapNextIndex, backlog);
    }
  }

  /** Fewer batches than a turn lead back to the same slot only if they are none. */
  lemma FullTurn(m: nat, k: nat)
    requires m < NUM_RX_DESC && k < NUM_BATCHES
    ensures Slot(m + BATCH * k, NUM_RX_DESC) == m <==> k == 0
  {
    assert Slot(m, NUM_RX_DESC) == m;
    hide Slot;
    SlotStep(m, BATCH * k, NUM_RX_DESC);
  }

  /** A batch of bad frames whose mapping fails: the batch is given up, and the next batch to map is no
      longer the one the driver is in. */
  method FailedMappingLags(phys: nat -> Address, maxCopySize: nat) returns (ring: VtdRing)
    ensures fresh(ring) && ring.Valid() && ring.backlog > 0
    ensures ring.rxMapNextIndex == 0 && ring.rxMapNextIndex != ring.rxNextDescIndex - ring.rxNextDescIndex % BATCH
  {
    hide Slot, SlotFrom, Bytes, Written, Mapped, Unshared, Faithful, Fold, Buffers, RangesKnown;
    ring := new VtdRing(phys, maxCopySize);
    var i := 0;
    while i < BATCH
      invariant i <= BATCH && |ring.device.log| == i && ring.Valid() && fresh(ring)
      invariant fresh(ring.frag) && fresh(ring.device) && fresh(ring.rxBufArray) && fresh(ring.rxMemRange)
      invariant fresh(ring.device.rxDescArray) && ring.batches == ring.backlog == ring.consumed == 0
    {
      ring.FrameArrives(Done(true, true, 64));
      i := i + 1;
    }
    var pool: nat -> Supply, works: nat -> bool := _ => NoBuffer, _ => false;
    var goodPkts, seen, frames, made, cleaned, done := ring.RxInterruptVTD(1, pool, works);
    assert !works(0);
    assert done == 0 && ring.batches == 0;
    RingEnds();
  }

  /** Each batch given up leaves the device sixteen descriptors less to run ahead by. */
  lemma BacklogStarves(ring: VtdRing)
    requires ring.Valid()
    ensures |ring.device.log| - ring.consumed < NUM_RX_DESC - BATCH * (ring.rxCleanedCount + ring.backlog)
  {
  }

  /** Buffers for all slots and the ranges that map them. */
  method NewBuffers(phys: nat -> Address) returns (bufs: array<RxBuf>, ranges: array<nat>)
    ensures fresh(bufs) && fresh(ranges) && bufs.Length == ranges.Length == NUM_RX_DESC
    ensures forall i :: 0 <= i < NUM_RX_DESC ==> bufs[i] == RxBuf(i, phys(i)) && ranges[i] == i
  {
    bufs := new RxBuf[NUM_RX_DESC]((i: nat) => RxBuf(i, phys(i)));
    ranges := new nat[NUM_RX_DESC]((i: nat) => i);
  }

  lemma StartsOut(desc: seq<RxDesc>, bufs: seq<RxBuf>, ranges: seq<nat>, phys: nat -> Address)
    requires |desc| == |bufs| == |ranges| == NUM_RX_DESC
    requires forall i :: 0 <= i < NUM_RX_DESC ==> bufs[i] == RxBuf(i, phys(i)) && ranges[i] == i && desc[i] == Armed(phys(i))
    ensures Written(desc, bufs, 0, []) && Mapped(bufs, ranges, phys, 0, 0, false)
    ensures Unshared(bufs, Buffers([]), NUM_RX_DESC) && RangesKnown(ranges, NUM_RX_DESC)
  {
    hide Slot;
    AllArmed(desc, bufs);
  }

  lemma AllMapped(bufs: seq<RxBuf>, ranges: seq<nat>, phys: nat -> Address)
    requires |bufs| == |ranges| == NUM_RX_DESC
    requires forall i :: 0 <= i < NUM_RX_DESC ==> ranges[i] == bufs[i].mbuf && bufs[i].phyAddr == phys(ranges[i])
    ensures Mapped(bufs, ranges, phys, 0, 0, false)
  {
    hide Slot;
  }

  lemma NothingFaithful(events: seq<Event>)
    ensures Faithful(events, |events|, [], 0)
  {
  }

  lemma FaithfulNext(events: seq<Event>, mark: nat, log: seq<RxDesc>, next: nat, after: seq<Event>)
    requires Faithful(events, mark, log, next) && next < |log| && |after| == |events| + 1 && after[..|events|] == events
    requires Describes(after[|events|], log[next])
    ensures Faithful(after, mark, log, next + 1)
  {
    forall p | 0 <= p < next ensures Describes(after[mark + p], log[p]) {
      assert after[mark + p] == after[..|events|][mark + p];
    }
  }

  lemma RangeOther(ranges: seq<nat>, i: nat, m: nat)
    requires RangesKnown(ranges, m) && i < |ranges|
    ensures ranges[i] != m && RangesKnown(ranges, m + 1)
  {
  }

  lemma FaithfulMore(events: seq<Event>, mark: nat, log: seq<RxDesc>, log': seq<RxDesc>, next: nat)
    requires Faithful(events, mark, log, next) && log <= log'
    ensures Faithful(events, mark, log', next)
  {
  }

  /** The next batch to map starts where the next slot, rounded down, does, but for the batches given up. */
  lemma RoundedDown(p: nat, k: nat, backlog: nat)
    requires BATCH * (k + backlog) <= p < BATCH * (k + backlog) + BATCH && backlog < NUM_BATCHES
    ensures Slot(Slot(BATCH * k, NUM_RX_DESC) + BATCH * backlog, NUM_RX_DESC) == Slot(p, NUM_RX_DESC) - Slot(p, NUM_RX_DESC) % BATCH
    ensures Slot(BATCH * k + NUM_RX_DESC - 1, NUM_RX_DESC)
         == if Slot(BATCH * k, NUM_RX_DESC) > 0 then Slot(BATCH * k, NUM_RX_DESC) - 1 else NUM_RX_DESC - 1
  {
    var at := BATCH * (k + backlog);
    BatchSlot(k + backlog);
    TailBehind(BATCH * k);
    SlotAdds(BATCH * k, BATCH * backlog, NUM_RX_DESC);
    hide Slot;
    SlotStep(at, p - at, NUM_RX_DESC);
    WithinSixteen(Slot(at, NUM_RX_DESC), p - at);
  }

  lemma WithinSixteen(a: nat, d: nat)
    requires a % BATCH == 0 && d < BATCH
    ensures (a + d) % BATCH == d
  {
  }

  /** No range maps a buffer yet to come. */
  predicate RangesKnown(ranges: seq<nat>, nextId: nat) { forall i :: 0 <= i < |ranges| ==> ranges[i] < nextId }

  lemma MappedOrStale(bufs: seq<RxBuf>, ranges: seq<nat>, phys: nat -> Address, base: nat, next: nat, tried: bool)
    requires Mapped(bufs, ranges, phys, base, next, tried)
    ensures forall k :: 0 <= k < NUM_RX_DESC ==> bufs[k].phyAddr == 0 || ranges[k] == bufs[k].mbuf
  {
  }

  lemma UnsharedSame(bufs: seq<RxBuf>, bufs': seq<RxBuf>, passed: seq<nat>, nextId: nat)
    requires Unshared(bufs, passed, nextId) && |bufs| == |bufs'|
    requires forall k :: 0 <= k < |bufs| ==> bufs'[k].mbuf == bufs[k].mbuf
    ensures Unshared(bufs', passed, nextId)
  {
  }

  lemma RangesOfBuffers(bufs: seq<RxBuf>, ranges: seq<nat>, ranges': seq<nat>, passed: seq<nat>, nextId: nat)
    requires RangesKnown(ranges, nextId) && Unshared(bufs, passed, nextId) && |bufs| == |ranges| == |ranges'|
    requires forall k :: 0 <= k < |bufs| ==> ranges'[k] == bufs[k].mbuf || ranges'[k] == ranges[k]
    ensures RangesKnown(ranges', nextId)
  {
  }

  /** The end of a batch is the position one short of a turn behind the start of the next. */
  lemma TailOfBatch(k: nat)
    ensures Slot(BATCH * k, NUM_RX_DESC) + BATCH - 1 == Slot(BATCH * (k + 1) + NUM_RX_DESC - 1, NUM_RX_DESC)
  {
    var q, r := k / 32, k % 32;
    assert BATCH * k == 512 * q + 16 * r;
    Place512(q, 16 * r);
    Place512(q + 1, 16 * r + 15);
  }
}
