/** The transmit side of the driver: arrays and indices changed in place.  The ghost trace lists the
    machine actions behind every change, so each state of the object is a reachable machine state. */
module TxDriver {
  import opened Options
  import opened Rotation
  import opened TxMachine
  import opened TxSteps
  import opened TxTheorems
  import opened TxRing

  lemma ExtendRun(start: State, run: seq<Action>, a: Action)
    requires Legal(start, run) && Shaped(Exec(start, run)) && Enabled(Exec(start, run), a)
    ensures Legal(start, run + [a]) && Exec(start, run + [a]) == Do(Exec(start, run), a)
  {
    ExecOne(Exec(start, run), a);
    LegalConcat(start, run, [a]);
  }

  /** A packet of the output queue: its offload bits, whether header preparation succeeds, the
      segments it needs (none if it needs too many) and whether its mapping succeeds. */
  datatype Request = Request(packet: nat, offload: Offload, prepared: bool, segs: nat, mapOk: bool)
  {
    predicate Fits(minDescs: nat) {
      segs <= MAX_SEGS && (segs > 0 ==> offload.Recordable(segs) && minDescs <= offload.NumDescs(segs))
    }
  }

  class Ring {
    const vtd: bool
    ghost const minDescs: nat
    const txBufArray: array<TxBuf>
    const txDescArray: array<Desc>
    const txMemIO: array<MemDesc>
    var txNumFreeDesc: int
    var txNextDescIndex: nat
    var txDirtyIndex: nat
    var txCleanBarrierIndex: nat
    var tailRegister: nat
    var forceReset: bool                  // and the transmitter is off
    var txNextMem2Use: nat
    var txNextMem2Free: nat
    var txNumFreeMem: int
    ghost var state: State
    ghost var trace: seq<Action>

    /** The driver's fields are those of the machine state. */
    ghost predicate Agrees()
      reads this, txBufArray, txDescArray, txMemIO
    {
      && state.vtd == vtd && state.minDescs == minDescs
      && state.slots == txBufArray[..] && state.desc == txDescArray[..] && state.mem == txMemIO[..]
      && state.numFree == txNumFreeDesc && state.next == txNextDescIndex && state.dirty == txDirtyIndex
      && state.barrier == txCleanBarrierIndex && state.tdt == tailRegister && state.halted == forceReset
      && state.memUse == txNextMem2Use && state.memFree == txNextMem2Free && state.freeMem == txNumFreeMem
    }

    /** The machine state is what the trace leads to. */
    ghost predicate Ran()
      reads this`state, this`trace
    {
      Legal(Init(vtd, minDescs), trace) && state == Exec(Init(vtd, minDescs), trace) && Inv(state)
    }

    ghost predicate Valid()
      reads this, txBufArray, txDescArray, txMemIO
    {
      Agrees() && Ran()
    }

    constructor (vtd: bool, ghost minDescs: nat)
      ensures Valid() && state == Init(vtd, minDescs) && trace == []
      ensures fresh(txBufArray) && fresh(txDescArray) && fresh(txMemIO)
    {
      this.vtd, this.minDescs := vtd, minDescs;
      txBufArray := new TxBuf[NUM_TX_DESC](_ => EMPTY);
      txDescArray := new Desc[NUM_TX_DESC](_ => Desc(false, false));
      txMemIO := new MemDesc[NUM_TX_MEM](_ => Inactive);
      txNumFreeDesc, txNextDescIndex, txDirtyIndex, txCleanBarrierIndex, tailRegister := NUM_TX_DESC, 0, 0, 0, 0;
      forceReset := false;
      txNextMem2Use, txNextMem2Free, txNumFreeMem := 0, 0, NUM_TX_MEM;
      state, trace := Init(vtd, minDescs), [];
      new;
      InitInv(vtd, minDescs);
      assert Legal(Init(vtd, minDescs), []);
    }

    /** One more action of the machine. */
    ghost method Step(a: Action)
      requires Ran() && Shaped(state) && Enabled(state, a)
      modifies this`state, this`trace
      ensures Ran() && Shaped(state) && state == Do(old(state), a) && trace == old(trace) + [a]
    {
      hide Inv, Do, Init;
      ExtendRun(Init(vtd, minDescs), trace, a);
      StepKeepsInv(state, a);
      state, trace := Do(state, a), trace + [a];
      InvIsShaped(state);
    }

    // ---------------------------------------------------------- mapping a packet

    /** Maps a packet of segs segments (0 when it needs too many).  A failed mapping leaves nothing
        behind; when no memory descriptor may be taken, the segments go out unmapped. */
    method MapPacket(packet: nat, segs: nat, mapOk: bool) returns (numSegs: nat)
      requires Valid() && vtd && state.prod.Ready? && segs <= MAX_SEGS
      modifies this`txNumFreeMem, this`txNextMem2Use, this`state, this`trace, txMemIO
      ensures Valid()
      ensures numSegs == if segs == 0 || (!mapOk && old(txNumFreeMem) > 1) then 0 else segs
      ensures numSegs == 0 ==> state == old(state).(prod := AtLoop)
      ensures numSegs > 0 && old(txNumFreeMem) > 1 ==>
                trace == old(trace) + [TakeMem(packet, segs), Activate]
                && Shaped(old(state)) && state == MappedFor(old(state), packet, segs)
      ensures numSegs > 0 && old(txNumFreeMem) <= 1 ==> state == old(state).(prod := Mapped(packet, segs), skips := old(state).skips + 1)
    {
      hide Inv, Slot, Legal, Exec, Init, DoFill, DoReset, DoClean;
      InvIsShaped(state);
      if segs == 0 {
        Step(Drop);
        return 0;
      }
      if txNumFreeMem > 1 {
        txNumFreeMem := txNumFreeMem - 1;
        var saveMem := txNextMem2Use;
        txNextMem2Use := Slot(txNextMem2Use + 1, NUM_TX_MEM);
        if !mapOk {
          txNextMem2Use := saveMem;
          txNumFreeMem := txNumFreeMem + 1;
          StepBack(packet, segs);
          return 0;
        }
        txMemIO[saveMem] := Active(packet);
        StepMap(packet, segs);
      } else {
        Step(SkipMap(packet, segs));
      }
      numSegs := segs;
    }

    ghost method StepMap(packet: nat, segs: nat)
      requires Ran() && Shaped(state) && Enabled(state, TakeMem(packet, segs))
      modifies this`state, this`trace
      ensures Ran() && Shaped(old(state)) && state == MappedFor(old(state), packet, segs)
      ensures trace == old(trace) + [TakeMem(packet, segs), Activate]
    {
      hide Inv, Slot, Legal, Exec, Init, DoFill, DoReset, DoClean, Ran;
      Step(TakeMem(packet, segs));
      Step(Activate);
      assert trace == old(trace) + [TakeMem(packet, segs), Activate];
    }

    ghost method StepBack(packet: nat, segs: nat)
      requires Ran() && Shaped(state) && Enabled(state, TakeMem(packet, segs))
      modifies this`state, this`trace
      ensures Ran() && state == old(state).(prod := AtLoop)
    {
      hide Inv, Slot, Legal, Exec, Init, DoFill, DoReset, DoClean;
      FailedMappingRollsBack(state, packet, segs);
      Step(TakeMem(packet, segs));
      Step(RollBack);
    }

    // ---------------------------------------------------------- submitting a packet

    /** Takes the descriptors of a mapped packet and fills their slots.  What is written is stated
        for any packet; a recordable one is submitted as the machine does it. */
    method SubmitPacket(packet: nat, o: Offload, numSegs: nat)
      requires Valid() && state.prod == Mapped(packet, numSegs) && 1 <= numSegs <= MAX_SEGS
      modifies this`txNumFreeDesc, this`txNextDescIndex, this`state, this`trace, txBufArray, txDescArray
      ensures txNumFreeDesc == old(txNumFreeDesc) - o.NumDescs(numSegs)
      ensures txNextDescIndex == Slot(old(txNextDescIndex) + o.NumDescs(numSegs), NUM_TX_DESC)
      ensures txBufArray[..]
           == WriteFrom(old(txBufArray[..]), old(txNextDescIndex), BufWrites(packet, o, numSegs, o.Written(numSegs)))
      ensures txDescArray[..]
           == WriteFrom(old(txDescArray[..]), old(txNextDescIndex), DescWrites(o, numSegs, o.Written(numSegs)))
      ensures txNumFreeDesc == old(txNumFreeDesc) - numSegs - if o.tso || o.counted then 1 else 0
      ensures txBufArray.Length == txDescArray.Length == NUM_TX_DESC
      ensures SlotsOf(old(txBufArray[..]), txBufArray[..], old(txDescArray[..]), txDescArray[..],
                      old(txNextDescIndex), packet, o, numSegs)
      ensures o.Recordable(numSegs) && minDescs <= o.NumDescs(numSegs) ==>
                Valid() && trace == old(trace) + SubmitRun(o.NumDescs(numSegs))
                && state == Submitted(old(state), packet, o, numSegs)
    {
      hide Inv, Slot, WriteFrom, SubmitRun, Legal, Exec, Init, BufWrites, DescWrites, SlotsOf, SlotOf;
      InvIsShaped(state);
      var numDescs := (if o.tso || o.counted then 1 else 0) + numSegs;
      txNumFreeDesc := txNumFreeDesc - numDescs;
      var index := txNextDescIndex;
      txNextDescIndex := Slot(txNextDescIndex + numDescs, NUM_TX_DESC);
      FillSlots(index, packet, o, numSegs, numDescs);
      if o.Recordable(numSegs) && minDescs <= o.NumDescs(numSegs) {
        Recorded(packet, o, numSegs);
      }
    }

    /** The context descriptor, if any offload bit is set, and the data descriptors. */
    method FillSlots(first: nat, packet: nat, o: Offload, numSegs: nat, numDescs: nat)
      requires txBufArray.Length == txDescArray.Length == NUM_TX_DESC && first < NUM_TX_DESC
      requires numSegs > 0 && numDescs == o.NumDescs(numSegs)
      modifies txBufArray, txDescArray
      ensures txBufArray[..] == WriteFrom(old(txBufArray[..]), first, BufWrites(packet, o, numSegs, o.Written(numSegs)))
      ensures txDescArray[..] == WriteFrom(old(txDescArray[..]), first, DescWrites(o, numSegs, o.Written(numSegs)))
      ensures numSegs <= MAX_SEGS ==>
        SlotsOf(old(txBufArray[..]), txBufArray[..], old(txDescArray[..]), txDescArray[..], first, packet, o, numSegs)
    {
      hide Slot, WriteFrom, BufWrites, DescWrites, SlotsOf;
      if numSegs <= MAX_SEGS {
        WritesInPlace(txBufArray[..], txDescArray[..], first, packet, o, numSegs);
      }
      var index, lastSeg := first, numSegs - 1;
      ghost var c := if o.Any() then 1 else 0;
      SlotOfSlot(first);
      NothingWritten(old(txBufArray[..]), old(txDescArray[..]), first, packet, o, numSegs);
      if o.Any() {
        WriteSlot(first, packet, o, numSegs, 0, old(txBufArray[..]), old(txDescArray[..]));
        txBufArray[index] := TxBuf(None, 0);
        txDescArray[index] := Desc(false, false);
        index := NextSlot(first, 0, index);
      }
      if o.tso {
        var i := 0;
        while i < numSegs
          invariant 0 <= i <= numSegs && index < NUM_TX_DESC && index == Slot(first + c + i, NUM_TX_DESC)
          invariant txBufArray[..] == WriteFrom(old(txBufArray[..]), first, BufWrites(packet, o, numSegs, c + i))
          invariant txDescArray[..] == WriteFrom(old(txDescArray[..]), first, DescWrites(o, numSegs, c + i))
        {
          WriteSlot(first, packet, o, numSegs, c + i, old(txBufArray[..]), old(txDescArray[..]));
          if i == 0 {
            txBufArray[index], txDescArray[index] := TxBuf(None, 0), Desc(false, false);
          } else if i == lastSeg {
            txBufArray[index], txDescArray[index] := TxBuf(Some(packet), numDescs), Desc(true, false);
          } else {
            txBufArray[index], txDescArray[index] := TxBuf(None, 0), Desc(false, false);
          }
          index := NextSlot(first, c + i, index);
          i := i + 1;
        }
      } else {
        var i := 0;
        while i < numSegs
          invariant 0 <= i <= numSegs && index < NUM_TX_DESC && index == Slot(first + c + i, NUM_TX_DESC)
          invariant txBufArray[..] == WriteFrom(old(txBufArray[..]), first, BufWrites(packet, o, numSegs, c + i))
          invariant txDescArray[..] == WriteFrom(old(txDescArray[..]), first, DescWrites(o, numSegs, c + i))
        {
          WriteSlot(first, packet, o, numSegs, c + i, old(txBufArray[..]), old(txDescArray[..]));
          if i == lastSeg {
            txBufArray[index], txDescArray[index] := TxBuf(Some(packet), numDescs), Desc(true, false);
          } else {
            txBufArray[index], txDescArray[index] := TxBuf(None, 0), Desc(false, false);
          }
          index := NextSlot(first, c + i, index);
          i := i + 1;
        }
      }
    }

    /** The next index of the ring, by the mask. */
    method NextSlot(ghost first: nat, ghost k: nat, index: nat) returns (following: nat)
      requires index == Slot(first + k, NUM_TX_DESC)
      ensures following == Slot(first + k + 1, NUM_TX_DESC) == Slot(index + 1, NUM_TX_DESC)
    {
      following := Slot(index + 1, NUM_TX_DESC);
      Advance(first + k, 1);
    }

    ghost method Recorded(packet: nat, o: Offload, numSegs: nat)
      requires Ran() && state.prod == Mapped(packet, numSegs) && numSegs > 0
      requires o.Recordable(numSegs) && minDescs <= o.NumDescs(numSegs) && state.minDescs == minDescs
      modifies this`state, this`trace
      ensures Ran() && trace == old(trace) + SubmitRun(o.NumDescs(numSegs))
      ensures Shaped(old(state)) && state == Submitted(old(state), packet, o, numSegs)
    {
      hide Inv, Slot, WriteFrom, SubmitRun, Legal, Exec, Init;
      InvIsShaped(state);
      SubmitIsRun(state, packet, o, numSegs);
      LegalConcat(Init(vtd, minDescs), trace, SubmitRun(o.NumDescs(numSegs)));
      RunsKeepInv(state, SubmitRun(o.NumDescs(numSegs)));
      state, trace := Submitted(state, packet, o, numSegs), trace + SubmitRun(o.NumDescs(numSegs));
    }

    // ---------------------------------------------------------- publishing

    /** Tells the hardware, and then the cleaner, how far the ring is filled.  If the tail register reads
        back another value, the transmitter is turned off and a reset asked for. */
    method UpdateTxDescTail(readBack: nat)
      requires Valid() && state.prod.AtLoop? && state.count > 0
      modifies this`tailRegister, this`forceReset, this`txCleanBarrierIndex, this`state, this`trace
      ensures Valid() && tailRegister == readBack && txCleanBarrierIndex == txNextDescIndex
      ensures forceReset == (old(forceReset) || readBack != txNextDescIndex)
      ensures trace == old(trace) + [WriteTail(readBack), WriteBarrier]
      ensures state == Told(old(state), readBack)
    {
      hide Inv, Slot, Ran;
      tailRegister := readBack;
      if readBack != txNextDescIndex {
        forceReset := true;
      }
      txCleanBarrierIndex := txNextDescIndex;
      StepTail(readBack);
    }

    ghost method StepTail(readBack: nat)
      requires Ran() && state.prod.AtLoop? && state.count > 0
      modifies this`state, this`trace
      ensures Ran() && state == Told(old(state), readBack) && trace == old(trace) + [WriteTail(readBack), WriteBarrier]
    {
      hide Inv, Slot, Legal, Exec, Init, DoFill, DoReset, DoClean;
      InvIsShaped(state);
      hide Ran;
      Step(WriteTail(readBack));
      Step(WriteBarrier);
      assert trace == old(trace) + [WriteTail(readBack), WriteBarrier];
    }

    // ---------------------------------------------------------- the cleaner

    method TxUnmapPacket()
      requires Valid() && state.clean.Unmapping?
      modifies this`txNextMem2Free, this`txNumFreeMem, this`state, this`trace, txMemIO
      ensures Valid() && trace == old(trace) + [Clean, Clean]
      ensures txNextMem2Free == Slot(old(txNextMem2Free) + 1, NUM_TX_MEM) && old(txNextMem2Free) < NUM_TX_MEM
      ensures Shaped(old(state)) && state == OldestUnmapped(old(state))
    {
      hide Inv, Slot, Ran;
      StepUnmap();
      txMemIO[txNextMem2Free] := Inactive;
      txNextMem2Free := Slot(txNextMem2Free + 1, NUM_TX_MEM);
      txNumFreeMem := txNumFreeMem + 1;
    }

    ghost method StepUnmap()
      requires Ran() && state.clean.Unmapping?
      modifies this`state, this`trace
      ensures Ran() && Shaped(old(state)) && state == OldestUnmapped(old(state)) && trace == old(trace) + [Clean, Clean]
    {
      hide Inv, Slot, Legal, Exec, Init, DoFill, DoReset;
      InvIsShaped(state);
      Step(Clean);
      Step(Clean);
      assert trace == old(trace) + [Clean, Clean];
    }

    /** Frees the packet at the dirty index and gives its descriptors back. */
    method FreePacket()
      requires Valid() && state.clean.Freeing?
      modifies this`txNumFreeDesc, this`state, this`trace, txBufArray
      ensures Valid() && Shaped(old(state)) && state == OldestFreed(old(state))
          && trace == old(trace) + [Clean, Clean, Clean]
    {
      hide Inv, Slot, Legal, Exec, Init, DoFill, DoReset;
      InvIsShaped(state);
      FreeSlot(state);
      txBufArray[txDirtyIndex] := TxBuf(None, txBufArray[txDirtyIndex].numDescs);
      var cleaned := txBufArray[txDirtyIndex].numDescs;
      txBufArray[txDirtyIndex] := TxBuf(txBufArray[txDirtyIndex].mbuf, 0);
      txNumFreeDesc := txNumFreeDesc + cleaned;
      StepFree();
    }

    ghost method StepFree()
      requires Ran() && state.clean.Freeing?
      modifies this`state, this`trace
      ensures Ran() && Shaped(old(state)) && state == OldestFreed(old(state)) && trace == old(trace) + [Clean, Clean, Clean]
    {
      hide Inv, Slot, Legal, Exec, Init, DoFill, DoReset;
      InvIsShaped(state);
      FreeSlot(state);
      Step(Clean);
      Step(Clean);
      Step(Clean);
      assert trace == old(trace) + [Clean, Clean, Clean];
    }

    /** A move of the cleaner that changes nothing else. */
    ghost method Move(c: Cleaner)
      requires Valid() && Shaped(state) && Do(state, Clean) == state.(clean := c)
      modifies this`state, this`trace
      ensures Valid() && Shaped(state) && state == old(state).(clean := c)
    {
      hide Inv, Slot, Legal, Exec, Init, Do, Ran;
      Step(Clean);
    }

    /** The cleaner starts, or compares the dirty index with the barrier. */
    ghost method Poll()
      requires Valid() && (state.clean.Idle? || state.clean.Testing?)
      modifies this`state, this`trace
      ensures Valid() && Shaped(state)
      ensures state == old(state).(clean := if old(state).clean.Idle? then Testing
                                            else if txDirtyIndex == txCleanBarrierIndex then Idle else AtSlot)
    {
      hide Inv, Slot, Legal, Exec, Init, DoFill, DoReset;
      InvIsShaped(state);
      Move(DoClean(state).clean);
    }

    method AdvanceDirty()
      requires Valid() && state.clean.Advancing?
      modifies this`txDirtyIndex, this`state, this`trace
      ensures Valid() && Shaped(state)
      ensures state == old(state).(dirty := state.dirty, absDirty := old(state).absDirty + 1, clean := Testing)
    {
      hide Inv, Slot, Legal, Exec, Init, DoFill, DoReset;
      InvIsShaped(state);
      txDirtyIndex := Slot(txDirtyIndex + 1, NUM_TX_DESC);
      Step(Clean);
    }

    /** The slot at the dirty index: a packet that is not done stops the cleaner. */
    method CleanSlot() returns (goOn: bool)
      requires Valid() && state.clean.AtSlot?
      modifies this`txNumFreeDesc, this`txDirtyIndex, this`txNextMem2Free, this`txNumFreeMem, this`state, this`trace,
          txBufArray, txMemIO
      ensures Valid() && Shaped(state) && Shaped(old(state)) && state.absDirty == old(state).absDirty + if goOn then 1 else 0
      ensures state.clean == if goOn then Testing else Idle
      ensures var (buf, done) := (old(state).slots[old(state).dirty], old(state).desc[old(state).dirty].dd);
        goOn == (buf.mbuf.None? || done) && if buf.mbuf.Some? && done then FreedOne(old(state), state) else FreedNone(old(state), state)
    {
      hide Inv, Slot, Legal, Exec, Init, DoFill, DoReset;
      InvIsShaped(state);
      if txBufArray[txDirtyIndex].mbuf.Some? {
        if !txDescArray[txDirtyIndex].dd {
          Move(Idle);
          return false;
        }
        Move(if vtd then Unmapping else Freeing);
        if vtd {
          TxUnmapPacket();
        }
        FreePacket();
      } else {
        Move(Advancing(false));
      }
      AdvanceDirty();
      goOn := true;
    }

    /** Frees, oldest first, exactly the packets before the barrier whose last descriptor is done,
        up to the first that is not. */
    method TxInterrupt() returns (wake: bool, ghost freed: nat)
      requires Valid() && state.clean.Idle?
      modifies this`txNumFreeDesc, this`txDirtyIndex, this`txNextMem2Free, this`txNumFreeMem, this`state, this`trace,
          txBufArray, txMemIO
      ensures Valid() && state.clean.Idle? && Shaped(old(state))
      ensures freed <= |old(state).flight| && state.flight == old(state).flight[freed..]
      ensures state.released == old(state).released + FlightPackets(old(state).flight[..freed])
      ensures txNumFreeDesc == old(txNumFreeDesc) + Total(old(state).flight[..freed])
      ensures forall k :: 0 <= k < freed ==> Cleanable(old(state), old(state).flight[k])
      ensures freed < |old(state).flight| ==> !Cleanable(old(state), old(state).flight[freed])
      ensures forall k :: 0 <= k < |old(state).flight| ==>
        (k < freed <==> old(state).flight[k].End() <= old(state).absBarrier && old(state).flight[k].End() <= old(state).absHead)
      ensures state.prod == old(state).prod && state.submitted == old(state).submitted
      ensures wake <==> txNumFreeDesc > NUM_TX_DESC / 8
    {
      hide Inv, Slot, Legal, Exec, Init, DoFill, DoReset, Total, Cleanable, FlightPackets, Do, DoClean;
      ghost var start := state;
      freed := 0;
      InvIsShaped(state);
      NothingCleaned(start);
      var stopped := false;
      Poll();
      while !stopped && txDirtyIndex != txCleanBarrierIndex
        invariant Valid() && Shaped(state) && state.clean == if stopped then Idle else Testing
        invariant Cleaned(start, state, freed) && freed <= |start.flight|
        invariant forall k :: 0 <= k < freed ==> Cleanable(start, start.flight[k])
        invariant stopped ==> freed < |start.flight| && !Cleanable(start, start.flight[freed])
        decreases !stopped, state.absBarrier - state.absDirty
      {
        Positions(state);
        CleanedMoved(start, state, freed, AtSlot);
        Poll();
        ghost var at := state;
        var goOn := CleanSlot();
        CleanedSlot(start, at, state, freed);
        if at.slots[at.dirty].mbuf.Some? && goOn {
          freed := freed + 1;
        }
        stopped := !goOn;
      }
      if !stopped {
        Positions(state);
        BarrierStops(start, state, freed);
        Poll();
      }
      FreedExactly(start, freed);
      wake := txNumFreeDesc > NUM_TX_DESC / 8;
    }

    // ---------------------------------------------------------- the output thread

    /** A mapping is tried for a packet: translation is on and more than one memory descriptor free. */
    predicate Tries()
      reads this
    {
      vtd && txNumFreeMem > 1
    }

    /** Physical segments of a prepared packet, by mapping it or by a cursor; 0 drops the packet. */
    method Segments(r: Request) returns (numSegs: nat)
      requires Valid() && state.prod.Ready? && r.Fits(minDescs)
      modifies this`txNumFreeMem, this`txNextMem2Use, this`state, this`trace, txMemIO
      ensures Valid() && numSegs == (if r.segs > 0 && (old(Tries()) ==> r.mapOk) then r.segs else 0)
      ensures state.prod == (if numSegs > 0 then Mapped(r.packet, r.segs) else AtLoop) && SameRing(old(state), state)
    {
      hide Inv, Slot, Legal, Exec, Init, DoFill, DoReset, DoClean;
      InvIsShaped(state);
      if vtd {
        numSegs := MapPacket(r.packet, r.segs, r.mapOk);
      } else {
        numSegs := r.segs;
        if numSegs == 0 {
          Step(Drop);
        } else {
          Step(NoMap(r.packet, r.segs));
        }
      }
    }

    /** One packet of the output queue. */
    method OutputPacket(r: Request) returns (submitted: bool, ghost tried: bool)
      requires Valid() && state.prod.AtLoop? && txNumFreeDesc >= MIN_FREE && !forceReset && r.Fits(minDescs)
      modifies this, txBufArray, txDescArray, txMemIO
      ensures Valid() && state.prod.AtLoop? && state.released == old(state).released && !forceReset
      ensures tried == old(Tries()) && (vtd && minDescs >= 2 ==> tried)
      ensures submitted <==> r.prepared && r.segs > 0 && (tried ==> r.mapOk)
      ensures state.submitted == old(state).submitted + if submitted then [r.packet] else []
      ensures state.count == old(state).count + if submitted then 1 else 0
    {
      hide Inv, Slot, Legal, Exec, Init, DoFill, DoReset, DoClean, WriteFrom, BufWrites, DescWrites, SubmitRun;
      InvIsShaped(state);
      submitted, tried := false, Tries();
      Step(Check);
      if vtd && minDescs >= 2 {
        GuardHolds(state);
      }
      if !r.prepared {
        Step(Drop);
        return;
      }
      var numSegs := Segments(r);
      if numSegs > 0 {
        SubmitPacket(r.packet, r.offload, numSegs);
        submitted := true;
      }
    }

    /** Takes packets off the queue as long as there is room for the largest, submits those that
        prepare and map, in order, and publishes them all; went names their places in the queue.  A packet
        for which no mapping is tried, as memory descriptors have run out, goes out unmapped; that needs
        packets of one descriptor. */
    method OutputStart(up: bool, queue: seq<Request>, readBack: nat)
      returns (room: bool, taken: nat, ghost tried: seq<bool>, ghost went: seq<nat>)
      requires Valid() && state.prod.AtLoop? && state.count == 0
      requires forall k :: 0 <= k < |queue| ==> queue[k].Fits(minDescs)
      modifies this, txBufArray, txDescArray, txMemIO
      ensures Valid() && state.prod.AtLoop? && state.count == 0 && |tried| == taken <= |queue|
      ensures vtd && minDescs >= 2 ==> forall k :: 0 <= k < taken ==> tried[k]
      ensures !vtd ==> forall k :: 0 <= k < taken ==> !tried[k]
      ensures !up || old(forceReset) ==> !room && taken == 0 && forceReset == old(forceReset)
      ensures up && !old(forceReset) ==> (room <==> txNumFreeDesc >= MIN_FREE) && (taken == |queue| || txNumFreeDesc < MIN_FREE)
      ensures forall k :: 0 <= k < taken ==>
        (k in went <==> queue[k].prepared && queue[k].segs > 0 && (tried[k] ==> queue[k].mapOk))
      ensures forall j :: 0 <= j < |went| ==> went[j] < taken && forall i :: 0 <= i < j ==> went[i] < went[j]
      ensures var n := |old(state).submitted|;
        && |state.submitted| == n + |went| && state.submitted[..n] == old(state).submitted
        && forall j :: 0 <= j < |went| ==> state.submitted[n + j] == queue[went[j]].packet
      ensures state.released == old(state).released
      ensures txCleanBarrierIndex == txNextDescIndex && (forceReset || tailRegister == txNextDescIndex)
      ensures forceReset ==> old(forceReset) || (tailRegister == readBack != txNextDescIndex && |state.submitted| > |old(state).submitted|)
    {
      hide Inv, Slot, Legal, Exec, Init, Do;
      taken, room, tried, went := 0, false, [], [];
      ghost var n := |state.submitted|;
      var count := 0;
      if !up || forceReset {
        AllPublished(state);
        return;
      }
      while txNumFreeDesc >= MIN_FREE && taken < |queue|
        invariant Valid() && state.prod.AtLoop? && state.count == count && !forceReset && |tried| == taken <= |queue|
        invariant vtd && minDescs >= 2 ==> forall k :: 0 <= k < taken ==> tried[k]
        invariant !vtd ==> forall k :: 0 <= k < taken ==> !tried[k]
        invariant forall k :: 0 <= k < taken ==>
          (k in went <==> queue[k].prepared && queue[k].segs > 0 && (tried[k] ==> queue[k].mapOk))
        invariant forall j :: 0 <= j < |went| ==> went[j] < taken && forall i :: 0 <= i < j ==> went[i] < went[j]
        invariant |state.submitted| == n + |went| == n + count && state.submitted[..n] == old(state).submitted
        invariant forall j :: 0 <= j < |went| ==> state.submitted[n + j] == queue[went[j]].packet
        invariant state.released == old(state).released
        decreases |queue| - taken
      {
        var submitted, more := OutputPacket(queue[taken]);
        if submitted {
          count, went := count + 1, went + [taken];
        }
        tried := tried + [more];
        taken := taken + 1;
      }
      if count > 0 {
        UpdateTxDescTail(readBack);
      }
      AllPublished(state);
      room := txNumFreeDesc >= MIN_FREE;
    }

    // ---------------------------------------------------------- the reset

    /** Frees the packets the slots record, in slot order. */
    method FreeRecorded() returns (ghost freed: seq<nat>)
      requires txBufArray.Length == NUM_TX_DESC
      modifies txBufArray
      ensures freed == Packets(old(txBufArray[..]))
      ensures forall k :: 0 <= k < NUM_TX_DESC ==> txBufArray[k] == Cleared(old(txBufArray[k]))
    {
      hide Packets;
      ghost var was := txBufArray[..];
      freed := [];
      NoPackets(was);
      var i := 0;
      while i < NUM_TX_DESC
        invariant 0 <= i <= NUM_TX_DESC
        invariant freed == Packets(was[..i])
        invariant forall k :: 0 <= k < NUM_TX_DESC ==> txBufArray[k] == if k < i then Cleared(was[k]) else was[k]
      {
        PacketsMore(was, i);
        if txBufArray[i].mbuf.Some? {
          freed := freed + [txBufArray[i].mbuf.value];
          txBufArray[i] := TxBuf(None, 0);
        }
        i := i + 1;
      }
      assert was[..i] == was;
    }

    /** Completes every active memory descriptor. */
    method CompleteActive()
      requires txMemIO.Length == NUM_TX_MEM
      modifies txMemIO
      ensures txMemIO[..] == Inactives(NUM_TX_MEM)
    {
      var i := 0;
      while i < NUM_TX_MEM
        invariant 0 <= i <= NUM_TX_MEM
        invariant forall k :: 0 <= k < i ==> txMemIO[k] == Inactive
      {
        if txMemIO[i].Active? {
          txMemIO[i] := Inactive;
        }
        i := i + 1;
      }
    }

    /** The fields of both rings after a reset. */
    method ClearFields() returns (ghost freed: seq<nat>)
      requires txBufArray.Length == NUM_TX_DESC && txMemIO.Length == NUM_TX_MEM
      modifies this`tailRegister, this`forceReset, this`txNextDescIndex, this`txDirtyIndex, this`txCleanBarrierIndex, this`txNumFreeDesc,
               this`txNextMem2Use, this`txNextMem2Free, this`txNumFreeMem, txBufArray, txMemIO
      ensures freed == Packets(old(txBufArray[..])) && txBufArray[..] == ClearedAll(old(txBufArray[..]))
      ensures tailRegister == txNextDescIndex == txDirtyIndex == txCleanBarrierIndex == 0 && txNumFreeDesc == NUM_TX_DESC
      ensures !forceReset
      ensures vtd ==> txMemIO[..] == Inactives(NUM_TX_MEM)
                      && txNextMem2Use == txNextMem2Free == 0 && txNumFreeMem == NUM_TX_MEM
      ensures !vtd ==> txMemIO[..] == old(txMemIO[..])
                       && unchanged(this`txNextMem2Use, this`txNextMem2Free, this`txNumFreeMem)
    {
      hide Packets;
      freed := FreeRecorded();
      AllCleared(old(txBufArray[..]), txBufArray[..]);
      if vtd {
        CompleteActive();
        txNextMem2Use, txNextMem2Free := 0, 0;
        txNumFreeMem := NUM_TX_MEM;
      }
      tailRegister, forceReset := 0, false;
      txNextDescIndex, txDirtyIndex, txCleanBarrierIndex := 0, 0, 0;
      txNumFreeDesc := NUM_TX_DESC;
    }

    /** Frees every packet the ring records, completes the active memory descriptors and starts both
        rings over. */
    method ClearDescriptors() returns (ghost freed: seq<nat>)
      requires Valid() && state.prod.AtLoop? && state.count == 0 && state.clean.Idle?
      modifies this, txBufArray, txMemIO
      ensures Valid() && trace == old(trace) + [Reset]
      ensures freed == Packets(old(txBufArray[..])) && multiset(freed) == multiset(FlightPackets(old(state).flight))
      ensures state.flight == [] && state.released == old(state).released + freed && state.submitted == old(state).submitted
      ensures txBufArray[..] == Empties(NUM_TX_DESC) && txNumFreeDesc == NUM_TX_DESC
      ensures vtd ==> txMemIO[..] == Inactives(NUM_TX_MEM) && txNumFreeMem == NUM_TX_MEM
    {
      hide Inv, Slot, Legal, Exec, Init, Packets, FlightPackets, Do, DoReset, Empties, Inactives, ClearedAll;
      InvIsShaped(state);
      ResetFields(state);
      freed := ClearFields();
      Step(Reset);
    }
  }

  // ------------------------------------------------------------ lemmas for the reset and the queue

  lemma AllCleared(before: seq<TxBuf>, after: seq<TxBuf>)
    requires |before| == |after| == NUM_TX_DESC
    requires forall k :: 0 <= k < NUM_TX_DESC ==> after[k] == Cleared(before[k])
    ensures after == ClearedAll(before)
  {
  }

  function ClearedAll(slots: seq<TxBuf>): seq<TxBuf>
    requires |slots| == NUM_TX_DESC
  {
    seq(NUM_TX_DESC, i requires 0 <= i < NUM_TX_DESC => Cleared(slots[i]))
  }

  /** The reset field by field. */
  lemma ResetFields(s: State)
    requires Inv(s) && Shaped(s) && Enabled(s, Reset)
    ensures var t := Do(s, Reset);
      && t.vtd == s.vtd && t.minDescs == s.minDescs && t.desc == s.desc
      && t.slots == ClearedAll(s.slots) == Empties(NUM_TX_DESC)
      && t.numFree == NUM_TX_DESC && t.next == t.dirty == t.barrier == t.tdt == 0 && !t.halted
      && (if s.vtd then t.mem == Inactives(NUM_TX_MEM) && t.memUse == t.memFree == 0 && t.freeMem == NUM_TX_MEM
          else t.mem == s.mem && t.memUse == s.memUse && t.memFree == s.memFree && t.freeMem == s.freeMem)
      && t.flight == [] && t.released == s.released + Packets(s.slots) && t.submitted == s.submitted
    ensures multiset(Packets(s.slots)) == multiset(FlightPackets(s.flight))
  {
    hide Inv, Packets, FlightPackets;
    ResetClears(s);
    ReleasedExactlyOnce(s);
    AllCleared(s.slots, Do(s, Reset).slots);
  }

  /** A step of the output thread that leaves the descriptor ring alone. */
  predicate SameRing(s: State, t: State) {
    t.submitted == s.submitted && t.released == s.released && t.count == s.count && t.numFree == s.numFree && t.halted == s.halted
  }

  /** With nothing left to publish, hardware and cleaner know the whole ring. */
  lemma AllPublished(s: State)
    requires Inv(s) && s.prod.AtLoop? && s.count == 0
    ensures s.barrier == s.next && (s.halted || s.tdt == s.next)
  {
  }

  lemma NoPackets(slots: seq<TxBuf>)
    ensures Packets(slots[..0]) == []
  {
  }

  lemma PacketsMore(slots: seq<TxBuf>, i: nat)
    requires i < |slots|
    ensures Packets(slots[..i + 1]) == Packets(slots[..i]) + if slots[i].mbuf.Some? then [slots[i].mbuf.value] else []
  {
    PacketsConcat(slots[..i], [slots[i]]);
    assert slots[..i + 1] == slots[..i] + [slots[i]];
    assert [slots[i]][1..] == [];
  }

  // ------------------------------------------------------------ what the cleaner has done

  /** A recorded packet before the barrier whose last descriptor is marked done. */
  ghost predicate Cleanable(s: State, b: Block)
    requires Shaped(s)
  {
    b.End() <= s.absBarrier && b.End() > 0 && s.desc[Slot(b.End() - 1, NUM_TX_DESC)].dd
  }

  /** The state once the next memory descriptor is taken for a packet and active. */
  function MappedFor(s: State, packet: nat, segs: nat): State
    requires Shaped(s)
  {
    s.(freeMem := s.freeMem - 1, memUse := Slot(s.memUse + 1, NUM_TX_MEM), absUse := s.absUse + 1,
       mem := s.mem[s.memUse := Active(packet)], prod := Mapped(packet, segs))
  }

  /** The state once hardware and cleaner are told how far the ring is filled. */
  function Told(s: State, readBack: nat): State {
    s.(tdt := readBack, absTail := s.absNext, barrier := s.next, absBarrier := s.absNext, count := 0,
       halted := s.halted || readBack != s.next)
  }

  /** The state once the next memory descriptor to free is inactive and free. */
  function OldestUnmapped(s: State): State
    requires Shaped(s)
  {
    s.(mem := s.mem[s.memFree := Inactive], memFree := Slot(s.memFree + 1, NUM_TX_MEM), absFree := s.absFree + 1,
       freeMem := s.freeMem + 1, clean := Freeing)
  }

  /** The state once the oldest recorded packet is freed and its descriptors are back. */
  function OldestFreed(s: State): State
    requires Shaped(s) && s.clean.Freeing?
  {
    var b := s.flight[0];
    s.(slots := s.slots[s.dirty := EMPTY], flight := s.flight[1..], base := b.End(), released := s.released + [b.packet],
       numFree := s.numFree + b.count, clean := Advancing(true))
  }

  /** What the cleaner leaves alone. */
  predicate Kept(s: State, t: State) {
    t.desc == s.desc && t.absBarrier == s.absBarrier && t.barrier == s.barrier && t.vtd == s.vtd
    && t.prod == s.prod && t.submitted == s.submitted
  }

  predicate FreedNone(s: State, t: State) {
    Kept(s, t) && t.flight == s.flight && t.released == s.released && t.numFree == s.numFree
  }

  predicate FreedOne(s: State, t: State) {
    Kept(s, t) && s.flight != [] && t.flight == s.flight[1..] && t.released == s.released + [s.flight[0].packet]
    && t.numFree == s.numFree + s.flight[0].count
  }

  /** State t is s with the first packets freed. */
  predicate Cleaned(s: State, t: State, freed: nat) {
    && Kept(s, t) && freed <= |s.flight| && t.flight == s.flight[freed..]
    && t.released == s.released + FlightPackets(s.flight[..freed])
    && Counted(s.flight) && t.numFree == s.numFree + Total(s.flight[..freed])
  }

  lemma NothingCleaned(s: State)
    requires Inv(s)
    ensures forall c: Cleaner :: Cleaned(s, s.(clean := c), 0)
  {
    hide Laid, DoneExactly, Mapping, History, Slot, Maps;
    assert s.flight[..0] == [] && FlightPackets(s.flight[..0]) == [];
  }

  lemma CleanedMoved(s: State, t: State, freed: nat, c: Cleaner)
    requires Cleaned(s, t, freed)
    ensures Cleaned(s, t.(clean := c), freed)
  {
  }

  lemma Positions(s: State)
    requires Inv(s) && s.clean.Testing?
    ensures s.absDirty <= s.absBarrier
    ensures s.dirty == s.barrier <==> s.absDirty == s.absBarrier
    ensures s.flight != [] ==> s.absDirty < s.flight[0].End()
  {
    TestingSeesOrder(s);
  }

  lemma BarrierStops(s: State, t: State, freed: nat)
    requires Shaped(s) && Cleaned(s, t, freed)
    requires t.absDirty == t.absBarrier && (t.flight != [] ==> t.absDirty < t.flight[0].End())
    ensures freed < |s.flight| ==> !Cleanable(s, s.flight[freed])
  {
  }

  /** A packet at the dirty slot is the oldest one not freed yet, and it may be freed if the slot's
      descriptor is done. */
  lemma FirstAtDirty(s: State, t: State, freed: nat)
    requires Shaped(s) && Cleaned(s, t, freed) && Shaped(t) && Inv(t) && t.clean.AtSlot? && t.slots[t.dirty].mbuf.Some?
    ensures freed < |s.flight| && t.flight != [] && t.flight[0] == s.flight[freed]
    ensures Cleanable(s, s.flight[freed]) <==> t.desc[t.dirty].dd
  {
    hide Laid, DoneExactly, Mapping, History, Contiguous, Total, Slot, FlightPackets, Maps;
    SomeTotal(t.flight);
    SlotAt(t.slots, t.base, t.flight, 0, t.minDescs, t.absDirty);
  }

  lemma CleanedSlot(s: State, t: State, u: State, freed: nat)
    requires Shaped(s) && Cleaned(s, t, freed) && Shaped(t) && Inv(t) && t.clean.AtSlot?
    requires if t.slots[t.dirty].mbuf.Some? && t.desc[t.dirty].dd then FreedOne(t, u) else FreedNone(t, u)
    ensures t.slots[t.dirty].mbuf.Some? ==>
      freed < |s.flight| && (Cleanable(s, s.flight[freed]) <==> t.desc[t.dirty].dd)
    ensures Cleaned(s, u, if t.slots[t.dirty].mbuf.Some? && t.desc[t.dirty].dd then freed + 1 else freed)
  {
    hide Inv, Total, Cleanable, Slot, FlightPackets;
    if t.slots[t.dirty].mbuf.Some? {
      FirstAtDirty(s, t, freed);
      if t.desc[t.dirty].dd {
        CleanedMore(s, t, u, freed);
      }
    }
  }

  lemma CleanedMore(s: State, t: State, u: State, freed: nat)
    requires Cleaned(s, t, freed) && FreedOne(t, u)
    ensures Cleaned(s, u, freed + 1)
  {
    hide Total;
    TotalPrefix(s.flight, freed);
    assert FlightPackets(s.flight[..freed + 1]) == FlightPackets(s.flight[..freed]) + [s.flight[freed].packet];
  }

  /** What is freed up to the first packet that may not be is all that the hardware has passed before
      the barrier. */
  lemma FreedExactly(s: State, freed: nat)
    requires Inv(s) && Shaped(s) && freed <= |s.flight|
    requires forall k :: 0 <= k < freed ==> Cleanable(s, s.flight[k])
    requires freed < |s.flight| ==> !Cleanable(s, s.flight[freed])
    ensures forall k :: 0 <= k < |s.flight| ==>
      (k < freed <==> s.flight[k].End() <= s.absBarrier && s.flight[k].End() <= s.absHead)
  {
    hide Inv, Slot, Total;
    forall k | 0 <= k < |s.flight|
      ensures k < freed <==> s.flight[k].End() <= s.absBarrier && s.flight[k].End() <= s.absHead
    {
      ShowsDone(s, k);
      if freed <= k {
        ShowsDone(s, freed);
        Lengths(s);
        if freed < k {
          BlocksApart(s.flight, s.base, s.minDescs, freed, k);
        }
      }
    }
  }

  lemma Lengths(s: State)
    requires Inv(s)
    ensures Contiguous(s.flight, s.base, s.minDescs)
  {
  }

  lemma NothingWritten(bufs: seq<TxBuf>, descs: seq<Desc>, first: nat, p: nat, o: Offload, segs: nat)
    requires |bufs| == |descs| == NUM_TX_DESC
    ensures WriteFrom(bufs, first, BufWrites(p, o, segs, 0)) == bufs
    ensures WriteFrom(descs, first, DescWrites(o, segs, 0)) == descs
  {
  }

  /** What one more slot means for the writes so far. */
  lemma WriteSlot(first: nat, p: nat, o: Offload, segs: nat, k: nat, bufs: seq<TxBuf>, descs: seq<Desc>)
    requires |bufs| == |descs| == NUM_TX_DESC
    ensures WriteFrom(bufs, first, BufWrites(p, o, segs, k + 1))
         == WriteFrom(bufs, first, BufWrites(p, o, segs, k))[Slot(first + k, NUM_TX_DESC) := BufWrite(p, o, segs, k)]
    ensures WriteFrom(descs, first, DescWrites(o, segs, k + 1))
         == WriteFrom(descs, first, DescWrites(o, segs, k))[Slot(first + k, NUM_TX_DESC) := DescWrite(o, segs, k)]
  {
    hide Slot, WriteFrom;
    BufMore(p, o, segs, k);
    DescMore(o, segs, k);
    hide BufWrites, DescWrites, BufWrite, DescWrite;
    WriteMore(bufs, first, BufWrites(p, o, segs, k), BufWrite(p, o, segs, k));
    WriteMore(descs, first, DescWrites(o, segs, k), DescWrite(o, segs, k));
  }
}
