/** What the transmit machine guarantees over every run, however its parties are interleaved. */
module TxTheorems {
  import opened Options
  import opened Rotation
  import opened TxMachine
  import opened TxSteps

  // ------------------------------------------------------------ the reset

  lemma {:induction false} PacketsConcat(a: seq<TxBuf>, b: seq<TxBuf>)
    ensures Packets(a + b) == Packets(a) + Packets(b)
  {
    if a == [] {
      assert a + b == b;
    } else {
      hide Packets;
      assert (a + b)[1..] == a[1..] + b;
      PacketsStep(a);
      PacketsStep(a + b);
      PacketsConcat(a[1..], b);
    }
  }

  lemma PacketsStep(slots: seq<TxBuf>)
    requires slots != []
    ensures Packets(slots) == (if slots[0].mbuf.Some? then [slots[0].mbuf.value] else []) + Packets(slots[1..])
  {
  }

  lemma {:induction false} PacketsOfEmpties(n: nat)
    ensures Packets(Empties(n)) == []
  {
    if n > 0 {
      assert Empties(n)[1..] == Empties(n - 1);
      PacketsOfEmpties(n - 1);
    }
  }

  lemma PacketsOfBlock(b: Block)
    requires b.count > 0
    ensures Packets(BlockSlots(b)) == [b.packet]
  {
    var last := TxBuf(Some(b.packet), b.count);
    PacketsConcat(Empties(b.count - 1), [last]);
    PacketsOfEmpties(b.count - 1);
    assert [last][1..] == [];
  }

  lemma {:induction false} PacketsOfLayout(flight: seq<Block>)
    requires Counted(flight)
    ensures Packets(Layout(flight)) == FlightPackets(flight)
  {
    if flight != [] {
      var n := |flight| - 1;
      PacketsOfLayout(flight[..n]);
      PacketsConcat(Layout(flight[..n]), BlockSlots(flight[n]));
      PacketsOfBlock(flight[n]);
      assert FlightPackets(flight) == FlightPackets(flight[..n]) + [flight[n].packet];
    }
  }

  lemma {:induction false} LayoutEntries(flight: seq<Block>, j: nat)
    requires Counted(flight) && j < Total(flight)
    ensures Layout(flight)[j] == EMPTY || Layout(flight)[j].mbuf.Some?
  {
    var n := |flight| - 1;
    if j < Total(flight[..n]) {
      LayoutEntries(flight[..n], j);
    }
  }

  /** The packets a scan of the ring finds are the recorded ones, in some order. */
  lemma ScanFindsAll(slots: seq<TxBuf>, base: nat, flight: seq<Block>, lingering: nat)
    requires Laid(slots, base, flight, lingering)
    ensures multiset(Packets(slots)) == multiset(FlightPackets(flight))
  {
    hide Slot, Layout, Total, Rotate, Packets, Empties;
    var n := NUM_TX_DESC - 1 - Total(flight);
    PacketsOfView(slots, base);
    PacketsConcat(Layout(flight), Empties(n));
    PacketsConcat(Layout(flight) + Empties(n), [TxBuf(None, lingering)]);
    PacketsOfEmpties(n);
    PacketsOfLayout(flight);
    LoneCount(lingering);
    assert FlightPackets(flight) + [] + [] == FlightPackets(flight);
  }

  /** Where the ring is cut only changes the order of its packets. */
  lemma PacketsOfView(slots: seq<TxBuf>, base: nat)
    requires |slots| == NUM_TX_DESC
    ensures multiset(Packets(slots)) == multiset(Packets(Rotate(slots, base)))
  {
    hide Slot, Rotate, Packets;
    var k := Slot(base, NUM_TX_DESC);
    RotateCut(slots, base);
    PacketsConcat(slots[k..], slots[..k]);
    PacketsConcat(slots[..k], slots[k..]);
    assert slots == slots[..k] + slots[k..];
  }

  lemma LoneCount(lingering: nat)
    ensures Packets([TxBuf(None, lingering)]) == []
  {
    assert [TxBuf(None, lingering)][1..] == [];
  }

  /** Slots without a packet hold no count either, unless a cleaner has yet to take it. */
  lemma BareSlots(slots: seq<TxBuf>, base: nat, flight: seq<Block>, i: nat)
    requires Laid(slots, base, flight, 0) && i < NUM_TX_DESC
    ensures slots[i].mbuf.Some? || slots[i] == EMPTY
  {
    hide Slot, Layout, Total, Rotate;
    var k := Slot(base, NUM_TX_DESC);
    RotateCut(slots, base);
    var j := if i < k then i + NUM_TX_DESC - k else i - k;
    assert slots[i] == Rotate(slots, base)[j];
    if j < Total(flight) {
      LayoutEntries(flight, j);
    }
  }

  lemma HistoryReset(submitted: seq<nat>, markS: nat, released: seq<nat>, markR: nat, inFlight: seq<nat>, freed: seq<nat>)
    requires History(submitted, markS, released, markR, inFlight) && multiset(freed) == multiset(inFlight)
    ensures multiset(submitted) == multiset(released + freed)
    ensures History(submitted, |submitted|, released + freed, |released| + |freed|, [])
  {
    assert submitted == submitted[..markS] + submitted[markS..];
    assert released == released[..markR] + released[markR..];
    assert submitted[..|submitted|] == submitted;
    assert (released + freed)[..|released| + |freed|] == released + freed;
  }

  /** Clearing the slots that record a packet clears the ring. */
  lemma ResetClears(s: State)
    requires Inv(s) && Enabled(s, Reset)
    ensures Do(s, Reset).slots == Empties(NUM_TX_DESC)
  {
    hide Slot, Laid, DoneExactly, Mapping, History, Contiguous, Total, FlightPackets, Maps, Packets;
    var t := Do(s, Reset);
    forall i | 0 <= i < NUM_TX_DESC ensures t.slots[i] == EMPTY {
      BareSlots(s.slots, s.base, s.flight, i);
    }
  }

  lemma ResetHistory(s: State)
    requires Inv(s) && Enabled(s, Reset)
    ensures var t := Do(s, Reset);
      History(t.submitted, t.markS, t.released, t.markR, []) && multiset(t.submitted) == multiset(t.released)
  {
    hide Slot, Laid, DoneExactly, Mapping, Contiguous, Total, FlightPackets, Maps, Packets, History;
    ScanFindsAll(s.slots, s.base, s.flight, 0);
    HistoryReset(s.submitted, s.markS, s.released, s.markR, FlightPackets(s.flight), Packets(s.slots));
  }

  lemma ResetStep(s: State)
    requires Inv(s) && Enabled(s, Reset)
    ensures Inv(Do(s, Reset))
  {
    hide Slot, Laid, DoneExactly, Mapping, Contiguous, Packets, History;
    var t := Do(s, Reset);
    ResetClears(s);
    ResetHistory(s);
    SlotOfSlot(0);
    EmptyLaid(t.slots);
    NothingInFlight(t.desc);
    if s.vtd {
      FreshMemory(t.mem);
    }
    assert FlightPackets([]) == [] && Maps(t) == [];
  }

  lemma NothingInFlight(desc: seq<Desc>)
    requires |desc| == NUM_TX_DESC
    ensures DoneExactly(desc, [], 0)
  {
  }

  lemma FreshMemory(mem: seq<MemDesc>)
    requires mem == Inactives(NUM_TX_MEM)
    ensures Mapping(mem, 0, [])
  {
    RotateZero(mem);
    assert Actives([]) + Inactives(NUM_TX_MEM) == mem;
  }

  lemma EmptyLaid(slots: seq<TxBuf>)
    requires slots == Empties(NUM_TX_DESC)
    ensures Laid(slots, 0, [], 0) && Total([]) == 0 && forall m: nat :: Contiguous([], 0, m)
  {
    RotateZero(slots);
    assert Empties(NUM_TX_DESC - 1) + [EMPTY] == slots;
  }

  // ------------------------------------------------------------ runs

  lemma CleanKeepsInv(s: State)
    requires Inv(s)
    ensures Inv(Do(s, Clean))
  {
    hide Inv, Do;
    InvIsShaped(s);
    match s.clean
    case Idle => TestStep(s);
    case Testing => TestStep(s);
    case AtSlot => AtSlotStep(s, Do(s, Clean));
    case Unmapping => UnmapStep(s, Do(s, Clean));
    case Returning => ReturnStep(s, Do(s, Clean));
    case Freeing => FreeStep(s);
    case TakingCount => TakeCountStep(s);
    case Adding(_) => AddStep(s);
    case Advancing(_) => AdvanceStep(s);
  }

  lemma StepKeepsInv(s: State, a: Action)
    requires Inv(s) && Enabled(s, a)
    ensures Inv(Do(s, a))
  {
    hide Inv, Do;
    match a
    case Check => CheckStep(s, a);
    case Drop => DropStep(s, a);
    case TakeMem(p, segs) => TakeStep(s, p, segs);
    case RollBack => RollBackStep(s, a);
    case Activate => ActivateStep(s);
    case NoMap(_, _) => NoMapStep(s, a);
    case SkipMap(p, segs) => SkipStep(s, p, segs);
    case Reserve(n) => ReserveStep(s, n);
    case Fill => FillKeepsInv(s);
    case WriteTail(_) => TailStep(s, a);
    case WriteBarrier => BarrierStep(s, a);
    case Complete => CompleteStep(s);
    case Clean => CleanKeepsInv(s);
    case Reset => ResetStep(s);
  }

  lemma FillKeepsInv(s: State)
    requires Inv(s) && Enabled(s, Fill)
    ensures Inv(Do(s, Fill))
  {
    hide Inv, Do;
    InvIsShaped(s);
    if s.prod.written == s.prod.numDescs - 1 {
      FillLastStep(s);
    } else {
      FillMoreStep(s);
    }
  }

  /** A schedule: each action is enabled in the state the ones before it lead to. */
  ghost predicate Legal(s: State, schedule: seq<Action>)
    decreases |schedule|
  {
    schedule == []
    || (Shaped(s) && Enabled(s, schedule[0]) && Legal(Do(s, schedule[0]), schedule[1..]))
  }

  ghost function Exec(s: State, schedule: seq<Action>): State
    requires Legal(s, schedule)
    decreases |schedule|
  {
    if schedule == [] then s else Exec(Do(s, schedule[0]), schedule[1..])
  }

  lemma {:induction false} RunsKeepInv(s: State, schedule: seq<Action>)
    requires Inv(s) && Legal(s, schedule)
    ensures Inv(Exec(s, schedule))
    decreases |schedule|
  {
    hide Inv, Do;
    if schedule != [] {
      InvIsShaped(s);
      StepKeepsInv(s, schedule[0]);
      RunsKeepInv(Do(s, schedule[0]), schedule[1..]);
    }
  }

  lemma InvIsShaped(s: State)
    requires Inv(s)
    ensures Shaped(s)
  {
  }

  /** Every state of every run has the invariant. */
  lemma EveryRun(vtd: bool, minDescs: nat, schedule: seq<Action>)
    requires Legal(Init(vtd, minDescs), schedule)
    ensures Inv(Exec(Init(vtd, minDescs), schedule))
  {
    hide Inv, Init;
    InitInv(vtd, minDescs);
    RunsKeepInv(Init(vtd, minDescs), schedule);
  }

  // ------------------------------------------------------------ conservation

  lemma {:induction false} SumOfEmpties(n: nat)
    ensures Sum(Empties(n), (b: TxBuf) => b.numDescs) == 0
  {
    if n > 0 {
      assert Empties(n)[1..] == Empties(n - 1);
      SumOfEmpties(n - 1);
    }
  }

  lemma {:induction false} SumOfLayout(flight: seq<Block>)
    requires Counted(flight)
    ensures Sum(Layout(flight), (b: TxBuf) => b.numDescs) == Total(flight)
  {
    var count := (b: TxBuf) => b.numDescs;
    if flight != [] {
      var n := |flight| - 1;
      var last := TxBuf(Some(flight[n].packet), flight[n].count);
      SumOfLayout(flight[..n]);
      SumConcat(Layout(flight[..n]), BlockSlots(flight[n]), count);
      SumConcat(Empties(flight[n].count - 1), [last], count);
      SumOfEmpties(flight[n].count - 1);
      SumOne(last, count);
    }
  }

  /** Descriptors a cleaner has taken out of the ring and not yet added to the free count. */
  function Taken(s: State): nat { if s.clean.Adding? then s.clean.cleaned else 0 }

  /** Conservation: in every reachable state free descriptors, descriptors recorded in the ring,
      descriptors reserved but not recorded and descriptors on their way back add up to the ring,
      and at least two stay free. */
  lemma Conservation(s: State)
    requires Inv(s)
    ensures s.numFree + Sum(s.slots, (b: TxBuf) => b.numDescs) + Reserved(s) + Taken(s) == NUM_TX_DESC
    ensures s.numFree >= 2
  {
    hide Slot, Layout, Total, Rotate;
    var count := (b: TxBuf) => b.numDescs;
    var n, left := NUM_TX_DESC - 1 - Total(s.flight), TxBuf(None, Lingering(s));
    SumRotate(s.slots, s.base, count);
    SumConcat(Layout(s.flight) + Empties(n), [left], count);
    SumConcat(Layout(s.flight), Empties(n), count);
    SumOfLayout(s.flight);
    SumOfEmpties(n);
    SumOne(left, count);
  }

  // ------------------------------------------------------------ who touches which slots

  /** Slots between two indices of the ring, going forward. */
  predicate Between(i: nat, from: nat, to: nat) {
    if from <= to then from <= i < to else i >= from || i < to
  }

  lemma BetweenPositions(i: nat, p: nat, q: nat)
    requires p <= q < p + NUM_TX_DESC && i < NUM_TX_DESC
    requires Between(i, Slot(p, NUM_TX_DESC), Slot(q, NUM_TX_DESC))
    ensures exists r :: p <= r < q && Slot(r, NUM_TX_DESC) == i
  {
    hide Slot;
    var from := Slot(p, NUM_TX_DESC);
    var d := if i >= from then i - from else i + NUM_TX_DESC - from;
    SlotStep(p, d, NUM_TX_DESC);
    SlotStep(p, q - p, NUM_TX_DESC);
    assert Slot(p + d, NUM_TX_DESC) == i;
  }

  /** The slots the cleaner may touch, from its dirty index up to the barrier, are never among
      those the output thread is filling. */
  lemma CleanerAndProducerApart(s: State, i: nat)
    requires Inv(s) && s.prod.Filling? && i < NUM_TX_DESC
    requires Between(i, s.dirty, s.barrier)
    ensures !Between(i, s.prod.first, s.next)
  {
    hide Slot, Laid, DoneExactly, Mapping, History, Contiguous, Total, FlightPackets, Maps;
    if Between(i, s.prod.first, s.next) {
      BetweenPositions(i, s.absDirty, s.absBarrier);
      BetweenPositions(i, Recorded(s), s.absNext);
      var r :| s.absDirty <= r < s.absBarrier && Slot(r, NUM_TX_DESC) == i;
      var q :| Recorded(s) <= q < s.absNext && Slot(q, NUM_TX_DESC) == i;
      DistinctSlots(r, q, NUM_TX_DESC);
    }
  }

  // ------------------------------------------------------------ release

  /** The cleaner frees the oldest packet recorded since the last reset, after the hardware has
      passed all its descriptors. */
  lemma ReleasedInOrderWhenDone(s: State)
    requires Inv(s) && s.clean.Freeing?
    ensures var t := Do(s, Clean);
      t.released == s.released + [s.submitted[s.markS + |s.released| - s.markR]] && s.flight != []
      && s.slots[s.dirty].mbuf == Some(s.flight[0].packet) && s.flight[0].End() <= s.absHead
  {
    hide Laid, DoneExactly, Mapping, Contiguous, Total, Slot, Maps;
    FreeSlot(s);
    var k := |s.released| - s.markR;
    assert s.submitted[s.markS..][k] == (s.released[s.markR..] + FlightPackets(s.flight))[k] == s.flight[0].packet;
  }

  /** Exactly once: what was submitted is what was released plus what is still recorded, each packet
      as often as it was submitted. */
  lemma ReleasedExactlyOnce(s: State)
    requires Inv(s)
    ensures multiset(s.submitted) == multiset(s.released) + multiset(FlightPackets(s.flight))
    ensures !s.clean.TakingCount? ==> multiset(Packets(s.slots)) == multiset(FlightPackets(s.flight))
  {
    hide Slot, Laid, DoneExactly, Mapping, Contiguous, Total, Maps, Packets;
    ScanFindsAll(s.slots, s.base, s.flight, Lingering(s));
    assert s.submitted == s.submitted[..s.markS] + s.submitted[s.markS..];
    assert s.released == s.released[..s.markR] + s.released[s.markR..];
  }

  /** A reset leaves nothing recorded: all that was ever submitted has then been released. */
  lemma ResetReleasesAll(s: State)
    requires Inv(s) && Enabled(s, Reset)
    ensures multiset(Do(s, Reset).submitted) == multiset(Do(s, Reset).released)
    ensures Do(s, Reset).numFree == NUM_TX_DESC && Do(s, Reset).flight == []
  {
    ResetHistory(s);
  }

  // ------------------------------------------------------------ mapping lockstep

  /** The memory descriptors in use are the slots from next-to-free up to next-to-use, in packet
      order; a taken one that is not active yet comes last. */
  lemma MappedSlots(s: State, k: nat)
    requires Inv(s) && s.vtd && s.skips == 0 && k < NUM_TX_MEM
    ensures s.mem[Slot(s.absFree + k, NUM_TX_MEM)] == if k < |Maps(s)| then Active(Maps(s)[k]) else Inactive
    ensures s.memFree == Slot(s.absFree, NUM_TX_MEM)
    ensures s.memUse == Slot(s.absFree + |Maps(s)| + (if s.prod.Taken? then 1 else 0), NUM_TX_MEM)
  {
    hide Slot, Laid, DoneExactly, History, Contiguous, Total, FlightPackets, Maps;
    assert Rotate(s.mem, s.absFree)[k] == (Actives(Maps(s)) + Inactives(NUM_TX_MEM - |Maps(s)|))[k];
  }

  /** Between two packets of the output thread and of the cleaner, the packets in flight are exactly the
      memory descriptors not free, but for the packets that went out unmapped: each of them leaves the
      free count one too high. */
  lemma InFlightCount(s: State)
    requires Inv(s) && s.vtd && s.clean !in {Returning, Freeing}
    requires (s.prod.AtLoop? || s.prod.Ready? || s.prod.TailWritten?)
    ensures |s.flight| == NUM_TX_MEM + s.skips - s.freeMem
  {
  }

  /** When every packet takes two descriptors or more, the guard before mapping never fails. */
  lemma GuardNeverFails(s: State, packet: nat, segs: nat)
    requires Inv(s) && s.minDescs >= 2
    ensures !Enabled(s, SkipMap(packet, segs))
  {
    if s.vtd && s.prod.Ready? {
      GuardHolds(s);
    }
  }

  /** In general the guard holds exactly while fewer than 255 packets are in flight, and one more for each
      packet that went out unmapped. */
  lemma GuardExactly(s: State)
    requires Inv(s) && s.vtd && s.prod.Ready? && s.clean !in {Returning, Freeing}
    ensures s.freeMem > 1 <==> |s.flight| < NUM_TX_MEM - 1 + s.skips
  {
  }

  lemma ExecOne(s: State, a: Action)
    requires Shaped(s) && Enabled(s, a)
    ensures Legal(s, [a]) && Exec(s, [a]) == Do(s, a)
  {
    assert [a][1..] == [];
    assert Legal(Do(s, a), []);
  }

  /** A step before a schedule. */
  lemma Before(s: State, a: Action, rest: seq<Action>)
    requires Shaped(s) && Enabled(s, a) && Legal(Do(s, a), rest)
    ensures Legal(s, [a] + rest) && Exec(s, [a] + rest) == Exec(Do(s, a), rest)
  {
    assert ([a] + rest)[1..] == rest;
  }

  ghost function SinglePacket(p: nat): seq<Action> { [Check, TakeMem(p, 1)] + [Activate, Reserve(1), Fill] }

  /** The states a run of single-descriptor packets goes through. */
  predicate Singles(s: State, numFree: int, freeMem: int) {
    Shaped(s) && s.vtd && s.minDescs == 1 && s.clean.Idle? && !s.halted && s.numFree == numFree && s.freeMem == freeMem
  }

  lemma SingleTakes(s: State, p: nat)
    requires Singles(s, s.numFree, s.freeMem) && s.prod.AtLoop? && s.numFree >= MIN_FREE && s.freeMem > 1
    ensures Legal(s, [Check, TakeMem(p, 1)])
    ensures var t := Exec(s, [Check, TakeMem(p, 1)]);
      Singles(t, s.numFree, s.freeMem - 1) && t.prod.Taken? && t.prod.segs == 1
  {
    hide Slot, Legal, Exec, DoClean, DoReset, DoFill;
    ExecOne(Do(s, Check), TakeMem(p, 1));
    Before(s, Check, [TakeMem(p, 1)]);
    assert [Check] + [TakeMem(p, 1)] == [Check, TakeMem(p, 1)];
  }

  lemma SingleSubmits(s: State)
    requires Singles(s, s.numFree, s.freeMem) && s.prod.Taken? && s.prod.segs == 1
    ensures Legal(s, [Activate, Reserve(1), Fill])
    ensures var t := Exec(s, [Activate, Reserve(1), Fill]);
      Singles(t, s.numFree - 1, s.freeMem) && t.prod.AtLoop?
  {
    hide Slot, Legal, Exec, DoClean, DoReset;
    var u := Do(s, Activate);
    var v := Do(u, Reserve(1));
    ExecOne(v, Fill);
    Before(u, Reserve(1), [Fill]);
    Before(s, Activate, [Reserve(1), Fill]);
    assert [Reserve(1)] + [Fill] == [Reserve(1), Fill];
    assert [Activate] + [Reserve(1), Fill] == [Activate, Reserve(1), Fill];
  }

  /** A packet of one descriptor goes through, as far as the two guards are concerned. */
  lemma SinglePasses(s: State, p: nat)
    requires Singles(s, s.numFree, s.freeMem) && s.prod.AtLoop? && s.numFree >= MIN_FREE && s.freeMem > 1
    ensures Legal(s, SinglePacket(p))
    ensures var t := Exec(s, SinglePacket(p)); Singles(t, s.numFree - 1, s.freeMem - 1) && t.prod.AtLoop?
  {
    hide Legal, Exec;
    SingleTakes(s, p);
    SingleSubmits(Exec(s, [Check, TakeMem(p, 1)]));
    LegalConcat(s, [Check, TakeMem(p, 1)], [Activate, Reserve(1), Fill]);
  }

  lemma {:induction false} LegalConcat(s: State, a: seq<Action>, b: seq<Action>)
    requires Legal(s, a) && Legal(Exec(s, a), b)
    ensures Legal(s, a + b) && Exec(s, a + b) == Exec(Exec(s, a), b)
    decreases |a|
  {
    hide Do, Enabled, Shaped;
    if a == [] {
      assert a + b == b;
    } else {
      assert (a + b)[1..] == a[1..] + b;
      LegalConcat(Do(s, a[0]), a[1..], b);
    }
  }

  /** A run of n packets of one descriptor each, none of them completed. */
  lemma {:induction false} ManySingles(n: nat) returns (schedule: seq<Action>)
    requires n <= NUM_TX_MEM - 1
    ensures Legal(Init(true, 1), schedule)
    ensures var t := Exec(Init(true, 1), schedule); Singles(t, NUM_TX_DESC - n, NUM_TX_MEM - n) && t.prod.AtLoop?
  {
    hide Do, Slot, Enabled;
    schedule := [];
    if n > 0 {
      var before := ManySingles(n - 1);
      var t := Exec(Init(true, 1), before);
      SinglePasses(t, n);
      LegalConcat(Init(true, 1), before, SinglePacket(n));
      schedule := before + SinglePacket(n);
    }
  }

  /** With packets of a single descriptor the descriptor ring outlasts the memory descriptors: some
      run lets a packet past the descriptor guard while the mapping guard fails. */
  lemma SinglesOutrunTheMap()
    ensures exists schedule: seq<Action> :: Legal(Init(true, 1), schedule)
              && Shaped(Exec(Init(true, 1), schedule)) && Enabled(Exec(Init(true, 1), schedule), SkipMap(0, 1))
  {
    var schedule := ManySingles(NUM_TX_MEM - 1);
    var s := Exec(Init(true, 1), schedule);
    ExecOne(s, Check);
    hide Legal, Exec;
    LegalConcat(Init(true, 1), schedule, [Check]);
    assert Enabled(Exec(Init(true, 1), schedule + [Check]), SkipMap(0, 1));
  }

  /** A failed mapping leaves no trace. */
  lemma FailedMappingRollsBack(s: State, packet: nat, segs: nat)
    requires Inv(s) && Enabled(s, TakeMem(packet, segs))
    ensures var t := Do(s, TakeMem(packet, segs));
      Shaped(t) && Enabled(t, RollBack) && Do(t, RollBack) == Do(s, Drop)
  {
    hide Inv, Slot, DoFill, DoClean, DoReset;
    InvIsShaped(s);
    RollBackUndoes(s, Do(s, TakeMem(packet, segs)), packet, segs);
  }

  lemma RollBackUndoes(s: State, t: State, packet: nat, segs: nat)
    requires Shaped(s) && Enabled(s, TakeMem(packet, segs)) && t == Do(s, TakeMem(packet, segs))
    ensures Shaped(t) && Enabled(t, RollBack) && Do(t, RollBack) == s.(prod := AtLoop) == Do(s, Drop)
  {
    hide Slot, DoFill, DoClean, DoReset;
  }

  /** The range-table slices of two packets: a packet uses one entry a segment from the table
      index that equals its first descriptor's; the table does not wrap. */
  lemma SlicesApart(s: State, i: nat, j: nat)
    requires Inv(s) && i < j < |s.flight|
    ensures var a, b := Slot(s.flight[i].start, NUM_TX_DESC), Slot(s.flight[j].start, NUM_TX_DESC);
      && a + s.flight[i].segs <= NUM_TX_DESC + MAX_SEGS && b + s.flight[j].segs <= NUM_TX_DESC + MAX_SEGS
      && (a + s.flight[i].segs <= b || b + s.flight[j].segs <= a)
  {
    hide Slot, Laid, DoneExactly, Mapping, History, FlightPackets, Maps, Total;
    LaidCounted(s);
    BlocksApart(s.flight, s.base, s.minDescs, i, j);
    SlotStep(s.flight[i].start, s.flight[j].start - s.flight[i].start, NUM_TX_DESC);
  }

  lemma BlocksApart(flight: seq<Block>, base: nat, minDescs: nat, i: nat, j: nat)
    requires Contiguous(flight, base, minDescs) && i < j < |flight|
    ensures base <= flight[i].start && flight[i].End() <= flight[j].start && flight[j].End() <= base + Total(flight)
  {
    TotalPrefix(flight, i);
    BlockEnds(flight, base, minDescs, j);
    PrefixGrows(flight, i + 1, j);
  }

  lemma {:induction false} PrefixGrows(flight: seq<Block>, i: nat, j: nat)
    requires i <= j <= |flight| && Counted(flight)
    ensures Total(flight[..i]) <= Total(flight[..j])
  {
    if i < j {
      TotalPrefix(flight, j - 1);
      PrefixGrows(flight, i, j - 1);
    }
  }

  /** The slice of the packet being mapped is apart from those of all packets in flight. */
  lemma NewSliceApart(s: State, i: nat, segs: nat)
    requires Inv(s) && s.prod.Ready? && i < |s.flight| && segs <= MAX_SEGS
    ensures var a, b := Slot(s.flight[i].start, NUM_TX_DESC), s.next;
      b + segs <= NUM_TX_DESC + MAX_SEGS && (a + s.flight[i].segs <= b || b + segs <= a)
  {
    hide Slot, Laid, DoneExactly, Mapping, History, FlightPackets, Maps, Total;
    LaidCounted(s);
    BlockEnds(s.flight, s.base, s.minDescs, i);
    SlotStep(s.flight[i].start, s.absNext - s.flight[i].start, NUM_TX_DESC);
  }

  // ------------------------------------------------------------ every run, in one statement each

  /** In every state of every run the descriptors are conserved and two stay free. */
  lemma EveryRunConserves(vtd: bool, minDescs: nat, schedule: seq<Action>)
    requires Legal(Init(vtd, minDescs), schedule)
    ensures var s := Exec(Init(vtd, minDescs), schedule);
      s.numFree + Sum(s.slots, (b: TxBuf) => b.numDescs) + Reserved(s) + Taken(s) == NUM_TX_DESC && s.numFree >= 2
  {
    hide Inv, Init;
    EveryRun(vtd, minDescs, schedule);
    Conservation(Exec(Init(vtd, minDescs), schedule));
  }

  /** In every state of every run what was submitted has been released once or is still recorded;
      since the last reset, packets have been released in the order they were submitted. */
  lemma EveryRunReleasesOnce(vtd: bool, minDescs: nat, schedule: seq<Action>)
    requires Legal(Init(vtd, minDescs), schedule)
    ensures var s := Exec(Init(vtd, minDescs), schedule);
      && multiset(s.submitted) == multiset(s.released) + multiset(FlightPackets(s.flight))
      && s.markS <= |s.submitted| && s.markR <= |s.released|
      && s.submitted[s.markS..] == s.released[s.markR..] + FlightPackets(s.flight)
  {
    hide Init;
    EveryRun(vtd, minDescs, schedule);
    var s := Exec(Init(vtd, minDescs), schedule);
    InOrder(s);
    hide Inv;
    ReleasedExactlyOnce(s);
  }

  lemma InOrder(s: State)
    requires Inv(s)
    ensures s.markS <= |s.submitted| && s.markR <= |s.released|
    ensures s.submitted[s.markS..] == s.released[s.markR..] + FlightPackets(s.flight)
  {
  }

  /** In no state of any run does a packet leave before the hardware has passed its descriptors. */
  lemma EveryRunWaitsForHardware(vtd: bool, minDescs: nat, schedule: seq<Action>)
    requires Legal(Init(vtd, minDescs), schedule)
    ensures var s := Exec(Init(vtd, minDescs), schedule);
      s.clean.Freeing? ==> s.flight != [] && s.flight[0].End() <= s.absHead
  {
    hide Inv, Init;
    EveryRun(vtd, minDescs, schedule);
    var s := Exec(Init(vtd, minDescs), schedule);
    if s.clean.Freeing? {
      InvIsShaped(s);
      ReleasedInOrderWhenDone(s);
    }
  }

  lemma ShowsDone(s: State, k: nat)
    requires Inv(s) && k < |s.flight|
    ensures Shaped(s) && s.desc[Slot(s.flight[k].End() - 1, NUM_TX_DESC)] == Desc(true, s.flight[k].End() <= s.absHead)
  {
    hide Slot, Laid, Mapping, History, Total, FlightPackets, Maps;
    LaidCounted(s);
  }

  /** And in every state of every run the last slot of a recorded packet asks for a report and is marked
      done as soon as the hardware has passed the packet, not before. */
  lemma EveryRunShowsDone(vtd: bool, minDescs: nat, schedule: seq<Action>, k: nat)
    requires Legal(Init(vtd, minDescs), schedule) && k < |Exec(Init(vtd, minDescs), schedule).flight|
    ensures var s := Exec(Init(vtd, minDescs), schedule);
      |s.desc| == NUM_TX_DESC && s.flight[k].End() > 0
      && var d := s.desc[Slot(s.flight[k].End() - 1, NUM_TX_DESC)]; d.rs && (d.dd <==> s.flight[k].End() <= s.absHead)
  {
    hide Inv, Init, Slot;
    EveryRun(vtd, minDescs, schedule);
    var s := Exec(Init(vtd, minDescs), schedule);
    ShowsDone(s, k);
    LaidCounted(s);
  }

  /** The hardware has work exactly while it is behind the published tail. */
  lemma HardwareGoesOn(s: State)
    requires Inv(s) && !s.halted
    ensures Shaped(s) && (Enabled(s, Complete) <==> s.absHead < s.absTail)
  {
    hide Slot, Laid, DoneExactly, Mapping, History, Total, FlightPackets, Maps;
    if s.absHead < s.absTail {
      DistinctSlots(s.absHead, s.absTail, NUM_TX_DESC);
    }
  }

  function Completes(n: nat): (r: seq<Action>)
    ensures |r| == n
  {
    seq(n, _ => Complete)
  }

  /** From any reachable state with no reset asked for the hardware can go on to the published tail,
      and then every recorded packet up to there shows done. */
  lemma {:induction false} HardwareCatchesUp(s: State, n: nat)
    requires Inv(s) && !s.halted && s.absHead + n == s.absTail
    ensures Legal(s, Completes(n))
    ensures var t := Exec(s, Completes(n));
      && t == s.(desc := t.desc, head := t.head, absHead := s.absTail) && |t.desc| == NUM_TX_DESC
      && forall k :: 0 <= k < |s.flight| && 0 < s.flight[k].End() <= s.absTail ==>
           t.desc[Slot(s.flight[k].End() - 1, NUM_TX_DESC)].dd
    decreases n
  {
    hide Inv, Slot;
    HardwareGoesOn(s);
    if n == 0 {
      forall k | 0 <= k < |s.flight| ensures s.flight[k].End() <= s.absTail && s.flight[k].End() > 0 ==>
        s.desc[Slot(s.flight[k].End() - 1, NUM_TX_DESC)].dd
      {
        ShowsDone(s, k);
      }
    } else {
      StepKeepsInv(s, Complete);
      HardwareCatchesUp(Do(s, Complete), n - 1);
      Before(s, Complete, Completes(n - 1));
      assert Completes(n) == [Complete] + Completes(n - 1);
    }
  }

  /** In no state of any run may the cleaner touch a slot that the output thread is filling. */
  lemma EveryRunKeepsApart(vtd: bool, minDescs: nat, schedule: seq<Action>, i: nat)
    requires Legal(Init(vtd, minDescs), schedule) && i < NUM_TX_DESC
    ensures var s := Exec(Init(vtd, minDescs), schedule);
      s.prod.Filling? && Between(i, s.dirty, s.barrier) ==> !Between(i, s.prod.first, s.next)
  {
    hide Inv, Init;
    EveryRun(vtd, minDescs, schedule);
    var s := Exec(Init(vtd, minDescs), schedule);
    if s.prod.Filling? && Between(i, s.dirty, s.barrier) {
      CleanerAndProducerApart(s, i);
    }
  }

  /** In every state of every run, while no packet has gone out unmapped since the last reset, the memory
      descriptors hold the mapped packets in order.  With two descriptors a packet or more none ever does. */
  lemma EveryRunMapsInOrder(minDescs: nat, schedule: seq<Action>, k: nat)
    requires Legal(Init(true, minDescs), schedule) && k < NUM_TX_MEM
    ensures var s := Exec(Init(true, minDescs), schedule);
      && Shaped(s) && s.memFree == Slot(s.absFree, NUM_TX_MEM)
      && (minDescs >= 2 ==> s.skips == 0)
      && (s.skips == 0 ==>
            s.mem[Slot(s.absFree + k, NUM_TX_MEM)] == if k < |Maps(s)| then Active(Maps(s)[k]) else Inactive)
  {
    hide Inv, Init, Slot, Maps, Enabled;
    EveryRun(true, minDescs, schedule);
    SettingsStay(Init(true, minDescs), schedule);
    InitSettings(true, minDescs);
    var s := Exec(Init(true, minDescs), schedule);
    InvIsShaped(s);
    FreeIndex(s);
    if s.skips == 0 {
      MappedSlots(s, k);
    }
  }

  /** In every state of every run the free count of memory descriptors exceeds those that no packet counts
      for by the packets that have gone out unmapped since the last reset, also once all are released. */
  lemma EveryRunCountsMemory(minDescs: nat, schedule: seq<Action>)
    requires Legal(Init(true, minDescs), schedule)
    ensures var s := Exec(Init(true, minDescs), schedule);
      && s.freeMem == NUM_TX_MEM + s.skips - |Maps(s)| - (if s.prod.Taken? then 1 else 0) - (if s.clean.Returning? then 1 else 0)
      && (s.prod.AtLoop? && s.clean.Idle? ==> s.freeMem == NUM_TX_MEM + s.skips - |s.flight|)
  {
    hide Init, Laid, DoneExactly, Mapping, History, Contiguous, Ordered, Counting, Indexed;
    EveryRun(true, minDescs, schedule);
    SettingsStay(Init(true, minDescs), schedule);
    InitSettings(true, minDescs);
  }

  lemma FreeIndex(s: State)
    requires Inv(s)
    ensures s.memFree == Slot(s.absFree, NUM_TX_MEM) && (s.minDescs >= 2 ==> s.skips == 0)
  {
    hide Slot, Laid, DoneExactly, Mapping, History, Contiguous, Total, FlightPackets, Maps;
  }

  lemma InitSettings(vtd: bool, minDescs: nat)
    ensures Init(vtd, minDescs).vtd == vtd && Init(vtd, minDescs).minDescs == minDescs
  {
  }

  lemma {:induction false} SettingsStay(s: State, schedule: seq<Action>)
    requires Legal(s, schedule)
    ensures Exec(s, schedule).vtd == s.vtd && Exec(s, schedule).minDescs == s.minDescs
    decreases |schedule|
  {
    hide Do, Enabled;
    if schedule != [] {
      SettingsStay(Do(s, schedule[0]), schedule[1..]);
      StepSettings(s, schedule[0]);
    }
  }

  lemma StepSettings(s: State, a: Action)
    requires Shaped(s) && Enabled(s, a)
    ensures Do(s, a).vtd == s.vtd && Do(s, a).minDescs == s.minDescs
  {
    hide Slot, Packets;
  }
}
