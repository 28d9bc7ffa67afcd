/** Every step of the transmit machine keeps the invariant. */
module TxSteps {
  import opened Options
  import opened Rotation
  import opened TxMachine

  // ------------------------------------------------------------ recorded packets

  lemma Append(flight: seq<Block>, b: Block)
    requires Counted(flight) && b.count > 0
    ensures Counted(flight + [b]) && Total(flight + [b]) == Total(flight) + b.count
    ensures Layout(flight + [b]) == Layout(flight) + BlockSlots(b)
    ensures FlightPackets(flight + [b]) == FlightPackets(flight) + [b.packet]
  {
    assert (flight + [b])[..|flight|] == flight;
  }

  lemma FirstBlock(flight: seq<Block>)
    requires flight != [] && Counted(flight)
    ensures Total(flight) == flight[0].count + Total(flight[1..])
    ensures Layout(flight) == BlockSlots(flight[0]) + Layout(flight[1..])
    ensures FlightPackets(flight) == [flight[0].packet] + FlightPackets(flight[1..])
  {
    hide Total, Layout, BlockSlots;
    FirstTotal(flight);
    FirstLayout(flight);
  }

  lemma {:induction false} FirstTotal(flight: seq<Block>)
    requires flight != []
    ensures Total(flight) == flight[0].count + Total(flight[1..])
  {
    var n := |flight| - 1;
    if n == 0 {
      assert flight[..0] == [] && flight[1..] == [];
    } else {
      FirstTotal(flight[..n]);
      assert flight[..n][1..] == flight[1..][..n - 1] && flight[1..][n - 1] == flight[n];
    }
  }

  lemma {:induction false} FirstLayout(flight: seq<Block>)
    requires flight != [] && Counted(flight)
    ensures Layout(flight) == BlockSlots(flight[0]) + Layout(flight[1..])
  {
    hide BlockSlots, Total;
    var n := |flight| - 1;
    if n == 0 {
      assert flight[..0] == [] && flight[1..] == [];
    } else {
      FirstLayout(flight[..n]);
      var rest, last := flight[1..], BlockSlots(flight[n]);
      assert flight[..n][1..] == rest[..n - 1] && rest[n - 1] == flight[n];
      LayoutEnd(flight);
      LayoutEnd(rest);
      hide Layout;
      Associative(BlockSlots(flight[0]), Layout(rest[..n - 1]), last);
    }
  }

  lemma LayoutEnd(flight: seq<Block>)
    requires flight != [] && Counted(flight)
    ensures Layout(flight) == Layout(flight[..|flight| - 1]) + BlockSlots(flight[|flight| - 1])
  {
  }

  lemma Associative<T>(a: seq<T>, b: seq<T>, c: seq<T>)
    ensures (a + b) + c == a + (b + c)
  {
  }

  lemma {:induction false} TotalPrefix(flight: seq<Block>, k: nat)
    requires k < |flight| && Counted(flight)
    ensures Total(flight[..k + 1]) == Total(flight[..k]) + flight[k].count
    ensures Total(flight[..k + 1]) <= Total(flight)
  {
    assert flight[..k + 1][..k] == flight[..k];
    if k + 1 < |flight| {
      TotalPrefix(flight[..|flight| - 1], k);
      assert flight[..|flight| - 1][..k + 1] == flight[..k + 1];
      assert flight[..|flight| - 1][..k] == flight[..k];
    } else {
      assert flight[..k + 1] == flight;
    }
  }

  lemma ContiguousTail(flight: seq<Block>, base: nat, minDescs: nat)
    requires flight != [] && Contiguous(flight, base, minDescs)
    ensures flight[0].start == base && flight[0].End() == base + flight[0].count
    ensures Contiguous(flight[1..], flight[0].End(), minDescs)
  {
    assert flight[..0] == [];
    forall k | 0 <= k < |flight[1..]| ensures flight[1..][k].start == flight[0].End() + Total(flight[1..][..k]) {
      FirstBlock(flight[..k + 1]);
      assert flight[..k + 1][1..] == flight[1..][..k];
    }
  }

  lemma ContiguousAppend(flight: seq<Block>, base: nat, minDescs: nat, b: Block)
    requires Contiguous(flight, base, minDescs)
    requires b.start == base + Total(flight)
    requires 1 <= b.segs <= b.count <= b.segs + 1 <= MAX_SEGS + 1 && minDescs <= b.count
    ensures Contiguous(flight + [b], base, minDescs)
  {
    forall k | 0 <= k < |flight + [b]| ensures (flight + [b])[k].start == base + Total((flight + [b])[..k]) {
      assert (flight + [b])[..k] == flight[..k];
      assert k == |flight| ==> flight[..k] == flight;
    }
  }

  /** Each recorded packet ends inside the recorded stretch, behind its first slot. */
  lemma BlockEnds(flight: seq<Block>, base: nat, minDescs: nat, k: nat)
    requires Contiguous(flight, base, minDescs) && k < |flight|
    ensures base < flight[k].End() <= base + Total(flight)
    ensures k > 0 ==> flight[0].End() < flight[k].End()
  {
    hide Layout, FlightPackets, BlockSlots;
    TotalPrefix(flight, k);
    if k > 0 {
      FirstBlock(flight[..k + 1]);
      assert flight[..k + 1][0] == flight[0];
      FirstBlock(flight[..k]);
      assert flight[..k][0] == flight[0] && flight[..0] == [];
    }
  }

  /** Advancing an index is advancing its absolute position. */
  lemma Advance(p: nat, n: nat)
    requires n <= NUM_TX_MEM
    ensures Slot(Slot(p, NUM_TX_DESC) + n, NUM_TX_DESC) == Slot(p + n, NUM_TX_DESC)
    ensures Slot(Slot(p, NUM_TX_MEM) + n, NUM_TX_MEM) == Slot(p + n, NUM_TX_MEM)
  {
    hide Slot;
    SlotAdds(p, n, NUM_TX_DESC);
    SlotAdds(p, n, NUM_TX_MEM);
  }

  lemma SlotOfSlot(p: nat)
    ensures p < NUM_TX_DESC ==> Slot(p, NUM_TX_DESC) == p
    ensures p < NUM_TX_MEM ==> Slot(p, NUM_TX_MEM) == p
  {
  }

  // ------------------------------------------------------------ the output thread

  lemma InitInv(vtd: bool, minDescs: nat)
    ensures Inv(Init(vtd, minDescs))
  {
    var s := Init(vtd, minDescs);
    assert Rotate(s.slots, 0) == Empties(NUM_TX_DESC - 1) + [EMPTY];
    assert Rotate(s.mem, 0) == Inactives(NUM_TX_MEM);
  }

  /** Two descriptors a packet leave more than one memory descriptor free whenever a packet may be mapped. */
  lemma GuardHolds(s: State)
    requires Inv(s) && s.vtd && s.prod.Ready? && s.minDescs >= 2
    ensures s.freeMem > 1
  {
    TwoEach(s.flight, s.base, s.minDescs);
  }

  lemma {:induction false} TwoEach(flight: seq<Block>, base: nat, minDescs: nat)
    requires minDescs >= 2 && Contiguous(flight, base, minDescs)
    ensures Total(flight) >= 2 * |flight|
  {
    if flight != [] {
      var n := |flight| - 1;
      assert Contiguous(flight[..n], base, minDescs) by {
        forall k | 0 <= k < n ensures flight[..n][k].start == base + Total(flight[..n][..k]) {
          assert flight[..n][..k] == flight[..k];
        }
      }
      TwoEach(flight[..n], base, minDescs);
    }
  }

  lemma CheckStep(s: State, a: Action)
    requires Inv(s) && Enabled(s, a) && a.Check?
    ensures Inv(Do(s, a))
  {
    hide Laid, DoneExactly, Mapping, History, Contiguous, Total, FlightPackets, Slot;
    assert Maps(Do(s, a)) == Maps(s);
  }

  lemma DropStep(s: State, a: Action)
    requires Inv(s) && Enabled(s, a) && a.Drop?
    ensures Inv(Do(s, a))
  {
    hide Laid, DoneExactly, Mapping, History, Contiguous, Total, FlightPackets, Slot;
    assert Maps(Do(s, a)) == Maps(s);
  }

  lemma NoMapStep(s: State, a: Action)
    requires Inv(s) && Enabled(s, a) && a.NoMap?
    ensures Inv(Do(s, a))
  {
    hide Laid, DoneExactly, Mapping, History, Contiguous, Total, FlightPackets, Slot;
  }

  /** A packet that goes out unmapped ends the lockstep of packets and memory descriptors. */
  lemma SkipStep(s: State, packet: nat, segs: nat)
    requires Inv(s) && Enabled(s, SkipMap(packet, segs))
    ensures Inv(Do(s, SkipMap(packet, segs)))
  {
    hide Laid, DoneExactly, Mapping, History, Contiguous, Total, FlightPackets, Slot, Maps, Ordered, Counted;
    if s.minDescs >= 2 {
      GuardHolds(s);
    }
    SkipOrder(s, Do(s, SkipMap(packet, segs)));
    SkipMaps(s, Do(s, SkipMap(packet, segs)));
  }

  lemma SkipMaps(s: State, t: State)
    requires t == s.(prod := t.prod, skips := t.skips) && s.prod.Ready? && t.prod.Mapped?
    ensures |Maps(t)| == |Maps(s)| + 1
  {
    hide FlightPackets;
  }

  lemma SkipOrder(s: State, t: State)
    requires Ordered(s) && t == s.(prod := t.prod, skips := t.skips) && s.prod.Ready? && t.prod.Mapped?
    ensures Ordered(t)
  {
    hide Total;
  }

  lemma TailStep(s: State, a: Action)
    requires Inv(s) && Enabled(s, a) && a.WriteTail?
    ensures Inv(Do(s, a))
  {
    hide Laid, DoneExactly, Mapping, History, Contiguous, Total, FlightPackets, Slot;
    assert Maps(Do(s, a)) == Maps(s);
  }

  lemma BarrierStep(s: State, a: Action)
    requires Inv(s) && Enabled(s, a) && a.WriteBarrier?
    ensures Inv(Do(s, a))
  {
    hide Laid, DoneExactly, Mapping, History, Contiguous, Total, FlightPackets, Slot;
    assert Maps(Do(s, a)) == Maps(s);
  }

  lemma ReserveStep(s: State, n: nat)
    requires Inv(s) && Enabled(s, Reserve(n))
    ensures Inv(Do(s, Reserve(n)))
  {
    hide Laid, DoneExactly, Mapping, History, Contiguous, Total, FlightPackets, Slot, Maps;
    Advance(s.absNext, n);
    SameMaps(s, Do(s, Reserve(n)));
  }

  lemma TakeStep(s: State, packet: nat, segs: nat)
    requires Inv(s) && Enabled(s, TakeMem(packet, segs))
    ensures Inv(Do(s, TakeMem(packet, segs)))
  {
    hide Laid, DoneExactly, Mapping, History, Contiguous, Total, FlightPackets, Slot, Maps;
    Advance(s.absUse, 1);
    SameMaps(s, Do(s, TakeMem(packet, segs)));
  }

  lemma SameMaps(s: State, t: State)
    requires s.flight == t.flight && s.clean == t.clean
    requires (s.prod.Mapped? || s.prod.Filling?) == (t.prod.Mapped? || t.prod.Filling?)
    requires s.prod.Mapped? || s.prod.Filling? ==> s.prod.packet == t.prod.packet
    ensures Maps(s) == Maps(t)
  {
  }

  lemma RollBackStep(s: State, a: Action)
    requires Inv(s) && Enabled(s, a) && a.RollBack?
    ensures Inv(Do(s, a))
  {
    hide Laid, DoneExactly, Mapping, History, Contiguous, Total, FlightPackets, Slot;
    assert Maps(Do(s, a)) == Maps(s);
  }

  /** What an active memory descriptor adds to the map ring. */
  lemma MapsGrow(mem: seq<MemDesc>, absFree: nat, maps: seq<nat>, packet: nat)
    requires Mapping(mem, absFree, maps) && |maps| + 1 < NUM_TX_MEM
    ensures Mapping(mem[Slot(absFree + |maps|, NUM_TX_MEM) := Active(packet)], absFree, maps + [packet])
  {
    var n := |maps|;
    RotateUpdate(mem, absFree, n, Active(packet));
    assert (Actives(maps) + Inactives(NUM_TX_MEM - n))[n := Active(packet)]
        == Actives(maps + [packet]) + Inactives(NUM_TX_MEM - n - 1);
  }

  /** Releasing the oldest memory descriptor. */
  lemma MapsShrink(mem: seq<MemDesc>, absFree: nat, maps: seq<nat>)
    requires Mapping(mem, absFree, maps) && maps != []
    ensures Mapping(mem[Slot(absFree, NUM_TX_MEM) := Inactive], absFree + 1, maps[1..])
  {
    var after := mem[Slot(absFree, NUM_TX_MEM) := Inactive];
    RotateUpdate(mem, absFree, 0, Inactive);
    RotateForward(after, absFree, 1);
    var n := |maps|;
    assert Rotate(after, absFree) == [Inactive] + Actives(maps[1..]) + Inactives(NUM_TX_MEM - n);
    assert Rotate(after, absFree + 1) == Actives(maps[1..]) + Inactives(NUM_TX_MEM - n) + [Inactive];
    assert Inactives(NUM_TX_MEM - n) + [Inactive] == Inactives(NUM_TX_MEM - n + 1);
  }

  lemma ActivateStep(s: State)
    requires Inv(s) && Enabled(s, Activate)
    ensures Inv(Do(s, Activate))
  {
    hide Laid, DoneExactly, History, Contiguous, Total, FlightPackets, Mapping;
    var t := Do(s, Activate);
    var inFlight := FlightPackets(if s.clean in {Returning, Freeing} && s.flight != [] then s.flight[1..] else s.flight);
    assert inFlight + [] == inFlight;
    assert Maps(s) == inFlight && Maps(t) == inFlight + [s.prod.packet];
    if s.skips == 0 {
      MapsGrow(s.mem, s.absFree, Maps(s), s.prod.packet);
    }
  }

  // ------------------------------------------------------------ filling the ring

  /** Writing a place behind the recorded packets with what it already holds. */
  lemma LaidEmpty(slots: seq<TxBuf>, base: nat, flight: seq<Block>, lingering: nat, j: nat)
    requires Laid(slots, base, flight, lingering) && Total(flight) + j < NUM_TX_DESC - 1
    ensures Laid(slots[Slot(base + Total(flight) + j, NUM_TX_DESC) := EMPTY], base, flight, lingering)
  {
    hide Layout, Total, Slot, Counted;
    var at := Total(flight) + j;
    RotateUpdate(slots, base, at, EMPTY);
    assert Rotate(slots, base)[at] == EMPTY;
  }

  lemma UpdateMiddle<T>(a: seq<T>, e: seq<T>, z: seq<T>, k: nat, x: T)
    requires k < |e|
    ensures (a + e + z)[|a| + k := x] == a + e[k := x] + z
  {
  }

  lemma BlockInEmpties(b: Block, n: nat)
    requires 0 < b.count <= n
    ensures Empties(n)[b.count - 1 := TxBuf(Some(b.packet), b.count)] == BlockSlots(b) + Empties(n - b.count)
  {
  }

  /** Writing the last slot of a packet records it. */
  lemma LaidRecord(slots: seq<TxBuf>, base: nat, flight: seq<Block>, lingering: nat, b: Block)
    requires Laid(slots, base, flight, lingering) && b.count > 0 && Total(flight) + b.count < NUM_TX_DESC
    ensures Laid(slots[Slot(base + Total(flight) + b.count - 1, NUM_TX_DESC) := TxBuf(Some(b.packet), b.count)],
                 base, flight + [b], lingering)
  {
    hide Layout, Total, Slot, Counted, Empties, BlockSlots;
    var full, n := TxBuf(Some(b.packet), b.count), NUM_TX_DESC - 1 - Total(flight);
    Append(flight, b);
    RotateUpdate(slots, base, Total(flight) + b.count - 1, full);
    UpdateMiddle(Layout(flight), Empties(n), [TxBuf(None, lingering)], b.count - 1, full);
    BlockInEmpties(b, n);
    assert Layout(flight) + (BlockSlots(b) + Empties(n - b.count)) + [TxBuf(None, lingering)]
        == (Layout(flight) + BlockSlots(b)) + Empties(n - b.count) + [TxBuf(None, lingering)];
  }

  /** Writing a descriptor behind the recorded packets says nothing about them. */
  lemma DoneOutside(desc: seq<Desc>, flight: seq<Block>, absHead: nat, base: nat, minDescs: nat, q: nat, d: Desc)
    requires DoneExactly(desc, flight, absHead) && Contiguous(flight, base, minDescs)
    requires base + Total(flight) <= q < base + NUM_TX_DESC
    ensures DoneExactly(desc[Slot(q, NUM_TX_DESC) := d], flight, absHead)
  {
    hide Total, Slot;
    var after := desc[Slot(q, NUM_TX_DESC) := d];
    forall k | 0 <= k < |flight|
      ensures after[Slot(flight[k].End() - 1, NUM_TX_DESC)] == Desc(true, flight[k].End() <= absHead)
    {
      BlockEnds(flight, base, minDescs, k);
      DistinctSlots(flight[k].End() - 1, q, NUM_TX_DESC);
    }
  }

  lemma DoneAppend(desc: seq<Desc>, flight: seq<Block>, absHead: nat, b: Block)
    requires DoneExactly(desc, flight, absHead)
    requires b.count > 0 && absHead < b.End() && desc[Slot(b.End() - 1, NUM_TX_DESC)] == Desc(true, false)
    ensures DoneExactly(desc, flight + [b], absHead)
  {
    hide Slot;
  }

  /** Writing the last descriptor of a packet that the hardware has not passed records it. */
  lemma DoneRecord(desc: seq<Desc>, flight: seq<Block>, absHead: nat, base: nat, minDescs: nat, b: Block, q: nat)
    requires DoneExactly(desc, flight, absHead) && Contiguous(flight, base, minDescs)
    requires b.count > 0 && absHead < b.End() == q + 1 && base + Total(flight) <= q < base + NUM_TX_DESC
    ensures DoneExactly(desc[Slot(q, NUM_TX_DESC) := Desc(true, false)], flight + [b], absHead)
  {
    hide DoneExactly, Contiguous, Total, Slot;
    DoneOutside(desc, flight, absHead, base, minDescs, q, Desc(true, false));
    DoneWritten(desc, flight, absHead);
    DoneAppend(desc[Slot(q, NUM_TX_DESC) := Desc(true, false)], flight, absHead, b);
  }

  lemma DoneWritten(desc: seq<Desc>, flight: seq<Block>, absHead: nat)
    requires DoneExactly(desc, flight, absHead)
    ensures |desc| == NUM_TX_DESC
  {
  }

  /** A slot of the packet being filled that is not its last. */
  lemma FillMoreStep(s: State)
    requires Inv(s) && Enabled(s, Fill) && s.prod.written < s.prod.numDescs - 1
    ensures Inv(Do(s, Fill))
  {
    hide Laid, DoneExactly, History, Contiguous, FlightPackets, Mapping, Total, Slot;
    var t, q := Do(s, Fill), Recorded(s) + s.prod.written;
    Advance(Recorded(s), s.prod.written);
    DoneOutside(s.desc, s.flight, s.absHead, s.base, s.minDescs, q, Desc(false, false));
    FillMissesDirty(s, q);
    LaidEmpty(s.slots, s.base, s.flight, Lingering(s), s.prod.written);
    assert Maps(t) == Maps(s);
  }

  /** Positions and counts once a packet is recorded. */
  lemma RecordOrder(s: State, t: State, b: Block)
    requires Shaped(s) && Enabled(s, Fill) && s.prod.written == s.prod.numDescs - 1 && t == Do(s, Fill)
    requires Inv(s) && b == Block(s.prod.packet, s.absNext - s.prod.numDescs, s.prod.numDescs, s.prod.segs)
    ensures Ordered(t) && Shaped(t) && Counting(t) && Lingering(t) == Lingering(s)
  {
    hide Laid, DoneExactly, History, Contiguous, FlightPackets, Mapping, Total, Slot, Maps, Layout, Counted;
    Advance(Recorded(s), s.prod.numDescs - 1);
    FillMissesDirty(s, Recorded(s) + s.prod.numDescs - 1);
    LaidCounted(s);
    Append(s.flight, b);
    FirstKept(s.flight, b);
  }

  /** The last slot records the packet. */
  lemma FillLastStep(s: State)
    requires Inv(s) && Enabled(s, Fill) && s.prod.written == s.prod.numDescs - 1
    ensures Inv(Do(s, Fill))
  {
    hide Maps, Layout, Counted, Laid, DoneExactly, History, Contiguous, FlightPackets, Mapping, Total, Slot,
        Ordered, Lingering, Counting;
    var t, n := Do(s, Fill), s.prod.numDescs;
    var q, b := Recorded(s) + n - 1, Block(s.prod.packet, s.absNext - n, n, s.prod.segs);
    OrderedNext(s);
    Advance(Recorded(s), n - 1);
    RecordOrder(s, t, b);
    LaidCounted(s);
    Append(s.flight, b);
    LaidRecord(s.slots, s.base, s.flight, Lingering(s), b);
    ContiguousAppend(s.flight, s.base, s.minDescs, b);
    DoneRecord(s.desc, s.flight, s.absHead, s.base, s.minDescs, b, q);
    HistoryRecord(s.submitted, s.markS, s.released, s.markR, FlightPackets(s.flight), b.packet);
    MapsRecord(s, b);
    SameMaps(s.(flight := s.flight + [b], prod := AtLoop), t);
  }

  lemma OrderedNext(s: State)
    requires Inv(s)
    ensures s.absNext == Recorded(s) + Reserved(s) && s.absHead <= Recorded(s)
    ensures s.prod.Filling? ==> 1 <= s.prod.segs <= s.prod.numDescs <= s.prod.segs + 1 <= MAX_SEGS + 1
                                && s.minDescs <= s.prod.numDescs && Total(s.flight) + s.prod.numDescs < NUM_TX_DESC
    ensures s.clean in {Unmapping, Returning, Freeing} ==> s.flight != []
  {
  }

  lemma FirstKept(flight: seq<Block>, b: Block)
    ensures flight != [] ==> (flight + [b])[0] == flight[0]
  {
  }

  lemma LaidCounted(s: State)
    requires Inv(s)
    ensures Counted(s.flight)
  {
  }

  lemma HistoryRecord(submitted: seq<nat>, markS: nat, released: seq<nat>, markR: nat, inFlight: seq<nat>, p: nat)
    requires History(submitted, markS, released, markR, inFlight)
    ensures History(submitted + [p], markS, released, markR, inFlight + [p])
  {
    assert (submitted + [p])[markS..] == submitted[markS..] + [p];
    assert (submitted + [p])[..markS] == submitted[..markS];
  }

  lemma MapsRecord(s: State, b: Block)
    requires Shaped(s) && Counted(s.flight) && b.count > 0 && s.prod.Filling? && s.prod.packet == b.packet
    requires s.clean in {Returning, Freeing} ==> s.flight != []
    ensures Maps(s.(flight := s.flight + [b], prod := AtLoop)) == Maps(s)
  {
    if s.clean in {Returning, Freeing} {
      assert (s.flight + [b])[1..] == s.flight[1..] + [b];
    }
  }

  /** The slot being filled is not the one the cleaner works on. */
  lemma FillMissesDirty(s: State, q: nat)
    requires Shaped(s) && Counting(s) && Ordered(s) && Indexed(s)
    requires s.prod.Filling? && Recorded(s) <= q < s.absNext
    ensures Behind(s) || s.clean in {AtSlot, Unmapping, Returning, Freeing, Advancing(false)} ==>
        Slot(q, NUM_TX_DESC) != s.dirty
  {
    hide Total, Slot;
    if Behind(s) || s.clean in {AtSlot, Unmapping, Returning, Freeing, Advancing(false)} {
      assert s.absDirty < q < s.absDirty + NUM_TX_DESC;
      DistinctSlots(s.absDirty, q, NUM_TX_DESC);
    }
  }

  // ------------------------------------------------------------ the hardware

  /** The descriptors once the hardware has completed the one at a position: done if a report was asked for. */
  function Passed(desc: seq<Desc>, at: nat): (r: seq<Desc>)
    requires |desc| == NUM_TX_DESC
    ensures |r| == NUM_TX_DESC
  {
    var d := desc[Slot(at, NUM_TX_DESC)];
    desc[Slot(at, NUM_TX_DESC) := Desc(d.rs, d.dd || d.rs)]
  }

  lemma PassedAt(desc: seq<Desc>, at: nat, last: nat)
    requires |desc| == NUM_TX_DESC && at < last + NUM_TX_DESC && last < at + NUM_TX_DESC
    ensures var (d, e) := (desc[Slot(last, NUM_TX_DESC)], Passed(desc, at)[Slot(last, NUM_TX_DESC)]);
      e == if last == at then Desc(d.rs, d.dd || d.rs) else d
  {
    hide Slot;
    if last > at {
      DistinctSlots(at, last, NUM_TX_DESC);
    } else if last < at {
      DistinctSlots(last, at, NUM_TX_DESC);
    }
  }

  lemma DonePass(desc: seq<Desc>, flight: seq<Block>, absHead: nat, base: nat, minDescs: nat)
    requires DoneExactly(desc, flight, absHead) && Contiguous(flight, base, minDescs)
    requires base <= absHead < base + Total(flight) && Total(flight) < NUM_TX_DESC
    ensures DoneExactly(Passed(desc, absHead), flight, absHead + 1)
  {
    hide Total, Slot, Passed;
    forall k | 0 <= k < |flight|
      ensures Passed(desc, absHead)[Slot(flight[k].End() - 1, NUM_TX_DESC)] == Desc(true, flight[k].End() <= absHead + 1)
    {
      BlockEnds(flight, base, minDescs, k);
      PassedAt(desc, absHead, flight[k].End() - 1);
    }
  }

  lemma CompleteStep(s: State)
    requires Inv(s) && Enabled(s, Complete)
    ensures Inv(Do(s, Complete))
  {
    hide Laid, DoneExactly, Mapping, History, Contiguous, Total, FlightPackets, Slot, Maps;
    Advance(s.absHead, 1);
    assert s.absHead != s.absTail;
    DonePass(s.desc, s.flight, s.absHead, s.base, s.minDescs);
    SameMaps(s, Do(s, Complete));
  }

  // ------------------------------------------------------------ the cleaner

  lemma TestStep(s: State)
    requires Inv(s) && (s.clean.Idle? || s.clean.Testing?)
    ensures Inv(Do(s, Clean))
  {
    hide Laid, DoneExactly, Mapping, History, Contiguous, Total, FlightPackets, Slot, Maps;
    if s.clean.Testing? {
      TestingSeesOrder(s);
    }
    SameMapsCleaning(s, Do(s, Clean));
  }

  lemma AddStep(s: State)
    requires Inv(s) && s.clean.Adding?
    ensures Inv(Do(s, Clean))
  {
    hide Laid, DoneExactly, Mapping, History, Contiguous, Total, FlightPackets, Slot, Maps;
    SameMapsCleaning(s, Do(s, Clean));
  }

  lemma AdvanceOrder(s: State)
    requires Inv(s) && s.clean.Advancing?
    ensures Ordered(Do(s, Clean)) && Do(s, Clean).dirty == Slot(Do(s, Clean).absDirty, NUM_TX_DESC)
  {
    hide Laid, DoneExactly, Mapping, History, Total, FlightPackets, Slot, Maps;
    if s.flight != [] {
      ContiguousTail(s.flight, s.base, s.minDescs);
    }
    Advance(s.absDirty, 1);
  }

  lemma AdvanceStep(s: State)
    requires Inv(s) && s.clean.Advancing?
    ensures Inv(Do(s, Clean))
  {
    hide Laid, DoneExactly, Mapping, History, Contiguous, Total, FlightPackets, Slot, Maps, Ordered;
    AdvanceOrder(s);
    SameMapsCleaning(s, Do(s, Clean));
  }

  /** The index comparison of the cleaner decides the comparison of the positions. */
  lemma TestingSeesOrder(s: State)
    requires Shaped(s) && Counting(s) && Ordered(s) && Indexed(s) && !Behind(s)
    ensures s.dirty == s.barrier <==> s.absDirty == s.absBarrier
  {
    hide Total, Slot;
    if s.absDirty < s.absBarrier {
      DistinctSlots(s.absDirty, s.absBarrier, NUM_TX_DESC);
    }
  }

  /** What the cleaner finds at a slot before the end of the first recorded packet. */
  lemma SlotAt(slots: seq<TxBuf>, base: nat, flight: seq<Block>, lingering: nat, minDescs: nat, at: nat)
    requires Laid(slots, base, flight, lingering) && Contiguous(flight, base, minDescs) && flight != []
    requires base <= at < flight[0].End()
    ensures slots[Slot(at, NUM_TX_DESC)] == if at == flight[0].End() - 1 then TxBuf(Some(flight[0].packet), flight[0].count) else EMPTY
  {
    hide Slot;
    ContiguousTail(flight, base, minDescs);
    FirstBlock(flight);
    assert Rotate(slots, base)[at - base] == BlockSlots(flight[0])[at - base];
  }

  lemma SomeTotal(flight: seq<Block>)
    ensures Total(flight) > 0 ==> flight != []
  {
  }

  lemma SameMapsCleaning(s: State, t: State)
    requires s.flight == t.flight && s.prod == t.prod
    requires s.clean in {Returning, Freeing} <==> t.clean in {Returning, Freeing}
    ensures Maps(s) == Maps(t)
  {
  }

  /** A done bit found by the cleaner belongs to the packet whose last slot it looks at. */
  lemma AtSlotOrder(s: State, t: State)
    requires Shaped(s) && s.clean.AtSlot? && t == Do(s, Clean)
    requires Inv(s)
    ensures Ordered(t) && Shaped(t) && t == s.(clean := t.clean)
  {
    hide Laid, Mapping, History, Contiguous, Total, FlightPackets, Slot, Maps;
    SomeTotal(s.flight);
    LaidCounted(s);
    SlotAt(s.slots, s.base, s.flight, 0, s.minDescs, s.absDirty);
    ContiguousTail(s.flight, s.base, s.minDescs);
    if s.slots[s.dirty].mbuf.Some? {
      assert s.absDirty == s.flight[0].End() - 1;
      assert s.desc[s.dirty].dd ==> s.flight[0].End() <= s.absHead;
    } else {
      assert s.absDirty < s.flight[0].End() - 1;
    }
  }

  /** A move of the cleaner that touches nothing else. */
  lemma OnlyMoves(s: State, c: Cleaner)
    requires Inv(s) && Shaped(s.(clean := c)) && Ordered(s.(clean := c))
    requires !s.clean.TakingCount? && !s.clean.Adding? && !s.clean.Returning? && !s.clean.Freeing?
    requires !c.TakingCount? && !c.Adding? && !c.Returning? && (if s.vtd then !c.Freeing? else !c.Unmapping?)
    ensures Inv(s.(clean := c))
  {
    hide Laid, Mapping, History, Contiguous, Total, FlightPackets, Slot, Maps, DoneExactly, Ordered;
    if s.vtd {
      SameMapsCleaning(s, s.(clean := c));
    }
  }

  lemma AtSlotStep(s: State, t: State)
    requires Shaped(s) && s.clean.AtSlot? && t == Do(s, Clean)
    requires Inv(s)
    ensures Inv(t)
  {
    hide Ordered, Laid, Mapping, History, Contiguous, Total, FlightPackets, Slot, Maps, DoneExactly, Counted;
    AtSlotOrder(s, t);
    OnlyMoves(s, t.clean);
  }

  lemma UnmapDropsFirst(s: State, t: State)
    requires s.clean.Unmapping? && s.flight != [] && t.flight == s.flight && t.prod == s.prod && t.clean.Returning?
    ensures Maps(s) != [] && Maps(t) == Maps(s)[1..]
  {
  }

  lemma UnmapOrder(s: State, t: State)
    requires Shaped(s) && s.clean.Unmapping? && t == Do(s, Clean)
    requires Inv(s)
    ensures Shaped(t) && Ordered(t) && Counting(t) && s.vtd
  {
    hide Laid, DoneExactly, Mapping, History, Contiguous, Total, FlightPackets, Slot, Maps, Counted;
  }

  lemma UnmapStep(s: State, t: State)
    requires Shaped(s) && s.clean.Unmapping? && t == Do(s, Clean)
    requires Inv(s)
    ensures Inv(t)
  {
    hide Laid, DoneExactly, Mapping, History, Contiguous, Total, FlightPackets, Slot, Maps, Ordered, Counting, Counted;
    UnmapOrder(s, t);
    Advance(s.absFree, 1);
    OrderedNext(s);
    UnmapDropsFirst(s, t);
    if s.skips == 0 {
      MapsShrink(s.mem, s.absFree, Maps(s));
    }
  }

  lemma ReturnStep(s: State, t: State)
    requires Shaped(s) && s.clean.Returning? && t == Do(s, Clean)
    requires Inv(s)
    ensures Inv(t)
  {
    hide Laid, DoneExactly, Mapping, History, Contiguous, Total, FlightPackets, Slot;
    assert Maps(t) == Maps(s);
  }

  lemma TurnView(head: seq<TxBuf>, last: TxBuf, left: TxBuf, rest: seq<TxBuf>, n: nat, k: nat)
    requires k > 0 && head == Empties(k - 1)
    ensures var view := (head + [last]) + rest + Empties(n) + [EMPTY];
      view[k - 1 := left][k..] + view[k - 1 := left][..k] == rest + Empties(n + k) + [left]
  {
    var view := (head + [last]) + rest + Empties(n) + [EMPTY];
    assert view[k - 1 := left][k..] == rest + Empties(n) + [EMPTY];
    assert view[k - 1 := left][..k] == Empties(k - 1) + [left];
    assert Empties(n) + [EMPTY] + Empties(k - 1) == Empties(n + k);
  }

  /** Freeing the first recorded packet turns the view by its slots and leaves its count behind. */
  lemma LaidFree(slots: seq<TxBuf>, base: nat, flight: seq<Block>, minDescs: nat)
    requires Laid(slots, base, flight, 0) && Contiguous(flight, base, minDescs) && flight != []
    ensures Laid(slots[Slot(flight[0].End() - 1, NUM_TX_DESC) := TxBuf(None, flight[0].count)],
                 flight[0].End(), flight[1..], flight[0].count)
  {
    hide Slot, Layout, Total, Empties;
    var b, rest, left := flight[0], flight[1..], TxBuf(None, flight[0].count);
    var after, k := slots[Slot(b.End() - 1, NUM_TX_DESC) := left], b.count;
    var n := NUM_TX_DESC - 1 - Total(flight);
    ContiguousTail(flight, base, minDescs);
    FirstBlock(flight);
    assert b.End() - 1 == base + (k - 1);
    RotateUpdate(slots, base, k - 1, left);
    RotateForward(after, base, k);
    TurnView(Empties(k - 1), TxBuf(Some(b.packet), b.count), left, Layout(rest), n, k);
  }

  lemma HistoryFree(submitted: seq<nat>, markS: nat, released: seq<nat>, markR: nat, inFlight: seq<nat>)
    requires History(submitted, markS, released, markR, inFlight) && inFlight != []
    ensures History(submitted, markS, released + [inFlight[0]], markR, inFlight[1..])
  {
    assert (released + [inFlight[0]])[markR..] == released[markR..] + [inFlight[0]];
    assert (released + [inFlight[0]])[..markR] == released[..markR];
  }

  lemma DoneTail(desc: seq<Desc>, flight: seq<Block>, absHead: nat)
    requires DoneExactly(desc, flight, absHead) && flight != []
    ensures DoneExactly(desc, flight[1..], absHead)
  {
  }

  /** What the slot of a packet being freed holds. */
  lemma FreeSlot(s: State)
    requires Shaped(s) && Inv(s) && s.clean.Freeing?
    ensures s.flight != [] && s.absDirty == s.flight[0].End() - 1
    ensures s.slots[s.dirty] == TxBuf(Some(s.flight[0].packet), s.flight[0].count)
    ensures s.dirty == Slot(s.flight[0].End() - 1, NUM_TX_DESC)
  {
    hide Laid, DoneExactly, Mapping, History, Contiguous, Total, Slot, FlightPackets, Maps;
    SlotAt(s.slots, s.base, s.flight, 0, s.minDescs, s.absDirty);
  }

  /** Positions and counts once the first recorded packet is freed. */
  lemma FreeOrder(s: State)
    requires Shaped(s) && Inv(s) && s.clean.Freeing?
    ensures Shaped(Do(s, Clean)) && Ordered(Do(s, Clean)) && Counting(Do(s, Clean))
  {
    hide Laid, DoneExactly, Mapping, History, Contiguous, Total, Slot, FlightPackets, Maps, Layout, Counted, Indexed;
    FreeSlot(s);
    ContiguousTail(s.flight, s.base, s.minDescs);
    LaidCounted(s);
    FirstBlock(s.flight);
    if |s.flight| > 1 {
      NextBlock(s.flight, s.base, s.minDescs);
    }
  }

  lemma FreeStep(s: State)
    requires Inv(s) && s.clean.Freeing?
    ensures Inv(Do(s, Clean))
  {
    hide Laid, DoneExactly, Mapping, History, Contiguous, Total, Slot, FlightPackets, Maps, Ordered, Counting;
    FreeOrder(s);
    FreeSlot(s);
    LaidFree(s.slots, s.base, s.flight, s.minDescs);
    ContiguousTail(s.flight, s.base, s.minDescs);
    LaidCounted(s);
    FirstBlock(s.flight);
    DoneTail(s.desc, s.flight, s.absHead);
    FreeHistory(s);
    if s.vtd {
      FreeKeepsMaps(s, Do(s, Clean));
    }
  }

  lemma FreeHistory(s: State)
    requires History(s.submitted, s.markS, s.released, s.markR, FlightPackets(s.flight)) && s.flight != []
    ensures History(s.submitted, s.markS, s.released + [s.flight[0].packet], s.markR, FlightPackets(s.flight[1..]))
  {
    hide History;
    HistoryFree(s.submitted, s.markS, s.released, s.markR, FlightPackets(s.flight));
    assert FlightPackets(s.flight)[1..] == FlightPackets(s.flight[1..]);
  }

  lemma FreeKeepsMaps(s: State, t: State)
    requires s.clean.Freeing? && s.flight != [] && t.flight == s.flight[1..] && t.prod == s.prod && t.clean.TakingCount?
    ensures Maps(t) == Maps(s)
  {
  }

  lemma NextBlock(flight: seq<Block>, base: nat, minDescs: nat)
    requires Contiguous(flight, base, minDescs) && |flight| > 1
    ensures flight[0].End() < flight[1].End()
  {
    BlockEnds(flight, base, minDescs, 1);
  }

  lemma TakeCountStep(s: State)
    requires Inv(s) && s.clean.TakingCount?
    ensures Inv(Do(s, Clean))
  {
    hide DoneExactly, Mapping, History, Contiguous, Total, FlightPackets, Slot, Laid, Maps;
    LaidTake(s.slots, s.base, s.flight, s.slots[s.dirty].numDescs);
    assert s.dirty == Slot(s.base - 1, NUM_TX_DESC);
    SameMapsCleaning(s, Do(s, Clean));
  }

  /** The lingering count sits right before the first recorded packet, and taking it empties that slot. */
  lemma LaidTake(slots: seq<TxBuf>, base: nat, flight: seq<Block>, lingering: nat)
    requires Laid(slots, base, flight, lingering) && base > 0
    ensures slots[Slot(base - 1, NUM_TX_DESC)] == TxBuf(None, lingering)
    ensures Laid(slots[Slot(base - 1, NUM_TX_DESC) := EMPTY], base, flight, 0)
  {
    hide Slot, Layout, Total;
    SlotStep(base - 1, NUM_TX_DESC, NUM_TX_DESC);
    assert base + (NUM_TX_DESC - 1) == (base - 1) + NUM_TX_DESC;
    RotateUpdate(slots, base, NUM_TX_DESC - 1, EMPTY);
    assert Rotate(slots, base)[NUM_TX_DESC - 1] == TxBuf(None, lingering);
  }
}
