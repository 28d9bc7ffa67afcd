/** The transmit ring as the driver keeps it: arrays and indices changed in place.  Each method is a
    run of the transmit machine, so what is proved of all runs holds of it. */
module TxRing {
  import opened Options
  import opened Rotation
  import opened TxMachine
  import opened TxSteps
  import opened TxTheorems

  // ------------------------------------------------------------ what a packet writes

  /** Offload bits of a packet: segmentation, the checksum kinds a context descriptor is counted
      for, and any other bit the stack may set. */
  datatype Offload = Offload(tso: bool, counted: bool, other: bool)
  {
    predicate Any() { tso || counted || other }

    /** Descriptors taken from the free count. */
    function NumDescs(segs: nat): nat { (if tso || counted then 1 else 0) + segs }

    /** Slots written, one for the context descriptor of any bit at all. */
    function Written(segs: nat): nat { (if Any() then 1 else 0) + segs }

    /** What is checked before a packet is submitted: the bits a context is written for are those
        it is counted for, and segmentation is asked for only with two segments or more. */
    predicate Recordable(segs: nat) { (Any() ==> tso || counted) && (tso ==> segs >= 2) }
  }

  /** Slot number k of those a packet writes, as buffer information. */
  function BufWrite(p: nat, o: Offload, segs: nat, k: nat): TxBuf {
    if k + 1 == o.Written(segs) && !(o.tso && segs == 1) then TxBuf(Some(p), o.NumDescs(segs)) else EMPTY
  }

  function DescWrite(o: Offload, segs: nat, k: nat): Desc {
    Desc(k + 1 == o.Written(segs) && !(o.tso && segs == 1), false)
  }

  function BufWrites(p: nat, o: Offload, segs: nat, k: nat): (r: seq<TxBuf>)
    ensures |r| == k
  {
    seq(k, i requires 0 <= i < k => BufWrite(p, o, segs, i))
  }

  function DescWrites(o: Offload, segs: nat, k: nat): (r: seq<Desc>)
    ensures |r| == k
  {
    seq(k, i requires 0 <= i < k => DescWrite(o, segs, i))
  }

  /** A ring after xs is written from position at on. */
  function WriteFrom<T>(ring: seq<T>, at: nat, xs: seq<T>): (r: seq<T>)
    requires |ring| == NUM_TX_DESC
    ensures |r| == NUM_TX_DESC
  {
    if xs == [] then ring
    else WriteFrom(ring, at, xs[..|xs| - 1])[Slot(at + |xs| - 1, NUM_TX_DESC) := xs[|xs| - 1]]
  }

  lemma WriteMore<T>(ring: seq<T>, at: nat, xs: seq<T>, x: T)
    requires |ring| == NUM_TX_DESC
    ensures WriteFrom(ring, at, xs + [x]) == WriteFrom(ring, at, xs)[Slot(at + |xs|, NUM_TX_DESC) := x]
  {
    assert (xs + [x])[..|xs|] == xs;
  }

  lemma BufMore(p: nat, o: Offload, segs: nat, k: nat)
    ensures BufWrites(p, o, segs, k + 1) == BufWrites(p, o, segs, k) + [BufWrite(p, o, segs, k)]
  {
  }

  lemma DescMore(o: Offload, segs: nat, k: nat)
    ensures DescWrites(o, segs, k + 1) == DescWrites(o, segs, k) + [DescWrite(o, segs, k)]
  {
  }

  /** Where a slot was written, the last write shows; elsewhere the ring is as before. */
  lemma {:induction false} Written<T>(ring: seq<T>, at: nat, xs: seq<T>, k: nat)
    requires |ring| == NUM_TX_DESC && |xs| <= NUM_TX_DESC && k < NUM_TX_DESC
    ensures WriteFrom(ring, at, xs)[Slot(at + k, NUM_TX_DESC)] == if k < |xs| then xs[k] else ring[Slot(at + k, NUM_TX_DESC)]
  {
    hide Slot;
    if xs != [] {
      var n := |xs| - 1;
      Written(ring, at, xs[..n], k);
      if k < n {
        DistinctSlots(at + k, at + n, NUM_TX_DESC);
      } else if n < k {
        DistinctSlots(at + n, at + k, NUM_TX_DESC);
      }
    }
  }

  /** The ring around a submitted packet, at k slots from its first: a context slot for any offload bit,
      a slot a segment, and in the last one the packet, the number of its descriptors and the request to
      report.  Segmentation of a single segment leaves that slot bare.  No other slot changes. */
  predicate SlotOf(bufs: seq<TxBuf>, bufsAfter: seq<TxBuf>, descs: seq<Desc>, descsAfter: seq<Desc>,
      first: nat, p: nat, o: Offload, segs: nat, k: nat)
    requires |bufs| == |bufsAfter| == |descs| == |descsAfter| == NUM_TX_DESC
  {
    var i, n := Slot(first + k, NUM_TX_DESC), segs + if o.tso || o.counted || o.other then 1 else 0;
    if k >= n then bufsAfter[i] == bufs[i] && descsAfter[i] == descs[i]
    else if k < n - 1 || (o.tso && segs == 1) then bufsAfter[i] == TxBuf(None, 0) && descsAfter[i] == Desc(false, false)
    else bufsAfter[i] == TxBuf(Some(p), segs + if o.tso || o.counted then 1 else 0) && descsAfter[i] == Desc(true, false)
  }

  ghost predicate SlotsOf(bufs: seq<TxBuf>, bufsAfter: seq<TxBuf>, descs: seq<Desc>, descsAfter: seq<Desc>,
      first: nat, p: nat, o: Offload, segs: nat)
    requires |bufs| == |bufsAfter| == |descs| == |descsAfter| == NUM_TX_DESC
  {
    forall k :: 0 <= k < NUM_TX_DESC ==> SlotOf(bufs, bufsAfter, descs, descsAfter, first, p, o, segs, k)
  }

  /** What the writes of a packet leave in the ring. */
  lemma WritesInPlace(bufs: seq<TxBuf>, descs: seq<Desc>, first: nat, p: nat, o: Offload, segs: nat)
    requires |bufs| == |descs| == NUM_TX_DESC && 1 <= segs <= MAX_SEGS
    ensures SlotsOf(bufs, WriteFrom(bufs, first, BufWrites(p, o, segs, o.Written(segs))),
                    descs, WriteFrom(descs, first, DescWrites(o, segs, o.Written(segs))), first, p, o, segs)
  {
    hide Slot, WriteFrom;
    forall k | 0 <= k < NUM_TX_DESC
      ensures SlotOf(bufs, WriteFrom(bufs, first, BufWrites(p, o, segs, o.Written(segs))),
                     descs, WriteFrom(descs, first, DescWrites(o, segs, o.Written(segs))), first, p, o, segs, k)
    {
      Written(bufs, first, BufWrites(p, o, segs, o.Written(segs)), k);
      Written(descs, first, DescWrites(o, segs, o.Written(segs)), k);
    }
  }

  // ------------------------------------------------------------ when a packet is recorded

  /** The packet stands in the last of the slots reserved for it, with their number, and no slot
      behind them has changed. */
  predicate RecordedInPlace(before: seq<TxBuf>, after: seq<TxBuf>, at: nat, p: nat, n: nat)
    requires |before| == |after| == NUM_TX_DESC && 0 < n <= NUM_TX_DESC
  {
    && Rotate(after, at)[n - 1] == TxBuf(Some(p), n)
    && Rotate(after, at)[n..] == Rotate(before, at)[n..]
  }

  /** A packet's writes, seen from its first slot. */
  lemma WritesInView(before: seq<TxBuf>, at: nat, xs: seq<TxBuf>)
    requires |before| == NUM_TX_DESC && |xs| <= NUM_TX_DESC
    ensures Rotate(WriteFrom(before, at, xs), at) == xs + Rotate(before, at)[|xs|..]
  {
    hide Slot;
    forall k | 0 <= k < NUM_TX_DESC
      ensures Rotate(WriteFrom(before, at, xs), at)[k] == (xs + Rotate(before, at)[|xs|..])[k]
    {
      Written(before, at, xs, k);
    }
  }

  /** Filling the ring records the packet where its reservation ends exactly for recordable packets:
      any ring that does not hold the packet yet, any offload bits, any number of segments. */
  lemma RecordedExactly(before: seq<TxBuf>, at: nat, p: nat, o: Offload, segs: nat)
    requires |before| == NUM_TX_DESC && 1 <= segs <= MAX_SEGS
    requires forall i :: 0 <= i < NUM_TX_DESC ==> before[i].mbuf != Some(p)
    ensures RecordedInPlace(before, WriteFrom(before, at, BufWrites(p, o, segs, o.Written(segs))), at, p, o.NumDescs(segs))
            <==> o.Recordable(segs)
  {
    hide Slot, WriteFrom;
    var w, n := o.Written(segs), o.NumDescs(segs);
    var xs := BufWrites(p, o, segs, w);
    WritesInView(before, at, xs);
    var view, was := Rotate(WriteFrom(before, at, xs), at), Rotate(before, at);
    if !o.tso && w == n + 1 {
      assert view[n..][0] == xs[n] && was[n..][0] == was[n] && was[n].mbuf != Some(p);
    }
  }

  /** A segmentation request of one segment is recorded nowhere: no later cleaning can free it. */
  lemma SingleSegmentIsLost(before: seq<TxBuf>, at: nat, p: nat, o: Offload, i: nat)
    requires |before| == NUM_TX_DESC && o.tso && i < NUM_TX_DESC
    requires before[i].mbuf != Some(p)
    ensures WriteFrom(before, at, BufWrites(p, o, 1, 2))[i].mbuf != Some(p)
  {
    hide Slot;
    var xs := BufWrites(p, o, 1, 2);
    assert xs[..1][..0] == [] && xs[..1] == [EMPTY] && xs[1] == EMPTY;
    assert WriteFrom(before, at, xs[..0]) == before;
    assert WriteFrom(before, at, xs[..1]) == before[Slot(at, NUM_TX_DESC) := EMPTY];
  }

  // ------------------------------------------------------------ a packet as a run

  function Fills(n: nat): (r: seq<Action>)
    ensures |r| == n
  {
    seq(n, _ => Fill)
  }

  function SubmitRun(n: nat): seq<Action> { [Reserve(n)] + Fills(n) }

  /** The ring after the first k slots of a packet. */
  function Partly(s: State, p: nat, o: Offload, segs: nat, first: nat, k: nat): State
    requires |s.slots| == |s.desc| == NUM_TX_DESC
  {
    s.(slots := WriteFrom(s.slots, first, BufWrites(p, o, segs, k)),
       desc := WriteFrom(s.desc, first, DescWrites(o, segs, k)),
       prod := Filling(p, segs, first, o.NumDescs(segs), k))
  }

  lemma PartlyMore(s: State, p: nat, o: Offload, segs: nat, first: nat, k: nat)
    requires Shaped(s) && o.Recordable(segs) && k + 1 < o.NumDescs(segs)
    requires Shaped(Partly(s, p, o, segs, first, k))
    ensures Do(Partly(s, p, o, segs, first, k), Fill) == Partly(s, p, o, segs, first, k + 1)
  {
    hide Slot, WriteFrom;
    WriteMore(s.slots, first, BufWrites(p, o, segs, k), BufWrite(p, o, segs, k));
    WriteMore(s.desc, first, DescWrites(o, segs, k), DescWrite(o, segs, k));
    BufMore(p, o, segs, k);
    DescMore(o, segs, k);
  }

  lemma {:induction false} FillsRun(s: State, p: nat, o: Offload, segs: nat, first: nat, k: nat)
    requires Inv(s) && s.prod == Filling(p, segs, first, o.NumDescs(segs), 0) && o.Recordable(segs)
    requires k < o.NumDescs(segs)
    ensures Legal(s, Fills(k)) && Exec(s, Fills(k)) == Partly(s, p, o, segs, first, k) && Inv(Exec(s, Fills(k)))
  {
    hide Slot, Inv, Do, BufWrites, DescWrites;
    InvIsShaped(s);
    if k == 0 {
      assert BufWrites(p, o, segs, 0) == [] && DescWrites(o, segs, 0) == [];
    } else {
      FillsRun(s, p, o, segs, first, k - 1);
      var t := Exec(s, Fills(k - 1));
      InvIsShaped(t);
      PartlyMore(s, p, o, segs, first, k - 1);
      ExecOne(t, Fill);
      StepKeepsInv(t, Fill);
      LegalConcat(s, Fills(k - 1), [Fill]);
      assert Fills(k) == Fills(k - 1) + [Fill];
    }
  }

  /** A submitted packet as the machine sees it: what the driver's loops write into the ring. */
  function Submitted(s: State, p: nat, o: Offload, segs: nat): State
    requires Shaped(s)
  {
    var n := o.NumDescs(segs);
    s.(numFree := s.numFree - n, next := Slot(s.next + n, NUM_TX_DESC), absNext := s.absNext + n,
       slots := WriteFrom(s.slots, s.next, BufWrites(p, o, segs, n)),
       desc := WriteFrom(s.desc, s.next, DescWrites(o, segs, n)),
       flight := s.flight + [Block(p, s.absNext, n, segs)], submitted := s.submitted + [p],
       count := s.count + 1, prod := AtLoop)
  }

  /** The state once all slots of a packet are filled. */
  function Recording(s: State, p: nat, o: Offload, segs: nat, first: nat): State
    requires |s.slots| == |s.desc| == NUM_TX_DESC && o.NumDescs(segs) <= s.absNext
  {
    var n := o.NumDescs(segs);
    s.(slots := WriteFrom(s.slots, first, BufWrites(p, o, segs, n)),
       desc := WriteFrom(s.desc, first, DescWrites(o, segs, n)),
       flight := s.flight + [Block(p, s.absNext - n, n, segs)], submitted := s.submitted + [p],
       count := s.count + 1, prod := AtLoop)
  }

  lemma LastFill(s: State, p: nat, o: Offload, segs: nat, first: nat)
    requires Shaped(s) && o.Recordable(segs) && segs > 0 && o.NumDescs(segs) <= s.absNext
    requires Shaped(Partly(s, p, o, segs, first, o.NumDescs(segs) - 1))
    ensures Do(Partly(s, p, o, segs, first, o.NumDescs(segs) - 1), Fill) == Recording(s, p, o, segs, first)
  {
    hide Slot, WriteFrom;
    var k := o.NumDescs(segs) - 1;
    WriteMore(s.slots, first, BufWrites(p, o, segs, k), BufWrite(p, o, segs, k));
    WriteMore(s.desc, first, DescWrites(o, segs, k), DescWrite(o, segs, k));
    BufMore(p, o, segs, k);
    DescMore(o, segs, k);
  }

  lemma AllFills(s: State, p: nat, o: Offload, segs: nat, first: nat)
    requires Inv(s) && s.prod == Filling(p, segs, first, o.NumDescs(segs), 0) && o.Recordable(segs)
    requires segs > 0 && o.NumDescs(segs) <= s.absNext
    ensures Legal(s, Fills(o.NumDescs(segs)))
    ensures Shaped(s) && Exec(s, Fills(o.NumDescs(segs))) == Recording(s, p, o, segs, first)
  {
    hide Slot, Inv, Do, BufWrites, DescWrites, Recording;
    var n := o.NumDescs(segs);
    InvIsShaped(s);
    FillsRun(s, p, o, segs, first, n - 1);
    var u := Exec(s, Fills(n - 1));
    InvIsShaped(u);
    LastFill(s, p, o, segs, first);
    ExecOne(u, Fill);
    LegalConcat(s, Fills(n - 1), [Fill]);
    assert Fills(n) == Fills(n - 1) + [Fill];
  }

  lemma SubmitIsRun(s: State, p: nat, o: Offload, segs: nat)
    requires Inv(s) && Shaped(s) && s.prod == Mapped(p, segs) && o.Recordable(segs) && segs > 0
        && s.minDescs <= o.NumDescs(segs)
    ensures Legal(s, SubmitRun(o.NumDescs(segs)))
    ensures Exec(s, SubmitRun(o.NumDescs(segs))) == Submitted(s, p, o, segs)
  {
    hide Slot, Inv, BufWrites, DescWrites, WriteFrom, Legal, Exec, Fills;
    var n := o.NumDescs(segs);
    StepKeepsInv(s, Reserve(n));
    AllFills(Do(s, Reserve(n)), p, o, segs, s.next);
    ExecOne(s, Reserve(n));
    LegalConcat(s, [Reserve(n)], Fills(n));
  }
}
