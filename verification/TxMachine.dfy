/** The transmit ring as a state machine.  Four parties take turns, one shared access at a time:
    the output thread that maps and submits packets and then publishes the tail, the hardware
    that completes descriptors, the cleaner in the work loop, and a reset of the adapter. */
module TxMachine {
  import opened Options
  import opened Rotation

  const NUM_TX_DESC: nat := 512
  const NUM_TX_MEM: nat := 256
  const MAX_SEGS: nat := 32
  const MIN_FREE: nat := MAX_SEGS + 3

  datatype TxBuf = TxBuf(mbuf: Option<nat>, numDescs: nat)

  /** The two descriptor bits that matter here: report status, and descriptor done. */
  datatype Desc = Desc(rs: bool, dd: bool)

  datatype MemDesc = Inactive | Active(packet: nat)

  const EMPTY := TxBuf(None, 0)

  /** Where the output thread stands. */
  datatype Producer =
    | AtLoop
    | Ready                                                     // enough descriptors seen, packet dequeued
    | Taken(packet: nat, segs: nat, saved: nat)                 // memory descriptor taken, not yet active
    | Mapped(packet: nat, segs: nat)
    | Filling(packet: nat, segs: nat, first: nat, numDescs: nat, written: nat)
    | TailWritten

  /** Where the cleaner stands. */
  datatype Cleaner =
    | Idle
    | Testing                     // about to compare dirty index and barrier
    | AtSlot                      // about to look at the dirty slot
    | Unmapping                   // a done packet is there
    | Returning                   // its memory descriptor is inactive, not yet counted
    | Freeing
    | TakingCount                 // mbuf gone, number of descriptors still in the slot
    | Adding(cleaned: nat)
    | Advancing(freed: bool)

  /** A recorded packet: the absolute position of its first descriptor and its extent. */
  datatype Block = Block(packet: nat, start: nat, count: nat, segs: nat)
  {
    function End(): nat { start + count }
  }

  /** Fields of the driver and the hardware first; then absolute counters and histories, which no
      guard looks at. */
  datatype State = State(
    vtd: bool, minDescs: nat,
    slots: seq<TxBuf>, desc: seq<Desc>, numFree: int, next: nat, dirty: nat, barrier: nat,
    tdt: nat, head: nat,
    mem: seq<MemDesc>, memUse: nat, memFree: nat, freeMem: int,
    prod: Producer, count: nat, clean: Cleaner,
    absNext: nat, absDirty: nat, absBarrier: nat, absTail: nat, absHead: nat, base: nat,
    absUse: nat, absFree: nat,
    flight: seq<Block>, submitted: seq<nat>, released: seq<nat>, markS: nat, markR: nat,
    skips: nat,                                                 // packets that went out unmapped since the last reset
    halted: bool)                                               // the tail read back wrong: transmitter off, reset asked for

  function Init(vtd: bool, minDescs: nat): State {
    State(vtd, minDescs,
          seq(NUM_TX_DESC, _ => EMPTY), seq(NUM_TX_DESC, _ => Desc(false, false)), NUM_TX_DESC, 0, 0, 0,
          0, 0,
          seq(NUM_TX_MEM, _ => Inactive), 0, 0, NUM_TX_MEM,
          AtLoop, 0, Idle,
          0, 0, 0, 0, 0, 0,
          0, 0,
          [], [], [], 0, 0, 0, false)
  }

  datatype Action =
    | Check
    | Drop
    | TakeMem(packet: nat, segs: nat)
    | RollBack
    | Activate
    | NoMap(packet: nat, segs: nat)
    | SkipMap(packet: nat, segs: nat)
    | Reserve(numDescs: nat)
    | Fill
    | WriteTail(readBack: nat)
    | WriteBarrier
    | Complete
    | Clean
    | Reset

  // ------------------------------------------------------------ packets in a ring

  /** The packets recorded in a stretch of slots. */
  function Packets(slots: seq<TxBuf>): seq<nat> {
    if slots == [] then []
    else (if slots[0].mbuf.Some? then [slots[0].mbuf.value] else []) + Packets(slots[1..])
  }

  function FlightPackets(flight: seq<Block>): (r: seq<nat>)
    ensures |r| == |flight|
  {
    seq(|flight|, k requires 0 <= k < |flight| => flight[k].packet)
  }

  // ------------------------------------------------------------ the steps

  /** Sizes and index ranges every state has. */
  predicate Shaped(s: State) {
    |s.slots| == |s.desc| == NUM_TX_DESC && |s.mem| == NUM_TX_MEM
    && s.next < NUM_TX_DESC && s.dirty < NUM_TX_DESC && s.barrier < NUM_TX_DESC
    && s.head < NUM_TX_DESC
    && s.memUse < NUM_TX_MEM && s.memFree < NUM_TX_MEM
    && (s.prod.Taken? ==> s.prod.saved < NUM_TX_MEM && s.absUse > 0)
    && (s.prod.Filling? ==> s.prod.written < s.prod.numDescs <= s.absNext)
    && (s.clean in {Unmapping, Returning, Freeing} ==> s.flight != [] && s.slots[s.dirty].mbuf.Some?)
  }

  predicate Enabled(s: State, a: Action)
    requires Shaped(s)
  {
    match a
    case Check => s.prod.AtLoop? && s.numFree >= MIN_FREE && !s.halted
    case Drop => s.prod.Ready?
    case TakeMem(_, segs) => s.prod.Ready? && s.vtd && s.freeMem > 1 && 1 <= segs <= MAX_SEGS
    case RollBack => s.prod.Taken?
    case Activate => s.prod.Taken?
    case NoMap(_, segs) => s.prod.Ready? && !s.vtd && 1 <= segs <= MAX_SEGS
    case SkipMap(_, segs) => s.prod.Ready? && s.vtd && s.freeMem <= 1 && 1 <= segs <= MAX_SEGS
    case Reserve(n) => s.prod.Mapped? && s.prod.segs <= n <= s.prod.segs + 1 && s.minDescs <= n
    case Fill => s.prod.Filling?
    case WriteTail(_) => s.prod.AtLoop? && s.count > 0
    case WriteBarrier => s.prod.TailWritten?
    case Complete => s.head != s.tdt && !s.halted
    case Clean => true
    case Reset => s.prod.AtLoop? && s.count == 0 && s.clean.Idle?
  }

  function Do(s: State, a: Action): State
    requires Shaped(s) && Enabled(s, a)
  {
    match a
    case Check => s.(prod := Ready)
    case Drop => s.(prod := AtLoop)
    case TakeMem(p, segs) =>
      s.(freeMem := s.freeMem - 1, memUse := Slot(s.memUse + 1, NUM_TX_MEM), absUse := s.absUse + 1,
         prod := Taken(p, segs, s.memUse))
    case RollBack =>
      s.(memUse := s.prod.saved, absUse := s.absUse - 1, freeMem := s.freeMem + 1, prod := AtLoop)
    case Activate =>
      s.(mem := s.mem[s.prod.saved := Active(s.prod.packet)], prod := Mapped(s.prod.packet, s.prod.segs))
    case NoMap(p, segs) => s.(prod := Mapped(p, segs))
    case SkipMap(p, segs) => s.(prod := Mapped(p, segs), skips := s.skips + 1)
    case Reserve(n) =>
      s.(numFree := s.numFree - n, next := Slot(s.next + n, NUM_TX_DESC), absNext := s.absNext + n,
         prod := Filling(s.prod.packet, s.prod.segs, s.next, n, 0))
    case Fill => DoFill(s)
    case WriteTail(readBack) => s.(tdt := readBack, absTail := s.absNext, halted := s.halted || readBack != s.next, prod := TailWritten)
    case WriteBarrier => s.(barrier := s.next, absBarrier := s.absNext, count := 0, prod := AtLoop)
    case Complete =>
      s.(desc := s.desc[s.head := Desc(s.desc[s.head].rs, s.desc[s.head].dd || s.desc[s.head].rs)],
         head := Slot(s.head + 1, NUM_TX_DESC), absHead := s.absHead + 1)
    case Clean => DoClean(s)
    case Reset => DoReset(s)
  }

  /** One slot of the packet being submitted; the last one records the packet. */
  function DoFill(s: State): State
    requires Shaped(s) && s.prod.Filling?
  {
    var Filling(p, segs, first, n, j) := s.prod;
    var i := Slot(first + j, NUM_TX_DESC);
    if j == n - 1 then
      s.(slots := s.slots[i := TxBuf(Some(p), n)], desc := s.desc[i := Desc(true, false)],
         flight := s.flight + [Block(p, s.absNext - n, n, segs)], submitted := s.submitted + [p],
         count := s.count + 1, prod := AtLoop)
    else
      s.(slots := s.slots[i := EMPTY], desc := s.desc[i := Desc(false, false)], prod := Filling(p, segs, first, n, j + 1))
  }

  function DoClean(s: State): State
    requires Shaped(s)
  {
    var buf := s.slots[s.dirty];
    match s.clean
    case Idle => s.(clean := Testing)
    case Testing => if s.dirty == s.barrier then s.(clean := Idle) else s.(clean := AtSlot)
    case AtSlot =>
      if buf.mbuf.None? then s.(clean := Advancing(false))
      else if !s.desc[s.dirty].dd then s.(clean := Idle)
      else if s.vtd then s.(clean := Unmapping) else s.(clean := Freeing)
    case Unmapping =>
      s.(mem := s.mem[s.memFree := Inactive], memFree := Slot(s.memFree + 1, NUM_TX_MEM), absFree := s.absFree + 1,
         clean := Returning)
    case Returning => s.(freeMem := s.freeMem + 1, clean := Freeing)
    case Freeing =>
      s.(slots := s.slots[s.dirty := TxBuf(None, buf.numDescs)], released := s.released + [buf.mbuf.value],
         base := s.flight[0].End(), flight := s.flight[1..], clean := TakingCount)
    case TakingCount => s.(slots := s.slots[s.dirty := TxBuf(buf.mbuf, 0)], clean := Adding(buf.numDescs))
    case Adding(n) => s.(numFree := s.numFree + n, clean := Advancing(true))
    case Advancing(_) => s.(dirty := Slot(s.dirty + 1, NUM_TX_DESC), absDirty := s.absDirty + 1, clean := Testing)
  }

  /** The reset frees what the ring still records, in slot order, and starts both rings over. */
  function DoReset(s: State): State
    requires Shaped(s)
  {
    var freed := Packets(s.slots);
    var t := s.(slots := seq(NUM_TX_DESC, i requires 0 <= i < NUM_TX_DESC => Cleared(s.slots[i])),
       numFree := NUM_TX_DESC, next := 0, dirty := 0, barrier := 0, tdt := 0, head := 0,
       absNext := 0, absDirty := 0, absBarrier := 0, absTail := 0, absHead := 0, base := 0,
       flight := [], skips := 0, halted := false, released := s.released + freed, markS := |s.submitted|, markR := |s.released| + |freed|);
    if s.vtd then
      t.(mem := Inactives(NUM_TX_MEM), memUse := 0, memFree := 0, freeMem := NUM_TX_MEM, absUse := 0, absFree := 0)
    else t
  }

  function Cleared(b: TxBuf): TxBuf { if b.mbuf.Some? then EMPTY else b }

  // ------------------------------------------------------------ the invariant

  function Total(flight: seq<Block>): nat {
    if flight == [] then 0 else Total(flight[..|flight| - 1]) + flight[|flight| - 1].count
  }

  function Empties(n: nat): (r: seq<TxBuf>)
    ensures |r| == n
  {
    seq(n, _ => EMPTY)
  }

  /** The slots of a recorded packet: only the last one carries it. */
  function BlockSlots(b: Block): (r: seq<TxBuf>)
    requires b.count > 0
    ensures |r| == b.count
  {
    Empties(b.count - 1) + [TxBuf(Some(b.packet), b.count)]
  }

  predicate Counted(flight: seq<Block>) { forall k :: 0 <= k < |flight| ==> flight[k].count > 0 }

  function Layout(flight: seq<Block>): (r: seq<TxBuf>)
    requires Counted(flight)
    ensures |r| == Total(flight)
  {
    if flight == [] then [] else Layout(flight[..|flight| - 1]) + BlockSlots(flight[|flight| - 1])
  }

  /** Absolute position behind the recorded packets. */
  function Recorded(s: State): nat { s.base + Total(s.flight) }

  /** Descriptors taken from the free count for a packet that is not recorded yet. */
  function Reserved(s: State): nat { if s.prod.Filling? then s.prod.numDescs else 0 }

  /** Descriptors of a freed packet on their way back into the free count. */
  function InHand(s: State): nat
    requires Shaped(s)
  {
    match s.clean
    case TakingCount => s.slots[s.dirty].numDescs
    case Adding(n) => n
    case _ => 0
  }

  /** The cleaner has freed a packet but not yet moved past it. */
  predicate Behind(s: State) { s.clean.TakingCount? || s.clean.Adding? || s.clean == Advancing(true) }

  ghost predicate Ordered(s: State) {
    && s.base <= s.absHead <= s.absTail <= Recorded(s)
    && s.absNext == Recorded(s) + Reserved(s)
    && s.absBarrier <= s.absTail && s.absDirty <= s.absBarrier
    && (if Behind(s) then s.absDirty + 1 == s.base <= s.absBarrier
        else s.base <= s.absDirty && (s.flight != [] ==> s.absDirty < s.flight[0].End()))
    && (s.clean in {AtSlot, Unmapping, Returning, Freeing, Advancing(false)} ==> s.absDirty < s.absBarrier)
    && (s.clean == Advancing(false) ==> s.flight != [] && s.absDirty + 1 < s.flight[0].End())
    && (s.clean in {Unmapping, Returning, Freeing} ==>
          s.flight != [] && s.absDirty + 1 == s.flight[0].End() <= s.absHead)
    && (s.prod == TailWritten ==> s.absTail == s.absNext)
    && (s.count == 0 ==> !s.prod.TailWritten? && s.absBarrier == s.absTail == Recorded(s))
  }

  ghost predicate Indexed(s: State) {
    && s.next == Slot(s.absNext, NUM_TX_DESC) && s.dirty == Slot(s.absDirty, NUM_TX_DESC)
    && s.barrier == Slot(s.absBarrier, NUM_TX_DESC)
    && (s.halted || s.tdt == Slot(s.absTail, NUM_TX_DESC)) && s.head == Slot(s.absHead, NUM_TX_DESC)
    && s.memUse == Slot(s.absUse, NUM_TX_MEM) && s.memFree == Slot(s.absFree, NUM_TX_MEM)
    && (s.prod.Filling? ==> s.prod.first == Slot(Recorded(s), NUM_TX_DESC))
    && (s.prod.Taken? ==> s.absUse > 0 && s.prod.saved == Slot(s.absUse - 1, NUM_TX_MEM))
  }

  ghost predicate Contiguous(flight: seq<Block>, base: nat, minDescs: nat) {
    Counted(flight) && forall k :: 0 <= k < |flight| ==>
      && flight[k].start == base + Total(flight[..k])
      && 1 <= flight[k].segs <= flight[k].count <= flight[k].segs + 1 <= MAX_SEGS + 1 && minDescs <= flight[k].count
  }

  ghost predicate Counting(s: State)
    requires Shaped(s)
  {
    && s.numFree + Total(s.flight) + Reserved(s) + InHand(s) == NUM_TX_DESC
    && s.numFree >= 2
    && (s.prod.Ready? || s.prod.Taken? || s.prod.Mapped? ==> s.numFree >= MIN_FREE)
    && (s.prod.Taken? || s.prod.Mapped? ==> 1 <= s.prod.segs <= MAX_SEGS)
    && (s.prod.Filling? ==> 1 <= s.prod.segs <= s.prod.numDescs <= s.prod.segs + 1 <= MAX_SEGS + 1
                            && s.minDescs <= s.prod.numDescs && s.prod.written < s.prod.numDescs)
  }

  /** The count a cleaner has yet to take lingers behind the packet it has freed. */
  function Lingering(s: State): nat
    requires Shaped(s)
  {
    if s.clean.TakingCount? then s.slots[s.dirty].numDescs else 0
  }

  /** The ring, read from the first recorded packet on, is the recorded packets one after another
      and otherwise empty, but for a lingering count at the very end. */
  ghost predicate Laid(slots: seq<TxBuf>, base: nat, flight: seq<Block>, lingering: nat) {
    && |slots| == NUM_TX_DESC && Counted(flight) && Total(flight) < NUM_TX_DESC
    && Rotate(slots, base) == Layout(flight) + Empties(NUM_TX_DESC - 1 - Total(flight)) + [TxBuf(None, lingering)]
  }

  /** The last descriptor of a recorded packet asks for a report, and it is marked done exactly when
      the hardware has passed the packet. */
  ghost predicate DoneExactly(desc: seq<Desc>, flight: seq<Block>, absHead: nat) {
    && |desc| == NUM_TX_DESC
    && forall k :: 0 <= k < |flight| && flight[k].count > 0 ==>
         desc[Slot(flight[k].End() - 1, NUM_TX_DESC)] == Desc(true, flight[k].End() <= absHead)
  }

  /** The packets that hold an active memory descriptor, if none went out unmapped, oldest first. */
  function Maps(s: State): seq<nat> {
    FlightPackets(if s.clean in {Returning, Freeing} && s.flight != [] then s.flight[1..] else s.flight)
    + (if s.prod.Mapped? || s.prod.Filling? then [s.prod.packet] else [])
  }

  function Actives(packets: seq<nat>): (r: seq<MemDesc>)
    ensures |r| == |packets|
  {
    seq(|packets|, k requires 0 <= k < |packets| => Active(packets[k]))
  }

  function Inactives(n: nat): (r: seq<MemDesc>)
    ensures |r| == n
  {
    seq(n, _ => Inactive)
  }

  /** Memory descriptors, read from the next one to free on: the mapped packets in order, then inactive ones. */
  ghost predicate Mapping(mem: seq<MemDesc>, absFree: nat, maps: seq<nat>) {
    && |mem| == NUM_TX_MEM && |maps| < NUM_TX_MEM
    && Rotate(mem, absFree) == Actives(maps) + Inactives(NUM_TX_MEM - |maps|)
  }

  /** The indices and the free count of the memory descriptors: a packet that went out unmapped counts as
      one that holds a descriptor, and gives one back that it never took. */
  predicate MapCounts(s: State) {
    var taken, returning := if s.prod.Taken? then 1 else 0, if s.clean.Returning? then 1 else 0;
    && s.absUse + s.skips == s.absFree + |Maps(s)| + taken
    && s.freeMem == NUM_TX_MEM + s.skips - |Maps(s)| - taken - returning && s.freeMem >= 1
  }

  /** Since the last reset packets have left in the order they came; before it, all that came have left. */
  ghost predicate History(submitted: seq<nat>, markS: nat, released: seq<nat>, markR: nat, inFlight: seq<nat>) {
    && markS <= |submitted| && markR <= |released|
    && submitted[markS..] == released[markR..] + inFlight
    && multiset(submitted[..markS]) == multiset(released[..markR])
  }

  ghost predicate Inv(s: State) {
    && Shaped(s)
    && Contiguous(s.flight, s.base, s.minDescs)
    && Counting(s) && Ordered(s) && Indexed(s)
    && Laid(s.slots, s.base, s.flight, Lingering(s))
    && DoneExactly(s.desc, s.flight, s.absHead)
    && (if s.vtd then MapCounts(s) && (s.skips == 0 ==> Mapping(s.mem, s.absFree, Maps(s)))
        else s.clean !in {Unmapping, Returning} && !s.prod.Taken? && s.skips == 0)
    && (s.minDescs >= 2 ==> s.skips == 0)
    && History(s.submitted, s.markS, s.released, s.markR, FlightPackets(s.flight))
  }
}
