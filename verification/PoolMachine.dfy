/** The receive pool as a concurrent queue.  One consumer and any number of refill calls take turns,
    one access to shared memory at a time; nothing is locked. */
module PoolMachine {

  import opened Options

  /** The two lists of the pool: plain packets first, packets with clusters second. */
  type Which = w: nat | w < 2 witness 0

  /** A list as the driver keeps it, and three things it does not keep: the nodes linked from the
      head on, those ever linked and those handed out. */
  datatype PacketList = PacketList(head: Option<nat>, tail: Option<nat>, num: int, capacity: nat,
                                   queue: seq<nat>, added: seq<nat>, delivered: seq<nat>)

  /** Where a consumer that failed to allocate stands. */
  datatype Consumer =
    | Idle
    | Checked(w: Which)                 // saw more than one packet
    | Decremented(w: Which)
    | Holding(w: Which, h: Option<nat>) // read the head
    | Advanced(w: Which, m: nat)        // moved the head on
    | Unlinked(w: Which, m: nat)
    | Low(w: Which, m: nat)             // saw fewer packets than the threshold
    | Raising(w: Which, m: nat)         // saw no refill scheduled
    | Calling(w: Which, m: nat)         // raised the flag, call not entered yet

  datatype Refiller =
    | Looking(w: Which)
    | Allocating(w: Which)
    | Linking(w: Which, m: nat)
    | Tailing(w: Which, m: nat)
    | Counting(w: Which)
    | Finishing

  datatype State = State(next: map<nat, Option<nat>>, lists: seq<PacketList>,
                         consumer: Consumer, refillScheduled: bool, calls: nat, running: seq<Refiller>)

  datatype Action =
    | Get(w: Which)             // a consumer looks at the count of a list
    | Consume                   // the consumer's next statement
    | StartRefill               // an entered call begins
    | Refill(k: nat, m: nat, ok: bool) // the next statement of refill k; an allocation yields m if ok

  function Threshold(capacity: nat): nat { capacity - capacity / 2 }

  predicate Enabled(s: State, a: Action) {
    match a
    case Get(_) => s.consumer.Idle?
    case Consume => !s.consumer.Idle?
    case StartRefill => s.calls > 0
    case Refill(k, m, ok) => k < |s.running| && (s.running[k].Allocating? && ok ==> Unused(s, m))
  }

  /** An allocated packet is none that the pool or the consumer still holds. */
  predicate Unused(s: State, m: nat) {
    (forall l :: l in s.lists ==> m !in l.queue) && m !in InHand(s.consumer)
    && forall r :: r in s.running && r.Linking? ==> r.m != m
  }

  function InHand(c: Consumer): seq<nat> {
    if c.Advanced? || c.Unlinked? || c.Low? || c.Raising? || c.Calling? then [c.m] else []
  }

  function Do(s: State, a: Action): State
    requires |s.lists| == 2 && Enabled(s, a)
  {
    match a
    case Get(w) => if s.lists[w].num > 1 then s.(consumer := Checked(w)) else s
    case Consume => DoConsume(s)
    case StartRefill => s.(calls := s.calls - 1, running := s.running + [Looking(0)])
    case Refill(k, m, ok) => DoRefill(s, k, m, ok)
  }

  function NextOf(next: map<nat, Option<nat>>, m: Option<nat>): Option<nat> {
    if m.Some? && m.value in next then next[m.value] else None
  }

  function DoConsume(s: State): State
    requires |s.lists| == 2 && !s.consumer.Idle?
  {
    var w := s.consumer.w;
    var l := s.lists[w];
    match s.consumer
    case Checked(_) => s.(lists := s.lists[w := l.(num := l.num - 1)], consumer := Decremented(w))
    case Decremented(_) => s.(consumer := Holding(w, l.head))
    case Holding(_, h) =>
      s.(lists := s.lists[w := l.(head := NextOf(s.next, l.head), queue := if l.queue != [] then l.queue[1..] else [])],
         consumer := if h.Some? then Advanced(w, h.value) else Idle)
    case Advanced(_, m) => s.(next := s.next[m := None], consumer := Unlinked(w, m))
    case Unlinked(_, m) =>
      if l.num < Threshold(l.capacity) then s.(consumer := Low(w, m)) else Deliver(s, w, m)
    case Low(_, m) => if s.refillScheduled then Deliver(s, w, m) else s.(consumer := Raising(w, m))
    case Raising(_, m) => s.(refillScheduled := true, consumer := Calling(w, m))
    case Calling(_, m) => Deliver(s.(calls := s.calls + 1), w, m)
  }

  function Deliver(s: State, w: Which, m: nat): State
    requires |s.lists| == 2
  {
    s.(lists := s.lists[w := s.lists[w].(delivered := s.lists[w].delivered + [m])], consumer := Idle)
  }

  function DoRefill(s: State, k: nat, m: nat, ok: bool): State
    requires |s.lists| == 2 && k < |s.running|
  {
    if s.running[k].Finishing? then s.(refillScheduled := false, running := s.running[..k] + s.running[k + 1..])
    else
      var w := s.running[k].w;
      var l := s.lists[w];
      match s.running[k]
      case Looking(_) =>
        s.(running := s.running[k := if l.num < l.capacity then Allocating(w) else if w == 0 then Looking(1) else Finishing])
      case Allocating(_) =>
        if ok then s.(next := s.next[m := None], running := s.running[k := Linking(w, m)])
        else s.(running := s.running[k := Finishing])
      case Linking(_, node) =>
        s.(next := if l.tail.Some? then s.next[l.tail.value := Some(node)] else s.next,
           lists := s.lists[w := l.(queue := l.queue + [node], added := l.added + [node])],
           running := s.running[k := Tailing(w, node)])
      case Tailing(_, node) => s.(lists := s.lists[w := l.(tail := Some(node))], running := s.running[k := Counting(w)])
      case Counting(_) => s.(lists := s.lists[w := l.(num := l.num + 1)], running := s.running[k := Looking(w)])
  }

  // ------------------------------------------------------------ the invariant

  predicate Distinct(nodes: seq<nat>) {
    forall i, j :: 0 <= i < j < |nodes| ==> nodes[i] != nodes[j]
  }

  /** Following the links from the first node visits the others in order and ends at the last. */
  predicate Linked(next: map<nat, Option<nat>>, queue: seq<nat>) {
    forall i :: 0 <= i < |queue| ==> queue[i] in next && next[queue[i]] == Follower(queue, i)
  }

  function Follower(queue: seq<nat>, i: nat): Option<nat> { if i + 1 < |queue| then Some(queue[i + 1]) else None }

  /** The refill at work on a list, if any. */
  function At(running: seq<Refiller>, w: Which): Option<Refiller> {
    if |running| == 1 && !running[0].Finishing? && running[0].w == w then Some(running[0]) else None
  }

  /** What the consumer has taken off the count but not off the list. */
  function Dec(c: Consumer, w: Which): nat { if (c.Decremented? || c.Holding?) && c.w == w then 1 else 0 }

  /** What a refill has put on the list but not on the count; the tail may lag as well. */
  function Uncounted(r: Option<Refiller>): nat { if r.Some? && (r.value.Tailing? || r.value.Counting?) then 1 else 0 }

  function Lag(r: Option<Refiller>): nat { if r.Some? && r.value.Tailing? then 1 else 0 }

  function Hand(c: Consumer, w: Which): seq<nat> { if !c.Idle? && c.w == w then InHand(c) else [] }

  predicate ListInv(next: map<nat, Option<nat>>, l: PacketList, c: Consumer, r: Option<Refiller>, w: Which) {
    && l.queue != [] && Linked(next, l.queue)
    && l.head == Some(l.queue[0])
    && |l.queue| > Lag(r) && l.tail == Some(l.queue[|l.queue| - 1 - Lag(r)])
    && l.num + Dec(c, w) + Uncounted(r) == |l.queue|
    && 1 <= l.num <= l.capacity
    && (c == Checked(w) ==> l.num >= 2)
    && (c.Holding? && c.w == w ==> c.h == l.head)
    && (r.Some? && !r.value.Looking? ==> l.num < l.capacity)
    && (r.Some? && r.value.Tailing? ==> r.value.m == l.queue[|l.queue| - 1])
    && l.added == l.delivered + Hand(c, w) + l.queue
  }

  /** A node a refill has allocated and not linked yet. */
  function Loose(running: seq<Refiller>): seq<nat> {
    if |running| == 1 && running[0].Linking? then [running[0].m] else []
  }

  /** All nodes the pool, the consumer or a refill holds. */
  function Held(s: State): seq<nat>
    requires |s.lists| == 2
  {
    s.lists[0].queue + s.lists[1].queue + InHand(s.consumer) + Loose(s.running)
  }

  predicate Scheduling(s: State) {
    |s.running| + s.calls + (if s.consumer.Calling? then 1 else 0) == (if s.refillScheduled then 1 else 0)
    && (s.consumer.Raising? ==> !s.refillScheduled)
  }

  predicate Inv(s: State) {
    && |s.lists| == 2 && Scheduling(s)
    && ListInv(s.next, s.lists[0], s.consumer, At(s.running, 0), 0)
    && ListInv(s.next, s.lists[1], s.consumer, At(s.running, 1), 1)
    && Distinct(Held(s))
    && (|s.running| == 1 && s.running[0].Linking? ==> s.running[0].m in s.next && s.next[s.running[0].m] == None)
  }
}
