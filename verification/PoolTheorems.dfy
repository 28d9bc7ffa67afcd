/** The pool's invariant holds in every run, and what follows from it. */
module PoolTheorems {
  import opened Options
  import opened PoolMachine

  // ------------------------------------------------------------ linked nodes

  lemma LinkedRest(next: map<nat, Option<nat>>, queue: seq<nat>)
    requires Linked(next, queue) && |queue| >= 2
    ensures next[queue[0]] == Some(queue[1]) && Linked(next, queue[1..])
  {
    var rest := queue[1..];
    forall i | 0 <= i < |rest| ensures rest[i] in next && next[rest[i]] == Follower(rest, i) {
      assert rest[i] == queue[i + 1];
      assert Follower(queue, i + 1) == Follower(rest, i);
    }
    assert next[queue[0]] == Follower(queue, 0);
  }

  lemma LinkedFrame(next: map<nat, Option<nat>>, queue: seq<nat>, x: nat, v: Option<nat>)
    requires Linked(next, queue) && x !in queue
    ensures Linked(next[x := v], queue)
  {
  }

  lemma LinkedAppend(next: map<nat, Option<nat>>, queue: seq<nat>, m: nat)
    requires Linked(next, queue) && queue != [] && m in next && next[m] == None && Distinct(queue + [m])
    ensures Linked(next[queue[|queue| - 1] := Some(m)], queue + [m])
  {
    var n := |queue|;
    var after, longer := next[queue[n - 1] := Some(m)], queue + [m];
    forall i | 0 <= i < |longer| ensures longer[i] in after && after[longer[i]] == Follower(longer, i) {
      if i < n {
        assert longer[i] == queue[i];
        assert i < n - 1 ==> longer[i] != longer[n - 1];
      } else {
        assert longer[n] != longer[n - 1];
      }
    }
  }

  lemma DistinctParts(a: seq<nat>, b: seq<nat>)
    requires Distinct(a + b)
    ensures Distinct(a) && Distinct(b) && forall x :: x in a ==> x !in b
  {
    forall i, j | 0 <= i < |a| && 0 <= j < |b| ensures a[i] != b[j] {
      assert (a + b)[i] == a[i] && (a + b)[|a| + j] == b[j];
    }
    forall i, j | 0 <= i < j < |b| ensures b[i] != b[j] {
      assert (a + b)[|a| + i] == b[i] && (a + b)[|a| + j] == b[j];
    }
    forall i, j | 0 <= i < j < |a| ensures a[i] != a[j] {
      assert (a + b)[i] == a[i] && (a + b)[j] == a[j];
    }
  }

  /** Distinctness only depends on which nodes there are, and how many. */
  lemma DistinctPermuted(a: seq<nat>, b: seq<nat>)
    requires Distinct(a) && multiset(a) == multiset(b)
    ensures Distinct(b)
  {
    DistinctCounts(a);
    forall i, j | 0 <= i < j < |b| ensures b[i] != b[j] {
      TwoPlaces(b, i, j);
    }
  }

  lemma TwoPlaces(b: seq<nat>, i: nat, j: nat)
    requires i < j < |b|
    ensures b[i] == b[j] ==> multiset(b)[b[i]] >= 2
  {
    assert b == b[..j] + b[j..] && b[i] in b[..j] && b[j] in b[j..];
    assert multiset(b) == multiset(b[..j]) + multiset(b[j..]);
  }

  lemma {:induction false} DistinctCounts(a: seq<nat>)
    requires Distinct(a)
    ensures forall x :: multiset(a)[x] <= 1
  {
    if a != [] {
      var n := |a| - 1;
      assert a == a[..n] + [a[n]];
      DistinctParts(a[..n], [a[n]]);
      DistinctCounts(a[..n]);
    }
  }

  // ------------------------------------------------------------ steps of the consumer

  lemma GetStep(s: State, w: Which)
    requires Inv(s) && s.consumer.Idle?
    ensures Inv(Do(s, Get(w)))
  {
    hide Linked, Distinct;
  }

  /** Steps of the consumer that leave links and lists alone. */
  lemma CountedStep(s: State)
    requires Inv(s) && (s.consumer.Checked? || s.consumer.Decremented?)
    ensures Inv(Do(s, Consume))
  {
    hide Linked, Distinct, ListInv;
    var w, d := s.consumer.w, Do(s, Consume).consumer;
    ListCounted(s.next, s.lists[w], s.consumer, At(s.running, w), w);
    SameList(s.next, s.lists[1 - w], s.consumer, d, At(s.running, 1 - w), 1 - w);
  }

  /** The list the consumer takes its packet off the count of, and then reads the head of. */
  lemma ListCounted(next: map<nat, Option<nat>>, l: PacketList, c: Consumer, r: Option<Refiller>, w: Which)
    requires ListInv(next, l, c, r, w) && (c == Checked(w) || c == Decremented(w))
    ensures if c.Checked? then ListInv(next, l.(num := l.num - 1), Decremented(w), r, w) else ListInv(next, l, Holding(w, l.head), r, w)
  {
    hide Linked;
  }

  /** A list does not notice a move of the consumer that keeps what it has in hand and off the count. */
  lemma SameList(next: map<nat, Option<nat>>, l: PacketList, c: Consumer, d: Consumer, r: Option<Refiller>, w: Which)
    requires ListInv(next, l, c, r, w) && Dec(d, w) == Dec(c, w) && Hand(d, w) == Hand(c, w)
    requires d != Checked(w) && !(d.Holding? && d.w == w)
    ensures ListInv(next, l, d, r, w)
  {
    hide Linked;
  }

  lemma FlagStep(s: State)
    requires Inv(s) && (s.consumer.Low? || s.consumer.Raising? || s.consumer.Unlinked?) && !Do(s, Consume).consumer.Idle?
    ensures Inv(Do(s, Consume))
  {
    hide Linked, Distinct, ListInv;
    var d := Do(s, Consume).consumer;
    SameList(s.next, s.lists[0], s.consumer, d, At(s.running, 0), 0);
    SameList(s.next, s.lists[1], s.consumer, d, At(s.running, 1), 1);
  }

  /** The consumer returns its packet, having entered a call or not. */
  lemma DeliverStep(s: State)
    requires Inv(s) && !s.consumer.Holding? && !s.consumer.Idle? && Do(s, Consume).consumer.Idle?
    ensures Inv(Do(s, Consume))
  {
    hide Linked, Distinct, ListInv, Held;
    var w, m := s.consumer.w, s.consumer.m;
    var calls := if s.consumer.Calling? then s.calls + 1 else s.calls;
    Delivers(s, w, m, calls);
  }

  lemma Delivers(s: State, w: Which, m: nat, calls: nat)
    requires Inv(s) && InHand(s.consumer) == [m] && s.consumer.w == w
    requires Scheduling(s.(calls := calls, consumer := Idle))
    ensures Inv(Deliver(s.(calls := calls), w, m))
  {
    hide Linked, Distinct;
    HandedOver(s);
    assert s.lists[w].added == (s.lists[w].delivered + [m]) + [] + s.lists[w].queue;
  }

  /** Handing the packet over leaves fewer nodes held. */
  lemma HandedOver(s: State)
    requires |s.lists| == 2 && Distinct(Held(s))
    ensures Distinct(s.lists[0].queue + s.lists[1].queue + [] + Loose(s.running))
  {
    var kept, hand, loose := s.lists[0].queue + s.lists[1].queue, InHand(s.consumer), Loose(s.running);
    DistinctPermuted(kept + hand + loose, kept + [] + loose + hand);
    DistinctParts(kept + [] + loose, hand);
  }

  /** The list the consumer takes its head from. */
  lemma ListTaken(next: map<nat, Option<nat>>, l: PacketList, c: Consumer, r: Option<Refiller>, w: Which)
    requires ListInv(next, l, c, r, w) && c.Holding? && c.w == w
    ensures |l.queue| >= 2 && c.h == Some(l.queue[0]) && NextOf(next, l.head) == Some(l.queue[1])
    ensures ListInv(next, l.(head := NextOf(next, l.head), queue := l.queue[1..]), Advanced(w, l.queue[0]), r, w)
  {
    hide Linked;
    var q := l.queue;
    LinkedRest(next, q);
    InQueue(next, q);
    assert l.added == l.delivered + [q[0]] + q[1..] by {
      assert [] + q == [q[0]] + q[1..];
    }
  }

  lemma TakeHeadStep(s: State)
    requires Inv(s) && s.consumer.Holding?
    ensures Inv(Do(s, Consume))
  {
    hide Linked, Distinct, ListInv;
    var w := s.consumer.w;
    var q := s.lists[w].queue;
    ListTaken(s.next, s.lists[w], s.consumer, At(s.running, w), w);
    SameList(s.next, s.lists[1 - w], s.consumer, Advanced(w, q[0]), At(s.running, 1 - w), 1 - w);
    TookHead(s);
  }

  lemma InQueue(next: map<nat, Option<nat>>, queue: seq<nat>)
    requires Linked(next, queue)
    ensures forall x :: x in queue ==> x in next
  {
  }

  lemma TookHead(s: State)
    requires |s.lists| == 2 && Distinct(Held(s)) && s.consumer.Holding? && s.lists[s.consumer.w].queue != []
    ensures var w := s.consumer.w;
      var q := s.lists[w].queue;
      Distinct((if w == 0 then q[1..] else s.lists[0].queue) + (if w == 1 then q[1..] else s.lists[1].queue)
               + [q[0]] + Loose(s.running))
  {
    hide Distinct;
    var a, b, loose := s.lists[0].queue, s.lists[1].queue, Loose(s.running);
    if s.consumer.w == 0 {
      assert a + b + [] + loose == a + b + loose;
      FirstOut(a, b, loose);
    } else {
      assert a + b + [] + loose == a + b + loose;
      SecondOut(a, b, loose);
    }
  }

  lemma FirstOut(a: seq<nat>, b: seq<nat>, loose: seq<nat>)
    requires a != [] && Distinct(a + b + loose)
    ensures Distinct(a[1..] + b + [a[0]] + loose)
  {
    hide Distinct;
    assert a == [a[0]] + a[1..];
    DistinctPermuted(a + b + loose, a[1..] + b + [a[0]] + loose);
  }

  lemma SecondOut(a: seq<nat>, b: seq<nat>, loose: seq<nat>)
    requires b != [] && Distinct(a + b + loose)
    ensures Distinct(a + b[1..] + [b[0]] + loose)
  {
    hide Distinct;
    assert b == [b[0]] + b[1..];
    DistinctPermuted(a + b + loose, a + b[1..] + [b[0]] + loose);
  }

  lemma NodesApart(s: State)
    requires |s.lists| == 2 && Distinct(Held(s))
    ensures Distinct(s.lists[0].queue) && Distinct(s.lists[1].queue)
    ensures forall x :: x in s.lists[0].queue ==> x !in s.lists[1].queue && x !in InHand(s.consumer) && x !in Loose(s.running)
    ensures forall x :: x in s.lists[1].queue ==> x !in InHand(s.consumer) && x !in Loose(s.running)
    ensures forall x :: x in InHand(s.consumer) ==> x !in Loose(s.running)
  {
    var a, b, c, d := s.lists[0].queue, s.lists[1].queue, InHand(s.consumer), Loose(s.running);
    DistinctParts(a + b + c, d);
    DistinctParts(a + b, c);
    DistinctParts(a, b);
  }

  /** Unlinking the packet in hand touches no node of the lists. */
  lemma UnlinkStep(s: State)
    requires Inv(s) && s.consumer.Advanced?
    ensures Inv(Do(s, Consume))
  {
    hide Linked, Distinct;
    NodesApart(s);
    var m := s.consumer.m;
    assert m in InHand(s.consumer);
    LinkedFrame(s.next, s.lists[0].queue, m, None);
    LinkedFrame(s.next, s.lists[1].queue, m, None);
    assert |s.running| == 1 && s.running[0].Linking? ==> s.running[0].m in Loose(s.running);
  }

  // ------------------------------------------------------------ steps of a refill

  lemma StartStep(s: State)
    requires Inv(s) && s.calls > 0
    ensures Inv(Do(s, StartRefill))
  {
    hide Linked, Distinct;
  }

  /** Steps of a refill that leave links and lists alone. */
  lemma LookStep(s: State, m: nat)
    requires Inv(s) && |s.running| > 0 && (s.running[0].Looking? || s.running[0].Finishing?)
    ensures Inv(Do(s, Refill(0, m, false))) && Inv(Do(s, Refill(0, m, true)))
  {
    hide Linked, Distinct;
  }

  lemma AllocateStep(s: State, m: nat, ok: bool)
    requires Inv(s) && |s.running| > 0 && s.running[0].Allocating? && (ok ==> Unused(s, m))
    ensures Inv(Do(s, Refill(0, m, ok)))
  {
    hide Linked, Distinct;
    if ok {
      LinkedFrame(s.next, s.lists[0].queue, m, None);
      LinkedFrame(s.next, s.lists[1].queue, m, None);
      OneMore(s.lists[0].queue + s.lists[1].queue + InHand(s.consumer), m);
    }
  }

  lemma OneMore(nodes: seq<nat>, m: nat)
    requires Distinct(nodes + []) && m !in nodes
    ensures Distinct(nodes + [m])
  {
    assert nodes + [] == nodes;
  }

  lemma LinkStep(s: State, m: nat, ok: bool)
    requires Inv(s) && |s.running| > 0 && s.running[0].Linking?
    ensures Inv(Do(s, Refill(0, m, ok)))
  {
    hide Linked, Distinct, ListInv;
    var w, node := s.running[0].w, s.running[0].m;
    var l, other := s.lists[w], s.lists[1 - w];
    NodesApart(s);
    assert node in Loose(s.running);
    TailIsLast(s.next, l, s.consumer, s.running[0], w);
    OneMoreNode(l.queue, node);
    ListLinks(s.next, l, s.consumer, w, node);
    OtherLinks(s.next, other, s.consumer, 1 - w, l.tail.value, Some(node));
    Enqueued(s);
  }

  lemma TailIsLast(next: map<nat, Option<nat>>, l: PacketList, c: Consumer, r: Refiller, w: Which)
    requires ListInv(next, l, c, Some(r), w) && !r.Tailing?
    ensures l.queue != [] && l.tail == Some(l.queue[|l.queue| - 1]) && l.tail.value in l.queue
  {
    hide Linked;
  }

  /** The list a refill has linked a node to. */
  lemma ListLinks(next: map<nat, Option<nat>>, l: PacketList, c: Consumer, w: Which, node: nat)
    requires ListInv(next, l, c, Some(Linking(w, node)), w) && l.tail.Some?
    requires node in next && next[node] == None && Distinct(l.queue + [node])
    ensures ListInv(next[l.tail.value := Some(node)], l.(queue := l.queue + [node], added := l.added + [node]), c,
                    Some(Tailing(w, node)), w)
  {
    hide Linked, Distinct;
    LinkedAppend(next, l.queue, node);
  }

  /** The other list does not notice. */
  lemma OtherLinks(next: map<nat, Option<nat>>, l: PacketList, c: Consumer, w: Which, last: nat, n: Option<nat>)
    requires ListInv(next, l, c, None, w) && last !in l.queue
    ensures ListInv(next[last := n], l, c, None, w)
  {
    hide Linked;
    LinkedFrame(next, l.queue, last, n);
  }

  lemma OneMoreNode(nodes: seq<nat>, m: nat)
    requires Distinct(nodes) && m !in nodes
    ensures Distinct(nodes + [m])
  {
  }

  lemma Enqueued(s: State)
    requires |s.lists| == 2 && Distinct(Held(s)) && |s.running| == 1 && s.running[0].Linking?
    ensures var w, node := s.running[0].w, s.running[0].m;
      Distinct((if w == 0 then s.lists[0].queue + [node] else s.lists[0].queue)
               + (if w == 1 then s.lists[1].queue + [node] else s.lists[1].queue) + InHand(s.consumer) + [])
  {
    var a, b, c, node := s.lists[0].queue, s.lists[1].queue, InHand(s.consumer), s.running[0].m;
    if s.running[0].w == 0 {
      DistinctPermuted(a + b + c + [node], (a + [node]) + b + c + []);
    } else {
      DistinctPermuted(a + b + c + [node], a + (b + [node]) + c + []);
    }
  }

  lemma CountStep(s: State, m: nat, ok: bool)
    requires Inv(s) && |s.running| > 0 && (s.running[0].Tailing? || s.running[0].Counting?)
    ensures Inv(Do(s, Refill(0, m, ok)))
  {
    hide Linked, Distinct;
  }

  // ------------------------------------------------------------ runs

  lemma FlagOrDeliver(s: State)
    requires Inv(s) && (s.consumer.Low? || s.consumer.Raising? || s.consumer.Unlinked? || s.consumer.Calling?)
    ensures Inv(Do(s, Consume))
  {
    hide ListInv, Held, Distinct;
    if Do(s, Consume).consumer.Idle? {
      DeliverStep(s);
    } else {
      FlagStep(s);
    }
  }

  lemma StepKeepsInv(s: State, a: Action)
    requires Inv(s) && Enabled(s, a)
    ensures Inv(Do(s, a))
  {
    hide Linked, Distinct, ListInv;
    match a
    case Get(w) => GetStep(s, w);
    case Consume =>
      match s.consumer {
        case Checked(_) => CountedStep(s);
        case Decremented(_) => CountedStep(s);
        case Holding(_, _) => TakeHeadStep(s);
        case Advanced(_, _) => UnlinkStep(s);
        case Unlinked(_, _) => FlagOrDeliver(s);
        case Low(_, _) => FlagOrDeliver(s);
        case Raising(_, _) => FlagOrDeliver(s);
        case Calling(_, _) => FlagOrDeliver(s);
      }
    case StartRefill => StartStep(s);
    case Refill(k, m, ok) =>
      assert k == 0;
      match s.running[0] {
        case Looking(_) => LookStep(s, m);
        case Finishing => LookStep(s, m);
        case Allocating(_) => AllocateStep(s, m, ok);
        case Linking(_, _) => LinkStep(s, m, ok);
        case _ => CountStep(s, m, ok);
      }
  }

  ghost predicate Legal(s: State, schedule: seq<Action>)
    decreases |schedule|
  {
    schedule == [] || (|s.lists| == 2 && Enabled(s, schedule[0]) && Legal(Do(s, schedule[0]), schedule[1..]))
  }

  ghost function Exec(s: State, schedule: seq<Action>): State
    requires Legal(s, schedule)
    decreases |schedule|
  {
    if schedule == [] then s else Exec(Do(s, schedule[0]), schedule[1..])
  }

  /** A list right after initialisation: its capacity of linked nodes. */
  predicate NewList(next: map<nat, Option<nat>>, l: PacketList) {
    && l.queue != [] && Linked(next, l.queue) && l.num == l.capacity == |l.queue|
    && l.head == Some(l.queue[0]) && l.tail == Some(l.queue[|l.queue| - 1])
    && l.added == l.queue && l.delivered == []
  }

  predicate NewPool(s: State) {
    && |s.lists| == 2 && NewList(s.next, s.lists[0]) && NewList(s.next, s.lists[1])
    && Distinct(s.lists[0].queue + s.lists[1].queue)
    && s.consumer.Idle? && !s.refillScheduled && s.calls == 0 && s.running == []
  }

  lemma NewPoolInv(s: State)
    requires NewPool(s)
    ensures Inv(s)
  {
    hide Linked, Distinct;
    assert s.lists[0].queue + s.lists[1].queue + [] + [] == s.lists[0].queue + s.lists[1].queue;
  }

  /** Every state of every run has the invariant. */
  lemma {:induction false} RunsKeepInv(s: State, schedule: seq<Action>)
    requires Inv(s) && Legal(s, schedule)
    ensures Inv(Exec(s, schedule))
    decreases |schedule|
  {
    hide ListInv, Held, Distinct, Do, Enabled;
    if schedule != [] {
      StepKeepsInv(s, schedule[0]);
      RunsKeepInv(Do(s, schedule[0]), schedule[1..]);
    }
  }

  // ------------------------------------------------------------ what every run guarantees

  /** The node some links further on. */
  function Walk(next: map<nat, Option<nat>>, from: Option<nat>, links: nat): Option<nat> {
    if links == 0 then from else NextOf(next, Walk(next, from, links - 1))
  }

  lemma {:induction false} WalkQueue(next: map<nat, Option<nat>>, queue: seq<nat>, k: nat)
    requires Linked(next, queue) && k < |queue|
    ensures Walk(next, Some(queue[0]), k) == Some(queue[k])
  {
    if k > 0 {
      WalkQueue(next, queue, k - 1);
      assert next[queue[k - 1]] == Follower(queue, k - 1);
    }
  }

  /** In every state of every run both lists hold a node, the tail is reached from the head by
      following links, and the count never exceeds the nodes on that way nor the capacity. */
  lemma CountIsReachable(s: State, schedule: seq<Action>, w: Which) returns (links: nat)
    requires NewPool(s) && Legal(s, schedule)
    ensures var t := Exec(s, schedule);
      |t.lists| == 2 && t.lists[w].head.Some? && Walk(t.next, t.lists[w].head, links) == t.lists[w].tail
      && t.lists[w].tail.Some? && 1 <= t.lists[w].num <= links + 1 && t.lists[w].num <= t.lists[w].capacity
  {
    hide Inv, NewPool, Walk, Do, Enabled;
    NewPoolInv(s);
    RunsKeepInv(s, schedule);
    links := TailReached(Exec(s, schedule), w);
  }

  lemma TailReached(t: State, w: Which) returns (links: nat)
    requires Inv(t)
    ensures |t.lists| == 2
    ensures t.lists[w].head.Some? && Walk(t.next, t.lists[w].head, links) == t.lists[w].tail
    ensures t.lists[w].tail.Some? && 1 <= t.lists[w].num <= links + 1 && t.lists[w].num <= t.lists[w].capacity
  {
    hide Distinct, Linked;
    var l := t.lists[w];
    links := |l.queue| - 1 - Lag(At(t.running, w));
    WalkQueue(t.next, l.queue, links);
  }

  /** First in, first out, none lost and none twice: the packets that entered a list are those it
      handed out, then the one in hand, then those still linked. */
  lemma FirstInFirstOut(s: State, schedule: seq<Action>, w: Which)
    requires NewPool(s) && Legal(s, schedule)
    ensures var t := Exec(s, schedule);
      |t.lists| == 2 && t.lists[w].added == t.lists[w].delivered + Hand(t.consumer, w) + t.lists[w].queue
      && Distinct(Held(t))
  {
    hide Distinct, Linked;
    NewPoolInv(s);
    RunsKeepInv(s, schedule);
  }

  /** At most one refill is on its way or at work, and only while the flag is raised. */
  lemma OneRefill(s: State, schedule: seq<Action>)
    requires NewPool(s) && Legal(s, schedule)
    ensures var t := Exec(s, schedule);
      |t.running| + t.calls <= 1 && (|t.running| + t.calls == 1 ==> t.refillScheduled)
  {
    hide Distinct, Linked, ListInv;
    NewPoolInv(s);
    RunsKeepInv(s, schedule);
  }

  // ------------------------------------------------------------ one call on its own

  function Consumes(n: nat): (r: seq<Action>)
    ensures |r| == n
  {
    seq(n, _ => Consume)
  }

  lemma ConsumeFirst(s: State, n: nat)
    requires |s.lists| == 2 && !s.consumer.Idle? && Legal(Do(s, Consume), Consumes(n))
    ensures Legal(s, Consumes(n + 1)) && Exec(s, Consumes(n + 1)) == Exec(Do(s, Consume), Consumes(n))
  {
    hide Do;
    assert Consumes(n + 1)[1..] == Consumes(n);
  }

  /** The states of a call that found two packets or more, up to where it looks at the count again. */
  lemma TakesHead(s: State, w: Which, n: nat)
    requires Inv(s) && s.consumer == Checked(w)
    requires var l := s.lists[w]; l.queue != [] && var m := l.queue[0];
      Legal(s.(next := s.next[m := None], consumer := Unlinked(w, m),
               lists := s.lists[w := l.(num := l.num - 1, head := NextOf(s.next, l.head), queue := l.queue[1..])]), Consumes(n))
    ensures var l := s.lists[w]; var m := l.queue[0];
      && Legal(s, Consumes(n + 4))
      && Exec(s, Consumes(n + 4)) ==
         Exec(s.(next := s.next[m := None], consumer := Unlinked(w, m),
                 lists := s.lists[w := l.(num := l.num - 1, head := NextOf(s.next, l.head), queue := l.queue[1..])]), Consumes(n))
  {
    hide Legal, Exec, Distinct, Linked, Consumes;
    var s1 := Do(s, Consume);
    var s2 := Do(s1, Consume);
    var s3 := Do(s2, Consume);
    var l, m := s.lists[w], s.lists[w].queue[0];
    assert l.head == Some(m);
    assert Do(s3, Consume) == s.(next := s.next[m := None], consumer := Unlinked(w, m),
      lists := s.lists[w := l.(num := l.num - 1, head := NextOf(s.next, l.head), queue := l.queue[1..])]);
    ConsumeFirst(s3, n);
    ConsumeFirst(s2, n + 1);
    ConsumeFirst(s1, n + 2);
    ConsumeFirst(s, n + 3);
  }

  /** A call no other statement comes between: it hands out the oldest packet unless that is the last,
      and asks for a refill exactly if it leaves less than half the capacity, rounded up, and none is under way. */
  lemma CallAlone(s: State, w: Which) returns (n: nat)
    requires Inv(s) && s.consumer.Idle?
    ensures Legal(s, [Get(w)] + Consumes(n))
    ensures var (l, t) := (s.lists[w], Exec(s, [Get(w)] + Consumes(n)));
      if l.num < 2 then t == s
      else
        && |t.lists| == 2 && t.consumer.Idle? && l.queue != [] && t.lists[w].delivered == l.delivered + [l.queue[0]]
        && t.lists[w].queue == l.queue[1..] && t.lists[w].num == l.num - 1 && t.lists[1 - w] == s.lists[1 - w]
        && t.calls - s.calls == (if l.num - 1 < l.capacity - l.capacity / 2 && !s.refillScheduled then 1 else 0)
        && t.refillScheduled == (s.refillScheduled || t.calls > s.calls)
  {
    hide Legal, Exec, Distinct, Linked, Consumes;
    var l, s0 := s.lists[w], Do(s, Get(w));
    assert l.num <= |l.queue|;
    if l.num < 2 {
      n := 0;
      NoConsumes(s0);
    } else {
      GetStep(s, w);
      var m := l.queue[0];
      var u := s0.(next := s.next[m := None], consumer := Unlinked(w, m),
        lists := s.lists[w := l.(num := l.num - 1, head := NextOf(s.next, l.head), queue := l.queue[1..])]);
      var k := Returns(u);
      n := k + 4;
      TakesHead(s0, w, k);
    }
    GetFirst(s, w, n);
  }

  lemma NoConsumes(s: State)
    ensures Legal(s, Consumes(0)) && Exec(s, Consumes(0)) == s
  {
  }

  lemma GetFirst(s: State, w: Which, n: nat)
    requires |s.lists| == 2 && s.consumer.Idle? && Legal(Do(s, Get(w)), Consumes(n))
    ensures Legal(s, [Get(w)] + Consumes(n)) && Exec(s, [Get(w)] + Consumes(n)) == Exec(Do(s, Get(w)), Consumes(n))
  {
    hide Do;
    assert ([Get(w)] + Consumes(n))[1..] == Consumes(n);
  }

  /** The rest of a call that has unlinked its packet. */
  lemma Returns(s: State) returns (n: nat)
    requires |s.lists| == 2 && s.consumer.Unlinked?
    ensures Legal(s, Consumes(n))
    ensures var (w, t) := (s.consumer.w, Exec(s, Consumes(n)));
      var asks := s.lists[w].num < s.lists[w].capacity - s.lists[w].capacity / 2 && !s.refillScheduled;
      t == Deliver(if asks then s.(refillScheduled := true, calls := s.calls + 1) else s, w, s.consumer.m)
  {
    hide Legal, Exec, Consumes;
    var s1 := Do(s, Consume);
    if s1.consumer.Idle? {
      n := 1;
      NoConsumes(s1);
    } else {
      var s2 := Do(s1, Consume);
      if s2.consumer.Idle? {
        n := 2;
        NoConsumes(s2);
      } else {
        var s3 := Do(s2, Consume);
        n := 4;
        NoConsumes(Do(s3, Consume));
        ConsumeFirst(s3, 0);
        ConsumeFirst(s2, 1);
      }
      ConsumeFirst(s1, n - 2);
    }
    ConsumeFirst(s, n - 1);
  }

  /** The statements of a refill that allocates and appends one packet. */
  function Round(m: nat): seq<Action> {
    [Refill(0, m, true), Refill(0, m, true), Refill(0, m, true), Refill(0, m, true), Refill(0, m, true)]
  }

  lemma RefillFirst(s: State, a: Action, rest: seq<Action>)
    requires |s.lists| == 2 && Enabled(s, a) && Legal(Do(s, a), rest)
    ensures Legal(s, [a] + rest) && Exec(s, [a] + rest) == Exec(Do(s, a), rest)
  {
    hide Do, Enabled;
    assert ([a] + rest)[1..] == rest;
  }

  /** One more packet, if there is room. */
  lemma RoundAlone(s: State, w: Which, m: nat) returns (t: State)
    requires Inv(s) && s.running == [Looking(w)] && s.lists[w].num < s.lists[w].capacity && Unused(s, m)
    ensures Inv(t) && t.running == [Looking(w)] && t.refillScheduled == s.refillScheduled && t.lists[1 - w] == s.lists[1 - w]
    ensures var (l, l') := (s.lists[w], t.lists[w]);
      l'.num == l.num + 1 && l'.capacity == l.capacity && l'.queue == l.queue + [m]
    ensures forall rest: seq<Action> :: Legal(t, rest) ==>
      Legal(s, Round(m) + rest) && Exec(s, Round(m) + rest) == Exec(t, rest)
  {
    hide Inv, Legal, Exec, Do, Enabled, Unused;
    var a := Refill(0, m, true);
    var s1 := RefillStep(s, w, a);
    var s2 := RefillStep(s1, w, a);
    var s3 := RefillStep(s2, w, a);
    var s4 := RefillStep(s3, w, a);
    t := RefillStep(s4, w, a);
    forall rest: seq<Action> | Legal(t, rest)
      ensures Legal(s, Round(m) + rest) && Exec(s, Round(m) + rest) == Exec(t, rest)
    {
      RefillFirst(s4, a, rest);
      RefillFirst(s3, a, [a] + rest);
      RefillFirst(s2, a, [a] + ([a] + rest));
      RefillFirst(s1, a, [a] + ([a] + ([a] + rest)));
      RefillFirst(s, a, [a] + ([a] + ([a] + ([a] + rest))));
      assert Round(m) + rest == [a] + ([a] + ([a] + ([a] + ([a] + rest))));
    }
  }

  lemma RefillStep(s: State, w: Which, a: Action) returns (t: State)
    requires Inv(s) && |s.running| == 1 && !s.running[0].Finishing? && s.running[0].w == w && a.Refill? && a.k == 0 && a.ok
    requires s.running[0].Looking? ==> s.lists[w].num < s.lists[w].capacity && Unused(s, a.m)
    requires s.running[0].Allocating? ==> Unused(s, a.m)
    ensures |s.lists| == 2 && Enabled(s, a) && t == Do(s, a) && Inv(t) && |t.lists| == 2
    ensures t.refillScheduled == s.refillScheduled && t.lists[1 - w] == s.lists[1 - w] && t.lists[w].capacity == s.lists[w].capacity
    ensures t.running == [match s.running[0] {
      case Looking(_) => Allocating(w)
      case Allocating(_) => Linking(w, a.m)
      case Linking(_, m) => Tailing(w, m)
      case Tailing(_, _) => Counting(w)
      case _ => Looking(w)
    }]
    ensures t.lists[w].queue == s.lists[w].queue + if s.running[0].Linking? then [s.running[0].m] else []
    ensures t.lists[w].num == s.lists[w].num + if s.running[0].Counting? then 1 else 0
    ensures s.running[0].Looking? ==> Unused(t, a.m)
  {
    StepKeepsInv(s, a);
    hide ListInv, Held, Distinct;
    t := Do(s, a);
  }

  /** A packet the pool does not hold. */
  lemma SomeUnused(s: State) returns (m: nat)
    requires |s.lists| == 2 && |s.running| == 1 && s.running[0].Looking?
    ensures Unused(s, m)
  {
    var (a, b) := (s.lists[0].queue, s.lists[1].queue);
    var hand := InHand(s.consumer);
    m := Above(a + b + hand);
    assert m in a || m in b || m in hand ==> m in a + b + hand;
    assert s.lists == [s.lists[0], s.lists[1]];
  }

  lemma {:induction false} Above(nodes: seq<nat>) returns (m: nat)
    ensures forall x :: x in nodes ==> x < m
  {
    if nodes == [] {
      m := 0;
    } else {
      var rest := Above(nodes[1..]);
      m := if rest > nodes[0] then rest else nodes[0] + 1;
      assert forall x :: x in nodes ==> x == nodes[0] || x in nodes[1..];
    }
  }

  lemma FullAtMost(s: State, w: Which)
    requires Inv(s)
    ensures s.lists[w].num <= s.lists[w].capacity
  {
    hide Distinct, Linked;
  }

  lemma NothingLeft(s: State)
    ensures Legal(s, []) && Exec(s, []) == s
  {
  }

  /** A refill no other statement comes between fills its list and those after it, as long as memory lasts,
      keeps the packets that were there, and lowers the flag. */
  lemma {:induction false} RefillAlone(s: State, w: Which) returns (schedule: seq<Action>)
    requires Inv(s) && s.running == [Looking(w)]
    ensures Legal(s, schedule)
    ensures var t := Exec(s, schedule);
      && Inv(t) && t.running == [] && !t.refillScheduled
      && (forall v: Which :: w <= v ==> t.lists[v].num == t.lists[v].capacity == s.lists[v].capacity)
      && (forall v: Which :: s.lists[v].queue <= t.lists[v].queue)
      && (forall v: Which :: v < w ==> t.lists[v] == s.lists[v])
    decreases 2 - w, s.lists[w].capacity - s.lists[w].num
  {
    hide Legal, Exec, ListInv, Held, Distinct, Round;
    if s.lists[w].num < s.lists[w].capacity {
      var m := SomeUnused(s);
      var t := RoundAlone(s, w, m);
      var rest := RefillAlone(t, w);
      schedule := Round(m) + rest;
    } else {
      FullAtMost(s, w);
      var a := Refill(0, 0, false);
      StepKeepsInv(s, a);
      var rest := [];
      if w == 0 {
        rest := RefillAlone(Do(s, a), 1);
      } else {
        var end := Do(s, a);
        StepKeepsInv(end, a);
        NothingLeft(Do(end, a));
        assert end.lists == s.lists;
        RefillFirst(end, a, []);
        rest := [a] + [];
      }
      RefillFirst(s, a, rest);
      schedule := [a] + rest;
    }
  }

  /** A call comes back with a packet only when the list is not low or a refill is scheduled for it. */
  lemma ServedOrScheduled(s: State)
    requires Inv(s) && !s.consumer.Idle? && Do(s, Consume).consumer.Idle?
    ensures var (w, t) := (s.consumer.w, Do(s, Consume));
      && t.lists[w].delivered == s.lists[w].delivered + [s.consumer.m]
      && (t.lists[w].num >= t.lists[w].capacity - t.lists[w].capacity / 2 || t.refillScheduled)
  {
    hide Distinct, Linked;
  }

  /** The consumer never reads or writes the link a refill is about to write. */
  lemma LinkAccessesApart(s: State)
    requires Inv(s) && |s.running| == 1 && s.running[0].Linking?
    ensures var l := s.lists[s.running[0].w];
      && l.tail.Some? && (s.consumer.Holding? && s.consumer.w == s.running[0].w ==> s.consumer.h != l.tail)
      && (s.consumer.Advanced? ==> s.consumer.m != l.tail.value)
  {
    hide Distinct, Linked;
    NodesApart(s);
    var q := s.lists[s.running[0].w].queue;
    var last := q[|q| - 1];
    assert last in q;
    assert s.consumer.Advanced? ==> s.consumer.m in InHand(s.consumer);
    assert Distinct(q);
    if |q| > 1 {
      Ends(q);
    }
  }

  lemma Ends(queue: seq<nat>)
    requires Distinct(queue) && |queue| > 1
    ensures queue[0] != queue[|queue| - 1]
  {
  }
}
