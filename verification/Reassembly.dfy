/** How received buffers become packets, as a fold over what the driver finds in the descriptors. */
module Reassembly {

  /** A consumed descriptor: a buffer to pass on, or a failure (a bad frame, no replacement buffer,
      a reset of the ring). */
  datatype Event = Good(buffer: nat, length: nat, eop: bool) | Bad

  /** A chain of buffers and its length. */
  datatype Packet = Packet(buffers: seq<nat>, length: nat)

  datatype Result = Result(pending: Packet, delivered: seq<Packet>)

  const NOTHING := Packet([], 0)

  predicate Ends(e: Event) { e.Good? && e.eop }

  predicate Continues(e: Event) { e.Good? && !e.eop }

  function Join(p: Packet, e: Event): Packet
    requires e.Good?
  {
    Packet(p.buffers + [e.buffer], p.length + e.length)
  }

  function Next(r: Result, e: Event): Result {
    if e.Bad? then Result(NOTHING, r.delivered)
    else if e.eop then Result(NOTHING, r.delivered + [Join(r.pending, e)])
    else Result(Join(r.pending, e), r.delivered)
  }

  function Fold(events: seq<Event>): Result {
    if events == [] then Result(NOTHING, [])
    else Next(Fold(events[..|events| - 1]), events[|events| - 1])
  }

  lemma FoldMore(events: seq<Event>, e: Event)
    ensures Fold(events + [e]) == Next(Fold(events), e)
  {
    assert (events + [e])[..|events|] == events;
  }

  // ------------------------------------------------------------ the runs of good descriptors

  /** Descriptors i to j make one packet: all good, the last one ends it, none before does, and what
      precedes i is a failure or the end of another packet. */
  predicate IsRun(events: seq<Event>, i: nat, j: nat) {
    && i <= j < |events| && Ends(events[j])
    && (forall k :: i <= k < j ==> Continues(events[k]))
    && (i == 0 || !Continues(events[i - 1]))
  }

  function Lengths(events: seq<Event>): nat {
    if events == [] then 0
    else
      var last := events[|events| - 1];
      Lengths(events[..|events| - 1]) + if last.Good? then last.length else 0
  }

  function Buffers(events: seq<Event>): seq<nat> {
    if events == [] then []
    else
      var last := events[|events| - 1];
      Buffers(events[..|events| - 1]) + if last.Good? then [last.buffer] else []
  }

  /** The packet some descriptors make: their buffers in order, and the sum of their lengths. */
  function Assembled(events: seq<Event>): Packet { Packet(Buffers(events), Lengths(events)) }

  /** How many of the first n descriptors end a packet. */
  function EndsBefore(events: seq<Event>, n: nat): nat
    requires n <= |events|
  {
    if n == 0 then 0 else EndsBefore(events, n - 1) + if Ends(events[n - 1]) then 1 else 0
  }

  /** Where the run that reaches up to position n starts. */
  function RunStart(events: seq<Event>, n: nat): (i: nat)
    requires n <= |events|
    ensures i <= n && (forall k :: i <= k < n ==> Continues(events[k])) && (i == 0 || !Continues(events[i - 1]))
  {
    if n > 0 && Continues(events[n - 1]) then RunStart(events, n - 1) else n
  }

  lemma AssembledMore(events: seq<Event>, i: nat, j: nat)
    requires i <= j < |events| && events[j].Good?
    ensures Assembled(events[i..j + 1]) == Join(Assembled(events[i..j]), events[j])
  {
    assert events[i..j + 1][..j - i] == events[i..j];
  }

  lemma {:induction false} StartUnchanged(events: seq<Event>, n: nat, m: nat)
    requires n <= m <= |events|
    ensures RunStart(events[..m], n) == RunStart(events, n) && EndsBefore(events[..m], n) == EndsBefore(events, n)
  {
    if n > 0 {
      StartUnchanged(events, n - 1, m);
    }
  }

  /** What is pending is the run that has not ended yet, and there are as many packets as ends. */
  lemma {:induction false} PendingRun(events: seq<Event>)
    ensures Fold(events).pending == Assembled(events[RunStart(events, |events|)..])
    ensures |Fold(events).delivered| == EndsBefore(events, |events|)
  {
    if events != [] {
      var n := |events| - 1;
      PendingRun(events[..n]);
      StartUnchanged(events, n, n);
      if Continues(events[n]) {
        var i := RunStart(events, n);
        assert events[..n][i..] == events[i..n] && events[i..n + 1] == events[i..];
        AssembledMore(events, i, n);
      }
    }
  }

  /** A packet is delivered for every run, in the order of their ends, and no other: number k is
      made of exactly the run that ends in the descriptor with k ends before it. */
  lemma {:induction false} DeliversTheRuns(events: seq<Event>, j: nat)
    requires j < |events| && Ends(events[j])
    ensures var i, k := RunStart(events, j), EndsBefore(events, j);
      IsRun(events, i, j) && k < |Fold(events).delivered| && Fold(events).delivered[k] == Assembled(events[i..j + 1])
  {
    hide Assembled, Join;
    var n := |events| - 1;
    var i := RunStart(events, j);
    PendingRun(events[..n]);
    StartUnchanged(events, n, n);
    StartUnchanged(events, j, n);
    if j < n {
      DeliversTheRuns(events[..n], j);
      assert events[..n][i..j + 1] == events[i..j + 1];
    } else {
      assert events[..n][i..] == events[i..n];
      AssembledMore(events, i, n);
    }
  }

  /** The start of a run is determined by its end. */
  lemma RunsAreUnique(events: seq<Event>, i: nat, j: nat)
    requires IsRun(events, i, j)
    ensures i == RunStart(events, j)
  {
    var r := RunStart(events, j);
    assert r > 0 ==> !Continues(events[r - 1]);
    assert i > 0 ==> !Continues(events[i - 1]);
  }

  /** The other direction: every delivered packet is such a run. */
  lemma OnlyTheRuns(events: seq<Event>, k: nat) returns (j: nat)
    requires k < |Fold(events).delivered|
    ensures j < |events| && Ends(events[j]) && EndsBefore(events, j) == k
    ensures Fold(events).delivered[k] == Assembled(events[RunStart(events, j)..j + 1])
  {
    PendingRun(events);
    j := EndAt(events, |events|, k);
    DeliversTheRuns(events, j);
  }

  lemma {:induction false} EndAt(events: seq<Event>, n: nat, k: nat) returns (j: nat)
    requires n <= |events| && k < EndsBefore(events, n)
    ensures j < n && Ends(events[j]) && EndsBefore(events, j) == k
  {
    if Ends(events[n - 1]) && EndsBefore(events, n - 1) == k {
      j := n - 1;
    } else {
      j := EndAt(events, n - 1, k);
    }
  }

  /** Descriptors from some point on that make one packet, when nothing is pending there. */
  lemma {:induction false} OnePacket(events: seq<Event>, from: nat)
    requires from < |events| && Fold(events[..from]).pending == NOTHING
    requires forall k :: from <= k < |events| - 1 ==> Continues(events[k])
    requires events[|events| - 1].Good?
    ensures Fold(events) == Next(Result(Assembled(events[from..|events| - 1]), Fold(events[..from]).delivered), events[|events| - 1])
  {
    hide Assembled, Join;
    var n := |events| - 1;
    if from == n {
      assert events[from..n] == [];
      NothingAssembled();
    } else {
      assert events[..n][..from] == events[..from];
      OnePacket(events[..n], from);
      AssembledMore(events, from, n - 1);
      assert events[..n][from..n - 1] == events[from..n - 1];
    }
  }

  lemma NothingAssembled()
    ensures Assembled([]) == NOTHING
  {
  }

  /** As many buffers as good descriptors, in their order. */
  lemma {:induction false} BuffersOfGood(events: seq<Event>)
    requires forall k :: 0 <= k < |events| ==> events[k].Good?
    ensures |Buffers(events)| == |events| && forall k :: 0 <= k < |events| ==> Buffers(events)[k] == events[k].buffer
  {
    if events != [] {
      BuffersOfGood(events[..|events| - 1]);
    }
  }

  // ------------------------------------------------------------ any number of calls

  /** What one call makes of the events ahead of it: it stops after so many packets. */
  function Call(r: Result, ahead: seq<Event>, maxCount: nat): (after: (Result, nat))
    ensures after.1 <= |ahead|
    decreases |ahead|
  {
    if ahead == [] || maxCount == 0 then (r, 0)
    else
      var (end, taken) := Call(Next(r, ahead[0]), ahead[1..], if Ends(ahead[0]) then maxCount - 1 else maxCount);
      (end, taken + 1)
  }

  /** Calls one after the other, each starting where the one before it stopped. */
  function Calls(r: Result, ahead: seq<Event>, maxCounts: seq<nat>): (Result, nat)
    decreases |maxCounts|
  {
    if maxCounts == [] then (r, 0)
    else
      var (s, taken) := Call(r, ahead, maxCounts[0]);
      var (end, more) := Calls(s, ahead[taken..], maxCounts[1..]);
      (end, taken + more)
  }

  /** Folding on from a result. */
  function FoldOn(r: Result, events: seq<Event>): Result
    decreases |events|
  {
    if events == [] then r else FoldOn(Next(r, events[0]), events[1..])
  }

  lemma {:induction false} FoldOnConcat(r: Result, a: seq<Event>, b: seq<Event>)
    ensures FoldOn(r, a + b) == FoldOn(FoldOn(r, a), b)
    decreases |a|
  {
    if a == [] {
      assert a + b == b;
    } else {
      assert (a + b)[1..] == a[1..] + b;
      FoldOnConcat(Next(r, a[0]), a[1..], b);
    }
  }

  lemma {:induction false} FoldFromNothing(events: seq<Event>)
    ensures FoldOn(Result(NOTHING, []), events) == Fold(events)
  {
    if events != [] {
      var n := |events| - 1;
      FoldFromNothing(events[..n]);
      FoldOnConcat(Result(NOTHING, []), events[..n], [events[n]]);
      assert events[..n] + [events[n]] == events;
      assert [events[n]][1..] == [];
    }
  }

  /** A call folds what it takes, delivers at most maxCount packets, and stops early only then. */
  lemma {:induction false} CallFolds(r: Result, ahead: seq<Event>, maxCount: nat)
    ensures var (end, taken) := Call(r, ahead, maxCount);
      end == FoldOn(r, ahead[..taken]) && |r.delivered| <= |end.delivered| <= |r.delivered| + maxCount
      && (taken < |ahead| ==> |end.delivered| == |r.delivered| + maxCount)
      && (ahead != [] && maxCount > 0 ==> taken > 0)
    decreases |ahead|
  {
    if ahead != [] && maxCount > 0 {
      var left := if Ends(ahead[0]) then maxCount - 1 else maxCount;
      CallFolds(Next(r, ahead[0]), ahead[1..], left);
      var taken := Call(r, ahead, maxCount).1;
      assert ahead[..taken][1..] == ahead[1..][..taken - 1];
    }
  }

  /** However the work is split: the calls together fold exactly the events they consume, and with a
      positive bound each and one call per event at most, they consume everything. */
  lemma {:induction false} SplitIsFold(r: Result, ahead: seq<Event>, maxCounts: seq<nat>)
    ensures var (end, taken) := Calls(r, ahead, maxCounts);
      taken <= |ahead| && end == FoldOn(r, ahead[..taken])
    ensures |maxCounts| >= |ahead| && (forall k :: 0 <= k < |maxCounts| ==> maxCounts[k] > 0) ==>
      Calls(r, ahead, maxCounts) == (FoldOn(r, ahead), |ahead|)
    decreases |maxCounts|
  {
    hide Call, Next;
    if maxCounts == [] {
      assert ahead[..0] == [];
    } else {
      var (s, taken) := Call(r, ahead, maxCounts[0]);
      CallFolds(r, ahead, maxCounts[0]);
      SplitIsFold(s, ahead[taken..], maxCounts[1..]);
      var more := Calls(s, ahead[taken..], maxCounts[1..]).1;
      FoldOnConcat(r, ahead[..taken], ahead[taken..][..more]);
      assert ahead[..taken] + ahead[taken..][..more] == ahead[..taken + more];
      assert ahead[..|ahead|] == ahead;
    }
  }

  /** Two ways to split the same work deliver the same packets. */
  lemma SplitDoesNotMatter(ahead: seq<Event>, a: seq<nat>, b: seq<nat>)
    requires |a| >= |ahead| && |b| >= |ahead|
    requires forall k :: 0 <= k < |a| ==> a[k] > 0
    requires forall k :: 0 <= k < |b| ==> b[k] > 0
    ensures Calls(Result(NOTHING, []), ahead, a) == Calls(Result(NOTHING, []), ahead, b) == (Fold(ahead), |ahead|)
  {
    SplitIsFold(Result(NOTHING, []), ahead, a);
    SplitIsFold(Result(NOTHING, []), ahead, b);
    FoldFromNothing(ahead);
  }
}
