/** Erasing a bank on a part with sectors of 256 bytes: one erase cycle a sector, at an address that the
    driver moves on inside the retry loop.  Addresses count sectors from the start of the bank. */
module SmallSectors {

  const REPEAT_COUNT: nat := 10

  /** An erase cycle works, may be tried again, or ends the routine with an error. */
  datatype Try = Success | Failure | Abort

  /** The address register, the tries made, those that failed, the sectors erased, and the status so far. */
  datatype Progress = Progress(address: nat, tries: nat, count: nat, erased: seq<nat>, ok: bool)

  const START := Progress(0, 0, 0, [], true)

  /** What is left of round j: it ends at its first success, or when the retries of all rounds together run out. */
  function Round(p: Progress, j: nat, outcome: nat -> Try): Progress
    decreases REPEAT_COUNT - p.count
  {
    var q := p.(address := p.address + j, tries := p.tries + 1);
    match outcome(p.tries)
    case Success => q.(erased := p.erased + [q.address])
    case Abort => q.(ok := false)
    case Failure =>
      var more := q.(count := p.count + 1);
      if more.count < REPEAT_COUNT then Round(more, j, outcome) else more
  }

  function Rounds(n: nat, outcome: nat -> Try): Progress {
    if n == 0 then START
    else
      var p := Rounds(n - 1, outcome);
      if p.ok then Round(p, n - 1, outcome) else p
  }

  /** Each sector of the bank is erased, and nothing beyond it. */
  ghost predicate ErasesBank(erased: seq<nat>, sectors: nat) {
    (forall s :: 0 <= s < sectors ==> s in erased) && (forall s :: s in erased ==> s < sectors)
  }

  /** The erase routine, for any outcome of its cycles. */
  method EraseSectors(sectors: nat, outcome: nat -> Try) returns (ok: bool, erased: seq<nat>)
    ensures ok == Rounds(sectors, outcome).ok && erased == Rounds(sectors, outcome).erased
  {
    hide Rounds;
    var address, tries, count, j := 0, 0, 0, 0;
    ok, erased := true, [];
    NoRounds(outcome);
    while j < sectors
      invariant ok && j <= sectors && Rounds(j, outcome) == Progress(address, tries, count, erased, true)
    {
      ghost var end := Round(Rounds(j, outcome), j, outcome);
      RoundsMore(j, sectors, outcome);
      var again := true;
      while again
        invariant ok && (if again then Round(Progress(address, tries, count, erased, true), j, outcome) == end
                         else Progress(address, tries, count, erased, true) == end)
        decreases again, REPEAT_COUNT - count
      {
        address := address + j;
        var t := outcome(tries);
        tries := tries + 1;
        if t.Success? {
          erased, again := erased + [address], false;
        } else if t.Abort? {
          return false, erased;
        } else {
          count := count + 1;
          again := count < REPEAT_COUNT;
        }
      }
      j := j + 1;
    }
  }

  lemma NoRounds(outcome: nat -> Try)
    ensures Rounds(0, outcome) == START
  {
  }

  /** One more round, the last if it ends with an error. */
  lemma {:induction false} RoundsMore(j: nat, n: nat, outcome: nat -> Try)
    requires j < n && Rounds(j, outcome).ok
    ensures var end := Round(Rounds(j, outcome), j, outcome);
      Rounds(j + 1, outcome) == end && (!end.ok ==> Rounds(n, outcome) == end)
  {
    if j + 1 < n && !Rounds(j + 1, outcome).ok {
      RoundsMore(j, n - 1, outcome);
    }
  }

  // ------------------------------------------------------------ which sectors are hit

  /** A round erases one sector or none, that its address ends at, its number or more beyond where it started. */
  lemma {:induction false} RoundLands(p: Progress, j: nat, outcome: nat -> Try)
    ensures var r := Round(p, j, outcome);
      r.address >= p.address + j && (r.erased == p.erased || r.erased == p.erased + [r.address])
    ensures Round(p, j, outcome).address == p.address + j || outcome(p.tries).Failure?
    decreases REPEAT_COUNT - p.count
  {
    var more := p.(address := p.address + j, tries := p.tries + 1, count := p.count + 1);
    if outcome(p.tries).Failure? && more.count < REPEAT_COUNT {
      RoundLands(more, j, outcome);
    }
  }

  /** Sector 1 is hit by the first try of round 1 or never; sector 2 then never is. */
  lemma {:induction false} SectorMissed(n: nat, outcome: nat -> Try)
    requires n >= 2
    ensures Rounds(n, outcome).address >= 1 || !Rounds(n, outcome).ok
    ensures 1 !in Rounds(n, outcome).erased || 2 !in Rounds(n, outcome).erased
  {
    hide Rounds, Round;
    RoundsStep(n, outcome);
    if n > 2 {
      SectorMissed(n - 1, outcome);
    } else {
      RoundsStep(1, outcome);
      NoRounds(outcome);
      FirstRound(START, outcome);
    }
    RoundLands(Rounds(n - 1, outcome), n - 1, outcome);
  }

  lemma RoundsStep(n: nat, outcome: nat -> Try)
    requires n > 0
    ensures Rounds(n, outcome) == var p := Rounds(n - 1, outcome); if p.ok then Round(p, n - 1, outcome) else p
  {
  }

  /** The first k tries fail and the next n work. */
  predicate FailThenWork(outcome: nat -> Try, k: nat, n: nat) {
    (forall i :: 0 <= i < k ==> outcome(i).Failure?) && (forall i :: k <= i < k + n ==> outcome(i).Success?)
  }

  /** Round 0 erases sector 0 at the first try that works, if only failures come before it. */
  lemma {:induction false} FirstRound(p: Progress, outcome: nat -> Try)
    requires p == Progress(0, p.count, p.count, [], true) && p.count < REPEAT_COUNT
    requires forall i :: 0 <= i < p.count ==> outcome(i).Failure?
    ensures var r := Round(p, 0, outcome);
      && r.address == 0 && (r.erased == [] || (r.erased == [0] && r.ok))
      && (r.erased == [0] ==> p.count < r.tries <= REPEAT_COUNT && FailThenWork(outcome, r.tries - 1, 1))
      && (forall k :: 0 <= k < REPEAT_COUNT && FailThenWork(outcome, k, 1) ==> r.erased == [0] && r.tries == k + 1)
    decreases REPEAT_COUNT - p.count
  {
    var more := Progress(0, p.count + 1, p.count + 1, [], true);
    if outcome(p.count).Failure? && more.count < REPEAT_COUNT {
      FirstRound(more, outcome);
      assert Round(p, 0, outcome) == Round(more, 0, outcome);
    } else {
      assert Round(p, 0, outcome).erased == [0] <==> outcome(p.count).Success?;
    }
    hide Round;
    forall k | 0 <= k < REPEAT_COUNT && FailThenWork(outcome, k, 1)
      ensures Round(p, 0, outcome).erased == [0] && Round(p, 0, outcome).tries == k + 1
    {
      assert outcome(k).Success? && k >= p.count;
    }
  }

  /** Round 1 after a successful round 0. */
  lemma SecondRound(p: Progress, outcome: nat -> Try)
    requires p.address == 0 && p.ok && p.erased == [0]
    ensures 1 in Round(p, 1, outcome).erased <==> outcome(p.tries).Success?
    ensures outcome(p.tries).Success? ==> Round(p, 1, outcome).erased == [0, 1]
  {
    RoundLands(p, 1, outcome);
    if outcome(p.tries).Failure? && p.count + 1 < REPEAT_COUNT {
      RoundLands(p.(address := 1, tries := p.tries + 1, count := p.count + 1), 1, outcome);
    }
  }

  /** The bank is erased exactly when it has no more than two sectors, the first is erased by one of the
      ten tries, and the second by the try after that: the address moves on by the round number, and by it
      again on every retry. */
  lemma ErasesExactly(sectors: nat, outcome: nat -> Try)
    ensures ErasesBank(Rounds(sectors, outcome).erased, sectors)
            <==> sectors <= 2 && exists k :: 0 <= k < REPEAT_COUNT && FailThenWork(outcome, k, sectors)
  {
    if sectors == 0 {
      assert FailThenWork(outcome, 0, 0);
    } else if sectors > 2 {
      SectorMissed(sectors, outcome);
    } else {
      assert Rounds(1, outcome) == Round(Rounds(0, outcome), 0, outcome);
      FirstRound(START, outcome);
      if sectors == 2 {
        TwoSectors(outcome);
      } else if FirstErased(outcome) {
        assert FailThenWork(outcome, Rounds(1, outcome).tries - 1, 1);
      } else {
        assert 0 !in Rounds(1, outcome).erased;
      }
    }
  }

  predicate FirstErased(outcome: nat -> Try) { Rounds(1, outcome).erased == [0] }

  lemma TwoSectors(outcome: nat -> Try)
    ensures ErasesBank(Rounds(2, outcome).erased, 2)
            <==> exists k :: 0 <= k < REPEAT_COUNT && FailThenWork(outcome, k, 2)
  {
    hide Round, Rounds, ErasesBank;
    RoundsStep(1, outcome);
    RoundsStep(2, outcome);
    NoRounds(outcome);
    FirstRound(START, outcome);
    var p := Rounds(1, outcome);
    BothErased(Rounds(2, outcome).erased);
    forall k | 0 <= k < REPEAT_COUNT && FailThenWork(outcome, k, 2)
      ensures p.erased == [0] && p.tries == k + 1 && outcome(k + 1).Success?
    {
      assert FailThenWork(outcome, k, 1);
    }
    if p.erased == [0] {
      SecondRound(p, outcome);
      if outcome(p.tries).Success? {
        assert FailThenWork(outcome, p.tries - 1, 2);
      }
    } else if p.ok {
      RoundLands(p, 1, outcome);
    }
  }

  lemma BothErased(erased: seq<nat>)
    ensures erased == [0, 1] ==> ErasesBank(erased, 2)
    ensures ErasesBank(erased, 2) ==> 0 in erased && 1 in erased
  {
    if erased == [0, 1] {
      assert erased[0] in erased && erased[1] in erased;
    }
  }

  /** Three sectors and not a single failure: the last cycle erases beyond the bank, and success is reported. */
  lemma ThreeSectorsMiss(outcome: nat -> Try)
    requires forall i :: 0 <= i < 3 ==> outcome(i).Success?
    ensures Rounds(3, outcome).ok && Rounds(3, outcome).erased == [0, 1, 3]
    ensures !ErasesBank(Rounds(3, outcome).erased, 3)
  {
    assert Rounds(1, outcome) == Progress(0, 1, 0, [0], true);
    assert Rounds(2, outcome) == Progress(1, 2, 0, [0, 1], true);
    assert Rounds(3, outcome) == Progress(3, 3, 0, [0, 1, 3], true);
    assert 3 in Rounds(3, outcome).erased;
  }

  lemma {:induction false} RetriesRunOut(p: Progress, outcome: nat -> Try)
    requires p.address == 0 && p.erased == [] && p.ok && p.count == p.tries < REPEAT_COUNT
    requires forall i :: p.tries <= i < 10 ==> outcome(i).Failure?
    ensures Round(p, 0, outcome) == Progress(0, 10, 10, [], true)
    decreases REPEAT_COUNT - p.count
  {
    var more := p.(tries := p.tries + 1, count := p.count + 1);
    if more.count < REPEAT_COUNT {
      RetriesRunOut(more, outcome);
    }
  }

  /** If no cycle works the retries run out in the first round, each later round tries once, and nothing is
      erased; success is reported all the same. */
  lemma {:induction false} AllFail(sectors: nat, outcome: nat -> Try)
    requires sectors > 0 && forall i :: 0 <= i < sectors + 9 ==> outcome(i).Failure?
    ensures var r := Rounds(sectors, outcome); r.ok && r.erased == [] && r.tries == sectors + 9 && r.count == r.tries
  {
    hide Round;
    if sectors == 1 {
      RetriesRunOut(START, outcome);
      assert Rounds(1, outcome) == Round(Rounds(0, outcome), 0, outcome);
    } else {
      AllFail(sectors - 1, outcome);
      LateRound(Rounds(sectors - 1, outcome), sectors - 1, outcome);
    }
  }

  lemma LateRound(p: Progress, j: nat, outcome: nat -> Try)
    requires p.count >= REPEAT_COUNT && outcome(p.tries).Failure?
    ensures Round(p, j, outcome) == p.(address := p.address + j, tries := p.tries + 1, count := p.count + 1)
  {
  }

  /** An error ends the routine at once. */
  lemma {:induction false} AbortEnds(n: nat, outcome: nat -> Try)
    requires outcome(0).Abort? && n > 0
    ensures Rounds(n, outcome) == Progress(0, 1, 0, [], false)
  {
    if n > 1 {
      AbortEnds(n - 1, outcome);
    } else {
      assert Rounds(0, outcome) == START;
    }
  }

  /** Two sectors, the first erased at once and the second at its second try, too far on. */
  lemma RetryMisses(outcome: nat -> Try)
    requires outcome(0).Success? && outcome(1).Failure? && outcome(2).Success?
    ensures Rounds(2, outcome).ok && Rounds(2, outcome).erased == [0, 2]
  {
    assert Rounds(1, outcome) == Progress(0, 1, 0, [0], true);
    var p, more := Progress(0, 1, 0, [0], true), Progress(1, 2, 1, [0], true);
    assert Rounds(2, outcome) == Round(p, 1, outcome) == Round(more, 1, outcome) == Progress(2, 3, 1, [0, 2], true);
  }
}
