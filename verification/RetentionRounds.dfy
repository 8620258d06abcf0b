/** What retention guarantees over any sequence of evaluation rounds. */
module RetentionRounds {
  import opened RetentionEngine

  /** One round: evaluate, delete some of the eligible snapshots, add new ones. */
  datatype Round = Round(policy: Policy, now: nat, removed: set<Snapshot>, added: set<Snapshot>)

  ghost predicate IsRound(all: set<Snapshot>, round: Round) {
    round.removed <= Eligible(all, round.policy, round.now) && DistinctIds(all + round.added)
  }

  function After(all: set<Snapshot>, round: Round): set<Snapshot> {
    all - round.removed + round.added
  }

  function AfterAll(all: set<Snapshot>, rounds: seq<Round>): set<Snapshot>
    decreases |rounds|
  {
    if rounds == [] then all else AfterAll(After(all, rounds[0]), rounds[1..])
  }

  ghost predicate AreRounds(all: set<Snapshot>, rounds: seq<Round>)
    decreases |rounds|
  {
    rounds != [] ==> IsRound(all, rounds[0]) && AreRounds(After(all, rounds[0]), rounds[1..])
  }

  /** Removing every eligible snapshot leaves none eligible at the same instant. */
  lemma NoneLeftEligible(all: set<Snapshot>, policy: Policy, now: nat)
    ensures Eligible(all - Eligible(all, policy, now), policy, now) == {}
  {
    var rest := all - Eligible(all, policy, now);
    forall x | x in rest
      ensures ReasonFor(rest, policy, now, x) != EligibleOrdinary
    {
      SubsetSize(Rivals(rest, x), Rivals(all, x));
    }
  }

  /** Whatever a round removes, each mirror's newest restorable snapshots stay. */
  lemma RoundKeepsTheNewest(all: set<Snapshot>, round: Round, mirror: nat)
    requires DistinctIds(all) && IsRound(all, round)
    ensures var kept := KeptIn(all, round.policy, mirror); var window := Window(all, mirror);
            && kept <= After(all, round)
            && |kept| == (if |window| < KeepCount(round.policy) then |window| else KeepCount(round.policy))
            && forall a, b | a in kept && b in window && b !in kept :: Newer(a, b)
  {
    KeepsTheNewest(all, round.policy, mirror);
  }

  /** A restorable snapshot always has itself or a newer restorable one of its mirror left after a round. */
  lemma NewestSurvives(all: set<Snapshot>, round: Round, x: Snapshot) returns (y: Snapshot)
    requires DistinctIds(all) && IsRound(all, round) && x in all && x.restorable
    ensures y in After(all, round) && SameWindow(y, x) && (y == x || Newer(y, x))
  {
    y := RankDescends(all, x, 0);
    assert y == x || Newer(y, x) by {
      assert Rivals(all, y) == {};
      assert x !in Rivals(all, y);
    }
    assert IsKept(all, round.policy, y);
  }

  /**
   * Over any sequence of rounds with any policies and clocks, a mirror that has a restorable
   * snapshot never loses its restore point: one at least as new remains.
   */
  lemma {:induction false} RestorePointNeverLost(all: set<Snapshot>, rounds: seq<Round>, x: Snapshot) returns (y: Snapshot)
    requires DistinctIds(all) && AreRounds(all, rounds) && x in all && x.restorable
    ensures y in AfterAll(all, rounds) && SameWindow(y, x) && (y == x || Newer(y, x))
    decreases |rounds|
  {
    if rounds == [] {
      y := x;
    } else {
      var survivor := NewestSurvives(all, rounds[0], x);
      y := RestorePointNeverLost(After(all, rounds[0]), rounds[1..], survivor);
    }
  }

  /** The same for every round of a sequence: before each round its newest are counted, and after it they are there. */
  lemma {:induction false} EveryRoundKeepsTheNewest(all: set<Snapshot>, rounds: seq<Round>, k: nat, mirror: nat)
    requires DistinctIds(all) && AreRounds(all, rounds) && k < |rounds|
    ensures var before := AfterAll(all, rounds[..k]); var policy := rounds[k].policy;
            && KeptIn(before, policy, mirror) <= AfterAll(all, rounds[..k + 1])
            && |KeptIn(before, policy, mirror)|
               == (if |Window(before, mirror)| < KeepCount(policy) then |Window(before, mirror)| else KeepCount(policy))
    decreases k
  {
    var next := After(all, rounds[0]);
    assert rounds[..k + 1][0] == rounds[0] && rounds[..k + 1][1..] == rounds[1..][..k];
    if k == 0 {
      RoundKeepsTheNewest(all, rounds[0], mirror);
      assert rounds[..0] == [] && rounds[..1][1..] == [];
      assert AfterAll(all, rounds[..1]) == AfterAll(next, []) == next;
    } else {
      assert rounds[..k][0] == rounds[0] && rounds[..k][1..] == rounds[1..][..k - 1];
      EveryRoundKeepsTheNewest(next, rounds[1..], k - 1, mirror);
    }
  }
}
