/** Quota-pressure selection: the shortest safe prefix of a fixed escalation order. */
module QuotaPressure {
  import opened Common
  import opened Sorting
  import opened RetentionEngine

  datatype Tier = Ordinary | InactiveTarget

  datatype Selection = Selection(id: nat, tier: Tier, estimatedBytes: nat)

  datatype PressureDecision = PressureDecision(
    selections: seq<Selection>, freedBytes: nat, requiredBytes: nat, allocationRefused: bool)

  function Saturated(n: nat): nat { if n > U64_MAX then U64_MAX else n }

  function SaturatingAdd(a: nat, b: nat): (r: nat)
    ensures r <= a + b && (a + b <= U64_MAX ==> r == a + b) && (a + b > U64_MAX ==> r == U64_MAX)
  {
    if a + b > U64_MAX then U64_MAX else a + b
  }

  /** Ordinary snapshots first, then oldest first, then by mirror and id. */
  predicate EscalationOrder(a: Snapshot, b: Snapshot) {
    if a.targetInactive != b.targetInactive then !a.targetInactive
    else if a.createdAt != b.createdAt then a.createdAt < b.createdAt
    else if a.mirror != b.mirror then a.mirror < b.mirror
    else a.id <= b.id
  }

  predicate IsGraceComplete(now: nat, x: Snapshot) {
    x.deletionNotBefore.Some? && x.deletionNotBefore.value <= now
  }

  /** The reason a report gives last for an id. */
  function LastReason(decisions: seq<Decision>, id: nat): Option<Reason> {
    if decisions == [] then None
    else if decisions[|decisions| - 1].id == id then Some(decisions[|decisions| - 1].reason)
    else LastReason(decisions[..|decisions| - 1], id)
  }

  /** The retention report of any input. */
  ghost function GivenDecisions(snapshots: seq<Snapshot>, policy: Policy, now: nat): seq<Decision> {
    var sorted := SortBy(snapshots, ByMirrorAndAge);
    seq(|sorted|, i requires 0 <= i < |sorted| =>
      Decision(sorted[i].id, GivenReason(snapshots, policy, now, sorted[i])))
  }

  /** Reported eligible, tombstoned, and past its deadline. */
  predicate IsChosen(decisions: seq<Decision>, now: nat, x: Snapshot) {
    LastReason(decisions, x.id) == Some(EligibleOrdinary) && IsGraceComplete(now, x)
  }

  function ChosenIn(snapshots: seq<Snapshot>, decisions: seq<Decision>, now: nat): (r: seq<Snapshot>)
    ensures forall x :: x in r <==> x in snapshots && IsChosen(decisions, now, x)
  {
    if snapshots == [] then []
    else
      var last := |snapshots| - 1;
      ChosenIn(snapshots[..last], decisions, now) + if IsChosen(decisions, now, snapshots[last]) then [snapshots[last]] else []
  }

  /** All candidates in escalation order. */
  ghost function Candidates(snapshots: seq<Snapshot>, policy: Policy, now: nat): (r: seq<Snapshot>) {
    SortBy(ChosenIn(snapshots, GivenDecisions(snapshots, policy, now), now), EscalationOrder)
  }

  /** The reference definition of a candidate. */
  predicate IsCandidate(all: set<Snapshot>, policy: Policy, now: nat, x: Snapshot) {
    ReasonFor(all, policy, now, x) == EligibleOrdinary && IsGraceComplete(now, x)
  }

  lemma {:induction false} LastReasonOf(decisions: seq<Decision>, k: nat)
    requires k < |decisions| && forall i, j | 0 <= i < j < |decisions| :: decisions[i].id != decisions[j].id
    ensures LastReason(decisions, decisions[k].id) == Some(decisions[k].reason)
  {
    var last := |decisions| - 1;
    if k < last {
      LastReasonOf(decisions[..last], k);
    }
  }

  /** With distinct ids, the chosen snapshots are the candidates of the reference definition. */
  lemma ChosenIsCandidate(snapshots: seq<Snapshot>, policy: Policy, now: nat, x: Snapshot)
    requires DistinctList(snapshots) && x in snapshots
    ensures IsChosen(GivenDecisions(snapshots, policy, now), now, x) <==> IsCandidate(Elements(snapshots), policy, now, x)
  {
    var given := GivenDecisions(snapshots, policy, now);
    GivenIsReference(snapshots, policy, now, given);
    EveryIdIsDecidedOnce(snapshots, policy, now, x);
    var k :| 0 <= k < |given| && given[k] == Decision(x.id, ReasonFor(Elements(snapshots), policy, now, x));
    LastReasonOf(given, k);
  }

  /** The true, unbounded sum of the estimates. */
  function TrueSum(candidates: seq<Snapshot>): nat {
    if candidates == [] then 0
    else TrueSum(candidates[..|candidates| - 1]) + candidates[|candidates| - 1].estimatedBytes
  }

  function Select(x: Snapshot): Selection {
    Selection(x.id, if x.targetInactive then InactiveTarget else Ordinary, x.estimatedBytes)
  }

  lemma {:induction false} SumGrows(candidates: seq<Snapshot>, i: nat, j: nat)
    requires i <= j <= |candidates|
    ensures TrueSum(candidates[..i]) <= TrueSum(candidates[..j])
    decreases j
  {
    if i < j {
      assert candidates[..j][..j - 1] == candidates[..j - 1];
      SumGrows(candidates, i, j - 1);
    }
  }

  lemma SumOfNext(candidates: seq<Snapshot>, i: nat)
    requires i < |candidates|
    ensures TrueSum(candidates[..i + 1]) == TrueSum(candidates[..i]) + candidates[i].estimatedBytes
  {
    assert candidates[..i + 1][..i] == candidates[..i];
  }

  /** The number of candidates taken: as few as reach the request, or all of them. */
  ghost predicate IsShortestPrefix(candidates: seq<Snapshot>, taken: nat, required: nat) {
    && taken <= |candidates|
    && (forall k | 0 <= k < taken :: TrueSum(candidates[..k]) < required)
    && (taken < |candidates| ==> TrueSum(candidates[..taken]) >= required)
  }

  /** The report as a map: the last decision of an id wins. */
  method IndexById(decisions: seq<Decision>) returns (reasons: map<nat, Reason>)
    ensures forall id :: LastReason(decisions, id) == if id in reasons then Some(reasons[id]) else None
  {
    reasons := map[];
    for i := 0 to |decisions|
      invariant forall id :: LastReason(decisions[..i], id) == if id in reasons then Some(reasons[id]) else None
    {
      assert decisions[..i + 1][..i] == decisions[..i];
      reasons := reasons[decisions[i].id := decisions[i].reason];
    }
    assert decisions[..|decisions|] == decisions;
  }

  method SelectCandidates(snapshots: seq<Snapshot>, policy: Policy, now: nat) returns (candidates: seq<Snapshot>)
    ensures candidates == ChosenIn(snapshots, GivenDecisions(snapshots, policy, now), now)
  {
    var decisions := EvaluateRetention(snapshots, policy, now);
    assert decisions == GivenDecisions(snapshots, policy, now);
    var reasons := IndexById(decisions);
    candidates := [];
    for i := 0 to |snapshots|
      invariant candidates == ChosenIn(snapshots[..i], decisions, now)
    {
      var x := snapshots[i];
      assert snapshots[..i + 1][..i] == snapshots[..i];
      if x.id in reasons && reasons[x.id] == EligibleOrdinary && x.deletionNotBefore.Some? && x.deletionNotBefore.value <= now {
        candidates := candidates + [x];
      }
    }
    assert snapshots[..|snapshots|] == snapshots;
  }

  /** Takes candidates in order until the request is reached, with a saturating total. */
  method TakeUntil(candidates: seq<Snapshot>, required: nat) returns (selections: seq<Selection>, freed: nat)
    requires required <= U64_MAX
    ensures IsShortestPrefix(candidates, |selections|, required)
    ensures forall i | 0 <= i < |selections| :: selections[i] == Select(candidates[i])
    ensures freed == Saturated(TrueSum(candidates[..|selections|]))
  {
    selections, freed := [], 0;
    while |selections| < |candidates| && freed < required
      invariant |selections| <= |candidates|
      invariant forall k | 0 <= k < |selections| :: selections[k] == Select(candidates[k])
      invariant forall k | 0 <= k < |selections| :: TrueSum(candidates[..k]) < required
      invariant freed == Saturated(TrueSum(candidates[..|selections|]))
      decreases |candidates| - |selections|
    {
      var x := candidates[|selections|];
      SumOfNext(candidates, |selections|);
      freed := SaturatingAdd(freed, x.estimatedBytes);
      selections := selections + [Select(x)];
    }
  }

  /** Frees space from the candidates in escalation order, for any input. */
  method EvaluateQuotaPressure(snapshots: seq<Snapshot>, policy: Policy, now: nat, required: nat)
    returns (decision: PressureDecision)
    requires required <= U64_MAX
    ensures var candidates := Candidates(snapshots, policy, now);
            && IsShortestPrefix(candidates, |decision.selections|, required)
            && (forall i | 0 <= i < |decision.selections| :: decision.selections[i] == Select(candidates[i]))
            && decision.requiredBytes == required
            && (decision.allocationRefused <==> TrueSum(candidates) < required)
            && decision.freedBytes == Saturated(TrueSum(candidates[..|decision.selections|]))
  {
    var found := SelectCandidates(snapshots, policy, now);
    var candidates := SortBy(found, EscalationOrder);
    var selections, freed := TakeUntil(candidates, required);
    RefusalIsExact(candidates, |selections|, required);
    decision := PressureDecision(selections, freed, required, freed < required);
  }

  /** A saturated total below the request means the true sum of all candidates is. */
  lemma RefusalIsExact(candidates: seq<Snapshot>, taken: nat, required: nat)
    requires IsShortestPrefix(candidates, taken, required) && required <= U64_MAX
    ensures Saturated(TrueSum(candidates[..taken])) < required <==> TrueSum(candidates) < required
  {
    SumGrows(candidates, taken, |candidates|);
    assert candidates[..|candidates|] == candidates;
  }

  /** What is never selected, from the fields alone, and when the inactive tier is reached. */
  lemma PressureIsSafe(snapshots: seq<Snapshot>, policy: Policy, now: nat, i: nat)
    requires i < |Candidates(snapshots, policy, now)|
    ensures var candidates := Candidates(snapshots, policy, now); var x := candidates[i];
            && x in snapshots && x.deletionNotBefore.Some? && x.deletionNotBefore.value <= now
            && LastReason(GivenDecisions(snapshots, policy, now), x.id) == Some(EligibleOrdinary)
            && (x.targetInactive ==>
                  forall y | && y in snapshots && y.deletionNotBefore.Some? && y.deletionNotBefore.value <= now
                             && LastReason(GivenDecisions(snapshots, policy, now), y.id) == Some(EligibleOrdinary)
                             && !y.targetInactive :: y in candidates[..i])
            && (DistinctList(snapshots) ==>
                  && x.activePins == {} && (policy.minimumAge > 0 ==> x.createdAt + policy.minimumAge <= now)
                  && (x.restorable ==>
                        |NewerRestorable(Elements(snapshots), x)| >= policy.keepLastRestorable
                        && |NewerRestorable(Elements(snapshots), x)| >= 1))
  {
    var given := GivenDecisions(snapshots, policy, now);
    var found := ChosenIn(snapshots, given, now);
    var candidates := Candidates(snapshots, policy, now);
    var x := candidates[i];
    SortMembers(found, EscalationOrder);
    EscalationIsTotal();
    SortSorts(found, EscalationOrder);
    assert x in candidates;
    if x.targetInactive {
      forall y | y in snapshots && IsChosen(given, now, y) && !y.targetInactive
        ensures y in candidates[..i]
      {
        assert y in candidates;
        var j :| 0 <= j < |candidates| && candidates[j] == y;
        assert j < i;
        assert candidates[..i][j] == y;
      }
    }
    if DistinctList(snapshots) {
      ChosenIsCandidate(snapshots, policy, now, x);
      ReasonsExactly(Elements(snapshots), policy, now, x);
    }
  }

  /** The escalation order: ordinary targets before inactive ones, then the oldest first, then by mirror and id. */
  lemma CandidatesEscalate(snapshots: seq<Snapshot>, policy: Policy, now: nat, i: nat, j: nat)
    requires i < j < |Candidates(snapshots, policy, now)|
    ensures var x := Candidates(snapshots, policy, now)[i]; var y := Candidates(snapshots, policy, now)[j];
            || (!x.targetInactive && y.targetInactive)
            || (x.targetInactive == y.targetInactive
                && (|| x.createdAt < y.createdAt
                    || (x.createdAt == y.createdAt && x.mirror < y.mirror)
                    || (x.createdAt == y.createdAt && x.mirror == y.mirror && x.id <= y.id)))
  {
    EscalationIsTotal();
    SortSorts(ChosenIn(snapshots, GivenDecisions(snapshots, policy, now), now), EscalationOrder);
  }

  /** A selection carries its snapshot's id and estimate, and the tier its target is in. */
  lemma SelectionNames(x: Snapshot)
    ensures Select(x).id == x.id && Select(x).estimatedBytes == x.estimatedBytes
    ensures Select(x).tier == InactiveTarget <==> x.targetInactive
  {
  }

  lemma EscalationIsTotal()
    ensures IsTotalPreorder(EscalationOrder)
  {
  }
}
