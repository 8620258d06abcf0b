/** Planning one pass of scheduled restore verification and drills. */
module VerificationSchedule {
  import opened Common
  import opened Sorting
  import opened Admission

  datatype Policy = Policy(
    verificationFrequency: nat, drillFrequency: nat, sampleSize: nat, scratchByteBudget: U64,
    maxConcurrent: nat, perDrillTimeout: nat)

  datatype Candidate = Candidate(
    snapshot: nat, bundleBytes: U64, lastVerifiedAt: Option<nat>, lastDrilledAt: Option<nat>)

  datatype DeferralReason = Capacity | ScratchBudget

  datatype Deferral = Deferral(snapshot: nat, reason: DeferralReason)

  datatype SchedulePlan = SchedulePlan(selected: seq<nat>, drillSelected: seq<nat>, deferred: seq<Deferral>)

  datatype Outcome = Planned(plan: SchedulePlan) | InvalidVerificationPolicy

  const Size: Candidate -> nat := (c: Candidate) => c.bundleBytes

  predicate IsValid(policy: Policy) {
    && policy.verificationFrequency != 0 && policy.drillFrequency != 0 && policy.sampleSize != 0
    && policy.scratchByteBudget != 0 && policy.maxConcurrent != 0 && policy.perDrillTimeout != 0
  }

  /** `now - last` saturates at zero, so a success stamped in the future is not overdue. */
  predicate IsOverdue(last: Option<nat>, frequency: nat, now: nat) {
    last.None? || (if now < last.value then 0 else now - last.value) >= frequency
  }

  predicate DrillIsDue(c: Candidate, policy: Policy, now: nat) {
    IsOverdue(c.lastDrilledAt, policy.drillFrequency, now)
  }

  predicate IsDue(c: Candidate, policy: Policy, now: nat) {
    IsOverdue(c.lastVerifiedAt, policy.verificationFrequency, now) || DrillIsDue(c, policy, now)
  }

  /** The older of the stamps that exist, or zero when neither does. */
  function Staleness(c: Candidate): (stamp: nat)
    ensures c.lastVerifiedAt.Some? ==> stamp <= c.lastVerifiedAt.value
    ensures c.lastDrilledAt.Some? ==> stamp <= c.lastDrilledAt.value
    ensures c.lastVerifiedAt.None? && c.lastDrilledAt.None? ==> stamp == 0
    ensures c.lastVerifiedAt.Some? || c.lastDrilledAt.Some? ==> Some(stamp) in {c.lastVerifiedAt, c.lastDrilledAt}
  {
    match (c.lastVerifiedAt, c.lastDrilledAt)
    case (None, None) => 0
    case (Some(v), None) => v
    case (None, Some(d)) => d
    case (Some(v), Some(d)) => if d < v then d else v
  }

  predicate StalestFirst(a: Candidate, b: Candidate) {
    Staleness(a) < Staleness(b) || (Staleness(a) == Staleness(b) && a.snapshot <= b.snapshot)
  }

  function DueIn(candidates: seq<Candidate>, policy: Policy, now: nat): seq<Candidate> {
    if candidates == [] then []
    else
      var last := candidates[|candidates| - 1];
      DueIn(candidates[..|candidates| - 1], policy, now) + if IsDue(last, policy, now) then [last] else []
  }

  function CeilingsOf(policy: Policy): Ceilings {
    Ceilings(if policy.sampleSize < policy.maxConcurrent then policy.sampleSize else policy.maxConcurrent,
             policy.scratchByteBudget)
  }

  function Ordered(candidates: seq<Candidate>, policy: Policy, now: nat): seq<Candidate> {
    SortBy(DueIn(candidates, policy, now), StalestFirst)
  }

  /** What one pass does with the due candidates. */
  function Pass(candidates: seq<Candidate>, policy: Policy, now: nat): Split<Candidate> {
    Greedy(Ordered(candidates, policy, now), Size, CeilingsOf(policy))
  }

  function Ids(items: seq<Candidate>): seq<nat> {
    seq(|items|, i requires 0 <= i < |items| => items[i].snapshot)
  }

  function DrillsIn(items: seq<Candidate>, policy: Policy, now: nat): seq<nat> {
    if items == [] then []
    else
      var last := items[|items| - 1];
      DrillsIn(items[..|items| - 1], policy, now) + if DrillIsDue(last, policy, now) then [last.snapshot] else []
  }

  /** The deferrals in order, each with the ceiling that refused it when it was considered. */
  function Deferrals(items: seq<Candidate>, limits: Ceilings): seq<Deferral> {
    if items == [] then []
    else
      var last := items[|items| - 1];
      var taken := Greedy(items[..|items| - 1], Size, limits).taken;
      Deferrals(items[..|items| - 1], limits)
      + if Fits(taken, last, Size, limits) then []
        else [Deferral(last.snapshot, if |taken| >= limits.maxItems then Capacity else ScratchBudget)]
  }

  /** Every deferred candidate is reported once, in order, and its stated reason is true of the final selection. */
  lemma {:induction false} ReasonsStayTrue(items: seq<Candidate>, limits: Ceilings)
    ensures var split := Greedy(items, Size, limits); var deferred := Deferrals(items, limits);
            && |deferred| == |split.left|
            && forall i | 0 <= i < |deferred| ::
                 && deferred[i].snapshot == split.left[i].snapshot
                 && (deferred[i].reason == Capacity ==> |split.taken| == limits.maxItems)
                 && (deferred[i].reason == ScratchBudget ==>
                       Total(split.taken, Size) + split.left[i].bundleBytes > limits.maxBytes)
  {
    if items != [] {
      var last := |items| - 1;
      ReasonsStayTrue(items[..last], limits);
      GreedyWithinCeilings(items, Size, limits);
      TotalOfPrefix(Greedy(items[..last], Size, limits).taken, Greedy(items, Size, limits).taken, Size);
    }
  }

  lemma {:induction false} DueCounts(candidates: seq<Candidate>, policy: Policy, now: nat, c: Candidate)
    ensures multiset(DueIn(candidates, policy, now))[c]
            == if IsDue(c, policy, now) then multiset(candidates)[c] else 0
  {
    if candidates != [] {
      var last := |candidates| - 1;
      DueCounts(candidates[..last], policy, now, c);
      assert candidates == candidates[..last] + [candidates[last]];
    }
  }

  lemma StalestFirstIsTotal()
    ensures IsTotalPreorder(StalestFirst)
  {
  }

  /**
   * Selected and deferred together are the due candidates, each as often as it was given; the
   * selection respects both ceilings.
   */
  lemma PassPartitionsTheDue(candidates: seq<Candidate>, policy: Policy, now: nat)
    ensures var split := Pass(candidates, policy, now);
            && (forall c :: multiset(split.taken)[c] + multiset(split.left)[c]
                            == if IsDue(c, policy, now) then multiset(candidates)[c] else 0)
            && |split.taken| <= policy.sampleSize && |split.taken| <= policy.maxConcurrent
            && Total(split.taken, Size) <= policy.scratchByteBudget
            && (forall c | c in split.left ::
                  || |split.taken| == policy.sampleSize || |split.taken| == policy.maxConcurrent
                  || Total(split.taken, Size) + c.bundleBytes > policy.scratchByteBudget)
  {
    var due := DueIn(candidates, policy, now);
    var ordered := Ordered(candidates, policy, now);
    SortKeeps(due, StalestFirst);
    GreedyPartitions(ordered, Size, CeilingsOf(policy));
    GreedyWithinCeilings(ordered, Size, CeilingsOf(policy));
    GreedyIsMaximal(ordered, Size, CeilingsOf(policy));
    var split := Pass(candidates, policy, now);
    forall c
      ensures multiset(split.taken)[c] + multiset(split.left)[c]
              == if IsDue(c, policy, now) then multiset(candidates)[c] else 0
    {
      DueCounts(candidates, policy, now, c);
      assert (multiset(split.taken) + multiset(split.left))[c] == multiset(due)[c];
    }
  }

  /** The stalest due candidate whose bundle fits the scratch budget alone is always selected first. */
  lemma StalestFittingIsSelected(candidates: seq<Candidate>, policy: Policy, now: nat, c: Candidate)
    requires IsValid(policy) && c in candidates && IsDue(c, policy, now)
    requires c.bundleBytes <= policy.scratchByteBudget
    requires forall d | d in candidates && IsDue(d, policy, now) && d.bundleBytes <= policy.scratchByteBudget && d != c ::
               !StalestFirst(d, c)
    ensures [c] <= Pass(candidates, policy, now).taken
  {
    var due := DueIn(candidates, policy, now);
    var ordered := Ordered(candidates, policy, now);
    DueCounts(candidates, policy, now, c);
    assert c in multiset(due);
    SortMembers(due, StalestFirst);
    StalestFirstIsTotal();
    SortSorts(due, StalestFirst);
    var k := FirstOf(ordered, c);
    forall j | 0 <= j < k
      ensures ordered[j].bundleBytes > policy.scratchByteBudget
    {
      var d := ordered[j];
      assert d in ordered && StalestFirst(d, c);
      DueCounts(candidates, policy, now, d);
      assert d in multiset(due);
      assert d in multiset(candidates);
    }
    FirstFittingIsTaken(ordered, k, Size, CeilingsOf(policy));
  }

  /** Overdue, from the stamp: never done, or done at least a frequency ago. */
  lemma OverdueIff(last: Option<nat>, frequency: nat, now: nat)
    ensures IsOverdue(last, frequency, now) <==>
            last.None? || frequency == 0 || last.value + frequency <= now
  {
  }

  /** A candidate is due for its verification or its drill, each by its own stamp and frequency. */
  lemma DueIff(c: Candidate, policy: Policy, now: nat)
    requires IsValid(policy)
    ensures DrillIsDue(c, policy, now) <==> c.lastDrilledAt.None? || c.lastDrilledAt.value + policy.drillFrequency <= now
    ensures IsDue(c, policy, now) <==>
            || c.lastVerifiedAt.None? || c.lastVerifiedAt.value + policy.verificationFrequency <= now
            || c.lastDrilledAt.None? || c.lastDrilledAt.value + policy.drillFrequency <= now
  {
  }

  /** The drill list, in selection order: exactly the selected candidates whose drill is due. */
  lemma {:induction false} DrillsAreTheDueOnes(items: seq<Candidate>, policy: Policy, now: nat, id: nat)
    requires IsValid(policy)
    ensures id in DrillsIn(items, policy, now) <==>
            exists i | 0 <= i < |items| ::
              items[i].snapshot == id
              && (items[i].lastDrilledAt.None? || items[i].lastDrilledAt.value + policy.drillFrequency <= now)
    ensures |DrillsIn(items, policy, now)| <= |items|
  {
    if items != [] {
      var last := |items| - 1;
      DrillsAreTheDueOnes(items[..last], policy, now, id);
      DueIff(items[last], policy, now);
      forall i | 0 <= i < last
        ensures items[..last][i] == items[i]
      {
      }
      if i :| 0 <= i < |items| && items[i].snapshot == id
              && (items[i].lastDrilledAt.None? || items[i].lastDrilledAt.value + policy.drillFrequency <= now) {
        assert i < last ==> items[..last][i].snapshot == id;
      }
    }
  }

  /** The due candidates are considered from the one whose older stamp is oldest, ties by snapshot. */
  lemma DueAreOrdered(candidates: seq<Candidate>, policy: Policy, now: nat, i: nat, j: nat)
    requires i < j < |Ordered(candidates, policy, now)|
    ensures var x := Ordered(candidates, policy, now)[i]; var y := Ordered(candidates, policy, now)[j];
            Staleness(x) < Staleness(y) || (Staleness(x) == Staleness(y) && x.snapshot <= y.snapshot)
  {
    StalestFirstIsTotal();
    SortSorts(DueIn(candidates, policy, now), StalestFirst);
  }

  /** The selection and the deferrals keep that order. */
  lemma PassIsOrdered(candidates: seq<Candidate>, policy: Policy, now: nat)
    ensures Sorted(Pass(candidates, policy, now).taken, StalestFirst) && Sorted(Pass(candidates, policy, now).left, StalestFirst)
  {
    StalestFirstIsTotal();
    SortSorts(DueIn(candidates, policy, now), StalestFirst);
    GreedyKeepsOrder(Ordered(candidates, policy, now), Size, CeilingsOf(policy), StalestFirst);
  }

  lemma {:induction false} FirstOf(items: seq<Candidate>, c: Candidate) returns (k: nat)
    requires c in items
    ensures k < |items| && items[k] == c && c !in items[..k]
    ensures forall j | 0 <= j < k :: items[j] != c
  {
    k := 0;
    while items[k] != c
      invariant k < |items| && c in items[k..]
      invariant forall j | 0 <= j < k :: items[j] != c
      decreases |items| - k
    {
      assert items[k..] == [items[k]] + items[k + 1..];
      k := k + 1;
    }
  }

  lemma NextCandidate(due: seq<Candidate>, i: nat, limits: Ceilings)
    requires i < |due|
    ensures var taken := Greedy(due[..i], Size, limits).taken; var fits := Fits(taken, due[i], Size, limits);
            && Greedy(due[..i + 1], Size, limits).taken == (if fits then taken + [due[i]] else taken)
            && Deferrals(due[..i + 1], limits) == Deferrals(due[..i], limits)
               + if fits then []
                 else [Deferral(due[i].snapshot, if |taken| >= limits.maxItems then Capacity else ScratchBudget)]
  {
    assert due[..i + 1][..i] == due[..i];
  }

  lemma NextIds(taken: seq<Candidate>, c: Candidate, policy: Policy, now: nat)
    ensures Ids(taken + [c]) == Ids(taken) + [c.snapshot]
    ensures DrillsIn(taken + [c], policy, now)
            == DrillsIn(taken, policy, now) + if DrillIsDue(c, policy, now) then [c.snapshot] else []
    ensures Total(taken + [c], Size) == Total(taken, Size) + c.bundleBytes
  {
    assert (taken + [c])[..|taken|] == taken;
  }

  /** Admits the ordered due candidates one by one, with checked 64-bit addition. */
  method Admit(due: seq<Candidate>, policy: Policy, now: nat, limits: Ceilings) returns (plan: SchedulePlan)
    requires limits == CeilingsOf(policy)
    ensures var taken := Greedy(due, Size, limits).taken;
            plan == SchedulePlan(Ids(taken), DrillsIn(taken, policy, now), Deferrals(due, limits))
  {
    var selected, drills: seq<nat>, deferred: seq<Deferral> := [], [], [];
    var admittedBytes: U64 := 0;
    ghost var taken: seq<Candidate> := [];
    for i := 0 to |due|
      invariant taken == Greedy(due[..i], Size, limits).taken && admittedBytes == Total(taken, Size)
      invariant selected == Ids(taken) && drills == DrillsIn(taken, policy, now)
      invariant deferred == Deferrals(due[..i], limits)
    {
      var c := due[i];
      NextCandidate(due, i, limits);
      var nextBytes := CheckedAdd(admittedBytes, c.bundleBytes);
      if |selected| >= limits.maxItems {
        deferred := deferred + [Deferral(c.snapshot, Capacity)];
      } else if nextBytes.None? {
        deferred := deferred + [Deferral(c.snapshot, ScratchBudget)];
      } else if nextBytes.value > policy.scratchByteBudget {
        deferred := deferred + [Deferral(c.snapshot, ScratchBudget)];
      } else {
        NextIds(taken, c, policy, now);
        admittedBytes := nextBytes.value;
        if DrillIsDue(c, policy, now) {
          drills := drills + [c.snapshot];
        }
        selected := selected + [c.snapshot];
        taken := taken + [c];
      }
    }
    assert due[..|due|] == due;
    plan := SchedulePlan(selected, drills, deferred);
  }

  /** Selects due work; refuses a policy with a zero bound. */
  method PlanDueSnapshots(now: nat, policy: Policy, candidates: seq<Candidate>) returns (outcome: Outcome)
    ensures outcome.InvalidVerificationPolicy? <==>
            0 in {policy.verificationFrequency, policy.drillFrequency, policy.sampleSize, policy.scratchByteBudget,
                  policy.maxConcurrent, policy.perDrillTimeout}
    ensures outcome.Planned? <==> IsValid(policy)
    ensures outcome.Planned? ==>
              var split := Pass(candidates, policy, now); var plan := outcome.plan;
              && plan.selected == Ids(split.taken)
              && plan.drillSelected == DrillsIn(split.taken, policy, now)
              && plan.deferred == Deferrals(Ordered(candidates, policy, now), CeilingsOf(policy))
  {
    if policy.verificationFrequency == 0 || policy.drillFrequency == 0 || policy.sampleSize == 0
       || policy.scratchByteBudget == 0 || policy.maxConcurrent == 0 || policy.perDrillTimeout == 0
    {
      return InvalidVerificationPolicy;
    }
    var due := Ordered(candidates, policy, now);
    var plan := Admit(due, policy, now, CeilingsOf(policy));
    outcome := Planned(plan);
  }
}
