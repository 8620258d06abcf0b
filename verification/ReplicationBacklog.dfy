/** Planning one replication pass, and draining a backlog pass by pass. */
module ReplicationBacklog {
  import opened Common
  import opened Sorting
  import opened Admission

  datatype Candidate = Candidate(
    lastVerifiedAt: Option<nat>, snapshot: nat, artifact: nat, replica: nat, sizeBytes: U64)

  datatype Limits = Limits(maxItems: nat, maxBytes: U64, maxConcurrent: nat)

  datatype ReplicationPlan = ReplicationPlan(admitted: seq<Candidate>, deferred: seq<Candidate>, maxConcurrent: nat)

  const Size: Candidate -> nat := (c: Candidate) => c.sizeBytes

  function CeilingsOf(limits: Limits): Ceilings { Ceilings(limits.maxItems, limits.maxBytes) }

  /** Never-verified units first, then the stalest, then by identity. */
  predicate StalestFirst(a: Candidate, b: Candidate) {
    if a.lastVerifiedAt.Some? != b.lastVerifiedAt.Some? then a.lastVerifiedAt.None?
    else if a.lastVerifiedAt.Some? && a.lastVerifiedAt.value != b.lastVerifiedAt.value
      then a.lastVerifiedAt.value < b.lastVerifiedAt.value
    else if a.snapshot != b.snapshot then a.snapshot < b.snapshot
    else if a.artifact != b.artifact then a.artifact < b.artifact
    else a.replica <= b.replica
  }

  lemma StalestFirstIsTotal()
    ensures IsTotalPreorder(StalestFirst)
  {
  }

  /** What one pass does with a backlog. */
  function Pass(candidates: seq<Candidate>, limits: Limits): Split<Candidate> {
    Greedy(SortBy(candidates, StalestFirst), Size, CeilingsOf(limits))
  }

  /** Orders the units and admits what fits, with checked 64-bit addition. */
  method PlanReplicationBacklog(candidates: seq<Candidate>, limits: Limits) returns (plan: ReplicationPlan)
    ensures Split(plan.admitted, plan.deferred) == Pass(candidates, limits)
    ensures plan.maxConcurrent == limits.maxConcurrent
    ensures multiset(plan.admitted) + multiset(plan.deferred) == multiset(candidates)
    ensures |plan.admitted| <= limits.maxItems && Total(plan.admitted, Size) <= limits.maxBytes
    ensures forall c | c in plan.deferred ::
              |plan.admitted| == limits.maxItems || Total(plan.admitted, Size) + c.sizeBytes > limits.maxBytes
  {
    var ordered := SortBy(candidates, StalestFirst);
    var ceilings := CeilingsOf(limits);
    var admitted, deferred: seq<Candidate> := [], [];
    var admittedBytes: U64 := 0;
    for i := 0 to |ordered|
      invariant Split(admitted, deferred) == Greedy(ordered[..i], Size, ceilings)
      invariant admittedBytes == Total(admitted, Size)
    {
      assert ordered[..i + 1][..i] == ordered[..i];
      var nextBytes := CheckedAdd(admittedBytes, ordered[i].sizeBytes);
      if |admitted| < limits.maxItems && nextBytes.Some? && nextBytes.value <= limits.maxBytes {
        admittedBytes := nextBytes.value;
        admitted := admitted + [ordered[i]];
      } else {
        deferred := deferred + [ordered[i]];
      }
    }
    assert ordered[..|ordered|] == ordered;
    SortKeeps(candidates, StalestFirst);
    GreedyPartitions(ordered, Size, ceilings);
    GreedyWithinCeilings(ordered, Size, ceilings);
    GreedyIsMaximal(ordered, Size, ceilings);
    plan := ReplicationPlan(admitted, deferred, limits.maxConcurrent);
  }

  // ----- the order of a pass, from the fields alone -----

  /** `a` comes no later than `b`: never verified first, then by stamp, snapshot, artifact and replica. */
  predicate ComesFirst(a: Candidate, b: Candidate) {
    match (a.lastVerifiedAt, b.lastVerifiedAt)
    case (None, Some(_)) => true
    case (Some(_), None) => false
    case (None, None) => IdentityLeq(a, b)
    case (Some(x), Some(y)) => x < y || (x == y && IdentityLeq(a, b))
  }

  predicate IdentityLeq(a: Candidate, b: Candidate) {
    || a.snapshot < b.snapshot
    || (a.snapshot == b.snapshot && a.artifact < b.artifact)
    || (a.snapshot == b.snapshot && a.artifact == b.artifact && a.replica <= b.replica)
  }

  /** Admitted and deferred units are each listed in that order. */
  lemma PassIsOrdered(candidates: seq<Candidate>, limits: Limits)
    ensures Sorted(Pass(candidates, limits).taken, ComesFirst) && Sorted(Pass(candidates, limits).left, ComesFirst)
  {
    var ordered := SortBy(candidates, StalestFirst);
    StalestFirstIsTotal();
    SortSorts(candidates, StalestFirst);
    assert forall a, b :: StalestFirst(a, b) <==> ComesFirst(a, b);
    assert Sorted(ordered, ComesFirst);
    GreedyKeepsOrder(ordered, Size, CeilingsOf(limits), ComesFirst);
  }

  /**
   * With a positive item ceiling, the first admitted unit comes first among all units that fit alone: a
   * never-verified one if there is any, else the one with the least stamp, ties by identity.
   */
  lemma FirstAdmittedIsStalest(candidates: seq<Candidate>, limits: Limits, c: Candidate)
    requires limits.maxItems > 0 && c in candidates && c.sizeBytes <= limits.maxBytes
    ensures var taken := Pass(candidates, limits).taken;
            && taken != [] && taken[0] in candidates && taken[0].sizeBytes <= limits.maxBytes && ComesFirst(taken[0], c)
            && (c.lastVerifiedAt.None? ==> taken[0].lastVerifiedAt.None?)
  {
    var ordered := SortBy(candidates, StalestFirst);
    SortMembers(candidates, StalestFirst);
    StalestFirstIsTotal();
    SortSorts(candidates, StalestFirst);
    assert c in ordered;
    var n :| 0 <= n < |ordered| && ordered[n] == c;
    var k := LeastFitting(ordered, n, limits.maxBytes);
    FirstFittingIsTaken(ordered, k, Size, CeilingsOf(limits));
    assert ordered[k] in ordered;
    assert k < n ==> StalestFirst(ordered[k], ordered[n]);
  }

  lemma {:induction false} LeastFitting(items: seq<Candidate>, n: nat, maxBytes: nat) returns (k: nat)
    requires n < |items| && items[n].sizeBytes <= maxBytes
    ensures k <= n && items[k].sizeBytes <= maxBytes && forall j | 0 <= j < k :: items[j].sizeBytes > maxBytes
  {
    if j :| 0 <= j < n && items[j].sizeBytes <= maxBytes {
      k := LeastFitting(items, j, maxBytes);
    } else {
      k := n;
    }
  }

  // ----- draining -----

  /** A unit apart from its verification stamp. */
  function Identity(c: Candidate): Candidate { c.(lastVerifiedAt := None) }

  function Identities(items: seq<Candidate>): multiset<Candidate> {
    if items == [] then multiset{} else Identities(items[..|items| - 1]) + multiset{Identity(items[|items| - 1])}
  }

  /** The units that fit the byte ceiling alone. */
  function Fitting(items: seq<Candidate>, maxBytes: nat): multiset<Candidate> {
    if items == [] then multiset{}
    else
      var x := items[|items| - 1];
      Fitting(items[..|items| - 1], maxBytes) + if x.sizeBytes <= maxBytes then multiset{Identity(x)} else multiset{}
  }

  lemma {:induction false} FittingCounts(items: seq<Candidate>, maxBytes: nat, c: Candidate)
    ensures Fitting(items, maxBytes)[c] == if c.sizeBytes <= maxBytes then Identities(items)[c] else 0
  {
    if items != [] {
      FittingCounts(items[..|items| - 1], maxBytes, c);
    }
  }

  lemma {:induction false} IdentitiesOfJoin(a: seq<Candidate>, b: seq<Candidate>)
    ensures Identities(a + b) == Identities(a) + Identities(b)
  {
    if b == [] {
      assert a + b == a;
    } else {
      var last := |b| - 1;
      assert (a + b)[..|a + b| - 1] == a + b[..last];
      IdentitiesOfJoin(a, b[..last]);
    }
  }

  lemma {:induction false} IdentitiesOfPermutation(a: seq<Candidate>, b: seq<Candidate>)
    requires multiset(a) == multiset(b)
    ensures Identities(a) == Identities(b)
  {
    if a == [] {
      assert |multiset(b)| == 0;
    } else {
      var last := |a| - 1;
      var x := a[last];
      assert a == a[..last] + [x];
      assert x in multiset(b);
      var i :| 0 <= i < |b| && b[i] == x;
      var rest := b[..i] + b[i + 1..];
      PullOut(b, i);
      assert multiset(a[..last]) == multiset(a) - multiset{x} == multiset(rest);
      IdentitiesOfPermutation(a[..last], rest);
    }
  }

  lemma PullOut(b: seq<Candidate>, i: nat)
    requires i < |b|
    ensures var rest := b[..i] + b[i + 1..];
            && multiset(b) == multiset(rest) + multiset{b[i]}
            && Identities(b) == Identities(rest) + multiset{Identity(b[i])}
  {
    var x := b[i];
    assert b == b[..i] + ([x] + b[i + 1..]);
    IdentitiesOfJoin(b[..i], b[i + 1..]);
    IdentitiesOfJoin([x], b[i + 1..]);
    IdentitiesOfJoin(b[..i], [x] + b[i + 1..]);
    assert Identities([x]) == multiset{Identity(x)} by { assert [x][..0] == []; }
  }

  /** A pass neither loses nor duplicates a unit. */
  lemma PassConserves(candidates: seq<Candidate>, limits: Limits)
    ensures Identities(candidates)
            == Identities(Pass(candidates, limits).taken) + Identities(Pass(candidates, limits).left)
  {
    var split := Pass(candidates, limits);
    SortKeeps(candidates, StalestFirst);
    GreedyPartitions(SortBy(candidates, StalestFirst), Size, CeilingsOf(limits));
    IdentitiesOfPermutation(candidates, split.taken + split.left);
    IdentitiesOfJoin(split.taken, split.left);
  }

  lemma {:induction false} FirstFitting(items: seq<Candidate>, maxBytes: nat) returns (k: nat)
    requires Fitting(items, maxBytes) != multiset{}
    ensures k < |items| && items[k].sizeBytes <= maxBytes
    ensures forall j | 0 <= j < k :: items[j].sizeBytes > maxBytes
  {
    var last := |items| - 1;
    if Fitting(items[..last], maxBytes) != multiset{} {
      k := FirstFitting(items[..last], maxBytes);
    } else {
      NoneFits(items[..last], maxBytes);
      k := last;
      forall j | 0 <= j < k
        ensures items[j].sizeBytes > maxBytes
      {
        assert items[j] == items[..last][j];
      }
    }
  }

  lemma {:induction false} NoneFits(items: seq<Candidate>, maxBytes: nat)
    requires Fitting(items, maxBytes) == multiset{}
    ensures forall x | x in items :: x.sizeBytes > maxBytes
  {
    if items != [] {
      NoneFits(items[..|items| - 1], maxBytes);
    }
  }

  /** What fits is determined by the identities, whatever the order and the stamps. */
  lemma FittingIgnoresStamps(a: seq<Candidate>, b: seq<Candidate>, maxBytes: nat)
    requires Identities(a) == Identities(b)
    ensures Fitting(a, maxBytes) == Fitting(b, maxBytes)
  {
    forall c
      ensures Fitting(a, maxBytes)[c] == Fitting(b, maxBytes)[c]
    {
      FittingCounts(a, maxBytes, c);
      FittingCounts(b, maxBytes, c);
    }
  }

  /** A pass over a backlog with a fitting unit leaves strictly fewer fitting units. */
  lemma PassMakesProgress(candidates: seq<Candidate>, limits: Limits)
    requires limits.maxItems > 0 && Fitting(candidates, limits.maxBytes) != multiset{}
    ensures |Fitting(Pass(candidates, limits).left, limits.maxBytes)| < |Fitting(candidates, limits.maxBytes)|
  {
    var ordered := SortBy(candidates, StalestFirst);
    var split := Pass(candidates, limits);
    var most := limits.maxBytes;
    SortKeeps(candidates, StalestFirst);
    IdentitiesOfPermutation(candidates, ordered);
    FittingIgnoresStamps(candidates, ordered, most);
    var k := FirstFitting(ordered, most);
    FirstFittingIsTaken(ordered, k, Size, CeilingsOf(limits));
    var c := Identity(ordered[k]);
    assert split.taken == [ordered[k]] + split.taken[1..];
    IdentitiesOfJoin([ordered[k]], split.taken[1..]);
    assert Identities([ordered[k]]) == multiset{c} by { assert [ordered[k]][..0] == []; }
    PassConserves(candidates, limits);
    forall d
      ensures Fitting(split.left, most)[d] + (if d == c then 1 else 0) <= Fitting(candidates, most)[d]
    {
      FittingCounts(split.left, most, d);
      FittingCounts(candidates, most, d);
    }
    SmallerMultiset(Fitting(split.left, most), Fitting(candidates, most), c);
  }

  lemma SmallerMultiset(a: multiset<Candidate>, b: multiset<Candidate>, c: Candidate)
    requires forall d :: a[d] + (if d == c then 1 else 0) <= b[d]
    ensures |a| < |b|
  {
    assert a + multiset{c} <= b;
    assert b == (a + multiset{c}) + (b - (a + multiset{c}));
  }

  /**
   * Successive backlogs: each pass finishes what it admits, and what it defers comes back in any
   * order and with any verification stamps.
   */
  ghost predicate IsDrain(backlogs: seq<seq<Candidate>>, limits: Limits) {
    forall k | 0 <= k < |backlogs| - 1 ::
      Identities(backlogs[k + 1]) == Identities(Pass(backlogs[k], limits).left)
  }

  /** Everything the first k passes admitted. */
  ghost function Admitted(backlogs: seq<seq<Candidate>>, limits: Limits, k: nat): multiset<Candidate>
    requires k <= |backlogs|
  {
    if k == 0 then multiset{}
    else Admitted(backlogs, limits, k - 1) + Identities(Pass(backlogs[k - 1], limits).taken)
  }

  lemma {:induction false} DrainStep(backlogs: seq<seq<Candidate>>, limits: Limits, k: nat)
    requires IsDrain(backlogs, limits) && limits.maxItems > 0 && k < |backlogs|
    ensures Identities(backlogs[0]) == Admitted(backlogs, limits, k) + Identities(backlogs[k])
    ensures var n := |Fitting(backlogs[0], limits.maxBytes)|;
            |Fitting(backlogs[k], limits.maxBytes)| <= (if n < k then 0 else n - k)
  {
    if k > 0 {
      var most := limits.maxBytes;
      DrainStep(backlogs, limits, k - 1);
      var split := Pass(backlogs[k - 1], limits);
      assert Identities(backlogs[k - 1 + 1]) == Identities(split.left);
      PassConserves(backlogs[k - 1], limits);
      FittingIgnoresStamps(backlogs[k], split.left, most);
      if Fitting(backlogs[k - 1], most) != multiset{} {
        PassMakesProgress(backlogs[k - 1], limits);
      } else {
        NothingFitsLater(backlogs[k - 1], limits);
      }
    }
  }

  lemma NothingFitsLater(candidates: seq<Candidate>, limits: Limits)
    requires Fitting(candidates, limits.maxBytes) == multiset{}
    ensures Fitting(Pass(candidates, limits).left, limits.maxBytes) == multiset{}
  {
    PassConserves(candidates, limits);
    forall d
      ensures Fitting(Pass(candidates, limits).left, limits.maxBytes)[d] == 0
    {
      FittingCounts(Pass(candidates, limits).left, limits.maxBytes, d);
      FittingCounts(candidates, limits.maxBytes, d);
    }
  }

  /**
   * A backlog holding n units that fit the byte ceiling alone is drained of them within n passes:
   * each was admitted exactly as often as it was queued, and only oversized units remain.
   */
  lemma BacklogDrains(backlogs: seq<seq<Candidate>>, limits: Limits, k: nat)
    requires IsDrain(backlogs, limits) && limits.maxItems > 0
    requires |backlogs| > 0 && |Fitting(backlogs[0], limits.maxBytes)| <= k < |backlogs|
    ensures forall c | c in backlogs[k] :: c.sizeBytes > limits.maxBytes
    ensures forall c: Candidate | c.sizeBytes <= limits.maxBytes ::
              Admitted(backlogs, limits, k)[c] == Identities(backlogs[0])[c]
  {
    DrainStep(backlogs, limits, k);
    NoneFits(backlogs[k], limits.maxBytes);
    forall c: Candidate | c.sizeBytes <= limits.maxBytes
      ensures Admitted(backlogs, limits, k)[c] == Identities(backlogs[0])[c]
    {
      FittingCounts(backlogs[k], limits.maxBytes, c);
    }
  }
}
