/** The retention policy engine: which snapshots are protected, and why. */
module RetentionEngine {
  import opened Common
  import opened Sorting

  datatype PinSource = Operator | User

  datatype Snapshot = Snapshot(
    id: nat, mirror: nat, createdAt: nat, restorable: bool, activePins: set<PinSource>, targetInactive: bool,
    deletionNotBefore: Option<nat>, estimatedBytes: nat)

  datatype Policy = Policy(keepLastRestorable: nat, minimumAge: nat)

  datatype Reason = EligibleOrdinary | ProtectedAgeFloor | ProtectedKeepLastRestorable | ProtectedPinned

  datatype Decision = Decision(id: nat, reason: Reason)

  // ----- the reference definition, over sets -----

  predicate Newer(a: Snapshot, b: Snapshot) {
    a.createdAt > b.createdAt || (a.createdAt == b.createdAt && a.id > b.id)
  }

  predicate SameWindow(a: Snapshot, b: Snapshot) {
    a.restorable && b.restorable && a.mirror == b.mirror
  }

  /** The restorable snapshots of the same mirror that are newer. */
  function Rivals(all: set<Snapshot>, x: Snapshot): set<Snapshot> {
    set y | y in all && SameWindow(y, x) && Newer(y, x)
  }

  function KeepCount(policy: Policy): nat {
    if policy.keepLastRestorable > 1 then policy.keepLastRestorable else 1
  }

  /** Fewer than the kept number of its mirror's restorable snapshots are newer. */
  predicate IsKept(all: set<Snapshot>, policy: Policy, x: Snapshot) {
    x.restorable && |Rivals(all, x)| < KeepCount(policy)
  }

  function Age(now: nat, createdAt: nat): nat {
    if now < createdAt then 0 else now - createdAt
  }

  function ReasonFor(all: set<Snapshot>, policy: Policy, now: nat, x: Snapshot): Reason {
    if x.activePins != {} then ProtectedPinned
    else if Age(now, x.createdAt) < policy.minimumAge then ProtectedAgeFloor
    else if IsKept(all, policy, x) then ProtectedKeepLastRestorable
    else EligibleOrdinary
  }

  ghost predicate DistinctIds(all: set<Snapshot>) {
    forall x, y | x in all && y in all && x.id == y.id :: x == y
  }

  function Eligible(all: set<Snapshot>, policy: Policy, now: nat): set<Snapshot> {
    set x | x in all && ReasonFor(all, policy, now, x) == EligibleOrdinary
  }

  function Window(all: set<Snapshot>, mirror: nat): set<Snapshot> {
    set x | x in all && x.restorable && x.mirror == mirror
  }

  function KeptIn(all: set<Snapshot>, policy: Policy, mirror: nat): set<Snapshot> {
    set x | x in Window(all, mirror) && IsKept(all, policy, x)
  }

  // ----- the engine -----

  /** The input as a list without repeated identities. */
  ghost predicate DistinctList(snapshots: seq<Snapshot>) {
    forall i, j | 0 <= i < j < |snapshots| :: snapshots[i].id != snapshots[j].id
  }

  function Elements(snapshots: seq<Snapshot>): (all: set<Snapshot>) {
    set x | x in snapshots
  }

  predicate NewestFirst(a: Snapshot, b: Snapshot) {
    a.createdAt > b.createdAt || (a.createdAt == b.createdAt && a.id >= b.id)
  }

  predicate ByMirrorAndAge(a: Snapshot, b: Snapshot) {
    a.mirror < b.mirror
    || (a.mirror == b.mirror
        && (a.createdAt < b.createdAt || (a.createdAt == b.createdAt && a.id <= b.id)))
  }

  function RestorableOf(snapshots: seq<Snapshot>, mirror: nat): (r: seq<Snapshot>)
    ensures forall x :: x in r <==> x in snapshots && x.restorable && x.mirror == mirror
  {
    if snapshots == [] then []
    else
      var last := |snapshots| - 1;
      RestorableOf(snapshots[..last], mirror)
      + if snapshots[last].restorable && snapshots[last].mirror == mirror then [snapshots[last]] else []
  }

  /** The ids one mirror's window keeps: the head of its newest-first order. */
  function KeepIds(window: seq<Snapshot>, count: nat): set<nat> {
    var sorted := SortBy(window, NewestFirst);
    set i | 0 <= i < |sorted| && i < count :: sorted[i].id
  }

  /** The decisions in report order. */
  function Decisions(snapshots: seq<Snapshot>, policy: Policy, now: nat): (r: seq<Decision>) {
    var sorted := SortBy(snapshots, ByMirrorAndAge);
    seq(|sorted|, i requires 0 <= i < |sorted| =>
      Decision(sorted[i].id, ReasonFor(Elements(snapshots), policy, now, sorted[i])))
  }

  lemma {:induction false} RestorableKeepsDistinct(snapshots: seq<Snapshot>, mirror: nat)
    requires DistinctList(snapshots)
    ensures DistinctList(RestorableOf(snapshots, mirror))
  {
    if snapshots != [] {
      var last := |snapshots| - 1;
      RestorableKeepsDistinct(snapshots[..last], mirror);
      var front := RestorableOf(snapshots[..last], mirror);
      forall i | 0 <= i < |front|
        ensures front[i].id != snapshots[last].id
      {
        assert front[i] in snapshots[..last];
      }
    }
  }

  lemma {:induction false} SortKeepsDistinct(s: seq<Snapshot>, leq: (Snapshot, Snapshot) -> bool)
    requires DistinctList(s)
    ensures DistinctList(SortBy(s, leq))
  {
    SortKeeps(s, leq);
    DistinctCounts(s);
    var t := SortBy(s, leq);
    forall i, j | 0 <= i < j < |t|
      ensures t[i].id != t[j].id
    {
      assert t[i] in multiset(s) && t[j] in multiset(s);
      assert t == t[..j] + [t[j]] + t[j + 1..] && t[i] in t[..j];
      assert multiset(t)[t[j]] == multiset(t[..j])[t[j]] + 1 + multiset(t[j + 1..])[t[j]];
    }
  }

  lemma {:induction false} DistinctCounts(s: seq<Snapshot>)
    requires DistinctList(s)
    ensures forall x | x in s :: multiset(s)[x] == 1
    ensures forall x, y | x in s && y in s && x.id == y.id :: x == y
  {
    if s != [] {
      var last := |s| - 1;
      DistinctCounts(s[..last]);
      assert s == s[..last] + [s[last]];
      assert s[last] !in s[..last];
    }
  }

  /** In a newest-first list, the position of a snapshot is the number of its rivals. */
  lemma {:induction false} PositionIsRank(g: seq<Snapshot>, all: set<Snapshot>, k: nat)
    requires DistinctList(g) && Sorted(g, NewestFirst) && k < |g| && g[k].restorable
    requires forall x :: x in g <==> x in all && SameWindow(x, g[k])
    ensures |Rivals(all, g[k])| == k
  {
    var before := set i | 0 <= i < k :: g[i];
    forall y
      ensures y in Rivals(all, g[k]) <==> y in before
    {
      if y in Rivals(all, g[k]) {
        var i :| 0 <= i < |g| && g[i] == y;
        assert i < k;
      }
      if y in before {
        var i :| 0 <= i < k && g[i] == y;
        assert NewestFirst(g[i], g[k]);
        assert g[i] in g;
      }
    }
    assert Rivals(all, g[k]) == before;
    PrefixSize(g, k);
  }

  lemma {:induction false} PrefixSize(g: seq<Snapshot>, k: nat)
    requires DistinctList(g) && k <= |g|
    ensures |set i | 0 <= i < k :: g[i]| == k
  {
    var before := set i | 0 <= i < k :: g[i];
    if k > 0 {
      PrefixSize(g, k - 1);
      var shorter := set i | 0 <= i < k - 1 :: g[i];
      assert before == shorter + {g[k - 1]};
      assert g[k - 1] !in shorter;
    }
  }

  lemma OrdersAreTotal()
    ensures IsTotalPreorder(NewestFirst) && IsTotalPreorder(ByMirrorAndAge)
  {
  }

  /** Being among the first ids of the sorted window is being kept, for every snapshot of the input. */
  lemma KeepIdsIsKept(snapshots: seq<Snapshot>, policy: Policy, x: Snapshot)
    requires DistinctList(snapshots) && x in snapshots
    ensures (x.restorable && x.id in KeepIds(RestorableOf(snapshots, x.mirror), KeepCount(policy)))
            <==> IsKept(Elements(snapshots), policy, x)
  {
    if x.restorable {
      var window := RestorableOf(snapshots, x.mirror);
      var g := SortBy(window, NewestFirst);
      RestorableKeepsDistinct(snapshots, x.mirror);
      SortKeepsDistinct(window, NewestFirst);
      OrdersAreTotal();
      SortSorts(window, NewestFirst);
      SortMembers(window, NewestFirst);
      assert x in g;
      var k :| 0 <= k < |g| && g[k] == x;
      PositionIsRank(g, Elements(snapshots), k);
    }
  }

  /** No window keeps the id of a snapshot outside it. */
  lemma KeepIdsStayInWindow(snapshots: seq<Snapshot>, mirror: nat, count: nat, x: Snapshot)
    requires DistinctList(snapshots) && x in snapshots && x.id in KeepIds(RestorableOf(snapshots, mirror), count)
    ensures x.restorable && x.mirror == mirror
  {
    var window := RestorableOf(snapshots, mirror);
    var g := SortBy(window, NewestFirst);
    SortMembers(window, NewestFirst);
    DistinctCounts(snapshots);
    var i :| 0 <= i < |g| && i < count && g[i].id == x.id;
    assert g[i] in g;
  }

  /** Groups the restorable snapshots by mirror. */
  method GroupRestorable(snapshots: seq<Snapshot>) returns (groups: map<nat, seq<Snapshot>>)
    ensures forall mirror :: mirror in groups <==> RestorableOf(snapshots, mirror) != []
    ensures forall mirror | mirror in groups :: groups[mirror] == RestorableOf(snapshots, mirror)
  {
    groups := map[];
    for i := 0 to |snapshots|
      invariant forall mirror :: mirror in groups <==> RestorableOf(snapshots[..i], mirror) != []
      invariant forall mirror | mirror in groups :: groups[mirror] == RestorableOf(snapshots[..i], mirror)
    {
      assert snapshots[..i + 1][..i] == snapshots[..i];
      var x := snapshots[i];
      if x.restorable {
        var group := if x.mirror in groups then groups[x.mirror] else [];
        groups := groups[x.mirror := group + [x]];
      }
    }
    assert snapshots[..|snapshots|] == snapshots;
  }

  /** Collects the protected ids of every window. */
  method KeepLast(groups: map<nat, seq<Snapshot>>, count: nat) returns (keep: set<nat>)
    ensures forall id :: id in keep <==> exists mirror :: mirror in groups && id in KeepIds(groups[mirror], count)
  {
    keep := {};
    var pending := groups.Keys;
    while pending != {}
      invariant pending <= groups.Keys
      invariant forall id :: id in keep <==>
                  exists mirror :: mirror in groups && mirror !in pending && id in KeepIds(groups[mirror], count)
      decreases |pending|
    {
      var mirror :| mirror in pending;
      ghost var earlier, left := keep, pending;
      keep := keep + KeepIds(groups[mirror], count);
      pending := pending - {mirror};
      forall id
        ensures id in keep <==> exists m :: m in groups && m !in pending && id in KeepIds(groups[m], count)
      {
        if id in earlier {
          var m :| m in groups && m !in left && id in KeepIds(groups[m], count);
          assert m !in pending;
        }
      }
    }
  }

  /** An id some window keeps. */
  ghost predicate IsProtectedId(snapshots: seq<Snapshot>, policy: Policy, id: nat) {
    exists mirror :: id in KeepIds(RestorableOf(snapshots, mirror), KeepCount(policy))
  }

  lemma ProtectedMeansKept(snapshots: seq<Snapshot>, policy: Policy, x: Snapshot)
    requires DistinctList(snapshots) && x in snapshots
    ensures IsProtectedId(snapshots, policy, x.id) <==> IsKept(Elements(snapshots), policy, x)
  {
    KeepIdsIsKept(snapshots, policy, x);
    if IsProtectedId(snapshots, policy, x.id) {
      var mirror :| x.id in KeepIds(RestorableOf(snapshots, mirror), KeepCount(policy));
      KeepIdsStayInWindow(snapshots, mirror, KeepCount(policy), x);
    }
  }

  /** The protected ids of every window of the input. */
  method ProtectedIds(snapshots: seq<Snapshot>, policy: Policy) returns (keep: set<nat>)
    ensures forall id :: id in keep <==> IsProtectedId(snapshots, policy, id)
  {
    var groups := GroupRestorable(snapshots);
    var count := if policy.keepLastRestorable > 1 then policy.keepLastRestorable else 1;
    keep := KeepLast(groups, count);
    forall id
      ensures id in keep <==> IsProtectedId(snapshots, policy, id)
    {
      if IsProtectedId(snapshots, policy, id) {
        var mirror :| id in KeepIds(RestorableOf(snapshots, mirror), KeepCount(policy));
        EmptyKeepsNone(RestorableOf(snapshots, mirror), count);
        assert mirror in groups && id in KeepIds(groups[mirror], count);
      }
      if id in keep {
        var mirror :| mirror in groups && id in KeepIds(groups[mirror], count);
        assert id in KeepIds(RestorableOf(snapshots, mirror), KeepCount(policy));
      }
    }
  }

  lemma EmptyKeepsNone(window: seq<Snapshot>, count: nat)
    ensures window == [] ==> KeepIds(window, count) == {}
  {
  }

  /** The reason the engine gives: protection by id. */
  ghost function GivenReason(snapshots: seq<Snapshot>, policy: Policy, now: nat, x: Snapshot): Reason {
    if x.activePins != {} then ProtectedPinned
    else if Age(now, x.createdAt) < policy.minimumAge then ProtectedAgeFloor
    else if IsProtectedId(snapshots, policy, x.id) then ProtectedKeepLastRestorable
    else EligibleOrdinary
  }

  /** Classifies every snapshot for one scheduled evaluation, by mirror and age. */
  method EvaluateRetention(snapshots: seq<Snapshot>, policy: Policy, now: nat) returns (decisions: seq<Decision>)
    ensures |decisions| == |SortBy(snapshots, ByMirrorAndAge)|
    ensures forall i | 0 <= i < |decisions| ::
              var x := SortBy(snapshots, ByMirrorAndAge)[i];
              decisions[i] == Decision(x.id, GivenReason(snapshots, policy, now, x))
    ensures DistinctList(snapshots) ==> decisions == Decisions(snapshots, policy, now)
  {
    var keep := ProtectedIds(snapshots, policy);
    var ordered := SortBy(snapshots, ByMirrorAndAge);
    decisions := [];
    for i := 0 to |ordered|
      invariant |decisions| == i
      invariant forall k | 0 <= k < i ::
                  decisions[k] == Decision(ordered[k].id, GivenReason(snapshots, policy, now, ordered[k]))
    {
      var x := ordered[i];
      var reason :=
        if x.activePins != {} then ProtectedPinned
        else if Age(now, x.createdAt) < policy.minimumAge then ProtectedAgeFloor
        else if x.id in keep then ProtectedKeepLastRestorable
        else EligibleOrdinary;
      decisions := decisions + [Decision(x.id, reason)];
    }
    if DistinctList(snapshots) {
      GivenIsReference(snapshots, policy, now, decisions);
    }
  }

  /** With distinct ids, protection by id is the reference definition. */
  lemma GivenIsReference(snapshots: seq<Snapshot>, policy: Policy, now: nat, decisions: seq<Decision>)
    requires DistinctList(snapshots) && |decisions| == |SortBy(snapshots, ByMirrorAndAge)|
    requires forall i | 0 <= i < |decisions| ::
               var x := SortBy(snapshots, ByMirrorAndAge)[i];
               decisions[i] == Decision(x.id, GivenReason(snapshots, policy, now, x))
    ensures decisions == Decisions(snapshots, policy, now)
  {
    var ordered := SortBy(snapshots, ByMirrorAndAge);
    SortMembers(snapshots, ByMirrorAndAge);
    forall i | 0 <= i < |decisions|
      ensures decisions[i] == Decisions(snapshots, policy, now)[i]
    {
      var x := ordered[i];
      assert x in ordered;
      ProtectedMeansKept(snapshots, policy, x);
      DecisionAt(snapshots, policy, now, i);
    }
  }

  lemma DecisionAt(snapshots: seq<Snapshot>, policy: Policy, now: nat, i: nat)
    requires i < |SortBy(snapshots, ByMirrorAndAge)|
    ensures var x := SortBy(snapshots, ByMirrorAndAge)[i];
            && |Decisions(snapshots, policy, now)| == |SortBy(snapshots, ByMirrorAndAge)|
            && Decisions(snapshots, policy, now)[i] == Decision(x.id, ReasonFor(Elements(snapshots), policy, now, x))
  {
  }

  // ----- the decisions, from the fields alone -----

  /** The restorable snapshots of the same mirror that were created later, or at the same time with a higher id. */
  function NewerRestorable(all: set<Snapshot>, x: Snapshot): set<Snapshot> {
    set y | y in all && y.restorable && y.mirror == x.mirror
            && (y.createdAt > x.createdAt || (y.createdAt == x.createdAt && y.id > x.id))
  }

  /** Younger than the floor; with no floor nothing is young, not even a snapshot stamped in the future. */
  predicate IsYoung(policy: Policy, now: nat, x: Snapshot) {
    policy.minimumAge > 0 && now < x.createdAt + policy.minimumAge
  }

  /** Which reason each snapshot gets: pinned, else young, else among the newest max(N, 1) of its mirror, else eligible. */
  lemma ReasonsExactly(all: set<Snapshot>, policy: Policy, now: nat, x: Snapshot)
    ensures var reason := ReasonFor(all, policy, now, x);
            var kept := x.restorable
                        && (|NewerRestorable(all, x)| < policy.keepLastRestorable || |NewerRestorable(all, x)| < 1);
            && (reason == ProtectedPinned <==> x.activePins != {})
            && (reason == ProtectedAgeFloor <==> x.activePins == {} && IsYoung(policy, now, x))
            && (reason == ProtectedKeepLastRestorable <==> x.activePins == {} && !IsYoung(policy, now, x) && kept)
            && (reason == EligibleOrdinary <==> x.activePins == {} && !IsYoung(policy, now, x) && !kept)
  {
    if x.restorable {
      assert Rivals(all, x) == NewerRestorable(all, x);
    }
  }

  /** The same reasons for any input, with protection by id in place of rank. */
  lemma GivenReasonsExactly(snapshots: seq<Snapshot>, policy: Policy, now: nat, x: Snapshot)
    ensures var reason := GivenReason(snapshots, policy, now, x); var kept := IsProtectedId(snapshots, policy, x.id);
            && (reason == ProtectedPinned <==> x.activePins != {})
            && (reason == ProtectedAgeFloor <==> x.activePins == {} && IsYoung(policy, now, x))
            && (reason == ProtectedKeepLastRestorable <==> x.activePins == {} && !IsYoung(policy, now, x) && kept)
            && (reason == EligibleOrdinary <==> x.activePins == {} && !IsYoung(policy, now, x) && !kept)
  {
  }

  /** The report lists mirrors in order, and each mirror's snapshots from the oldest. */
  lemma ReportIsOrdered(snapshots: seq<Snapshot>, i: nat, j: nat)
    requires i < j < |SortBy(snapshots, ByMirrorAndAge)|
    ensures var x := SortBy(snapshots, ByMirrorAndAge)[i]; var y := SortBy(snapshots, ByMirrorAndAge)[j];
            || x.mirror < y.mirror
            || (x.mirror == y.mirror && x.createdAt < y.createdAt)
            || (x.mirror == y.mirror && x.createdAt == y.createdAt && x.id <= y.id)
  {
    OrdersAreTotal();
    SortSorts(snapshots, ByMirrorAndAge);
  }

  // ----- what the decisions guarantee -----

  /** The report does not depend on the order of the input. */
  lemma DecisionsIgnoreInputOrder(a: seq<Snapshot>, b: seq<Snapshot>, policy: Policy, now: nat)
    requires DistinctList(a) && multiset(a) == multiset(b)
    ensures Decisions(a, policy, now) == Decisions(b, policy, now)
  {
    OrdersAreTotal();
    DistinctCounts(a);
    SortIsOrderIndependent(a, b, ByMirrorAndAge);
    forall x
      ensures x in a <==> x in b
    {
      assert x in multiset(a) <==> x in multiset(b);
    }
    assert Elements(a) == Elements(b);
  }

  /** Every snapshot of the input is decided exactly once. */
  lemma EveryIdIsDecidedOnce(snapshots: seq<Snapshot>, policy: Policy, now: nat, x: Snapshot)
    requires DistinctList(snapshots) && x in snapshots
    ensures var d := Decisions(snapshots, policy, now);
            && |d| == |snapshots|
            && Decision(x.id, ReasonFor(Elements(snapshots), policy, now, x)) in d
            && forall i, j | 0 <= i < j < |d| :: d[i].id != d[j].id
  {
    SortKeeps(snapshots, ByMirrorAndAge);
    SortMembers(snapshots, ByMirrorAndAge);
    SortKeepsDistinct(snapshots, ByMirrorAndAge);
    var sorted := SortBy(snapshots, ByMirrorAndAge);
    assert x in sorted;
    var k :| 0 <= k < |sorted| && sorted[k] == x;
    assert Decisions(snapshots, policy, now)[k] == Decision(x.id, ReasonFor(Elements(snapshots), policy, now, x));
  }

  /** A snapshot with a newer-than-nothing rank is the oldest of some rivals: ranks fill without gaps. */
  lemma {:induction false} RankDescends(all: set<Snapshot>, x: Snapshot, n: nat) returns (y: Snapshot)
    requires DistinctIds(all) && x in all && x.restorable && n <= |Rivals(all, x)|
    ensures y in all && SameWindow(y, x) && |Rivals(all, y)| == n
    decreases |Rivals(all, x)|
  {
    if n == |Rivals(all, x)| {
      y := x;
    } else {
      var z := OldestRival(all, x, Rivals(all, x));
      assert Rivals(all, x) == Rivals(all, z) + {z} by {
        forall r
          ensures r in Rivals(all, x) <==> r in Rivals(all, z) + {z}
        {
        }
      }
      assert z !in Rivals(all, z);
      y := RankDescends(all, z, n);
    }
  }

  lemma {:induction false} OldestRival(all: set<Snapshot>, x: Snapshot, some: set<Snapshot>) returns (z: Snapshot)
    requires DistinctIds(all) && some <= Rivals(all, x) && some != {}
    ensures z in some && forall r | r in some && r != z :: Newer(r, z)
    decreases |some|
  {
    var pick :| pick in some;
    var rest := some - {pick};
    if rest == {} {
      z := pick;
      assert some == {pick};
    } else {
      var other := OldestRival(all, x, rest);
      z := if Newer(pick, other) then other else pick;
      assert some == rest + {pick};
    }
  }

  /** Among snapshots of one window, rank orders by age. */
  lemma NewerHasLowerRank(all: set<Snapshot>, a: Snapshot, b: Snapshot)
    requires a in all && b in all && SameWindow(a, b) && Newer(a, b)
    ensures |Rivals(all, a)| < |Rivals(all, b)|
  {
    assert Rivals(all, a) <= Rivals(all, b) - {a};
    SubsetSize(Rivals(all, a), Rivals(all, b) - {a});
  }

  lemma {:induction false} SubsetSize<T>(a: set<T>, b: set<T>)
    requires a <= b
    ensures |a| <= |b|
    decreases |a|
  {
    if a != {} {
      var x :| x in a;
      SubsetSize(a - {x}, b - {x});
    }
  }

  /** Each mirror keeps min(max(N, 1), count) restorable snapshots, and they are its newest. */
  lemma KeepsTheNewest(all: set<Snapshot>, policy: Policy, mirror: nat)
    requires DistinctIds(all)
    ensures var window := Window(all, mirror); var kept := KeptIn(all, policy, mirror);
            && |kept| == (if |window| < KeepCount(policy) then |window| else KeepCount(policy))
            && forall a, b | a in kept && b in window && b !in kept :: Newer(a, b)
  {
    var window, kept := Window(all, mirror), KeptIn(all, policy, mirror);
    KeptSize(all, window, mirror, KeepCount(policy));
    assert kept == RankedBelow(all, window, KeepCount(policy));
    forall a, b | a in kept && b in window && b !in kept
      ensures Newer(a, b)
    {
      if a == b || Newer(b, a) {
        if a != b { NewerHasLowerRank(all, b, a); }
      }
    }
  }

  function RankedBelow(all: set<Snapshot>, window: set<Snapshot>, n: nat): set<Snapshot> {
    set x | x in window && |Rivals(all, x)| < n
  }

  function RankedAt(all: set<Snapshot>, window: set<Snapshot>, n: nat): set<Snapshot> {
    set x | x in window && |Rivals(all, x)| == n
  }

  lemma RankIsUnique(all: set<Snapshot>, y: Snapshot, z: Snapshot)
    requires DistinctIds(all) && y in all && z in all && SameWindow(y, z) && |Rivals(all, y)| == |Rivals(all, z)|
    ensures y == z
  {
    if Newer(z, y) {
      NewerHasLowerRank(all, z, y);
    } else if Newer(y, z) {
      NewerHasLowerRank(all, y, z);
    }
  }

  lemma ProperSubsetSize<T>(a: set<T>, b: set<T>)
    requires a <= b && a != b
    ensures |a| < |b|
  {
    var x :| x in b && x !in a;
    SubsetSize(a, b - {x});
  }

  /** The snapshots of a window at one rank: none, once every snapshot ranks lower, and one otherwise. */
  lemma RankHoldsOne(all: set<Snapshot>, window: set<Snapshot>, mirror: nat, n: nat)
    requires DistinctIds(all) && window == Window(all, mirror)
    ensures |RankedBelow(all, window, n)| <= |window|
    ensures |RankedAt(all, window, n)| == (if |RankedBelow(all, window, n)| == |window| then 0 else 1)
  {
    var at := RankedAt(all, window, n);
    var below := RankedBelow(all, window, n);
    if below == window {
      assert at == {};
    } else {
      ProperSubsetSize(below, window);
      var x :| x in window && x !in below;
      var y := RankDescends(all, x, n);
      forall z | z in at
        ensures z == y
      {
        RankIsUnique(all, y, z);
      }
      assert at == {y};
    }
  }

  lemma NothingRanksBelowZero(all: set<Snapshot>, window: set<Snapshot>)
    ensures |RankedBelow(all, window, 0)| == 0
  {
    assert RankedBelow(all, window, 0) == {};
  }

  lemma RankedBelowGrows(all: set<Snapshot>, window: set<Snapshot>, n: nat)
    ensures |RankedBelow(all, window, n + 1)| == |RankedBelow(all, window, n)| + |RankedAt(all, window, n)|
  {
    assert RankedBelow(all, window, n + 1) == RankedBelow(all, window, n) + RankedAt(all, window, n);
    assert RankedBelow(all, window, n) !! RankedAt(all, window, n);
  }

  /** The lowest n ranks of a window hold min(n, count) snapshots. */
  lemma {:induction false} KeptSize(all: set<Snapshot>, window: set<Snapshot>, mirror: nat, n: nat)
    requires DistinctIds(all) && window == Window(all, mirror)
    ensures |RankedBelow(all, window, n)| == (if |window| < n then |window| else n)
  {
    if n == 0 {
      NothingRanksBelowZero(all, window);
    } else {
      KeptSize(all, window, mirror, n - 1);
      RankHoldsOne(all, window, mirror, n - 1);
      RankedBelowGrows(all, window, n - 1);
    }
  }
}
