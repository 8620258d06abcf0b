/** What a convergence pass proposes for a target, as a function of its desired record and observed status. */
module Planner {
  import opened Common
  import opened TargetState

  datatype Level = Nothing | MetadataOnly | GitMirror | GitMirrorWithLfs | CompleteArchive

  /** Where a delivery came from: the policy lane's `backup_policy:<version>` text, or any other message. */
  datatype Correlation = BackupPolicy(version: nat) | Message(id: nat)

  /** A validated desired-state record; an omitted flag stays omitted. */
  datatype Desired = Desired(
    level: Level,
    pinned: Option<bool>,
    includeWiki: Option<bool>,
    includeReleases: Option<bool>,
    includeIssues: Option<bool>,
    offsiteRequired: Option<bool>,
    correlation: Correlation,
    revision: nat)

  datatype WorkItem = Enroll | Exclude | Reactivate | RecordRevisionOnly | CloneAndFetch | Snapshot

  datatype Divergence = PinnedWithdrawal | UnsupportedReleases | UnsupportedIssues

  datatype Plan = Plan(items: seq<WorkItem>, divergences: seq<Divergence>, proposed: nat, executable: nat)

  predicate IsExecutable(item: WorkItem) {
    item in {Enroll, Exclude, Reactivate, RecordRevisionOnly}
  }

  function ExecutableCount(items: seq<WorkItem>): nat {
    if items == [] then 0
    else (if IsExecutable(items[|items| - 1]) then 1 else 0) + ExecutableCount(items[..|items| - 1])
  }

  /** The items proposed to move `observed` toward `desired`. */
  function Items(desired: Desired, observed: Option<TargetStatus>): (items: seq<WorkItem>)
    ensures Exclude in items <==>
            desired.level == Nothing && desired.pinned != Some(true) && observed.Some? && observed.value != Excluded
    ensures Reactivate in items <==> desired.level != Nothing && observed == Some(Excluded)
    ensures Enroll in items <==> desired.level != Nothing && observed.None?
    ensures RecordRevisionOnly in items <==> desired.level !in {Nothing, GitMirrorWithLfs} && observed == Some(Ready)
    ensures CloneAndFetch in items <==> desired.level == GitMirrorWithLfs && observed == Some(Ready)
    ensures CloneAndFetch in items || Snapshot in items ==> items == [CloneAndFetch, Snapshot]
    ensures CloneAndFetch !in items ==> |items| <= 1
  {
    match observed
    case None => if desired.level == Nothing then [] else [Enroll]
    case Some(status) =>
      if desired.level == Nothing then
        if status == Excluded || desired.pinned == Some(true) then [] else [Exclude]
      else if status == Excluded then [Reactivate]
      else if status == Ready then
        if desired.level == GitMirrorWithLfs then [CloneAndFetch, Snapshot] else [RecordRevisionOnly]
      else []
  }

  /** The requested components that are not collected. */
  function Unsupported(desired: Desired): (divergences: seq<Divergence>)
    ensures PinnedWithdrawal !in divergences
    ensures UnsupportedReleases in divergences <==> desired.includeReleases == Some(true)
    ensures UnsupportedIssues in divergences <==> desired.includeIssues == Some(true)
  {
    (if desired.includeReleases == Some(true) then [UnsupportedReleases] else [])
    + (if desired.includeIssues == Some(true) then [UnsupportedIssues] else [])
  }

  /** Requests and withdrawals that the planner reports and leaves alone. */
  function Divergences(desired: Desired, observed: Option<TargetStatus>): (divergences: seq<Divergence>)
    ensures PinnedWithdrawal in divergences <==>
            desired.level == Nothing && desired.pinned == Some(true) && observed.Some? && observed.value != Excluded
    ensures UnsupportedReleases in divergences <==> desired.includeReleases == Some(true)
    ensures UnsupportedIssues in divergences <==> desired.includeIssues == Some(true)
  {
    Unsupported(desired)
    + (if desired.level == Nothing && desired.pinned == Some(true) && observed.Some? && observed.value != Excluded
       then [PinnedWithdrawal] else [])
  }

  /** Every proposal can be executed here, except the mirror work of a collected LFS target. */
  lemma OnlyMirrorWorkWaits(desired: Desired, observed: Option<TargetStatus>)
    ensures ExecutableCount(Items(desired, observed)) ==
            if desired.level == GitMirrorWithLfs && observed == Some(Ready) then 0 else |Items(desired, observed)|
  {
    var items := Items(desired, observed);
    if |items| == 2 {
      assert items[..1] == [CloneAndFetch] && [CloneAndFetch][..0] == [];
    } else if |items| == 1 {
      assert items[..0] == [];
    }
  }

  method CountExecutable(items: seq<WorkItem>) returns (executable: nat)
    ensures executable == ExecutableCount(items)
  {
    executable := 0;
    for i := 0 to |items|
      invariant executable == ExecutableCount(items[..i])
    {
      assert items[..i + 1][..i] == items[..i];
      if IsExecutable(items[i]) {
        executable := executable + 1;
      }
    }
    assert items[..|items|] == items;
  }

  /** The items, pushed one by one, and whether a pin kept a withdrawn target. */
  method Propose(desired: Desired, observed: Option<TargetStatus>) returns (items: seq<WorkItem>, keptByPin: bool)
    ensures items == Items(desired, observed)
    ensures keptByPin <==> PinnedWithdrawal in Divergences(desired, observed)
  {
    var pinned := desired.pinned == Some(true);
    var withdrawn := desired.level == Nothing;
    items, keptByPin := [], false;
    if observed.None? && !withdrawn {
      items := [Enroll];
    } else if observed == Some(Excluded) && withdrawn {
    } else if observed.Some? && withdrawn {
      if pinned {
        keptByPin := true;
      } else {
        items := [Exclude];
      }
    } else if observed == Some(Excluded) {
      items := [Reactivate];
    } else if observed == Some(Ready) {
      items := if desired.level == GitMirrorWithLfs then [CloneAndFetch, Snapshot] else [RecordRevisionOnly];
    }
  }

  /** The proposal of one convergence pass, built by pushing onto two lists. */
  method BuildPlan(desired: Desired, observed: Option<TargetStatus>) returns (plan: Plan)
    ensures plan.items == Items(desired, observed)
    ensures plan.divergences == Divergences(desired, observed)
    ensures plan.proposed == |plan.items| && plan.executable == ExecutableCount(plan.items)
  {
    var divergences: seq<Divergence> := [];
    if desired.includeReleases == Some(true) {
      divergences := divergences + [UnsupportedReleases];
    }
    if desired.includeIssues == Some(true) {
      divergences := divergences + [UnsupportedIssues];
    }
    assert divergences == Unsupported(desired);
    var items, keptByPin := Propose(desired, observed);
    if keptByPin {
      divergences := divergences + [PinnedWithdrawal];
    }
    var executable := CountExecutable(items);
    plan := Plan(items, divergences, |items|, executable);
  }
}
