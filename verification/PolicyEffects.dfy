/** Exactly when each transaction of the policy lane commits, and what it then changes, field by field. */
module PolicyEffects {
  import opened Common
  import opened TargetState
  import opened Planner
  import opened DeletionTables
  import opened DeletionProtocol
  import opened PolicyStore

  /** `number` is the highest stored revision of the target. */
  ghost predicate IsHighest(s: Store, target: TargetKey, number: nat) {
    && target in s.revisions && number in s.revisions[target] && forall n | n in s.revisions[target] :: n <= number
  }

  lemma HighestGoverns(s: Store, target: TargetKey, number: nat)
    requires IsHighest(s, target, number)
    ensures Governing(History(s, target)) == Some(number)
  {
  }

  /** Nothing but this target's status, the outbox and the retention tables differs. */
  ghost predicate OnlyMoved(s: Store, after: Store, target: TargetKey, to: TargetStatus) {
    && target in s.targets && after.targets == s.targets[target := s.targets[target].(status := to)]
    && after.revisions == s.revisions && after.inbox == s.inbox && after.ledger == s.ledger
  }

  // ----- reactivation -----

  /** A stage of some plan of the tombstone was attempted. */
  ghost predicate HasBegun(t: Tables, tombstone: nat) {
    exists i | 0 <= i < |t.attempts| ::
      t.attempts[i].plan < |t.plans| && t.plans[t.attempts[i].plan].tombstone == Some(tombstone)
  }

  /** An open tombstone of the target with a stage already begun stands in the way. */
  ghost predicate IsTooLate(t: Tables, target: TargetKey) {
    var active := OpenTombstone(t.tombstones, target);
    active.Some? && HasBegun(t, active.value)
  }

  /** What cancelling a tombstone does to a plan. */
  ghost predicate WithdrawnWith(before: DeletionPlan, after: DeletionPlan, tombstone: nat) {
    if before.tombstone == Some(tombstone) && before.automatic && before.status == Planned
    then after.status == Withdrawn && after.(status := Planned) == before
    else after == before
  }

  /**
   * An excluded target whose governing level is above none is reactivated exactly when the revision is
   * storable and no stage of its open tombstone's plans began. It is then requested again, with one
   * event; the tombstone is cancelled and its waiting automatic plans are withdrawn.
   */
  lemma ReactivationCommitsIff(s: Store, target: TargetKey, number: nat)
    requires target in s.targets && s.targets[target].status == Excluded
    requires IsHighest(s, target, number) && s.revisions[target][number].level != Nothing
    ensures ConvergeTarget(s, target).Ok? <==> 0 < number <= I64_MAX && !IsTooLate(s.retention, target)
    ensures 0 < number <= I64_MAX && IsTooLate(s.retention, target) ==>
              ConvergeTarget(s, target) == Err(InvalidDelivery("reactivation_after_deletion_started"))
    ensures ConvergeTarget(s, target).Ok? ==>
              var after := ConvergeTarget(s, target).value;
              && OnlyMoved(s, after, target, Requested)
              && after.outbox == s.outbox + [StateChanged(target, Some(Excluded), Requested, number)]
              && TombstoneCancelled(s.retention, after.retention, target)
  {
    HighestGoverns(s, target, number);
    var desired := GovernedRecord(number, s.revisions[target][number]);
    assert WorkItem.Reactivate in Proposal(s, target) && WorkItem.Exclude !in Proposal(s, target);
    CancelCommitsIff(s.retention, target);
  }

  /** The open tombstone is cancelled with its waiting automatic plans; every other row stays. */
  ghost predicate TombstoneCancelled(t: Tables, u: Tables, target: TargetKey) {
    && |u.plans| == |t.plans| && |u.tombstones| == |t.tombstones|
    && u.(plans := t.plans, tombstones := t.tombstones) == t
    && match OpenTombstone(t.tombstones, target)
       case None => u == t
       case Some(k) =>
         && k < |t.tombstones| && u.tombstones == t.tombstones[k := t.tombstones[k].(state := Cancelled)]
         && forall p | 0 <= p < |t.plans| :: WithdrawnWith(t.plans[p], u.plans[p], k)
  }

  lemma CancelCommitsIff(t: Tables, target: TargetKey)
    ensures CancelTombstone(t, target).Ok? <==> !IsTooLate(t, target)
    ensures CancelTombstone(t, target).Err? ==>
              CancelTombstone(t, target).error == InvalidDelivery("reactivation_after_deletion_started")
    ensures CancelTombstone(t, target).Ok? ==> TombstoneCancelled(t, CancelTombstone(t, target).value, target)
  {
  }

  /** With at most one open tombstone per target, none is open after a cancellation. */
  lemma NoneOpenAfterCancel(t: Tables, u: Tables, target: TargetKey)
    requires OneOpen(t.tombstones) && TombstoneCancelled(t, u, target)
    ensures forall k | 0 <= k < |u.tombstones| :: !(u.tombstones[k].target == target && u.tombstones[k].state == Open)
  {
    forall k | 0 <= k < |u.tombstones|
      ensures !(u.tombstones[k].target == target && u.tombstones[k].state == Open)
    {
      var active := OpenTombstone(t.tombstones, target);
      if active.Some? && k != active.value {
        assert u.tombstones[k] == t.tombstones[k];
      } else if active.None? {
        assert !IsOpenFor(t.tombstones[k], target);
      }
    }
  }

  // ----- exclusion -----

  /** The statuses a target can be excluded from. */
  const EXCLUDABLE: set<TargetStatus> := {Requested, Cloning, Ready, Fetching, Healthy, Degraded, Paused}

  /** Afterwards the target has an open tombstone: the one it had, or one for this revision. */
  ghost predicate TombstoneOpened(t: Tables, u: Tables, target: TargetKey, number: nat) {
    && u.(tombstones := t.tombstones) == t
    && u.tombstones ==
       if exists k | 0 <= k < |t.tombstones| :: t.tombstones[k].target == target && t.tombstones[k].state == Open
       then t.tombstones else t.tombstones + [Tombstone(target, number, Open)]
  }

  /**
   * A target that is not excluded, under an unpinned governing revision at level none, is excluded
   * exactly when the revision is storable, the target is unpinned and its status has the legal move. A
   * refusal names the pin, or else the move.
   */
  lemma ExclusionCommitsIff(s: Store, target: TargetKey, number: nat)
    requires target in s.targets && s.targets[target].status != Excluded && IsHighest(s, target, number)
    requires s.revisions[target][number].level == Nothing && !s.revisions[target][number].pinned
    ensures ConvergeTarget(s, target).Ok? <==>
            0 < number <= I64_MAX && !s.targets[target].pinned && s.targets[target].status in EXCLUDABLE
    ensures 0 < number <= I64_MAX && s.targets[target].pinned ==>
              ConvergeTarget(s, target) == Err(InvalidDelivery("target_pin"))
    ensures 0 < number <= I64_MAX && !s.targets[target].pinned && s.targets[target].status !in EXCLUDABLE ==>
              ConvergeTarget(s, target) == Err(IllegalTransition)
    ensures ConvergeTarget(s, target).Ok? ==>
              var after := ConvergeTarget(s, target).value;
              && OnlyMoved(s, after, target, Excluded)
              && after.outbox == s.outbox + [StateChanged(target, Some(s.targets[target].status), Excluded, number)]
              && TombstoneOpened(s.retention, after.retention, target, number)
  {
    HighestGoverns(s, target, number);
    assert WorkItem.Exclude in Proposal(s, target);
    assert HasOpenTombstone(s.retention, target) <==>
           exists k | 0 <= k < |s.retention.tombstones| ::
             s.retention.tombstones[k].target == target && s.retention.tombstones[k].state == Open;
  }

  /** In every other case convergence writes nothing. */
  lemma OtherwiseConvergenceIsIdle(s: Store, target: TargetKey)
    requires forall number | IsHighest(s, target, number) && target in s.targets ::
               var row := s.revisions[target][number];
               if row.level == Nothing then row.pinned || s.targets[target].status == Excluded
               else s.targets[target].status != Excluded
    ensures ConvergeTarget(s, target) == Ok(s)
  {
    var number := Governing(History(s, target));
    if number.Some? {
      assert IsHighest(s, target, number.value);
    }
  }

  // ----- ingest -----

  /** The row a delivery leaves: its level and source, and each flag only if it was asked for. */
  ghost predicate IsRowOf(row: Revision, d: Delivery) {
    && row.level == d.desired.level && row.source == Some(d.source) && row.correlation == d.desired.correlation
    && (row.pinned <==> d.desired.pinned == Some(true))
    && (row.includeWiki <==> d.desired.includeWiki == Some(true))
    && (row.includeReleases <==> d.desired.includeReleases == Some(true))
    && (row.includeIssues <==> d.desired.includeIssues == Some(true))
    && (row.offsiteRequired <==> d.desired.offsiteRequired == Some(true))
  }

  /**
   * An ingest refuses an unstorable revision, absorbs a known message, and otherwise claims the message,
   * enrolls a target seen for the first time with one event, and stores the revision unless its number
   * is taken.
   */
  lemma IngestDoes(s: Store, d: Delivery)
    ensures d.desired.revision > I64_MAX ==> IngestDelivery(s, d) == Err(InvalidDelivery("policy_revision"))
    ensures d.desired.revision <= I64_MAX && (d.source, d.message) in s.inbox ==> IngestDelivery(s, d) == Ok(Ingested(s, true))
    ensures d.desired.revision == 0 && (d.source, d.message) !in s.inbox ==> IngestDelivery(s, d) == Err(StorageFailed)
    ensures 0 < d.desired.revision <= I64_MAX && (d.source, d.message) !in s.inbox ==>
              var target, number := Repository(d.repo), d.desired.revision;
              && IngestDelivery(s, d).Ok? && !IngestDelivery(s, d).value.duplicate
              && var after := IngestDelivery(s, d).value.store;
              && after.inbox == s.inbox + {(d.source, d.message)} && after.ledger == s.ledger && after.retention == s.retention
              && (target in s.targets ==> after.targets == s.targets && after.outbox == s.outbox)
              && (target !in s.targets ==>
                    && after.targets == s.targets[target := Target(Requested, false)]
                    && after.outbox == s.outbox + [StateChanged(target, None, Requested, number)])
              && number in History(after, target)
              && (if number in History(s, target) then after.revisions == s.revisions
                  else IsRowOf(History(after, target)[number], d)
                       && after.revisions == s.revisions[target := History(s, target)[number := History(after, target)[number]]])
  {
  }

  /** A stored revision and the record it stands for determine each other. */
  lemma RevisionRoundTrip(number: nat, row: Revision)
    ensures Stored(GovernedRecord(number, row), row.source) == row && GovernedRecord(number, row).revision == number
  {
  }

  /** Restating a record through its stored row keeps what the planner reads. */
  lemma RecordRoundTrip(d: Desired, source: Option<string>, observed: Option<TargetStatus>)
    ensures Items(GovernedRecord(d.revision, Stored(d, source)), observed) == Items(d, observed)
    ensures Divergences(GovernedRecord(d.revision, Stored(d, source)), observed) == Divergences(d, observed)
    ensures GovernedRecord(d.revision, Stored(d, source)).correlation == d.correlation
  {
  }

  /** The row counts as it stood before `version` of `source`: any other source's row, or an earlier one of its own. */
  ghost predicate CountsBefore(row: Revision, number: nat, source: string, version: nat) {
    row.source != Some(source) || number < version
  }

  /** Of the rows that count, the highest came from the source at a level above none. */
  ghost predicate WasGoverned(s: Store, repo: nat, source: string, version: nat, number: nat) {
    var target := Repository(repo);
    && target in s.targets && target in s.revisions && number in s.revisions[target]
    && CountsBefore(s.revisions[target][number], number, source, version)
    && (forall n | n in s.revisions[target] && CountsBefore(s.revisions[target][n], n, source, version) :: n <= number)
    && s.revisions[target][number].source == Some(source) && s.revisions[target][number].level != Nothing
  }

  /** The query: refused beyond the storage range, and otherwise exactly the repositories so governed, ascending. */
  lemma GovernedBeforeIs(s: Store, source: string, version: nat)
    ensures version > I64_MAX <==> TargetsGovernedBefore(s, source, version) == Err(InvalidDelivery("policy_version"))
    ensures version <= I64_MAX ==>
              && TargetsGovernedBefore(s, source, version).Ok? && Ascends(TargetsGovernedBefore(s, source, version).value)
              && forall repo: nat :: repo in TargetsGovernedBefore(s, source, version).value <==>
                   exists number: nat :: WasGoverned(s, repo, source, version, number)
  {
    forall repo: nat
      ensures repo in GovernedRepos(s, source, version) <==> exists number: nat :: WasGoverned(s, repo, source, version, number)
    {
      GovernedIff(s, repo, source, version);
    }
  }

  lemma GovernedIff(s: Store, repo: nat, source: string, version: nat)
    ensures repo in GovernedRepos(s, source, version) <==> exists number: nat :: WasGoverned(s, repo, source, version, number)
  {
    var target := Repository(repo);
    var history := Before(History(s, target), source, version);
    assert repo in GovernedRepos(s, source, version) <==> target in s.targets && IsGovernedBy(history, source);
    if target in s.targets && IsGovernedBy(history, source) {
      forall n | n in History(s, target) && CountsBefore(History(s, target)[n], n, source, version)
        ensures n <= Governing(history).value
      {
        assert n in history;
      }
      assert WasGoverned(s, repo, source, version, Governing(history).value);
    }
    if number: nat :| WasGoverned(s, repo, source, version, number) {
      assert number in history && forall n | n in history :: n <= number;
      assert Governing(history) == Some(number);
    }
  }

  // ----- deliveries -----

  /** The deliveries of a command: its named repositories in document order, then the dropped ones ascending. */
  lemma DeliveriesInOrder(s: Store, c: Command, i: nat)
    requires i < |LaneDeliveries(s, c)|
    ensures var d := LaneDeliveries(s, c)[i];
            && d.source == "github-policy" && d.message == MessageId(c.id, d.repo)
            && d.desired.revision == c.version && d.desired.correlation == BackupPolicy(c.version)
            && d.desired.level == (if i < |c.repositories| then GitMirror else Nothing)
            && d.desired.pinned == None && d.desired.includeWiki == None && d.desired.includeReleases == None
            && d.desired.includeIssues == None && d.desired.offsiteRequired == None
    ensures i < |c.repositories| ==> LaneDeliveries(s, c)[i].repo == c.repositories[i]
    ensures |c.repositories| <= i && i + 1 < |LaneDeliveries(s, c)| ==>
              LaneDeliveries(s, c)[i].repo < LaneDeliveries(s, c)[i + 1].repo
  {
    var governed := Ascending(GovernedRepos(s, POLICY_SOURCE, c.version));
    var dropped := Dropped(governed, Named(c));
    DroppedAscends(governed, Named(c));
    if |c.repositories| <= i && i + 1 < |LaneDeliveries(s, c)| {
      var k := i - |c.repositories|;
      assert LaneDeliveries(s, c)[i].repo == dropped[k] && LaneDeliveries(s, c)[i + 1].repo == dropped[k + 1];
      assert dropped[k] < dropped[k + 1];
    }
  }

  ghost predicate Ascends(numbers: seq<nat>) {
    forall i, j | 0 <= i < j < |numbers| :: numbers[i] < numbers[j]
  }

  lemma {:induction false} DroppedAscends(governed: seq<nat>, kept: set<nat>)
    requires Ascends(governed)
    ensures Ascends(Dropped(governed, kept))
  {
    if governed != [] {
      var rest := Dropped(governed[1..], kept);
      DroppedAscends(governed[1..], kept);
      forall k | 0 <= k < |rest|
        ensures governed[0] < rest[k]
      {
        assert rest[k] in rest;
      }
      if governed[0] in kept {
        assert Dropped(governed, kept) == rest;
      } else {
        assert Dropped(governed, kept) == [governed[0]] + rest;
      }
    }
  }

  // ----- the ledger -----

  /**
   * A decision is refused when its version cannot be stored or an accepted row has it; it is written once
   * per command, as one row that points at the one acknowledgement appended with it.
   */
  lemma RecordDoes(s: Store, command: nat, decision: Decision)
    ensures decision.version > I64_MAX ==> RecordDecision(s, command, decision) == Err(InvalidDelivery("policy_version"))
    ensures decision.version <= I64_MAX && (exists i | 0 <= i < |s.ledger| :: s.ledger[i].command == command) ==>
              RecordDecision(s, command, decision) == Ok(s)
    ensures decision.version <= I64_MAX && (forall i | 0 <= i < |s.ledger| :: s.ledger[i].command != command) ==>
              var taken := decision.Accepted?
                           && exists i | 0 <= i < |s.ledger| :: s.ledger[i].accepted && s.ledger[i].version == decision.version;
              if decision.version == 0 || taken then RecordDecision(s, command, decision) == Err(StorageFailed)
              else
                && RecordDecision(s, command, decision).Ok?
                && var after := RecordDecision(s, command, decision).value;
                && after.outbox == s.outbox + [Acknowledged(command, decision)]
                && after.ledger == s.ledger + [LedgerRow(command, decision.version, decision.Accepted?, |s.outbox|)]
                && after.targets == s.targets && after.revisions == s.revisions && after.inbox == s.inbox
                && after.retention == s.retention
  {
  }
}
