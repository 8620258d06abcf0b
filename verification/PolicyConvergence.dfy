/** Whole-catalog convergence: after an accepted command the lane governs exactly what the document names. */
module PolicyConvergence {
  import opened Common
  import opened TargetState
  import opened Planner
  import opened DeletionTables
  import opened PolicyStore
  import opened PolicyReplay

  ghost predicate RevisionsAtMost(s: Store, version: nat) {
    forall target, n | target in s.revisions && n in s.revisions[target] :: n <= version
  }

  /** No message of this command was ingested yet. */
  ghost predicate IsFresh(s: Store, command: nat) {
    forall m | (POLICY_SOURCE, m) in s.inbox :: m.command != command
  }

  /** Every delivery was built for one command and version, and one repository gets one content. */
  ghost predicate Batch(deliveries: seq<Delivery>, command: nat, version: nat) {
    && (forall i | 0 <= i < |deliveries| ::
          deliveries[i] == DeliveryOf(command, version, deliveries[i].repo, deliveries[i].desired.level))
    && (forall i, j | 0 <= i < j < |deliveries| :: deliveries[i].repo == deliveries[j].repo ==> deliveries[i] == deliveries[j])
  }

  ghost predicate Delivers(deliveries: seq<Delivery>, target: TargetKey, i: nat) {
    i < |deliveries| && target == Repository(deliveries[i].repo)
  }

  /** The history of a target while a batch at `version` is being ingested over `before`. */
  ghost predicate HistoryMidway(before: map<nat, Revision>, now: map<nat, Revision>, deliveries: seq<Delivery>,
                                target: TargetKey, version: nat) {
    now == before
    || exists i: nat :: Delivers(deliveries, target, i)
                        && now == before[version := Stored(deliveries[i].desired, Some(POLICY_SOURCE))]
  }

  /** A state a command can start from: undecided, unseen, and newer than everything stored. */
  ghost predicate CanStart(s: Store, c: Command) {
    && Consistent(s) && IsFresh(s, c.id) && !IsRecorded(s, c.id) && c.version > LastApplied(s.ledger)
    && RevisionsAtMost(s, c.version - 1)
  }

  /** A policy message of this command implies that its repository has the revision. */
  ghost predicate InboxIsBacked(s: Store, c: Command) {
    forall m | (POLICY_SOURCE, m) in s.inbox && m.command == c.id :: c.version in History(s, Repository(m.repo))
  }

  /**
   * A state between the attempts of one command that started from `s0`: some of its transactions
   * happened, and other actors moved statuses and discovered wikis.
   */
  ghost predicate Midway(s0: Store, s: Store, c: Command) {
    && CanStart(s0, c) && Consistent(s) && s.ledger == s0.ledger && RevisionsAtMost(s, c.version)
    && GovernedRepos(s, POLICY_SOURCE, c.version) == GovernedRepos(s0, POLICY_SOURCE, c.version)
    && (forall repo: nat :: HistoryMidway(History(s0, Repository(repo)), History(s, Repository(repo)),
                                          LaneDeliveries(s0, c), Repository(repo), c.version))
    && InboxIsBacked(s, c)
    && (forall m | (POLICY_SOURCE, m) in s.inbox :: (POLICY_SOURCE, m) in s0.inbox || m.command == c.id)
  }

  lemma MidwayAtStart(s: Store, c: Command)
    requires CanStart(s, c)
    ensures Midway(s, s, c)
  {
  }

  /** Deliveries, and so the whole application, are those the command started with. */
  lemma MidwayIntends(s0: Store, s: Store, c: Command)
    requires Midway(s0, s, c)
    ensures LaneDeliveries(s, c) == LaneDeliveries(s0, c) && Application(s, c) == Application(s0, c)
    ensures !IsRecorded(s, c.id) && LastApplied(s.ledger) == LastApplied(s0.ledger)
  {
  }

  lemma IngestKeepsHistory(s: Store, c: Command, d: Delivery, next: Store, target: TargetKey)
    requires Exec(s, Ingest(d)) == Ok(next) && d.desired.revision == c.version && d.source == POLICY_SOURCE
    ensures History(next, target) == History(s, target)
            || (target == Repository(d.repo) && c.version !in History(s, target)
                && History(next, target) == History(s, target)[c.version := Stored(d.desired, Some(POLICY_SOURCE))])
  {
  }

  lemma IngestReaches(s: Store, c: Command, d: Delivery, next: Store)
    requires Exec(s, Ingest(d)) == Ok(next) && InboxIsBacked(s, c)
    requires d == DeliveryOf(c.id, c.version, d.repo, d.desired.level)
    ensures c.version in History(next, Repository(d.repo)) && Repository(d.repo) in next.targets
    ensures InboxIsBacked(next, c)
    ensures forall m | (POLICY_SOURCE, m) in next.inbox :: (POLICY_SOURCE, m) in s.inbox || m.command == c.id
  {
    forall m | (POLICY_SOURCE, m) in next.inbox && m.command == c.id
      ensures c.version in History(next, Repository(m.repo))
    {
      IngestKeepsHistory(s, c, d, next, Repository(m.repo));
    }
  }

  lemma IngestKeepsBounds(s: Store, c: Command, d: Delivery, next: Store)
    requires Exec(s, Ingest(d)) == Ok(next) && d.desired.revision == c.version && d.source == POLICY_SOURCE
    requires RevisionsAtMost(s, c.version)
    ensures RevisionsAtMost(next, c.version)
  {
    forall target, n | target in next.revisions && n in next.revisions[target]
      ensures n <= c.version
    {
      IngestKeepsHistory(s, c, d, next, target);
      assert n in History(next, target);
    }
  }

  lemma HistoryStaysMidway(s0: Store, s: Store, c: Command, i: nat, next: Store, repo: nat)
    requires CanStart(s0, c) && i < |LaneDeliveries(s0, c)| && Exec(s, Ingest(LaneDeliveries(s0, c)[i])) == Ok(next)
    requires HistoryMidway(History(s0, Repository(repo)), History(s, Repository(repo)), LaneDeliveries(s0, c), Repository(repo), c.version)
    ensures HistoryMidway(History(s0, Repository(repo)), History(next, Repository(repo)), LaneDeliveries(s0, c), Repository(repo), c.version)
  {
    var target, d := Repository(repo), LaneDeliveries(s0, c)[i];
    LaneBatch(s0, c);
    IngestKeepsHistory(s, c, d, next, target);
    if History(next, target) != History(s, target) {
      assert History(s, target) == History(s0, target);
      assert Delivers(LaneDeliveries(s0, c), target, i);
    }
  }

  lemma MidwayIngest(s0: Store, s: Store, c: Command, i: nat, next: Store)
    requires Midway(s0, s, c) && i < |LaneDeliveries(s0, c)| && Exec(s, Ingest(LaneDeliveries(s0, c)[i])) == Ok(next)
    ensures Midway(s0, next, c)
    ensures c.version in History(next, Repository(LaneDeliveries(s0, c)[i].repo))
    ensures Repository(LaneDeliveries(s0, c)[i].repo) in next.targets
  {
    var d := LaneDeliveries(s0, c)[i];
    LaneBatch(s0, c);
    IngestReaches(s, c, d, next);
    IngestKeepsBounds(s, c, d, next);
    ExecKeepsConsistent(s, Ingest(d), next, c.version);
    GovernedIsStable(s, Ingest(d), next, c.version);
    forall repo: nat
      ensures HistoryMidway(History(s0, Repository(repo)), History(next, Repository(repo)), LaneDeliveries(s0, c), Repository(repo), c.version)
    {
      HistoryStaysMidway(s0, s, c, i, next, repo);
    }
  }

  lemma MidwayConverge(s0: Store, s: Store, c: Command, target: TargetKey, next: Store)
    requires Midway(s0, s, c) && ConvergeTarget(s, target) == Ok(next)
    ensures Midway(s0, next, c)
  {
    TransitionKeepsRevisions(s, target, next);
    ExecKeepsConsistent(s, Converge(target), next, c.version);
    GovernedIsStable(s, Converge(target), next, c.version);
    SameRevisionsMidway(s0, s, next, c);
  }

  lemma SameRevisionsMidway(s0: Store, s: Store, next: Store, c: Command)
    requires Midway(s0, s, c) && Consistent(next)
    requires next.revisions == s.revisions && next.inbox == s.inbox && next.ledger == s.ledger
    requires GovernedRepos(next, POLICY_SOURCE, c.version) == GovernedRepos(s, POLICY_SOURCE, c.version)
    ensures Midway(s0, next, c)
  {
    assert forall target :: History(next, target) == History(s, target);
  }

  /** Transactions of the command's application, in any number and order. */
  ghost predicate IsPartOf(s0: Store, c: Command, txn: Txn) {
    txn.Converge? || exists i: nat :: i < |LaneDeliveries(s0, c)| && txn == Ingest(LaneDeliveries(s0, c)[i])
  }

  /** However many of its transactions ran before the process stopped or one failed, the state is midway. */
  lemma {:induction false} MidwayRun(s0: Store, s: Store, c: Command, txns: seq<Txn>)
    requires Midway(s0, s, c) && forall k | 0 <= k < |txns| :: IsPartOf(s0, c, txns[k])
    ensures Midway(s0, ExecAll(s, txns).store, c)
    decreases |txns|
  {
    if txns != [] && Exec(s, txns[0]).Ok? {
      var next := Exec(s, txns[0]).value;
      assert IsPartOf(s0, c, txns[0]);
      if txns[0].Converge? {
        MidwayConverge(s0, s, c, txns[0].target, next);
      } else {
        var i: nat :| i < |LaneDeliveries(s0, c)| && txns[0] == Ingest(LaneDeliveries(s0, c)[i]);
        MidwayIngest(s0, s, c, i, next);
      }
      MidwayRun(s0, next, c, txns[1..]);
    }
  }

  lemma ApplicationIsPart(s0: Store, c: Command)
    ensures forall k | 0 <= k < |Application(s0, c)| :: IsPartOf(s0, c, Application(s0, c)[k])
  {
    var deliveries := LaneDeliveries(s0, c);
    forall k | 0 <= k < |Application(s0, c)|
      ensures IsPartOf(s0, c, Application(s0, c)[k])
    {
      if k < |deliveries| {
        assert Application(s0, c)[k] == Ingest(deliveries[k]);
      }
    }
  }

  /** Every delivery of the list has reached its repository. */
  ghost predicate HasReached(s: Store, c: Command, deliveries: seq<Delivery>) {
    forall i | 0 <= i < |deliveries| ::
      c.version in History(s, Repository(deliveries[i].repo)) && Repository(deliveries[i].repo) in s.targets
  }

  lemma ReachedStays(s: Store, c: Command, d: Delivery, next: Store, deliveries: seq<Delivery>)
    requires HasReached(s, c, deliveries) && Exec(s, Ingest(d)) == Ok(next)
    requires d.desired.revision == c.version && d.source == POLICY_SOURCE
    ensures HasReached(next, c, deliveries)
  {
    forall i | 0 <= i < |deliveries|
      ensures c.version in History(next, Repository(deliveries[i].repo)) && Repository(deliveries[i].repo) in next.targets
    {
      IngestKeepsHistory(s, c, d, next, Repository(deliveries[i].repo));
    }
  }

  /** Splitting off the last ingest of a prefix. */
  lemma LastIngest(s: Store, all: seq<Delivery>, n: nat)
    requires 0 < n <= |all| && ExecAll(s, Ingests(all[..n])).error.None?
    ensures ExecAll(s, Ingests(all[..n - 1])).error.None?
    ensures Exec(ExecAll(s, Ingests(all[..n - 1])).store, Ingest(all[n - 1])) == Ok(ExecAll(s, Ingests(all[..n])).store)
  {
    var front, d := all[..n - 1], all[n - 1];
    assert all[..n] == front + [d] && Ingests(all[..n]) == Ingests(front) + [Ingest(d)];
    ExecAllSplit(s, Ingests(front), [Ingest(d)]);
    OneTxn(ExecAll(s, Ingests(front)).store, Ingest(d), ExecAll(s, Ingests(all[..n])).store);
  }

  lemma ReachedNext(s0: Store, before: Store, c: Command, n: nat, after: Store)
    requires 0 < n <= |LaneDeliveries(s0, c)| && Midway(s0, before, c)
    requires HasReached(before, c, LaneDeliveries(s0, c)[..n - 1])
    requires Exec(before, Ingest(LaneDeliveries(s0, c)[n - 1])) == Ok(after)
    ensures Midway(s0, after, c) && HasReached(after, c, LaneDeliveries(s0, c)[..n])
  {
    var all := LaneDeliveries(s0, c);
    LaneBatch(s0, c);
    MidwayIngest(s0, before, c, n - 1, after);
    ReachedStays(before, c, all[n - 1], after, all[..n - 1]);
    ReachedMore(after, c, all, n);
  }

  lemma ReachedMore(s: Store, c: Command, all: seq<Delivery>, n: nat)
    requires 0 < n <= |all| && HasReached(s, c, all[..n - 1])
    requires c.version in History(s, Repository(all[n - 1].repo)) && Repository(all[n - 1].repo) in s.targets
    ensures HasReached(s, c, all[..n])
  {
    assert all[..n] == all[..n - 1] + [all[n - 1]];
  }

  /** Once the ingest phase succeeds, every delivery has reached its repository, however many were replays. */
  lemma {:induction false} IngestPhase(s0: Store, s: Store, c: Command, n: nat)
    requires Midway(s0, s, c) && n <= |LaneDeliveries(s0, c)|
    requires ExecAll(s, Ingests(LaneDeliveries(s0, c)[..n])).error.None?
    ensures Midway(s0, ExecAll(s, Ingests(LaneDeliveries(s0, c)[..n])).store, c)
    ensures HasReached(ExecAll(s, Ingests(LaneDeliveries(s0, c)[..n])).store, c, LaneDeliveries(s0, c)[..n])
    decreases n
  {
    var all := LaneDeliveries(s0, c);
    if n == 0 {
      assert Ingests(all[..0]) == [];
    } else {
      LastIngest(s, all, n);
      IngestPhase(s0, s, c, n - 1);
      ReachedNext(s0, ExecAll(s, Ingests(all[..n - 1])).store, c, n, ExecAll(s, Ingests(all[..n])).store);
    }
  }

  lemma OneTxn(s: Store, txn: Txn, after: Store)
    requires ExecAll(s, [txn]) == Outcome(after, None)
    ensures Exec(s, txn) == Ok(after)
  {
  }

  lemma {:induction false} ConvergesKeepRevisions(s: Store, targets: seq<TargetKey>)
    requires ExecAll(s, Converges(targets)).error.None?
    ensures var after := ExecAll(s, Converges(targets)).store;
            after.revisions == s.revisions && after.inbox == s.inbox && after.targets.Keys == s.targets.Keys
    decreases |targets|
  {
    if targets != [] {
      assert Converges(targets)[0] == Converge(targets[0]) && Converges(targets)[1..] == Converges(targets[1..]);
      var next := ConvergeTarget(s, targets[0]).value;
      TransitionKeepsRevisions(s, targets[0], next);
      ConvergesKeepRevisions(next, targets[1..]);
    }
  }

  lemma LaneBatch(s: Store, c: Command)
    ensures Batch(LaneDeliveries(s, c), c.id, c.version)
    ensures forall i | 0 <= i < |LaneDeliveries(s, c)| ::
              LaneDeliveries(s, c)[i].desired.level == (if LaneDeliveries(s, c)[i].repo in Named(c) then GitMirror else Nothing)
  {
    var dropped := Dropped(Ascending(GovernedRepos(s, POLICY_SOURCE, c.version)), Named(c));
    var deliveries := LaneDeliveries(s, c);
    forall i | 0 <= i < |deliveries|
      ensures deliveries[i] ==
              DeliveryOf(c.id, c.version, deliveries[i].repo, if deliveries[i].repo in Named(c) then GitMirror else Nothing)
    {
      if i < |c.repositories| {
        assert deliveries[i] == DeliveryOf(c.id, c.version, c.repositories[i], GitMirror);
      } else {
        assert deliveries[i] == DeliveryOf(c.id, c.version, dropped[i - |c.repositories|], Nothing);
        assert dropped[i - |c.repositories|] in dropped;
      }
    }
  }

  lemma DeliveredIsNamedOrDropped(s: Store, c: Command, repo: nat, i: nat)
    requires Delivers(LaneDeliveries(s, c), Repository(repo), i)
    ensures repo in Named(c) || repo in GovernedRepos(s, POLICY_SOURCE, c.version)
  {
    var dropped := Dropped(Ascending(GovernedRepos(s, POLICY_SOURCE, c.version)), Named(c));
    if i >= |c.repositories| {
      assert LaneDeliveries(s, c)[i] == DeliveryOf(c.id, c.version, dropped[i - |c.repositories|], Nothing);
      assert dropped[i - |c.repositories|] in dropped;
    } else {
      assert LaneDeliveries(s, c)[i] == DeliveryOf(c.id, c.version, c.repositories[i], GitMirror);
    }
  }

  lemma NamedOrDroppedIsDelivered(s: Store, c: Command, repo: nat) returns (i: nat)
    requires repo in Named(c) || repo in GovernedRepos(s, POLICY_SOURCE, c.version)
    ensures Delivers(LaneDeliveries(s, c), Repository(repo), i)
  {
    var dropped := Dropped(Ascending(GovernedRepos(s, POLICY_SOURCE, c.version)), Named(c));
    if repo in Named(c) {
      i :| 0 <= i < |c.repositories| && c.repositories[i] == repo;
      assert LaneDeliveries(s, c)[i] == DeliveryOf(c.id, c.version, repo, GitMirror);
    } else {
      assert repo in dropped;
      var k :| 0 <= k < |dropped| && dropped[k] == repo;
      i := |c.repositories| + k;
      assert LaneDeliveries(s, c)[i] == DeliveryOf(c.id, c.version, repo, Nothing);
    }
  }

  lemma DeliversNamedAndDropped(s: Store, c: Command, repo: nat)
    ensures repo in Named(c) || repo in GovernedRepos(s, POLICY_SOURCE, c.version) <==>
            exists i: nat :: Delivers(LaneDeliveries(s, c), Repository(repo), i)
  {
    if repo in Named(c) || repo in GovernedRepos(s, POLICY_SOURCE, c.version) {
      var i := NamedOrDroppedIsDelivered(s, c, repo);
    } else if i: nat :| Delivers(LaneDeliveries(s, c), Repository(repo), i) {
      DeliveredIsNamedOrDropped(s, c, repo, i);
    }
  }

  /** An accepted command's outcome is its application followed by the ledger row. */
  lemma AcceptedOutcome(s: Store, c: Command) returns (ingested: Store, applied: Store)
    requires Handle(s, c).error.None? && !IsRecorded(s, c.id) && c.version > LastApplied(s.ledger)
    ensures c.version <= I64_MAX
    ensures ExecAll(s, Ingests(LaneDeliveries(s, c))) == Outcome(ingested, None)
    ensures ExecAll(ingested, Converges(Touched(LaneDeliveries(s, c)))) == Outcome(applied, None)
    ensures ExecAll(s, Application(s, c)) == Outcome(applied, None)
    ensures RecordDecision(applied, c.id, Accepted(c.version, LastApplied(s.ledger))) == Ok(Handle(s, c).store)
  {
    var deliveries := LaneDeliveries(s, c);
    var record := Record(c.id, Accepted(c.version, LastApplied(s.ledger)));
    assert Handle(s, c) == ExecAll(s, Application(s, c) + [record]);
    ExecAllSplit(s, Application(s, c), [record]);
    ExecAllSplit(s, Ingests(deliveries), Converges(Touched(deliveries)));
    ingested := ExecAll(s, Ingests(deliveries)).store;
    applied := ExecAll(s, Application(s, c)).store;
    assert ExecAll(applied, [record]) == Handle(s, c);
  }

  lemma GovernedByVersion(before: map<nat, Revision>, version: nat, row: Revision)
    requires forall n | n in before :: n < version
    ensures IsGovernedBy(before[version := row], POLICY_SOURCE) <==> row.source == Some(POLICY_SOURCE) && row.level != Nothing
  {
    var after := before[version := row];
    assert version in after;
    assert Governing(after) == Some(version);
  }

  /** Which repositories the lane governs once every delivery has reached its repository. */
  lemma GovernedAfterBatch(s0: Store, after: Store, c: Command, repo: nat)
    requires Midway(s0, after, c) && HasReached(after, c, LaneDeliveries(s0, c))
    ensures repo in GovernedNow(after, POLICY_SOURCE) <==> repo in Named(c)
  {
    var target, deliveries := Repository(repo), LaneDeliveries(s0, c);
    var was, now := History(s0, target), History(after, target);
    assert HistoryMidway(was, now, deliveries, target, c.version);
    assert forall n | n in was :: n < c.version;
    assert repo in GovernedNow(after, POLICY_SOURCE) <==> target in after.targets && IsGovernedBy(now, POLICY_SOURCE);
    LaneBatch(s0, c);
    DeliversNamedAndDropped(s0, c, repo);
    if now != was {
      var i: nat :| Delivers(deliveries, target, i)
                    && now == was[c.version := Stored(deliveries[i].desired, Some(POLICY_SOURCE))];
      GovernedByVersion(was, c.version, Stored(deliveries[i].desired, Some(POLICY_SOURCE)));
      assert Repository(deliveries[i].repo) in after.targets;
    } else {
      assert forall i: nat :: !Delivers(deliveries, target, i);
      UndeliveredIsUngoverned(s0, c, repo);
      assert target in after.targets ==> !IsGovernedBy(was, POLICY_SOURCE);
    }
  }

  lemma UndeliveredIsUngoverned(s0: Store, c: Command, repo: nat)
    requires CanStart(s0, c) && repo !in GovernedRepos(s0, POLICY_SOURCE, c.version)
    ensures !IsGovernedBy(History(s0, Repository(repo)), POLICY_SOURCE)
  {
    var was := History(s0, Repository(repo));
    assert forall n | n in was :: n < c.version;
    assert Before(was, POLICY_SOURCE, c.version) == was;
    assert Repository(repo) !in s0.targets ==> was == map[];
  }

  lemma GovernedIsLocal(s: Store, after: Store, repo: nat)
    requires after.revisions == s.revisions && after.targets.Keys == s.targets.Keys
    ensures repo in GovernedNow(after, POLICY_SOURCE) <==> repo in GovernedNow(s, POLICY_SOURCE)
  {
    assert repo in GovernedNow(after, POLICY_SOURCE) <==>
           Repository(repo) in after.targets && IsGovernedBy(History(after, Repository(repo)), POLICY_SOURCE);
    assert repo in GovernedNow(s, POLICY_SOURCE) <==>
           Repository(repo) in s.targets && IsGovernedBy(History(s, Repository(repo)), POLICY_SOURCE);
  }

  lemma RecordKeepsCatalog(s: Store, command: nat, decision: Decision, next: Store)
    requires RecordDecision(s, command, decision) == Ok(next)
    ensures next.revisions == s.revisions && next.targets == s.targets
  {
  }

  /** The attempt that decides the command, from any state midway. */
  ghost predicate Decides(s0: Store, s: Store, c: Command) {
    Midway(s0, s, c) && Handle(s, c).error.None?
  }

  lemma GovernedAfterCommand(s0: Store, s: Store, c: Command)
    requires Decides(s0, s, c)
    ensures forall repo :: repo in GovernedNow(Handle(s, c).store, POLICY_SOURCE) <==> repo in Named(c)
    ensures RevisionsAtMost(Handle(s, c).store, c.version)
  {
    MidwayIntends(s0, s, c);
    var ingested, applied := AcceptedOutcome(s, c);
    var after := Handle(s, c).store;
    RecordKeepsCatalog(applied, c.id, Accepted(c.version, LastApplied(s.ledger)), after);
    CatalogAfterApplication(s0, s, c, ingested, applied);
    forall repo
      ensures repo in GovernedNow(after, POLICY_SOURCE) <==> repo in Named(c)
    {
      GovernedIsLocal(applied, after, repo);
    }
  }

  lemma CatalogAfterApplication(s0: Store, s: Store, c: Command, ingested: Store, applied: Store)
    requires Midway(s0, s, c)
    requires ExecAll(s, Ingests(LaneDeliveries(s, c))) == Outcome(ingested, None)
    requires ExecAll(ingested, Converges(Touched(LaneDeliveries(s, c)))) == Outcome(applied, None)
    ensures forall repo :: repo in GovernedNow(applied, POLICY_SOURCE) <==> repo in Named(c)
    ensures RevisionsAtMost(applied, c.version)
  {
    var deliveries := LaneDeliveries(s0, c);
    MidwayIntends(s0, s, c);
    assert deliveries[..|deliveries|] == deliveries;
    IngestPhase(s0, s, c, |deliveries|);
    ConvergesKeepRevisions(ingested, Touched(deliveries));
    forall repo
      ensures repo in GovernedNow(applied, POLICY_SOURCE) <==> repo in Named(c)
    {
      GovernedAfterBatch(s0, ingested, c, repo);
      GovernedIsLocal(ingested, applied, repo);
    }
  }

  lemma ProposalIsLocal(s: Store, after: Store, target: TargetKey)
    requires after.revisions == s.revisions && after.targets == s.targets && IsSettled(s, target)
    ensures IsSettled(after, target)
  {
  }

  lemma AbsorbedConvergeIsSettled(s: Store, target: TargetKey)
    requires Absorbs(s, Converge(target))
    ensures IsSettled(s, target)
  {
    SettledAfterConverge(s, target, s);
  }

  lemma SettledAfterCommand(s0: Store, s: Store, c: Command, repo: nat)
    requires Decides(s0, s, c) && (repo in Named(c) || repo in GovernedRepos(s0, POLICY_SOURCE, c.version))
    ensures IsSettled(Handle(s, c).store, Repository(repo))
  {
    MidwayIntends(s0, s, c);
    var _, applied := AcceptedOutcome(s, c);
    SettledAfterApplication(s, c, repo, applied);
    RecordKeepsCatalog(applied, c.id, Accepted(c.version, LastApplied(s.ledger)), Handle(s, c).store);
    ProposalIsLocal(applied, Handle(s, c).store, Repository(repo));
  }

  lemma SettledAfterApplication(s: Store, c: Command, repo: nat, applied: Store)
    requires Consistent(s) && ExecAll(s, Application(s, c)) == Outcome(applied, None)
    requires repo in Named(c) || repo in GovernedRepos(s, POLICY_SOURCE, c.version)
    ensures IsSettled(applied, Repository(repo))
  {
    var i := ConvergesNamedAndDropped(s, c, repo);
    ApplicationIsPhased(s, c);
    PrefixIsAbsorbed(s, Application(s, c), c.version);
    assert Absorbs(applied, Application(s, c)[i]);
    AbsorbedConvergeIsSettled(applied, Repository(repo));
  }

  lemma ConvergesNamedAndDropped(s: Store, c: Command, repo: nat) returns (i: nat)
    requires repo in Named(c) || repo in GovernedRepos(s, POLICY_SOURCE, c.version)
    ensures i < |Application(s, c)| && Application(s, c)[i] == Converge(Repository(repo))
  {
    var deliveries := LaneDeliveries(s, c);
    var k := NamedOrDroppedIsDelivered(s, c, repo);
    var touched := Touched(deliveries);
    assert Repository(repo) in touched;
    var n :| 0 <= n < |touched| && touched[n] == Repository(repo);
    i := |deliveries| + n;
    assert |Ingests(deliveries)| == |deliveries|;
    assert Converges(touched)[n] == Converge(Repository(repo));
  }

  lemma LastAppliedAfterCommand(s0: Store, s: Store, c: Command)
    requires Decides(s0, s, c)
    ensures LastApplied(Handle(s, c).store.ledger) == c.version
  {
    MidwayIntends(s0, s, c);
    var _, applied := AcceptedOutcome(s, c);
    ApplicationIsPhased(s, c);
    PrefixIsAbsorbed(s, Application(s, c), c.version);
    LastAppliedAfterRecord(applied, c, Handle(s, c).store);
  }

  lemma LastAppliedAfterRecord(s: Store, c: Command, next: Store)
    requires !IsRecorded(s, c.id) && c.version > LastApplied(s.ledger)
    requires RecordDecision(s, c.id, Accepted(c.version, LastApplied(s.ledger))) == Ok(next)
    ensures LastApplied(next.ledger) == c.version
  {
    assert next.ledger[..|next.ledger| - 1] == s.ledger;
  }

  /**
   * Whole-catalog convergence of one command: it starts above every stored revision, may be stopped or
   * refused any number of times while other actors move statuses between its attempts, and one attempt
   * succeeds. Right after that attempt the lane governs exactly the repositories the document names,
   * and for every repository it delivered the planner proposes neither exclusion nor reactivation.
   */
  lemma WholeCatalogConvergence(s0: Store, s: Store, c: Command)
    requires Decides(s0, s, c)
    ensures var after := Handle(s, c).store;
            && GovernedNow(after, POLICY_SOURCE) == Named(c)
            && RevisionsAtMost(after, c.version)
            && LastApplied(after.ledger) == c.version
            && forall repo | repo in Named(c) || repo in GovernedRepos(s0, POLICY_SOURCE, c.version) ::
                 IsSettled(after, Repository(repo))
  {
    GovernedAfterCommand(s0, s, c);
    LastAppliedAfterCommand(s0, s, c);
    forall repo | repo in Named(c) || repo in GovernedRepos(s0, POLICY_SOURCE, c.version)
      ensures IsSettled(Handle(s, c).store, Repository(repo))
    {
      SettledAfterCommand(s0, s, c, repo);
    }
  }

  // ----- what a command leaves behind -----

  /** The target's row and revisions are the same in both stores. */
  ghost predicate SameTarget(s: Store, after: Store, target: TargetKey) {
    && History(after, target) == History(s, target) && (target in after.targets <==> target in s.targets)
    && (target in s.targets ==> after.targets[target] == s.targets[target])
  }

  lemma TxnLeavesOthers(s: Store, txn: Txn, next: Store, target: TargetKey)
    requires Exec(s, txn) == Ok(next)
    requires txn.Ingest? ==> Repository(txn.delivery.repo) != target
    requires txn.Converge? ==> txn.target != target
    ensures SameTarget(s, next, target)
  {
    match txn
    case Ingest(d) => IngestLeavesOthers(s, d, next, target);
    case Converge(other) => TransitionKeepsRevisions(s, other, next);
    case Record(command, decision) => RecordKeepsCatalog(s, command, decision, next);
  }

  lemma IngestLeavesOthers(s: Store, d: Delivery, next: Store, target: TargetKey)
    requires Exec(s, Ingest(d)) == Ok(next) && Repository(d.repo) != target
    ensures SameTarget(s, next, target)
  {
  }

  lemma {:induction false} RunLeavesOthers(s: Store, txns: seq<Txn>, target: TargetKey)
    requires ExecAll(s, txns).error.None?
    requires forall k | 0 <= k < |txns| :: txns[k].Ingest? ==> Repository(txns[k].delivery.repo) != target
    requires forall k | 0 <= k < |txns| :: txns[k].Converge? ==> txns[k].target != target
    ensures SameTarget(s, ExecAll(s, txns).store, target)
    decreases |txns|
  {
    if txns != [] {
      var next := Exec(s, txns[0]).value;
      TxnLeavesOthers(s, txns[0], next, target);
      RunLeavesOthers(next, txns[1..], target);
    }
  }

  /** A repository that is neither named nor governed before gets no transaction. */
  lemma UndeliveredUntouched(s: Store, c: Command, repo: nat, k: nat)
    requires repo !in Named(c) && repo !in GovernedRepos(s, POLICY_SOURCE, c.version) && k < |Application(s, c)|
    ensures var txn := Application(s, c)[k];
            && (txn.Ingest? ==> Repository(txn.delivery.repo) != Repository(repo))
            && (txn.Converge? ==> txn.target != Repository(repo))
  {
    var deliveries := LaneDeliveries(s, c);
    if k < |deliveries| {
      assert Application(s, c)[k] == Ingest(deliveries[k]);
      if deliveries[k].repo == repo {
        DeliveredIsNamedOrDropped(s, c, repo, k);
      }
    } else {
      var target := Touched(deliveries)[k - |deliveries|];
      assert Application(s, c)[k] == Converge(target) && target in Touched(deliveries);
      var i :| 0 <= i < |deliveries| && target == Repository(deliveries[i].repo);
      if target == Repository(repo) {
        DeliveredIsNamedOrDropped(s, c, repo, i);
      }
    }
  }

  /**
   * Exactly what an accepted command leaves unsettled: the repositories that already were, that it
   * does not name and that the lane did not govern before it.
   */
  lemma LeftBehindIff(s: Store, c: Command, repo: nat)
    requires Consistent(s) && Handle(s, c).error.None? && !IsRecorded(s, c.id) && c.version > LastApplied(s.ledger)
    ensures !IsSettled(Handle(s, c).store, Repository(repo)) <==>
            && !IsSettled(s, Repository(repo))
            && repo !in Named(c) && repo !in GovernedRepos(s, POLICY_SOURCE, c.version)
  {
    var target := Repository(repo);
    var _, applied := AcceptedOutcome(s, c);
    RecordKeepsCatalog(applied, c.id, Accepted(c.version, LastApplied(s.ledger)), Handle(s, c).store);
    if repo in Named(c) || repo in GovernedRepos(s, POLICY_SOURCE, c.version) {
      SettledAfterApplication(s, c, repo, applied);
      ProposalIsLocal(applied, Handle(s, c).store, target);
    } else {
      forall k | 0 <= k < |Application(s, c)|
        ensures var txn := Application(s, c)[k];
                && (txn.Ingest? ==> Repository(txn.delivery.repo) != target)
                && (txn.Converge? ==> txn.target != target)
      {
        UndeliveredUntouched(s, c, repo, k);
      }
      RunLeavesOthers(s, Application(s, c), target);
      SameTargetSettles(s, applied, Handle(s, c).store, target);
    }
  }

  lemma SameTargetSettles(s: Store, applied: Store, after: Store, target: TargetKey)
    requires SameTarget(s, applied, target) && after.revisions == applied.revisions && after.targets == applied.targets
    ensures IsSettled(after, target) <==> IsSettled(s, target)
  {
    assert Proposal(after, target) == Proposal(s, target);
  }

  /** No repository is left behind exactly when every unsettled one is named, or governed before. */
  lemma NoneLeftBehindIff(s: Store, c: Command)
    requires Consistent(s) && Handle(s, c).error.None? && !IsRecorded(s, c.id) && c.version > LastApplied(s.ledger)
    ensures (forall repo: nat :: IsSettled(Handle(s, c).store, Repository(repo))) <==>
            (forall repo: nat | !IsSettled(s, Repository(repo)) ::
               repo in Named(c) || repo in GovernedRepos(s, POLICY_SOURCE, c.version))
  {
    forall repo: nat
      ensures !IsSettled(Handle(s, c).store, Repository(repo)) <==>
              !IsSettled(s, Repository(repo)) && repo !in Named(c) && repo !in GovernedRepos(s, POLICY_SOURCE, c.version)
    {
      LeftBehindIff(s, c, repo);
    }
  }
}
