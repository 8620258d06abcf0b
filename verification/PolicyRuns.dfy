/** What holds over whole runs of the policy lane: the ledger chain, and the catalog it governs. */
module PolicyRuns {
  import opened Common
  import opened TargetState
  import opened Planner
  import opened DeletionTables
  import opened PolicyStore
  import opened PolicyReplay
  import opened PolicyConvergence

  // ----- the ledger chain -----

  /** The acknowledgement of row `i` states the row's decision and the version accepted before it. */
  ghost predicate Answers(s: Store, i: nat)
    requires i < |s.ledger|
  {
    var row := s.ledger[i];
    row.acknowledgement < |s.outbox|
    && s.outbox[row.acknowledgement] == Acknowledged(row.command, ForVersion(row.version, LastApplied(s.ledger[..i])))
    && row.accepted == (row.version > LastApplied(s.ledger[..i]))
  }

  ghost predicate AnsweredBy(s: Store, k: nat) {
    exists i: nat | i < |s.ledger| :: s.ledger[i].acknowledgement == k
  }

  /** One row per command, one acknowledgement per row and no other, accepted versions rising. */
  ghost predicate LedgerChain(s: Store) {
    && (forall i, j | 0 <= i < j < |s.ledger| :: s.ledger[i].command != s.ledger[j].command)
    && (forall i, j | 0 <= i < j < |s.ledger| :: s.ledger[i].acknowledgement != s.ledger[j].acknowledgement)
    && (forall i: nat | i < |s.ledger| :: Answers(s, i))
    && (forall k: nat | k < |s.outbox| && s.outbox[k].Acknowledged? :: AnsweredBy(s, k))
  }

  lemma {:induction false} LastAppliedBounds(ledger: seq<LedgerRow>, i: nat)
    requires i < |ledger| && ledger[i].accepted
    ensures ledger[i].version <= LastApplied(ledger)
    decreases |ledger|
  {
    if i < |ledger| - 1 {
      LastAppliedBounds(ledger[..|ledger| - 1], i);
    }
  }

  /** In a chained ledger the accepted versions strictly increase in decision order. */
  lemma AcceptedVersionsRise(s: Store, i: nat, j: nat)
    requires LedgerChain(s) && i < j < |s.ledger| && s.ledger[i].accepted && s.ledger[j].accepted
    ensures s.ledger[i].version < s.ledger[j].version
  {
    assert Answers(s, j);
    LastAppliedBounds(s.ledger[..j], i);
  }

  /** A transaction that writes no ledger row only appends state changes to the outbox. */
  lemma ChainKept(s: Store, next: Store)
    requires LedgerChain(s) && next.ledger == s.ledger && s.outbox <= next.outbox
    requires forall k | |s.outbox| <= k < |next.outbox| :: !next.outbox[k].Acknowledged?
    ensures LedgerChain(next)
  {
    forall i: nat | i < |next.ledger|
      ensures Answers(next, i)
    {
      assert Answers(s, i);
    }
    forall k: nat | k < |next.outbox| && next.outbox[k].Acknowledged?
      ensures AnsweredBy(next, k)
    {
      assert AnsweredBy(s, k);
    }
  }

  lemma ChainRecorded(s: Store, command: nat, version: nat, next: Store)
    requires LedgerChain(s) && RecordDecision(s, command, ForVersion(version, LastApplied(s.ledger))) == Ok(next)
    ensures LedgerChain(next)
  {
    if !IsRecorded(s, command) {
      var n := |s.ledger|;
      assert next.ledger[..n] == s.ledger;
      forall i: nat | i < |next.ledger|
        ensures Answers(next, i)
      {
        assert next.ledger[..i] == (if i < n then s.ledger[..i] else s.ledger);
        if i < n { assert Answers(s, i); }
      }
      forall i: nat | i < n
        ensures next.ledger[i].acknowledgement != next.ledger[n].acknowledgement
      {
        assert Answers(s, i);
      }
      forall k: nat | k < |next.outbox| && next.outbox[k].Acknowledged?
        ensures AnsweredBy(next, k)
      {
        if k == |s.outbox| {
          assert next.ledger[n].acknowledgement == k;
        } else {
          assert AnsweredBy(s, k);
          var i: nat :| i < |s.ledger| && s.ledger[i].acknowledgement == k;
          assert next.ledger[i].acknowledgement == k;
        }
      }
    }
  }

  lemma ExecAppends(s: Store, txn: Txn, next: Store)
    requires !txn.Record? && Exec(s, txn) == Ok(next)
    ensures next.ledger == s.ledger && s.outbox <= next.outbox
    ensures forall k | |s.outbox| <= k < |next.outbox| :: !next.outbox[k].Acknowledged?
  {
  }

  lemma {:induction false} ChainOverRun(s: Store, txns: seq<Txn>, command: nat, version: nat)
    requires LedgerChain(s)
    requires forall i | 0 <= i < |txns| - 1 :: !txns[i].Record?
    requires txns != [] && txns[|txns| - 1].Record? ==>
               txns[|txns| - 1] == Record(command, ForVersion(version, LastApplied(s.ledger)))
    ensures LedgerChain(ExecAll(s, txns).store)
    decreases |txns|
  {
    if txns != [] && Exec(s, txns[0]).Ok? {
      var next := Exec(s, txns[0]).value;
      if txns[0].Record? {
        ChainRecorded(s, command, version, next);
        assert txns[1..] == [];
      } else {
        ExecAppends(s, txns[0], next);
        ChainKept(s, next);
        ChainOverRun(next, txns[1..], command, version);
      }
    }
  }

  lemma ChainOverAttempt(s: Store, c: Command, limit: nat)
    requires LedgerChain(s)
    ensures LedgerChain(HandleFor(s, c, limit).store) && LedgerChain(Handle(s, c).store)
  {
    if Intent(s, c).Ok? {
      var txns := Intent(s, c).value;
      ApplicationIsPhased(s, c);
      ChainOverRun(s, txns, c.id, c.version);
      ChainOverRun(s, if limit < |txns| then txns[..limit] else txns, c.id, c.version);
    }
  }

  // ----- runs -----

  /** Another actor moves a target's status through the guard. */
  function StatusMoved(s: Store, target: TargetKey, to: TargetStatus): Store {
    if target in s.targets && GuardAdmits(s.targets[target].status, to)
    then s.(targets := s.targets[target := s.targets[target].(status := to)]) else s
  }

  /** Wiki discovery: a child target follows its parent's governing revision, without a source. */
  function WikiDiscovered(s: Store, repo: nat): Store {
    if Repository(repo) !in s.targets then s
    else
      var child := if Wiki(repo) in s.targets then s else s.(targets := s.targets[Wiki(repo) := Target(Requested, false)]);
      var history := History(s, Repository(repo));
      match Governing(history)
      case None => child
      case Some(number) =>
        WithRevision(child, Wiki(repo), number,
                     Revision(GitMirror, history[number].pinned, false, false, false, history[number].offsiteRequired,
                              history[number].correlation, None))
  }

  /**
   * A discovered wiki is enrolled once beside a known repository, and follows the repository's governing
   * revision as a mirror of its own: same number, pin, offsite rule and correlation, no components, no source.
   */
  lemma WikiFollowsParent(s: Store, repo: nat)
    ensures Repository(repo) !in s.targets ==> WikiDiscovered(s, repo) == s
    ensures Repository(repo) in s.targets ==>
              var after := WikiDiscovered(s, repo); var parent := History(s, Repository(repo)); var child := Wiki(repo);
              && after.inbox == s.inbox && after.outbox == s.outbox && after.ledger == s.ledger && after.retention == s.retention
              && after.targets == (if child in s.targets then s.targets else s.targets[child := Target(Requested, false)])
              && match Governing(parent)
                 case None => after.revisions == s.revisions
                 case Some(number) =>
                   after.revisions ==
                   if number in History(s, child) then s.revisions
                   else s.revisions[child := History(s, child)[number :=
                          Revision(GitMirror, parent[number].pinned, false, false, false, parent[number].offsiteRequired,
                                   parent[number].correlation, None)]]
  {
  }

  /** A status move changes that one status, exactly when the trigger's pair set or sameness allows it. */
  lemma StatusMovesIff(s: Store, target: TargetKey, to: TargetStatus)
    ensures StatusMoved(s, target, to) ==
            if target in s.targets && (to == s.targets[target].status || to in GuardSuccessors(s.targets[target].status))
            then s.(targets := s.targets[target := s.targets[target].(status := to)]) else s
  {
  }

  datatype LaneEvent =
    | Tried(command: Command, limit: nat)
    | Finished(command: Command)
    | Moved(target: TargetKey, to: TargetStatus)
    | WikiFound(repo: nat)

  function LaneStep(s: Store, event: LaneEvent): Store {
    match event
    case Tried(command, limit) => HandleFor(s, command, limit).store
    case Finished(command) => Handle(s, command).store
    case Moved(target, to) => StatusMoved(s, target, to)
    case WikiFound(repo) => WikiDiscovered(s, repo)
  }

  function LaneRun(s: Store, events: seq<LaneEvent>): Store
    decreases |events|
  {
    if events == [] then s else LaneStep(LaneRun(s, events[..|events| - 1]), events[|events| - 1])
  }

  const EMPTY_STORE: Store := Store(map[], map[], {}, [], [], Tables([], [], [], [], [], [], [], []))

  /**
   * The ledger chain holds after any sequence of attempts, interrupted anywhere and redelivered in
   * any order, with other actors in between.
   */
  lemma {:induction false} LedgerChainAlways(events: seq<LaneEvent>)
    ensures LedgerChain(LaneRun(EMPTY_STORE, events))
    decreases |events|
  {
    if events != [] {
      var s := LaneRun(EMPTY_STORE, events[..|events| - 1]);
      LedgerChainAlways(events[..|events| - 1]);
      match events[|events| - 1]
      case Tried(command, limit) => ChainOverAttempt(s, command, limit);
      case Finished(command) => ChainOverAttempt(s, command, 0);
      case Moved(target, to) => ChainKept(s, StatusMoved(s, target, to));
      case WikiFound(repo) => ChainKept(s, WikiDiscovered(s, repo));
    }
  }

  /** Every accepted acknowledgement carries the version accepted just before it, zero for the first. */
  lemma AcknowledgementsChain(events: seq<LaneEvent>, i: nat)
    requires i < |LaneRun(EMPTY_STORE, events).ledger| && LaneRun(EMPTY_STORE, events).ledger[i].accepted
    ensures var s := LaneRun(EMPTY_STORE, events); var row := s.ledger[i];
            && row.acknowledgement < |s.outbox|
            && s.outbox[row.acknowledgement] == Acknowledged(row.command, Accepted(row.version, LastApplied(s.ledger[..i])))
            && (forall j | 0 <= j < i && s.ledger[j].accepted :: s.ledger[j].version <= LastApplied(s.ledger[..i]) < row.version)
  {
    LedgerChainAlways(events);
    var s := LaneRun(EMPTY_STORE, events);
    assert Answers(s, i);
    forall j | 0 <= j < i && s.ledger[j].accepted
      ensures s.ledger[j].version <= LastApplied(s.ledger[..i])
    {
      LastAppliedBounds(s.ledger[..i], j);
    }
  }

  // ----- the catalog over sequential runs -----

  /** Between commands: nothing stored is newer than the ledger, and `named` is what the lane governs. */
  ghost predicate CatalogInv(s: Store, named: set<nat>) {
    && Consistent(s)
    && RevisionsAtMost(s, LastApplied(s.ledger))
    && (forall m | (POLICY_SOURCE, m) in s.inbox :: IsRecorded(s, m.command))
    && GovernedNow(s, POLICY_SOURCE) == named
  }

  /** What other actors do to targets. */
  datatype Move = StatusChange(target: TargetKey, to: TargetStatus) | WikiChange(repo: nat)

  function MoveIt(s: Store, move: Move): Store {
    match move
    case StatusChange(target, to) => StatusMoved(s, target, to)
    case WikiChange(repo) => WikiDiscovered(s, repo)
  }

  function MoveAll(s: Store, moves: seq<Move>): Store
    decreases |moves|
  {
    if moves == [] then s else MoveAll(MoveIt(s, moves[0]), moves[1..])
  }

  /** An attempt that stops after at most `limit` transactions, or at the first refusal, and what others do next. */
  datatype Try = Try(limit: nat, moves: seq<Move>)

  function AfterTries(s: Store, c: Command, tries: seq<Try>): Store
    decreases |tries|
  {
    if tries == [] then s
    else AfterTries(MoveAll(HandleFor(s, c, tries[0].limit).store, tries[0].moves), c, tries[1..])
  }

  /** One command with all its attempts, or another actor's move between commands. */
  datatype Episode = Commanded(command: Command, tries: seq<Try>) | Between(move: Move)

  function Play(s: Store, episode: Episode): Store {
    match episode
    case Commanded(command, tries) => Handle(AfterTries(s, command, tries), command).store
    case Between(move) => MoveIt(s, move)
  }

  /** The last attempt of the command succeeds, or its version is beyond the storage range. */
  ghost predicate IsDecided(s: Store, episode: Episode) {
    episode.Commanded? ==>
      || Handle(AfterTries(s, episode.command, episode.tries), episode.command).error.None?
      || episode.command.version > I64_MAX
  }

  predicate IsAcceptable(s: Store, c: Command) {
    !IsRecorded(s, c.id) && LastApplied(s.ledger) < c.version <= I64_MAX
  }

  /** The repositories the last accepted document names. */
  function NamedAfter(s: Store, named: set<nat>, episode: Episode): set<nat> {
    match episode
    case Commanded(c, _) => if IsAcceptable(s, c) then Named(c) else named
    case Between(_) => named
  }

  lemma {:induction false} RecordsKept(s: Store, txns: seq<Txn>)
    ensures s.ledger <= ExecAll(s, txns).store.ledger
    decreases |txns|
  {
    if txns != [] && Exec(s, txns[0]).Ok? {
      var next := Exec(s, txns[0]).value;
      if !txns[0].Record? { ExecAppends(s, txns[0], next); }
      RecordsKept(next, txns[1..]);
    }
  }

  lemma {:induction false} InboxOverRun(s: Store, txns: seq<Txn>, command: nat)
    requires forall i | 0 <= i < |txns| && txns[i].Ingest? :: txns[i].delivery.message.command == command
    ensures forall m | (POLICY_SOURCE, m) in ExecAll(s, txns).store.inbox :: (POLICY_SOURCE, m) in s.inbox || m.command == command
    decreases |txns|
  {
    if txns != [] && Exec(s, txns[0]).Ok? {
      var next := Exec(s, txns[0]).value;
      if txns[0].Converge? { TransitionKeepsRevisions(s, txns[0].target, next); }
      InboxOverRun(next, txns[1..], command);
    }
  }

  lemma IntentIngestsOwn(s: Store, c: Command)
    requires Intent(s, c).Ok?
    ensures forall i | 0 <= i < |Intent(s, c).value| && Intent(s, c).value[i].Ingest? ::
              Intent(s, c).value[i].delivery.message.command == c.id
  {
    LaneBatch(s, c);
  }

  // ----- other actors' moves -----

  lemma MoveKeepsGoverned(s: Store, move: Move, repo: nat)
    ensures History(MoveIt(s, move), Repository(repo)) == History(s, Repository(repo))
    ensures Repository(repo) in MoveIt(s, move).targets <==> Repository(repo) in s.targets
    ensures MoveIt(s, move).inbox == s.inbox && MoveIt(s, move).ledger == s.ledger
  {
  }

  lemma GovernedByHistory(s: Store, after: Store, version: nat)
    requires forall repo: nat :: History(after, Repository(repo)) == History(s, Repository(repo))
    requires forall repo: nat :: Repository(repo) in after.targets <==> Repository(repo) in s.targets
    ensures GovernedNow(after, POLICY_SOURCE) == GovernedNow(s, POLICY_SOURCE)
    ensures GovernedRepos(after, POLICY_SOURCE, version) == GovernedRepos(s, POLICY_SOURCE, version)
  {
    forall repo: nat
      ensures repo in GovernedNow(after, POLICY_SOURCE) <==> repo in GovernedNow(s, POLICY_SOURCE)
      ensures repo in GovernedRepos(after, POLICY_SOURCE, version) <==> repo in GovernedRepos(s, POLICY_SOURCE, version)
    {
      var target := Repository(repo);
      assert repo in GovernedNow(after, POLICY_SOURCE) <==> target in after.targets && IsGovernedBy(History(after, target), POLICY_SOURCE);
      assert repo in GovernedNow(s, POLICY_SOURCE) <==> target in s.targets && IsGovernedBy(History(s, target), POLICY_SOURCE);
      assert repo in GovernedRepos(after, POLICY_SOURCE, version) <==>
             target in after.targets && IsGovernedBy(Before(History(after, target), POLICY_SOURCE, version), POLICY_SOURCE);
      assert repo in GovernedRepos(s, POLICY_SOURCE, version) <==>
             target in s.targets && IsGovernedBy(Before(History(s, target), POLICY_SOURCE, version), POLICY_SOURCE);
    }
  }

  lemma MoveKeepsBounds(s: Store, move: Move, version: nat)
    requires Consistent(s) && RevisionsAtMost(s, version)
    ensures Consistent(MoveIt(s, move)) && RevisionsAtMost(MoveIt(s, move), version)
  {
    var after := MoveIt(s, move);
    if move.WikiChange? {
      forall target, n | target in after.revisions && n in after.revisions[target]
        ensures n <= version
      {
        assert n in History(after, target);
        if target != Wiki(move.repo) {
          assert History(after, target) == History(s, target);
        } else if n !in History(s, target) {
          assert n in History(s, Repository(move.repo));
        }
      }
    }
  }

  /** A status move or a discovered wiki never changes which repositories the lane governs, now or before a version. */
  lemma MoveKeepsCatalog(s: Store, named: set<nat>, move: Move)
    requires CatalogInv(s, named)
    ensures CatalogInv(MoveIt(s, move), named) && MoveIt(s, move).ledger == s.ledger
  {
    var after := MoveIt(s, move);
    forall repo: nat
      ensures History(after, Repository(repo)) == History(s, Repository(repo))
      ensures Repository(repo) in after.targets <==> Repository(repo) in s.targets
    {
      MoveKeepsGoverned(s, move, repo);
    }
    MoveKeepsGoverned(s, move, 0);
    GovernedByHistory(s, after, 0);
    MoveKeepsBounds(s, move, LastApplied(s.ledger));
  }

  /** A command midway stays midway under other actors' moves. */
  lemma MoveKeepsMidway(s0: Store, s: Store, c: Command, move: Move)
    requires Midway(s0, s, c)
    ensures Midway(s0, MoveIt(s, move), c)
  {
    var after := MoveIt(s, move);
    forall repo: nat
      ensures History(after, Repository(repo)) == History(s, Repository(repo))
      ensures Repository(repo) in after.targets <==> Repository(repo) in s.targets
    {
      MoveKeepsGoverned(s, move, repo);
    }
    MoveKeepsGoverned(s, move, 0);
    GovernedByHistory(s, after, c.version);
    MoveKeepsBounds(s, move, c.version);
  }

  // ----- the attempts of one command -----

  /** Where a command stands between its attempts: decided, not applicable, or midway. */
  ghost predicate Stands(s0: Store, named: set<nat>, s: Store, c: Command) {
    if IsRecorded(s, c.id) then CatalogInv(s, if IsAcceptable(s0, c) then Named(c) else named)
    else s.ledger == s0.ledger && if IsAcceptable(s0, c) then Midway(s0, s, c) else CatalogInv(s, named)
  }

  lemma StandsAtStart(s: Store, named: set<nat>, c: Command)
    requires CatalogInv(s, named)
    ensures Stands(s, named, s, c)
  {
    if IsAcceptable(s, c) {
      MidwayAtStart(s, c);
    }
  }

  lemma {:induction false} StandsAfterMoves(s0: Store, named: set<nat>, s: Store, c: Command, moves: seq<Move>)
    requires Stands(s0, named, s, c)
    ensures Stands(s0, named, MoveAll(s, moves), c)
    decreases |moves|
  {
    if moves != [] {
      StandsAfterMove(s0, named, s, c, moves[0]);
      StandsAfterMoves(s0, named, MoveIt(s, moves[0]), c, moves[1..]);
    }
  }

  lemma StandsAfterMove(s0: Store, named: set<nat>, s: Store, c: Command, move: Move)
    requires Stands(s0, named, s, c)
    ensures Stands(s0, named, MoveIt(s, move), c)
  {
    MoveKeepsGoverned(s, move, 0);
    if IsRecorded(s, c.id) {
      MoveKeepsCatalog(s, if IsAcceptable(s0, c) then Named(c) else named, move);
    } else if IsAcceptable(s0, c) {
      MoveKeepsMidway(s0, s, c, move);
    } else {
      MoveKeepsCatalog(s, named, move);
    }
  }

  /** The deciding attempt of an acceptable command makes its document the catalog. */
  lemma DecidedCatalog(s0: Store, s: Store, c: Command)
    requires Decides(s0, s, c) && (forall m | (POLICY_SOURCE, m) in s0.inbox :: IsRecorded(s0, m.command))
    ensures CatalogInv(Handle(s, c).store, Named(c)) && IsRecorded(Handle(s, c).store, c.id)
  {
    var after := Handle(s, c).store;
    MidwayIntends(s0, s, c);
    var _, applied := AcceptedOutcome(s, c);
    WholeCatalogConvergence(s0, s, c);
    CompletedIsRecorded(s, c);
    IntentIsPhased(s, c);
    RunKeepsConsistent(s, Intent(s, c).value, c.version);
    RecordsKept(s, Intent(s, c).value);
    IntentIngestsOwn(s, c);
    InboxOverRun(s, Intent(s, c).value, c.id);
    forall m | (POLICY_SOURCE, m) in after.inbox
      ensures IsRecorded(after, m.command)
    {
      if m.command != c.id {
        StillRecorded(s0, after, m.command);
      }
    }
  }

  lemma StillRecorded(s: Store, after: Store, command: nat)
    requires IsRecorded(s, command) && s.ledger <= after.ledger
    ensures IsRecorded(after, command)
  {
    var i :| 0 <= i < |s.ledger| && s.ledger[i].command == command;
    assert after.ledger[i].command == command;
  }

  /** An attempt at an acceptable command ends midway, or decides it. */
  lemma TryAcceptable(s0: Store, named: set<nat>, s: Store, c: Command, limit: nat)
    requires CatalogInv(s0, named) && IsAcceptable(s0, c) && Midway(s0, s, c)
    ensures Stands(s0, named, HandleFor(s, c, limit).store, c)
  {
    MidwayIntends(s0, s, c);
    var application, record := Application(s, c), Record(c.id, ForVersion(c.version, LastApplied(s.ledger)));
    var txns := Intent(s, c).value;
    assert txns == application + [record];
    if limit > |application| && Handle(s, c).error.None? {
      DecidedCatalog(s0, s, c);
    } else {
      var part := StoppedBeforeRecord(s, c, limit);
      ApplicationIsPart(s0, c);
      MidwayRun(s0, s, c, application[..part]);
      MidwayIntends(s0, HandleFor(s, c, limit).store, c);
    }
  }

  /** An attempt that does not record its decision did no more than a part of the application. */
  lemma StoppedBeforeRecord(s: Store, c: Command, limit: nat) returns (part: nat)
    requires !IsRecorded(s, c.id) && LastApplied(s.ledger) < c.version <= I64_MAX
    requires limit <= |Application(s, c)| || Handle(s, c).error.Some?
    ensures part <= |Application(s, c)| && HandleFor(s, c, limit).store == ExecAll(s, Application(s, c)[..part]).store
  {
    var application, record := Application(s, c), Record(c.id, ForVersion(c.version, LastApplied(s.ledger)));
    var txns := Intent(s, c).value;
    assert txns == application + [record];
    var taken := if limit < |txns| then txns[..limit] else txns;
    var done := Progress(s, taken);
    if taken == txns {
      assert done < |txns|;
    }
    part := done;
    assert taken[..done] == application[..done];
  }

  /** An attempt at a command the lane cannot apply writes at most its rejection. */
  lemma TryInapplicable(s: Store, named: set<nat>, c: Command, limit: nat)
    requires CatalogInv(s, named) && !IsAcceptable(s, c)
    ensures var after := HandleFor(s, c, limit).store;
            CatalogInv(after, named) && (IsRecorded(after, c.id) || after == s)
  {
    var after := HandleFor(s, c, limit).store;
    if after != s {
      assert c.version <= LastApplied(s.ledger) && !IsRecorded(s, c.id);
      var decision := Rejected(c.version, LastApplied(s.ledger));
      assert Intent(s, c) == Ok([Record(c.id, decision)]);
      assert [Record(c.id, decision)][..0] == [];
      assert limit >= 1;
      RejectionKeepsCatalog(s, named, c.id, decision, after);
    }
  }

  lemma RejectionKeepsCatalog(s: Store, named: set<nat>, command: nat, decision: Decision, after: Store)
    requires CatalogInv(s, named) && decision.Rejected? && ExecAll(s, [Record(command, decision)]).store == after && after != s
    ensures CatalogInv(after, named) && IsRecorded(after, command)
  {
    assert RecordDecision(s, command, decision) == Ok(after);
    assert after.ledger[|s.ledger|].command == command;
    assert after.ledger[..|after.ledger| - 1] == s.ledger;
    forall m | (POLICY_SOURCE, m) in after.inbox
      ensures IsRecorded(after, m.command)
    {
      StillRecorded(s, after, m.command);
    }
    forall repo: nat
      ensures repo in GovernedNow(after, POLICY_SOURCE) <==> repo in GovernedNow(s, POLICY_SOURCE)
    {
      GovernedIsLocal(s, after, repo);
    }
  }

  lemma StandsAfterTry(s0: Store, named: set<nat>, s: Store, c: Command, limit: nat)
    requires CatalogInv(s0, named) && Stands(s0, named, s, c)
    ensures Stands(s0, named, HandleFor(s, c, limit).store, c)
  {
    if IsRecorded(s, c.id) {
      assert Intent(s, c) == Ok([]);
    } else if IsAcceptable(s0, c) {
      TryAcceptable(s0, named, s, c, limit);
    } else {
      TryInapplicable(s, named, c, limit);
    }
  }

  /** Whatever stopped or refused the attempts, and whatever others did in between. */
  lemma {:induction false} StandsAfterTries(s0: Store, named: set<nat>, s: Store, c: Command, tries: seq<Try>)
    requires CatalogInv(s0, named) && Stands(s0, named, s, c)
    ensures Stands(s0, named, AfterTries(s, c, tries), c)
    decreases |tries|
  {
    if tries != [] {
      var stopped := HandleFor(s, c, tries[0].limit).store;
      StandsAfterTry(s0, named, s, c, tries[0].limit);
      StandsAfterMoves(s0, named, stopped, c, tries[0].moves);
      StandsAfterTries(s0, named, MoveAll(stopped, tries[0].moves), c, tries[1..]);
    }
  }

  /** A full attempt is one that nothing stops. */
  lemma HandleIsUnlimited(s: Store, c: Command)
    ensures exists limit :: HandleFor(s, c, limit) == Handle(s, c)
  {
    if Intent(s, c).Ok? {
      var n := |Intent(s, c).value|;
      assert HandleFor(s, c, n) == Handle(s, c);
    } else {
      assert HandleFor(s, c, 0) == Handle(s, c);
    }
  }

  /** A command that succeeds at last, or can never be stored, keeps the catalog invariant. */
  lemma EpisodeKeepsCatalog(s: Store, named: set<nat>, episode: Episode)
    requires CatalogInv(s, named) && IsDecided(s, episode)
    ensures CatalogInv(Play(s, episode), NamedAfter(s, named, episode))
  {
    match episode
    case Commanded(c, tries) =>
      var last := AfterTries(s, c, tries);
      StandsAtStart(s, named, c);
      StandsAfterTries(s, named, s, c, tries);
      HandleIsUnlimited(last, c);
      var limit :| HandleFor(last, c, limit) == Handle(last, c);
      StandsAfterTry(s, named, last, c, limit);
      if Handle(last, c).error.None? {
        CompletedIsRecorded(last, c);
      }
    case Between(move) => MoveKeepsCatalog(s, named, move);
  }

  /**
   * A refused attempt is not the end of a command: if the guard refuses it in one state and an attempt
   * succeeds after other actors' moves, the document is the catalog right after that attempt, and
   * everything the command delivered is settled.
   */
  lemma RetriedCommandConverges(s: Store, named: set<nat>, c: Command, tries: seq<Try>)
    requires CatalogInv(s, named) && IsAcceptable(s, c)
    requires !IsRecorded(AfterTries(s, c, tries), c.id) && Handle(AfterTries(s, c, tries), c).error.None?
    ensures var after := Handle(AfterTries(s, c, tries), c).store;
            && GovernedNow(after, POLICY_SOURCE) == Named(c) && LastApplied(after.ledger) == c.version
            && forall repo | repo in Named(c) || repo in GovernedRepos(s, POLICY_SOURCE, c.version) ::
                 IsSettled(after, Repository(repo))
  {
    StandsAtStart(s, named, c);
    StandsAfterTries(s, named, s, c, tries);
    WholeCatalogConvergence(s, AfterTries(s, c, tries), c);
  }

  // ----- sequential runs -----

  function PlayAll(s: Store, episodes: seq<Episode>): Store
    decreases |episodes|
  {
    if episodes == [] then s else PlayAll(Play(s, episodes[0]), episodes[1..])
  }

  function LastDocument(s: Store, named: set<nat>, episodes: seq<Episode>): set<nat>
    decreases |episodes|
  {
    if episodes == [] then named
    else LastDocument(Play(s, episodes[0]), NamedAfter(s, named, episodes[0]), episodes[1..])
  }

  ghost predicate AllDecided(s: Store, episodes: seq<Episode>)
    decreases |episodes|
  {
    episodes != [] ==> IsDecided(s, episodes[0]) && AllDecided(Play(s, episodes[0]), episodes[1..])
  }

  lemma {:induction false} CatalogOverRun(s: Store, named: set<nat>, episodes: seq<Episode>)
    requires CatalogInv(s, named) && AllDecided(s, episodes)
    ensures CatalogInv(PlayAll(s, episodes), LastDocument(s, named, episodes))
    decreases |episodes|
  {
    if episodes != [] {
      EpisodeKeepsCatalog(s, named, episodes[0]);
      CatalogOverRun(Play(s, episodes[0]), NamedAfter(s, named, episodes[0]), episodes[1..]);
    }
  }

  /**
   * Over every run of commands one after the other, each stopped, refused and redelivered any number
   * of times while other actors move statuses and discover wikis, until its last attempt succeeds: the
   * repositories the lane governs are exactly those the last accepted document names.
   */
  lemma CatalogFollowsTheLastDocument(episodes: seq<Episode>)
    requires AllDecided(EMPTY_STORE, episodes)
    ensures GovernedNow(PlayAll(EMPTY_STORE, episodes), POLICY_SOURCE) == LastDocument(EMPTY_STORE, {}, episodes)
  {
    CatalogOverRun(EMPTY_STORE, {}, episodes);
  }
}
