/**
 * Redelivery changes nothing: a command whose process stopped between any two transactions, any
 * number of times, ends in the state of one uninterrupted attempt.
 */
module PolicyReplay {
  import opened Common
  import opened TargetState
  import opened Planner
  import opened DeletionTables
  import opened PolicyStore

  /** Foreign keys: revisions hang off target rows, and a policy message implies its target. */
  ghost predicate Consistent(s: Store) {
    && (forall target | target in s.revisions :: target in s.targets)
    && (forall m | (POLICY_SOURCE, m) in s.inbox :: Repository(m.repo) in s.targets)
  }

  /** A transaction that belongs to the application of `version`. */
  predicate AppliesVersion(txn: Txn, version: nat) {
    match txn
    case Ingest(d) =>
      d.source == POLICY_SOURCE && d.message.repo == d.repo && d.desired.revision == version
    case Converge(_) => true
    case Record(_, _) => false
  }

  // ----- what one transaction keeps -----

  /** The revision insert inside a transition always conflicts with the governing row. */
  lemma TransitionKeepsRevisions(s: Store, target: TargetKey, next: Store)
    requires ConvergeTarget(s, target) == Ok(next)
    ensures next.revisions == s.revisions && next.inbox == s.inbox && next.ledger == s.ledger
    ensures next.targets.Keys == s.targets.Keys
    ensures forall other | other in s.targets && other != target :: next.targets[other] == s.targets[other]
  {
  }

  lemma ExecKeepsConsistent(s: Store, txn: Txn, next: Store, version: nat)
    requires Consistent(s) && Exec(s, txn) == Ok(next)
    requires AppliesVersion(txn, version) || txn.Record?
    ensures Consistent(next)
    ensures s.targets.Keys <= next.targets.Keys && s.inbox <= next.inbox
    ensures !txn.Record? ==> next.ledger == s.ledger
  {
    if txn.Converge? {
      TransitionKeepsRevisions(s, txn.target, next);
    }
  }

  /** No transaction of the application of `version` is visible to the query "before `version`". */
  lemma BeforeIsStable(s: Store, txn: Txn, next: Store, version: nat, target: TargetKey)
    requires Consistent(s) && AppliesVersion(txn, version) && Exec(s, txn) == Ok(next)
    ensures Before(History(next, target), POLICY_SOURCE, version) == Before(History(s, target), POLICY_SOURCE, version)
  {
    if txn.Converge? {
      TransitionKeepsRevisions(s, txn.target, next);
    }
  }

  lemma GovernedIsStable(s: Store, txn: Txn, next: Store, version: nat)
    requires Consistent(s) && AppliesVersion(txn, version) && Exec(s, txn) == Ok(next)
    ensures GovernedRepos(next, POLICY_SOURCE, version) == GovernedRepos(s, POLICY_SOURCE, version)
  {
    ExecKeepsConsistent(s, txn, next, version);
    forall target: TargetKey
      ensures target in next.targets && target.Repository?
              && IsGovernedBy(Before(History(next, target), POLICY_SOURCE, version), POLICY_SOURCE)
         <==> target in s.targets && target.Repository?
              && IsGovernedBy(Before(History(s, target), POLICY_SOURCE, version), POLICY_SOURCE)
    {
      BeforeIsStable(s, txn, next, version, target);
      if target !in s.targets {
        assert History(s, target) == map[];
      }
    }
    forall repo
      ensures repo in GovernedRepos(next, POLICY_SOURCE, version) <==> repo in GovernedRepos(s, POLICY_SOURCE, version)
    {
      assert repo in GovernedRepos(next, POLICY_SOURCE, version) <==>
             Repository(repo) in next.targets && IsGovernedBy(Before(History(next, Repository(repo)), POLICY_SOURCE, version), POLICY_SOURCE);
      assert repo in GovernedRepos(s, POLICY_SOURCE, version) <==>
             Repository(repo) in s.targets && IsGovernedBy(Before(History(s, Repository(repo)), POLICY_SOURCE, version), POLICY_SOURCE);
    }
  }

  // ----- what one transaction absorbs -----

  /** Repeating the transaction in this state would change nothing. */
  ghost predicate Absorbs(s: Store, txn: Txn) {
    Exec(s, txn) == Ok(s)
  }

  lemma SettledAfterConverge(s: Store, target: TargetKey, next: Store)
    requires ConvergeTarget(s, target) == Ok(next)
    ensures IsSettled(next, target)
  {
    TransitionKeepsRevisions(s, target, next);
    assert History(next, target) == History(s, target);
  }

  lemma AbsorbedAfterwards(s: Store, txn: Txn, next: Store, version: nat)
    requires Consistent(s) && AppliesVersion(txn, version) && Exec(s, txn) == Ok(next)
    ensures Absorbs(next, txn)
  {
    match txn
    case Ingest(d) => assert (d.source, d.message) in next.inbox && Repository(d.repo) in next.targets;
    case Converge(target) => SettledAfterConverge(s, target, next);
  }

  /** A delivery stays known, and the target it names stays in place. */
  lemma IngestStaysAbsorbed(s: Store, d: Delivery, txn: Txn, next: Store, version: nat)
    requires Consistent(s) && Absorbs(s, Ingest(d)) && AppliesVersion(Ingest(d), version)
    requires AppliesVersion(txn, version) && Exec(s, txn) == Ok(next)
    ensures Absorbs(next, Ingest(d))
  {
    ExecKeepsConsistent(s, txn, next, version);
    assert (d.source, d.message) in s.inbox && Repository(d.repo) in s.targets;
  }

  /** Converging another target leaves a settled one settled. */
  lemma ConvergeStaysAbsorbed(s: Store, settled: TargetKey, target: TargetKey, next: Store)
    requires Absorbs(s, Converge(settled)) && ConvergeTarget(s, target) == Ok(next)
    ensures Absorbs(next, Converge(settled))
  {
    if settled != target {
      TransitionKeepsRevisions(s, target, next);
      SettledAfterConverge(s, settled, s);
      assert Proposal(next, settled) == Proposal(s, settled);
    }
  }

  /** What is absorbed stays absorbed: ingests under anything, convergence under what may follow it. */
  lemma StaysAbsorbed(s: Store, earlier: Txn, txn: Txn, next: Store, version: nat)
    requires Consistent(s) && Absorbs(s, earlier)
    requires AppliesVersion(earlier, version) && AppliesVersion(txn, version) && Exec(s, txn) == Ok(next)
    requires earlier.Converge? ==> !txn.Ingest?
    ensures Absorbs(next, earlier)
  {
    match earlier
    case Ingest(d) => IngestStaysAbsorbed(s, d, txn, next, version);
    case Converge(settled) => ConvergeStaysAbsorbed(s, settled, txn.target, next);
  }

  // ----- runs of transactions -----

  lemma {:induction false} ExecAllSplit(s: Store, first: seq<Txn>, second: seq<Txn>)
    ensures ExecAll(s, first + second) ==
            var middle := ExecAll(s, first);
            if middle.error.Some? then middle else ExecAll(middle.store, second)
    decreases |first|
  {
    if first == [] {
      assert first + second == second;
    } else {
      assert (first + second)[0] == first[0] && (first + second)[1..] == first[1..] + second;
      match Exec(s, first[0])
      case Err(_) =>
      case Ok(next) => ExecAllSplit(next, first[1..], second);
    }
  }

  /** The transactions of an application, in order: every ingest comes before every convergence. */
  ghost predicate Phased(txns: seq<Txn>, version: nat) {
    && (forall i | 0 <= i < |txns| :: AppliesVersion(txns[i], version))
    && (forall i, j | 0 <= i < j < |txns| :: txns[i].Converge? ==> !txns[j].Ingest?)
  }

  /** After any number of them: the earlier query answers the same, and all of them are absorbed. */
  lemma {:induction false} PrefixIsAbsorbed(s: Store, txns: seq<Txn>, version: nat)
    requires Consistent(s) && Phased(txns, version) && ExecAll(s, txns).error.None?
    ensures var reached := ExecAll(s, txns).store;
            && Consistent(reached) && reached.ledger == s.ledger
            && GovernedRepos(reached, POLICY_SOURCE, version) == GovernedRepos(s, POLICY_SOURCE, version)
            && forall i | 0 <= i < |txns| :: Absorbs(reached, txns[i])
    decreases |txns|
  {
    if txns != [] {
      var last := |txns| - 1;
      var front := txns[..last];
      assert txns == front + [txns[last]];
      ExecAllSplit(s, front, [txns[last]]);
      PrefixIsAbsorbed(s, front, version);
      var before := ExecAll(s, front).store;
      assert ExecAll(before, [txns[last]]) == ExecAll(s, txns);
      var reached := ExecAll(s, txns).store;
      assert Exec(before, txns[last]) == Ok(reached);
      ExecKeepsConsistent(before, txns[last], reached, version);
      GovernedIsStable(before, txns[last], reached, version);
      AbsorbedAfterwards(before, txns[last], reached, version);
      forall i | 0 <= i < last
        ensures Absorbs(reached, txns[i])
      {
        assert Absorbs(before, front[i]);
        StaysAbsorbed(before, txns[i], txns[last], reached, version);
      }
    }
  }

  lemma {:induction false} AbsorbedRun(s: Store, txns: seq<Txn>)
    requires forall i | 0 <= i < |txns| :: Absorbs(s, txns[i])
    ensures ExecAll(s, txns) == Outcome(s, None)
    decreases |txns|
  {
    if txns != [] {
      assert Absorbs(s, txns[0]);
      forall i | 0 <= i < |txns[1..]|
        ensures Absorbs(s, txns[1..][i])
      {
        assert txns[1..][i] == txns[i + 1];
      }
      AbsorbedRun(s, txns[1..]);
    }
  }

  lemma ApplicationIsPhased(s: Store, c: Command)
    ensures Phased(Application(s, c), c.version)
  {
  }

  /**
   * Replay stability: at every point inside the application of a version, the query for the
   * repositories governed before it, and so the whole intent of a redelivery, is the original one.
   */
  lemma ReplayStability(s: Store, c: Command, done: nat)
    requires Consistent(s) && Intent(s, c).Ok? && done <= |Application(s, c)|
    requires !IsRecorded(s, c.id) && c.version > LastApplied(s.ledger)
    requires ExecAll(s, Application(s, c)[..done]).error.None?
    ensures var reached := ExecAll(s, Application(s, c)[..done]).store;
            && Consistent(reached)
            && TargetsGovernedBefore(reached, POLICY_SOURCE, c.version) == TargetsGovernedBefore(s, POLICY_SOURCE, c.version)
            && Intent(reached, c) == Intent(s, c)
  {
    ApplicationIsPhased(s, c);
    PrefixIsAbsorbed(s, Application(s, c)[..done], c.version);
  }

  /** Starting over after a completed prefix runs the prefix for nothing and then continues. */
  lemma RestartContinues(s: Store, c: Command, txns: seq<Txn>, done: nat)
    requires Consistent(s) && done <= |Application(s, c)| && Application(s, c) <= txns
    requires ExecAll(s, txns[..done]).error.None?
    ensures ExecAll(ExecAll(s, txns[..done]).store, txns) == ExecAll(s, txns)
  {
    var prefix := txns[..done];
    assert prefix == Application(s, c)[..done];
    ApplicationIsPhased(s, c);
    PrefixIsAbsorbed(s, prefix, c.version);
    var reached := ExecAll(s, prefix).store;
    AbsorbedRun(reached, prefix);
    assert txns == prefix + txns[done..];
    ExecAllSplit(reached, prefix, txns[done..]);
    ExecAllSplit(s, prefix, txns[done..]);
  }

  /** How far a run got: the length of the longest prefix that succeeded. */
  lemma {:induction false} Progress(s: Store, txns: seq<Txn>) returns (done: nat)
    ensures done <= |txns| && ExecAll(s, txns[..done]) == Outcome(ExecAll(s, txns).store, None)
    ensures ExecAll(s, txns).error.None? <==> done == |txns|
    decreases |txns|
  {
    if txns == [] {
      done := 0;
    } else {
      match Exec(s, txns[0])
      case Err(_) => done := 0;
      case Ok(next) =>
        var rest := Progress(next, txns[1..]);
        done := rest + 1;
        assert txns[..done][0] == txns[0] && txns[..done][1..] == txns[1..][..rest];
    }
  }

  lemma RecordedAfterRecord(s: Store, txns: seq<Txn>, c: Command, decision: Decision)
    requires ExecAll(s, txns + [Record(c.id, decision)]).error.None?
    ensures IsRecorded(ExecAll(s, txns + [Record(c.id, decision)]).store, c.id)
  {
    ExecAllSplit(s, txns, [Record(c.id, decision)]);
    var middle := ExecAll(s, txns).store;
    var reached := ExecAll(middle, [Record(c.id, decision)]).store;
    assert RecordDecision(middle, c.id, decision) == Ok(reached);
    if !IsRecorded(middle, c.id) {
      assert reached.ledger[|middle.ledger|].command == c.id;
    }
  }

  lemma {:induction false} RunKeepsConsistent(s: Store, txns: seq<Txn>, version: nat)
    requires Consistent(s) && forall i | 0 <= i < |txns| :: AppliesVersion(txns[i], version) || txns[i].Record?
    ensures Consistent(ExecAll(s, txns).store)
    decreases |txns|
  {
    if txns != [] && Exec(s, txns[0]).Ok? {
      var next := Exec(s, txns[0]).value;
      ExecKeepsConsistent(s, txns[0], next, version);
      RunKeepsConsistent(next, txns[1..], version);
    }
  }

  lemma IntentIsPhased(s: Store, c: Command)
    requires Intent(s, c).Ok?
    ensures forall i | 0 <= i < |Intent(s, c).value| ::
              AppliesVersion(Intent(s, c).value[i], c.version) || Intent(s, c).value[i].Record?
  {
    ApplicationIsPhased(s, c);
  }

  /** A whole attempt ends either recorded, or refused before anything was written. */
  lemma CompletedIsRecorded(s: Store, c: Command)
    requires Handle(s, c).error.None?
    ensures IsRecorded(Handle(s, c).store, c.id)
  {
    if !IsRecorded(s, c.id) {
      var decision := ForVersion(c.version, LastApplied(s.ledger));
      var txns := if decision.Rejected? then [] else Application(s, c);
      assert Intent(s, c).value == txns + [Record(c.id, decision)];
      RecordedAfterRecord(s, txns, c, decision);
    }
  }

  /** Starting over after any completed prefix of the intent ends as the original attempt. */
  lemma ResumesAfterPrefix(s: Store, c: Command, txns: seq<Txn>, done: nat)
    requires Consistent(s) && Intent(s, c) == Ok(txns) && done <= |txns|
    requires ExecAll(s, txns[..done]).error.None?
    ensures Handle(ExecAll(s, txns[..done]).store, c) == Handle(s, c)
  {
    if done == |txns| {
      assert txns[..done] == txns;
      CompletedIsRecorded(s, c);
    } else if !IsRecorded(s, c.id) && c.version > LastApplied(s.ledger) {
      assert Application(s, c)[..done] == txns[..done];
      ReplayStability(s, c, done);
      RestartContinues(s, c, txns, done);
    } else {
      assert |txns| <= 1 && txns[..done] == [];
    }
  }

  /** A redelivery after one interrupted attempt reports and leaves what the original would have. */
  lemma RedeliveryResumes(s: Store, c: Command, limit: nat)
    requires Consistent(s)
    ensures Consistent(HandleFor(s, c, limit).store)
    ensures Handle(HandleFor(s, c, limit).store, c) == Handle(s, c)
  {
    if Intent(s, c).Ok? {
      var txns := Intent(s, c).value;
      var taken := if limit < |txns| then txns[..limit] else txns;
      IntentIsPhased(s, c);
      RunKeepsConsistent(s, taken, c.version);
      var done := Progress(s, taken);
      assert taken[..done] == txns[..done];
      ResumesAfterPrefix(s, c, txns, done);
    }
  }

  /**
   * Crash equivalence: an attempt stopped after any number of transactions and redelivered any
   * number of times ends in the same store, with the same report, as one uninterrupted attempt.
   */
  lemma {:induction false} CrashEquivalence(s: Store, c: Command, limits: seq<nat>)
    requires Consistent(s)
    ensures Consistent(Interrupted(s, c, limits))
    ensures Handle(Interrupted(s, c, limits), c) == Handle(s, c)
    decreases |limits|
  {
    if limits != [] {
      RedeliveryResumes(s, c, limits[0]);
      CrashEquivalence(HandleFor(s, c, limits[0]).store, c, limits[1..]);
    }
  }

  /** Once a command is decided, redelivering it again writes nothing. */
  lemma DecidedOnce(s: Store, c: Command)
    requires Handle(s, c).error.None?
    ensures Handle(Handle(s, c).store, c) == Outcome(Handle(s, c).store, None)
  {
    CompletedIsRecorded(s, c);
  }
}
