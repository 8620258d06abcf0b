/** The policy lane's database handle and handler: tables updated in place, one transaction per method. */
module PolicyDatabase {
  import opened Common
  import opened TargetState
  import opened Planner
  import opened DeletionTables
  import opened PolicyStore
  import opened PolicyReplay

  /** The answer to the broker. */
  datatype Disposition = Ack | Term | Nak

  /** A broker payload as far as decoding looks at it; `command` is absent when the body does not decode. */
  datatype Incoming =
    | Undecodable
    | Envelope(commandType: string, producer: string, hasTenant: bool, command: Option<Command>)

  const COMMAND_TYPE: string := "vault.backup_policy.apply_requested.v1"
  const PRODUCER: string := "ratatoskr-github"

  /** The checks that need no state, in order; a refusal carries its class. */
  function Decode(payload: Incoming): (r: Decoded)
    ensures r.Valid? <==>
            && payload.Envelope? && payload.commandType == COMMAND_TYPE && payload.producer == PRODUCER && !payload.hasTenant
            && payload.command.Some?
    ensures r.Valid? ==> r.command == payload.command.value
  {
    if payload.Undecodable? then Invalid("undecodable_envelope")
    else if payload.commandType != COMMAND_TYPE then Invalid("unknown_command_type")
    else if payload.producer != PRODUCER then Invalid("wrong_producer")
    else if payload.hasTenant then Invalid("unexpected_tenant")
    else if payload.command.None? then Invalid("undecodable_payload")
    else Valid(payload.command.value)
  }

  datatype Decoded = Valid(command: Command) | Invalid(reason: string)

  function Settle(error: Option<VaultError>): (r: Disposition)
    ensures r == Ack <==> error.None?
    ensures r == Term <==> error.Some? && error.value.InvalidDelivery?
  {
    match error
    case None => Ack
    case Some(InvalidDelivery(_)) => Term
    case Some(_) => Nak
  }

  /** How the next transaction of a list continues or ends the run. */
  lemma NextTxn(start: Store, txns: seq<Txn>, i: nat, before: Store)
    requires i < |txns| && ExecAll(start, txns[..i]) == Outcome(before, None)
    ensures match Exec(before, txns[i])
            case Err(e) => ExecAll(start, txns) == Outcome(before, Some(e))
            case Ok(next) => ExecAll(start, txns[..i + 1]) == Outcome(next, None)
  {
    assert txns[..i + 1] == txns[..i] + [txns[i]] && txns == txns[..i] + txns[i..];
    ExecAllSplit(start, txns[..i], [txns[i]]);
    ExecAllSplit(start, txns[..i], txns[i..]);
    assert [txns[i]][1..] == [];
  }

  lemma NextIngest(start: Store, deliveries: seq<Delivery>, i: nat, before: Store)
    requires i < |deliveries| && ExecAll(start, Ingests(deliveries[..i])) == Outcome(before, None)
    ensures match Exec(before, Txn.Ingest(deliveries[i]))
            case Err(e) => ExecAll(start, Ingests(deliveries)) == Outcome(before, Some(e))
            case Ok(next) => ExecAll(start, Ingests(deliveries[..i + 1])) == Outcome(next, None)
    ensures Touched(deliveries[..i + 1]) ==
            var target := Repository(deliveries[i].repo);
            if target in Touched(deliveries[..i]) then Touched(deliveries[..i]) else Touched(deliveries[..i]) + [target]
  {
    var txns := Ingests(deliveries);
    assert txns[..i] == Ingests(deliveries[..i]) && txns[..i + 1] == Ingests(deliveries[..i + 1]);
    NextTxn(start, txns, i, before);
    assert deliveries[..i + 1][..i] == deliveries[..i];
  }

  lemma NextConverge(start: Store, touched: seq<TargetKey>, i: nat, before: Store)
    requires i < |touched| && ExecAll(start, Converges(touched[..i])) == Outcome(before, None)
    ensures match Exec(before, Txn.Converge(touched[i]))
            case Err(e) => ExecAll(start, Converges(touched)) == Outcome(before, Some(e))
            case Ok(next) => ExecAll(start, Converges(touched[..i + 1])) == Outcome(next, None)
  {
    var txns := Converges(touched);
    assert txns[..i] == Converges(touched[..i]) && txns[..i + 1] == Converges(touched[..i + 1]);
    NextTxn(start, txns, i, before);
  }

  class Database {
    var targets: map<TargetKey, Target>
    var revisions: map<TargetKey, map<nat, Revision>>
    var inbox: set<(string, MessageId)>
    var outbox: seq<Event>
    var ledger: seq<LedgerRow>
    var retention: Tables

    ghost function View(): Store
      reads this
    {
      Store(targets, revisions, inbox, outbox, ledger, retention)
    }

    constructor ()
      ensures View() == Store(map[], map[], {}, [], [], Tables([], [], [], [], [], [], [], []))
    {
      targets, revisions, inbox, outbox, ledger := map[], map[], {}, [], [];
      retention := Tables([], [], [], [], [], [], [], []);
    }

    /** Writes one revision row unless the target already used the number. */
    method InsertRevision(target: TargetKey, number: nat, row: Revision)
      modifies this`revisions
      ensures View() == WithRevision(old(View()), target, number, row)
    {
      var history := if target in revisions then revisions[target] else map[];
      if number !in history {
        revisions := revisions[target := history[number := row]];
      }
    }

    /** Ingests one delivery: inbox slot first, then the target at first sight, then its revision. */
    method Ingest(d: Delivery) returns (r: Result<bool>)
      modifies this
      ensures match IngestDelivery(old(View()), d)
              case Err(e) => r == Err(e) && View() == old(View())
              case Ok(done) => r == Ok(done.duplicate) && View() == done.store
    {
      if d.desired.revision > I64_MAX {
        return Err(InvalidDelivery("policy_revision"));
      }
      if (d.source, d.message) in inbox {
        return Ok(true);
      }
      if d.desired.revision == 0 {
        return Err(StorageFailed);
      }
      inbox := inbox + {(d.source, d.message)};
      var target := Repository(d.repo);
      if target !in targets {
        targets := targets[target := Target(Requested, false)];
        outbox := outbox + [StateChanged(target, None, Requested, d.desired.revision)];
      }
      InsertRevision(target, d.desired.revision, Stored(d.desired, Some(d.source)));
      r := Ok(false);
    }

    /** Applies one governed transition; a refusal commits nothing. */
    method Transition(target: TargetKey, to: TargetStatus, governing: Desired) returns (error: Option<VaultError>)
      modifies this
      ensures match ApplyTransition(old(View()), target, to, governing)
              case Err(e) => error == Some(e) && View() == old(View())
              case Ok(next) => error == None && View() == next
    {
      if governing.revision > I64_MAX {
        return Some(InvalidDelivery("policy_revision"));
      }
      if governing.revision == 0 || target !in targets {
        return Some(StorageFailed);
      }
      var from := targets[target];
      var tables := RetentionTransition(retention, target, from.pinned, to, governing);
      if tables.Err? {
        return Some(tables.error);
      }
      if !GuardAdmits(from.status, to) {
        return Some(IllegalTransition);
      }
      CommitMove(target, to, governing, tables.value);
      error := None;
    }

    /** The writes of an admitted move. */
    method CommitMove(target: TargetKey, to: TargetStatus, governing: Desired, tables: Tables)
      requires target in targets
      modifies this
      ensures View() == WithRevision(old(View()), target, governing.revision, Stored(governing, None))
                        .(targets := old(targets)[target := old(targets)[target].(status := to)], retention := tables,
                          outbox := if old(targets)[target].status == to then old(outbox)
                                    else old(outbox) + [StateChanged(target, Some(old(targets)[target].status), to, governing.revision)])
    {
      var from := targets[target];
      InsertRevision(target, governing.revision, Stored(governing, None));
      retention := tables;
      targets := targets[target := from.(status := to)];
      if from.status != to {
        outbox := outbox + [StateChanged(target, Some(from.status), to, governing.revision)];
      }
    }

    /** Appends the ledger row and the answer in one transaction. */
    method RecordPolicyDecision(command: nat, decision: Decision) returns (error: Option<VaultError>)
      modifies this`outbox, this`ledger
      ensures match RecordDecision(old(View()), command, decision)
              case Err(e) => error == Some(e) && View() == old(View())
              case Ok(next) => error == None && View() == next
    {
      if decision.version > I64_MAX {
        return Some(InvalidDelivery("policy_version"));
      }
      if exists i | 0 <= i < |ledger| :: ledger[i].command == command {
        return None;
      }
      if decision.version == 0
         || (decision.Accepted? && exists i | 0 <= i < |ledger| :: ledger[i].accepted && ledger[i].version == decision.version) {
        return Some(StorageFailed);
      }
      ledger := ledger + [LedgerRow(command, decision.version, decision.Accepted?, |outbox|)];
      outbox := outbox + [Acknowledged(command, decision)];
      error := None;
    }

    /** Plans one target against its governing revision and executes what can be executed. */
    method Converge(target: TargetKey) returns (error: Option<VaultError>)
      modifies this
      ensures match ConvergeTarget(old(View()), target)
              case Err(e) => error == Some(e) && View() == old(View())
              case Ok(next) => error == None && View() == next
    {
      var history := if target in revisions then revisions[target] else map[];
      var number := Governing(history);
      if number.None? {
        return None;
      }
      var desired := GovernedRecord(number.value, history[number.value]);
      var observed := if target in targets then Some(targets[target].status) else None;
      var plan := BuildPlan(desired, observed);
      error := None;
      if plan.items == [Exclude] {
        error := Transition(target, Excluded, desired);
      } else if plan.items == [Reactivate] {
        error := Transition(target, Requested, desired);
      }
    }

    /** Ingests one message of a batch; a duplicate still needs the target it names. */
    method TakeDelivery(d: Delivery) returns (error: Option<VaultError>)
      modifies this
      ensures match Exec(old(View()), Txn.Ingest(d))
              case Err(e) => error == Some(e) && View() == old(View())
              case Ok(next) => error == None && View() == next
    {
      var r := Ingest(d);
      if r.Err? {
        return Some(r.error);
      }
      if r.value && Repository(d.repo) !in targets {
        return Some(InvalidDelivery("target_id"));
      }
      error := None;
    }

    /** Ingests every message, remembering each target once; a duplicate still counts as touched. */
    method IngestBatch(deliveries: seq<Delivery>) returns (touched: seq<TargetKey>, error: Option<VaultError>)
      modifies this
      ensures ExecAll(old(View()), Ingests(deliveries)) == Outcome(View(), error)
      ensures error.None? ==> touched == Touched(deliveries)
    {
      touched := [];
      ghost var start := View();
      for i := 0 to |deliveries|
        invariant ExecAll(start, Ingests(deliveries[..i])) == Outcome(View(), None)
        invariant touched == Touched(deliveries[..i])
      {
        ghost var before := View();
        var d := deliveries[i];
        NextIngest(start, deliveries, i, before);
        error := TakeDelivery(d);
        if error.Some? {
          return;
        }
        if Repository(d.repo) !in touched {
          touched := touched + [Repository(d.repo)];
        }
      }
      assert deliveries[..|deliveries|] == deliveries;
      error := None;
    }

    /** Converges every touched target in order. */
    method ConvergeBatch(touched: seq<TargetKey>) returns (error: Option<VaultError>)
      modifies this
      ensures ExecAll(old(View()), Converges(touched)) == Outcome(View(), error)
    {
      ghost var start := View();
      for i := 0 to |touched|
        invariant ExecAll(start, Converges(touched[..i])) == Outcome(View(), None)
      {
        NextConverge(start, touched, i, View());
        error := Converge(touched[i]);
        if error.Some? {
          return;
        }
      }
      assert touched[..|touched|] == touched;
      error := None;
    }

    /** One reconciliation cycle over a batch. */
    method RunCycle(deliveries: seq<Delivery>) returns (error: Option<VaultError>)
      modifies this
      ensures ExecAll(old(View()), Ingests(deliveries) + Converges(Touched(deliveries))) == Outcome(View(), error)
    {
      ExecAllSplit(View(), Ingests(deliveries), Converges(Touched(deliveries)));
      var touched: seq<TargetKey>;
      touched, error := IngestBatch(deliveries);
      if error.None? {
        error := ConvergeBatch(touched);
      }
    }

    /** Decides one command: apply an acceptable version, then record the decision. */
    method Decide(c: Command) returns (error: Option<VaultError>)
      modifies this
      ensures Handle(old(View()), c) == Outcome(View(), error)
    {
      if exists i | 0 <= i < |ledger| :: ledger[i].command == c.id {
        return None;
      }
      var decision := ForVersion(c.version, LastApplied(ledger));
      ghost var start := View();
      if decision.Accepted? {
        if c.version > I64_MAX {
          return Some(InvalidDelivery("policy_version"));
        }
        var governed := Governed(c.version);
        ExecAllSplit(start, Application(start, c), [Record(c.id, decision)]);
        error := RunCycle(DeliveriesForPolicy(c, governed));
        if error.Some? {
          return;
        }
      }
      ghost var applied := View();
      error := RecordPolicyDecision(c.id, decision);
      assert ExecAll(applied, [Record(c.id, decision)]) == Outcome(View(), error);
    }

    /** The repositories governed as they stood before the version, listed in order. */
    method Governed(version: nat) returns (repos: seq<nat>)
      ensures repos == Ascending(GovernedRepos(View(), POLICY_SOURCE, version))
    {
      var found := set target | target in targets && target.Repository?
                                && IsGovernedBy(Before(if target in revisions then revisions[target] else map[],
                                                       POLICY_SOURCE, version), POLICY_SOURCE) :: target.repo;
      assert found == GovernedRepos(View(), POLICY_SOURCE, version);
      repos := Ascending(found);
    }

    /** Handles one broker payload and says how to settle its message; what never decodes writes nothing. */
    method HandleCommand(payload: Incoming) returns (disposition: Disposition)
      modifies this
      ensures match Decode(payload)
              case Invalid(_) => disposition == Term && View() == old(View())
              case Valid(c) =>
                && View() == Handle(old(View()), c).store && disposition == Settle(Handle(old(View()), c).error)
                && (disposition == Ack ==> IsRecorded(View(), c.id))
                && (disposition != Ack ==> !IsRecorded(View(), c.id))
    {
      var decoded := Decode(payload);
      if decoded.Invalid? {
        return Term;
      }
      ghost var start := View();
      var error := Decide(decoded.command);
      if error.None? {
        CompletedIsRecorded(start, decoded.command);
      } else {
        RefusedIsUnrecorded(start, decoded.command);
      }
      disposition := Settle(error);
    }
  }

  /** A refused attempt leaves its command undecided. */
  lemma RefusedIsUnrecorded(s: Store, c: Command)
    requires Handle(s, c).error.Some?
    ensures !IsRecorded(Handle(s, c).store, c.id)
  {
    if Intent(s, c).Ok? && Intent(s, c).value != [] {
      var txns := Intent(s, c).value;
      var done := Progress(s, txns);
      ApplicationIsPhased(s, c);
      LedgerUntouched(s, txns[..done]);
    }
  }

  lemma {:induction false} LedgerUntouched(s: Store, txns: seq<Txn>)
    requires forall k | 0 <= k < |txns| :: !txns[k].Record?
    ensures ExecAll(s, txns).store.ledger == s.ledger
    decreases |txns|
  {
    if txns != [] && Exec(s, txns[0]).Ok? {
      var next := Exec(s, txns[0]).value;
      if txns[0].Converge? {
        TransitionKeepsRevisions(s, txns[0].target, next);
      }
      LedgerUntouched(next, txns[1..]);
    }
  }
}
