/**
 * The tables of the policy lane and the transactions one policy command is made of.
 *
 * A target row is keyed by its natural key, a revision by (target, revision number), and the
 * append-only tables are sequences, so no minted identifier or timestamp is part of the state.
 */
module PolicyStore {
  import opened Common
  import opened TargetState
  import opened Planner
  import opened DeletionTables

  const POLICY_SOURCE: string := "github-policy"

  /** The name-based identifier of one repository inside one command. */
  datatype MessageId = MessageId(command: nat, repo: nat)

  datatype Target = Target(status: TargetStatus, pinned: bool)

  /** One stored revision; `source` is absent for a revision no transport delivered. */
  datatype Revision = Revision(
    level: Level, pinned: bool, includeWiki: bool, includeReleases: bool, includeIssues: bool, offsiteRequired: bool,
    correlation: Correlation, source: Option<string>)

  datatype Decision =
    | Accepted(version: nat, previousApplied: nat)
    | Rejected(version: nat, lastApplied: nat)

  datatype Event =
    | StateChanged(target: TargetKey, from: Option<TargetStatus>, to: TargetStatus, revision: nat)
    | Acknowledged(command: nat, decision: Decision)

  /** One decided command; `acknowledgement` is the outbox position of its answer. */
  datatype LedgerRow = LedgerRow(command: nat, version: nat, accepted: bool, acknowledgement: nat)

  datatype Store = Store(
    targets: map<TargetKey, Target>,
    revisions: map<TargetKey, map<nat, Revision>>,
    inbox: set<(string, MessageId)>,
    outbox: seq<Event>,
    ledger: seq<LedgerRow>,
    retention: Tables)

  datatype Delivery = Delivery(repo: nat, source: string, message: MessageId, desired: Desired)

  /** A whole-catalog policy document: every repository it names, in document order. */
  datatype Command = Command(id: nat, version: nat, repositories: seq<nat>)

  // ----- revisions and what they govern -----

  function History(s: Store, target: TargetKey): map<nat, Revision> {
    if target in s.revisions then s.revisions[target] else map[]
  }

  /** The revision row a desired record becomes: an omitted flag is stored as false. */
  function Stored(desired: Desired, source: Option<string>): Revision {
    Revision(desired.level, desired.pinned == Some(true), desired.includeWiki == Some(true),
             desired.includeReleases == Some(true), desired.includeIssues == Some(true),
             desired.offsiteRequired == Some(true), desired.correlation, source)
  }

  /** The desired record a stored revision stands for. */
  function GovernedRecord(number: nat, row: Revision): Desired {
    Desired(row.level, Some(row.pinned), Some(row.includeWiki), Some(row.includeReleases), Some(row.includeIssues),
            Some(row.offsiteRequired), row.correlation, number)
  }

  /** The highest revision governs, whatever the arrival order. */
  function Governing(history: map<nat, Revision>): (r: Option<nat>)
    ensures r.None? <==> history == map[]
    ensures r.Some? ==> r.value in history && forall n | n in history :: n <= r.value
  {
    if history.Keys == {} then None else Some(MaxOf(history.Keys))
  }

  /** The revisions as they stood before `version` of `source`: that source's own later ones are ignored. */
  function Before(history: map<nat, Revision>, source: string, version: nat): map<nat, Revision> {
    map n | n in history && (history[n].source != Some(source) || n < version) :: history[n]
  }

  /** The governing revision came from `source` at a level above none. */
  predicate IsGovernedBy(history: map<nat, Revision>, source: string) {
    var number := Governing(history);
    number.Some? && history[number.value].source == Some(source) && history[number.value].level != Nothing
  }

  function GovernedRepos(s: Store, source: string, version: nat): (repos: set<nat>) {
    set target | target in s.targets && target.Repository?
                 && IsGovernedBy(Before(History(s, target), source, version), source) :: target.repo
  }

  /** The repositories `source` governs now. */
  function GovernedNow(s: Store, source: string): (repos: set<nat>) {
    set target | target in s.targets && target.Repository? && IsGovernedBy(History(s, target), source) :: target.repo
  }

  function TargetsGovernedBefore(s: Store, source: string, version: nat): (r: Result<seq<nat>>) {
    if version > I64_MAX then Err(InvalidDelivery("policy_version"))
    else Ok(Ascending(GovernedRepos(s, source, version)))
  }

  // ----- the ledger -----

  predicate IsRecorded(s: Store, command: nat) {
    exists i | 0 <= i < |s.ledger| :: s.ledger[i].command == command
  }

  /** The highest accepted version in a ledger, or zero before the first. */
  function LastApplied(ledger: seq<LedgerRow>): (version: nat) {
    if ledger == [] then 0
    else
      var earlier := LastApplied(ledger[..|ledger| - 1]);
      var row := ledger[|ledger| - 1];
      if row.accepted && row.version > earlier then row.version else earlier
  }

  function ForVersion(version: nat, lastApplied: nat): Decision {
    if version > lastApplied then Accepted(version, lastApplied) else Rejected(version, lastApplied)
  }

  /** One ledger row and one acknowledgement together; a second accepted row for a version is refused. */
  function RecordDecision(s: Store, command: nat, decision: Decision): (r: Result<Store>) {
    if decision.version > I64_MAX then Err(InvalidDelivery("policy_version"))
    else if IsRecorded(s, command) then Ok(s)
    else if decision.version == 0 then Err(StorageFailed)
    else if decision.Accepted?
            && exists i | 0 <= i < |s.ledger| :: s.ledger[i].accepted && s.ledger[i].version == decision.version
    then Err(StorageFailed)
    else
      Ok(s.(outbox := s.outbox + [Acknowledged(command, decision)],
            ledger := s.ledger + [LedgerRow(command, decision.version, decision.Accepted?, |s.outbox|)]))
  }

  // ----- ingest and transition -----

  /** The revision insert: a number already used for the target keeps its row. */
  function WithRevision(s: Store, target: TargetKey, number: nat, row: Revision): Store {
    if number in History(s, target) then s
    else s.(revisions := s.revisions[target := History(s, target)[number := row]])
  }

  /** A target enters at first sight, with its enrollment event. */
  function Enrolled(s: Store, target: TargetKey, revision: nat): Store {
    if target in s.targets then s
    else s.(targets := s.targets[target := Target(Requested, false)],
            outbox := s.outbox + [StateChanged(target, None, Requested, revision)])
  }

  /** What an ingest reports: the target it reached, or that the inbox had the message already. */
  datatype Ingested = Ingested(store: Store, duplicate: bool)

  function IngestDelivery(s: Store, d: Delivery): (r: Result<Ingested>) {
    if d.desired.revision > I64_MAX then Err(InvalidDelivery("policy_revision"))
    else if (d.source, d.message) in s.inbox then Ok(Ingested(s, true))
    else if d.desired.revision == 0 then Err(StorageFailed)
    else
      var claimed := s.(inbox := s.inbox + {(d.source, d.message)});
      var enrolled := Enrolled(claimed, Repository(d.repo), d.desired.revision);
      Ok(Ingested(WithRevision(enrolled, Repository(d.repo), d.desired.revision, Stored(d.desired, Some(d.source))), false))
  }

  /** The tombstone side of a status move. */
  function RetentionTransition(tables: Tables, target: TargetKey, pinned: bool, to: TargetStatus, governing: Desired)
    : (r: Result<Tables>)
  {
    if to == Excluded then
      if governing.level != Nothing then Err(InvalidDelivery("tombstone_policy"))
      else if pinned || governing.pinned == Some(true) then Err(InvalidDelivery("target_pin"))
      else Ok(CreateTombstone(tables, target, governing.revision))
    else if to == Requested && governing.level != Nothing then CancelTombstone(tables, target)
    else Ok(tables)
  }

  /**
   * One governed status move: revision evidence, tombstone, guarded status write and event in one commit.
   * The evidence insert comes first, so its check and its foreign key refuse before anything else is read.
   */
  function ApplyTransition(s: Store, target: TargetKey, to: TargetStatus, governing: Desired): (r: Result<Store>) {
    if governing.revision > I64_MAX then Err(InvalidDelivery("policy_revision"))
    else if governing.revision == 0 || target !in s.targets then Err(StorageFailed)
    else
      var row := s.targets[target];
      var tables := RetentionTransition(s.retention, target, row.pinned, to, governing);
      if tables.Err? then Err(tables.error)
      else if !GuardAdmits(row.status, to) then Err(IllegalTransition)
      else
        var evidenced := WithRevision(s, target, governing.revision, Stored(governing, None));
        Ok(evidenced.(targets := s.targets[target := row.(status := to)],
                      retention := tables.value,
                      outbox := if row.status == to then s.outbox
                                else s.outbox + [StateChanged(target, Some(row.status), to, governing.revision)]))
  }

  function ObservedStatus(s: Store, target: TargetKey): Option<TargetStatus> {
    if target in s.targets then Some(s.targets[target].status) else None
  }

  /** What the planner proposes for a target under its governing revision. */
  function Proposal(s: Store, target: TargetKey): (items: seq<WorkItem>) {
    var history := History(s, target);
    match Governing(history)
    case None => []
    case Some(number) => Items(GovernedRecord(number, history[number]), ObservedStatus(s, target))
  }

  /** The target needs no status move: the planner proposes neither exclusion nor reactivation. */
  predicate IsSettled(s: Store, target: TargetKey) {
    Exclude !in Proposal(s, target) && Reactivate !in Proposal(s, target)
  }

  /** Executes the status move the planner proposes for the governing revision, if it proposes one. */
  function ConvergeTarget(s: Store, target: TargetKey): (r: Result<Store>) {
    var history := History(s, target);
    match Governing(history)
    case None => Ok(s)
    case Some(number) =>
      var desired := GovernedRecord(number, history[number]);
      if Exclude in Proposal(s, target) then ApplyTransition(s, target, Excluded, desired)
      else if Reactivate in Proposal(s, target) then ApplyTransition(s, target, Requested, desired)
      else Ok(s)
  }

  // ----- one command as a list of transactions -----

  function DeliveryOf(command: nat, version: nat, repo: nat, level: Level): Delivery {
    Delivery(repo, POLICY_SOURCE, MessageId(command, repo),
             Desired(level, None, None, None, None, None, BackupPolicy(version), version))
  }

  /** The previously governed repositories the document no longer names. */
  function Dropped(governed: seq<nat>, kept: set<nat>): (dropped: seq<nat>)
    ensures forall repo :: repo in dropped <==> repo in governed && repo !in kept
  {
    if governed == [] then []
    else (if governed[0] in kept then [] else [governed[0]]) + Dropped(governed[1..], kept)
  }

  function Named(c: Command): set<nat> {
    set repo | repo in c.repositories
  }

  /** One delivery per named repository, then one withdrawal per dropped one. */
  function DeliveriesForPolicy(c: Command, governed: seq<nat>): (deliveries: seq<Delivery>)
    ensures |deliveries| >= |c.repositories|
  {
    seq(|c.repositories|, i requires 0 <= i < |c.repositories| => DeliveryOf(c.id, c.version, c.repositories[i], GitMirror))
    + var dropped := Dropped(governed, Named(c));
      seq(|dropped|, i requires 0 <= i < |dropped| => DeliveryOf(c.id, c.version, dropped[i], Nothing))
  }

  /** The targets of a batch, each once, in first-touched order. */
  function Touched(deliveries: seq<Delivery>): (targets: seq<TargetKey>)
    ensures forall target :: target in targets <==>
              exists i | 0 <= i < |deliveries| :: target == Repository(deliveries[i].repo)
    ensures forall i, j | 0 <= i < j < |targets| :: targets[i] != targets[j]
  {
    if deliveries == [] then []
    else
      var earlier := Touched(deliveries[..|deliveries| - 1]);
      var target := Repository(deliveries[|deliveries| - 1].repo);
      if target in earlier then earlier else earlier + [target]
  }

  datatype Txn =
    | Ingest(delivery: Delivery)
    | Converge(target: TargetKey)
    | Record(command: nat, decision: Decision)

  /** Executes one transaction; a duplicate delivery still needs the target it names. */
  function Exec(s: Store, txn: Txn): (r: Result<Store>) {
    match txn
    case Ingest(d) =>
      (match IngestDelivery(s, d)
       case Err(e) => Err(e)
       case Ok(done) =>
         if done.duplicate && Repository(d.repo) !in s.targets then Err(InvalidDelivery("target_id"))
         else Ok(done.store))
    case Converge(target) => ConvergeTarget(s, target)
    case Record(command, decision) => RecordDecision(s, command, decision)
  }

  /** Where a run of transactions stopped: after all of them, or before the one that failed. */
  datatype Outcome = Outcome(store: Store, error: Option<VaultError>)

  function ExecAll(s: Store, txns: seq<Txn>): (r: Outcome)
    decreases |txns|
  {
    if txns == [] then Outcome(s, None)
    else
      match Exec(s, txns[0])
      case Err(e) => Outcome(s, Some(e))
      case Ok(next) => ExecAll(next, txns[1..])
  }

  function Ingests(deliveries: seq<Delivery>): seq<Txn> {
    seq(|deliveries|, i requires 0 <= i < |deliveries| => Ingest(deliveries[i]))
  }

  function Converges(targets: seq<TargetKey>): seq<Txn> {
    seq(|targets|, i requires 0 <= i < |targets| => Converge(targets[i]))
  }

  function LaneDeliveries(s: Store, c: Command): seq<Delivery> {
    DeliveriesForPolicy(c, Ascending(GovernedRepos(s, POLICY_SOURCE, c.version)))
  }

  /** The transactions an accepted command runs before its ledger row. */
  function Application(s: Store, c: Command): seq<Txn> {
    var deliveries := LaneDeliveries(s, c);
    Ingests(deliveries) + Converges(Touched(deliveries))
  }

  /** Everything a handler attempt intends to do, decided from the state it finds. */
  function Intent(s: Store, c: Command): (r: Result<seq<Txn>>) {
    if IsRecorded(s, c.id) then Ok([])
    else
      var decision := ForVersion(c.version, LastApplied(s.ledger));
      if decision.Rejected? then Ok([Record(c.id, decision)])
      else if c.version > I64_MAX then Err(InvalidDelivery("policy_version"))
      else Ok(Application(s, c) + [Record(c.id, decision)])
  }

  /** One attempt that the process survives for at most `limit` transactions. */
  function HandleFor(s: Store, c: Command, limit: nat): (r: Outcome) {
    match Intent(s, c)
    case Err(e) => Outcome(s, Some(e))
    case Ok(txns) => ExecAll(s, if limit < |txns| then txns[..limit] else txns)
  }

  /** One uninterrupted attempt. */
  function Handle(s: Store, c: Command): (r: Outcome) {
    match Intent(s, c)
    case Err(e) => Outcome(s, Some(e))
    case Ok(txns) => ExecAll(s, txns)
  }

  /** The state after attempts that each stopped after so many transactions. */
  function Interrupted(s: Store, c: Command, limits: seq<nat>): (r: Store)
    decreases |limits|
  {
    if limits == [] then s else Interrupted(HandleFor(s, c, limits[0]).store, c, limits[1..])
  }
}
