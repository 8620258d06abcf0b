/** A command that is overtaken between a crash and its redelivery leaves a withdrawal unconverged. */
module PolicyAbandoned {
  import opened Common
  import opened TargetState
  import opened Planner
  import opened DeletionTables
  import opened PolicyStore
  import opened PolicyReplay
  import opened PolicyConvergence
  import opened PolicyRuns

  const NAMES_SEVEN: Command := Command(1, 1, [7])
  const DROPS_SEVEN: Command := Command(2, 5, [])
  const OVERTAKES: Command := Command(3, 6, [])

  /** Version 5 stops right after it ingested its withdrawal, version 6 is applied, version 5 is redelivered. */
  const OVERTAKEN: seq<LaneEvent> := [Finished(NAMES_SEVEN), Tried(DROPS_SEVEN, 1), Finished(OVERTAKES), Finished(DROPS_SEVEN)]

  const SEVEN: TargetKey := Repository(7)

  function Row(version: nat, level: Level): Revision {
    Stored(DeliveryOf(0, version, 7, level).desired, Some(POLICY_SOURCE))
  }

  /** The repository is enrolled and mirrored under version 1. */
  ghost predicate IsMirrored(s: Store) {
    && s.targets == map[SEVEN := Target(Requested, false)] && s.revisions == map[SEVEN := map[1 := Row(1, GitMirror)]]
    && s.inbox == {(POLICY_SOURCE, MessageId(1, 7))} && |s.ledger| == 1 && s.ledger[0] == LedgerRow(1, 1, true, s.ledger[0].acknowledgement)
  }

  /** The withdrawal of version 5 is stored, and the status has not followed. */
  ghost predicate IsWithdrawn(s: Store) {
    && s.targets == map[SEVEN := Target(Requested, false)]
    && s.revisions == map[SEVEN := map[1 := Row(1, GitMirror), 5 := Row(5, Nothing)]]
  }

  lemma OneEvent(s: Store, events: seq<LaneEvent>, event: LaneEvent)
    ensures LaneRun(s, events + [event]) == LaneStep(LaneRun(s, events), event)
  {
    assert (events + [event])[..|events|] == events;
  }

  lemma Newest(history: map<nat, Revision>, n: nat)
    requires n in history && forall k | k in history :: k <= n
    ensures Governing(history) == Some(n)
  {
  }

  lemma OnlyOne(numbers: set<nat>, n: nat)
    requires numbers == {n}
    ensures Ascending(numbers) == [n]
  {
    var listed := Ascending(numbers);
    assert n in listed;
    assert forall i | 0 <= i < |listed| :: listed[i] in listed;
  }

  lemma FirstCommand(s: Store)
    requires s == Handle(EMPTY_STORE, NAMES_SEVEN).store
    ensures IsMirrored(s)
  {
    var e := EMPTY_STORE;
    assert GovernedRepos(e, POLICY_SOURCE, 1) == {};
    var deliveries := LaneDeliveries(e, NAMES_SEVEN);
    var d := DeliveryOf(1, 1, 7, GitMirror);
    assert deliveries == [d];
    TouchedOne(d);
    var record := Record(1, Accepted(1, 0));
    assert Ingests(deliveries) == [Ingest(d)] && Converges([SEVEN]) == [Converge(SEVEN)];
    var txns := [Ingest(d)] + [Converge(SEVEN)] + [record];
    assert Intent(e, NAMES_SEVEN) == Ok(txns);
    var s1 := Exec(e, Ingest(d)).value;
    assert s1.revisions == map[SEVEN := map[1 := Row(1, GitMirror)]];
    assert Governing(History(s1, SEVEN)) == Some(1);
    assert Exec(s1, Converge(SEVEN)) == Ok(s1);
    assert txns[1..] == [Converge(SEVEN), record] && txns[1..][1..] == [record] && [record][1..] == [];
    assert ExecAll(e, txns) == ExecAll(s1, txns[1..]) == ExecAll(s1, [record]);
  }

  lemma ExecOne(s: Store, txn: Txn, next: Store)
    requires Exec(s, txn) == Ok(next)
    ensures ExecAll(s, [txn]) == Outcome(next, None)
  {
    assert [txn][1..] == [];
    assert ExecAll(next, []) == Outcome(next, None);
  }

  lemma TouchedOne(d: Delivery)
    ensures Touched([d]) == [Repository(d.repo)]
  {
    assert [d][..0] == [];
  }

  lemma GovernsSeven(s: Store)
    requires IsMirrored(s)
    ensures LaneDeliveries(s, DROPS_SEVEN) == [DeliveryOf(2, 5, 7, Nothing)]
  {
    var history := History(s, SEVEN);
    Newest(history, 1);
    assert Before(history, POLICY_SOURCE, 5) == history;
    var governed := GovernedRepos(s, POLICY_SOURCE, 5);
    assert 7 in governed by { assert SEVEN in s.targets; }
    assert governed == {7};
    OnlyOne(governed, 7);
    assert Dropped([7], Named(DROPS_SEVEN)) == [7];
  }

  lemma StopsAfterIngest(s: Store, c: Command, d: Delivery)
    requires !IsRecorded(s, c.id) && LastApplied(s.ledger) < c.version <= I64_MAX && LaneDeliveries(s, c) == [d]
    requires Exec(s, Ingest(d)).Ok?
    ensures HandleFor(s, c, 1).store == Exec(s, Ingest(d)).value
  {
    TouchedOne(d);
    var txns := Intent(s, c).value;
    assert Ingests([d]) == [Ingest(d)];
    assert txns[..1] == [Ingest(d)] && |txns| > 1;
    ExecOne(s, Ingest(d), Exec(s, Ingest(d)).value);
  }

  lemma SecondCommand(s: Store, after: Store)
    requires IsMirrored(s) && after == HandleFor(s, DROPS_SEVEN, 1).store
    ensures IsWithdrawn(after) && after.ledger == s.ledger
  {
    GovernsSeven(s);
    assert LastApplied(s.ledger) == 1 by { assert s.ledger[..0] == []; }
    assert !IsRecorded(s, 2);
    WithdrawalOf(s);
    StopsAfterIngest(s, DROPS_SEVEN, DeliveryOf(2, 5, 7, Nothing));
  }

  lemma WithdrawalOf(s: Store)
    requires IsMirrored(s)
    ensures var r := Exec(s, Ingest(DeliveryOf(2, 5, 7, Nothing))); r.Ok? && IsWithdrawn(r.value) && r.value.ledger == s.ledger
  {
    var r := Exec(s, Ingest(DeliveryOf(2, 5, 7, Nothing)));
    assert (POLICY_SOURCE, MessageId(2, 7)) !in s.inbox;
    assert History(s, SEVEN)[5 := Row(5, Nothing)] == map[1 := Row(1, GitMirror), 5 := Row(5, Nothing)];
  }

  lemma ThirdCommand(s: Store, after: Store)
    requires IsWithdrawn(s) && |s.ledger| == 1 && s.ledger[0].command == 1 && s.ledger[0].version == 1
    requires after == Handle(s, OVERTAKES).store
    ensures IsWithdrawn(after) && after.ledger == s.ledger + [LedgerRow(3, 6, true, |s.outbox|)]
  {
    var history := History(s, SEVEN);
    Newest(history, 5);
    assert Before(history, POLICY_SOURCE, 6) == history;
    assert GovernedRepos(s, POLICY_SOURCE, 6) == {};
    var deliveries := LaneDeliveries(s, OVERTAKES);
    assert deliveries == [];
    assert Ingests(deliveries) == [] && Touched(deliveries) == [] && Converges([]) == [];
    assert LastApplied(s.ledger) <= 1 by { assert s.ledger[..0] == []; }
    RecordsOnly(s, OVERTAKES, Accepted(6, LastApplied(s.ledger)), after);
  }

  lemma RecordsOnly(s: Store, c: Command, decision: Decision, after: Store)
    requires !IsRecorded(s, c.id) && decision == ForVersion(c.version, LastApplied(s.ledger)) && 0 < c.version <= I64_MAX
    requires decision.Accepted? ==> Application(s, c) == []
    requires forall i | 0 <= i < |s.ledger| :: s.ledger[i].version != c.version
    requires after == Handle(s, c).store
    ensures after == s.(outbox := s.outbox + [Acknowledged(c.id, decision)],
                        ledger := s.ledger + [LedgerRow(c.id, c.version, decision.Accepted?, |s.outbox|)])
  {
    var record := Record(c.id, decision);
    if decision.Accepted? {
      assert Application(s, c) + [record] == [record];
    }
    assert Intent(s, c) == Ok([record]);
    assert Exec(s, record).Ok?;
    ExecOne(s, record, Exec(s, record).value);
  }

  lemma FourthCommand(s: Store, after: Store)
    requires IsWithdrawn(s) && |s.ledger| == 2 && s.ledger[0].command == 1 && s.ledger[1].command == 3
    requires s.ledger[0].version == 1 && s.ledger[1].accepted && s.ledger[1].version == 6
    requires after == Handle(s, DROPS_SEVEN).store
    ensures IsWithdrawn(after) && after.ledger == s.ledger + [LedgerRow(2, 5, false, |s.outbox|)]
  {
    assert LastApplied(s.ledger) >= 6;
    RecordsOnly(s, DROPS_SEVEN, Rejected(5, LastApplied(s.ledger)), after);
  }

  lemma WithdrawnIsUnsettled(s: Store)
    requires IsWithdrawn(s)
    ensures Exclude in Proposal(s, SEVEN) && !IsSettled(s, SEVEN)
  {
    Newest(History(s, SEVEN), 5);
  }

  lemma AllRecorded(s: Store)
    requires |s.ledger| == 3 && s.ledger[0].command == 1 && s.ledger[1].command == 3 && s.ledger[2].command == 2
    ensures IsRecorded(s, 1) && IsRecorded(s, 2) && IsRecorded(s, 3)
  {
  }

  /**
   * After that run every command is decided, and yet the planner still proposes to exclude the
   * repository that version 5 withdrew.
   */
  lemma OvertakenWithdrawalIsLeftBehind()
    ensures var s := LaneRun(EMPTY_STORE, OVERTAKEN);
            && Exclude in Proposal(s, SEVEN) && !IsSettled(s, SEVEN)
            && IsRecorded(s, NAMES_SEVEN.id) && IsRecorded(s, OVERTAKES.id) && IsRecorded(s, DROPS_SEVEN.id)
  {
    FourEvents(EMPTY_STORE, Finished(NAMES_SEVEN), Tried(DROPS_SEVEN, 1), Finished(OVERTAKES), Finished(DROPS_SEVEN));
    var s1 := LaneStep(EMPTY_STORE, Finished(NAMES_SEVEN));
    var s2 := LaneStep(s1, Tried(DROPS_SEVEN, 1));
    var s3 := LaneStep(s2, Finished(OVERTAKES));
    RunOfFour(s1, s2, s3, LaneStep(s3, Finished(DROPS_SEVEN)));
  }

  lemma TwoEvents(s: Store, events: seq<LaneEvent>, a: LaneEvent, b: LaneEvent)
    ensures LaneRun(s, events + [a, b]) == LaneStep(LaneStep(LaneRun(s, events), a), b)
  {
    OneEvent(s, events, a);
    OneEvent(s, events + [a], b);
    assert events + [a] + [b] == events + [a, b];
  }

  lemma FourEvents(s: Store, a: LaneEvent, b: LaneEvent, c: LaneEvent, d: LaneEvent)
    ensures LaneRun(s, [a, b, c, d]) == LaneStep(LaneStep(LaneStep(LaneStep(s, a), b), c), d)
  {
    TwoEvents(s, [], a, b);
    assert [] + [a, b] == [a, b] && [a, b] + [c, d] == [a, b, c, d];
    TwoEvents(s, [a, b], c, d);
  }

  lemma RunOfFour(s1: Store, s2: Store, s3: Store, s4: Store)
    requires s1 == Handle(EMPTY_STORE, NAMES_SEVEN).store && s2 == HandleFor(s1, DROPS_SEVEN, 1).store
    requires s3 == Handle(s2, OVERTAKES).store && s4 == Handle(s3, DROPS_SEVEN).store
    ensures Exclude in Proposal(s4, SEVEN) && !IsSettled(s4, SEVEN)
    ensures IsRecorded(s4, 1) && IsRecorded(s4, 2) && IsRecorded(s4, 3)
  {
    FirstCommand(s1);
    SecondCommand(s1, s2);
    ThirdCommand(s2, s3);
    FourthCommand(s3, s4);
    WithdrawnIsUnsettled(s4);
    AllRecorded(s4);
  }
}
