/**
 * The worker that drives one deletion plan through a database handle, with every other actor free to
 * act between any two of its transactions.
 */
module RetentionWorker {
  import opened Common
  import opened DeletionTables
  import opened DeletionProtocol
  import opened DeletionDatabase
  import opened DeletionEffects

  datatype PlanOutcome = RunCompleted | RunDeferred | RunFailed

  /** What the worker does with a claim reply. */
  datatype ClaimAction = Effect(attempt: nat, claim: nat) | Suppressed | Deferred

  function ActionFor(reply: ClaimReply): (action: ClaimAction)
    ensures action.Effect? <==> reply.Claimed?
    ensures action.Suppressed? <==> reply.SharedReferenceRetained?
  {
    match reply
    case Claimed(attempt, claim) => Effect(attempt, claim)
    case SharedReferenceRetained(_) => Suppressed
    case GraceActive => Deferred
    case ProtectedPinned => Deferred
  }

  /** How one stage ended for the worker. */
  datatype StageEnd = StageDone | StageDeferred | StageBroken

  function Unfinished(end: StageEnd): PlanOutcome {
    if end == StageDeferred then RunDeferred else RunFailed
  }

  // ----- the stages of a plan -----

  function Digits(n: nat): string {
    if n < 10 then [('0' as int + n) as char] else Digits(n / 10) + Digits(n % 10)
  }

  function LocalRequest(plan: nat, artifact: nat, lease: nat): StageRequest {
    StageRequest(plan, Local, "local:" + Digits(artifact), Some(artifact), None, None, lease)
  }

  function TargetText(target: TargetKey): string {
    match target
    case Repository(repo) => Digits(repo)
    case Wiki(parent) => Digits(parent) + "/wiki"
  }

  function MirrorRequest(plan: nat, target: TargetKey, lease: nat): StageRequest {
    StageRequest(plan, MirrorLocal, "mirror:" + TargetText(target), None, None, None, lease)
  }

  function ReplicaRequest(plan: nat, artifact: nat, stored: ExecutionReplica, lease: nat): StageRequest {
    StageRequest(plan, Replica, "replica:" + Digits(stored.placement), Some(artifact), Some(stored.replica),
                 Some(stored.placement), lease)
  }

  /** Different rows have different texts, so the stages of a plan have different keys. */
  lemma {:induction false} DigitsIdentify(m: nat, n: nat)
    requires Digits(m) == Digits(n)
    ensures m == n
    decreases m
  {
    DigitsEnd(m);
    DigitsEnd(n);
    if m >= 10 && n >= 10 {
      var text := Digits(m);
      assert text[..|text| - 1] == Digits(m / 10) == Digits(n / 10);
      DigitsIdentify(m / 10, n / 10);
    }
  }

  lemma DigitsEnd(n: nat)
    ensures |Digits(n)| > 0 && Digits(n)[|Digits(n)| - 1] as int == '0' as int + n % 10
    ensures n >= 10 ==> |Digits(n)| == |Digits(n / 10)| + 1 && Digits(n)[..|Digits(n)| - 1] == Digits(n / 10) && |Digits(n / 10)| > 0
    ensures n < 10 ==> |Digits(n)| == 1
  {
    if n >= 10 {
      assert |Digits(n % 10)| == 1;
      DigitsNonempty(n / 10);
    }
  }

  lemma DigitsNonempty(n: nat)
    ensures |Digits(n)| > 0
  {
  }

  /** Each request names its own row of the plan's snapshot, in the shape its kind asks for, with the worker's lease. */
  lemma RequestsAreWellShaped(t: Tables, plan: nat, a: nat, p: nat, lease: nat)
    requires plan < |t.plans| && a < |t.artifacts| && t.artifacts[a].snapshot == t.plans[plan].snapshot
    ensures var request := LocalRequest(plan, a, lease);
            && request.kind == Local && IsWellShaped(t, t.plans[plan].snapshot, request) && request.artifact == Some(a)
            && request.plan == plan && request.leaseSeconds == lease && request.stageKey == "local:" + Digits(a)
    ensures var request := MirrorRequest(plan, t.plans[plan].target, lease);
            && request.kind == MirrorLocal && IsWellShaped(t, t.plans[plan].snapshot, request)
            && request.plan == plan && request.leaseSeconds == lease
    ensures p < |t.placements| && t.placements[p].artifact == a ==>
              var request := ReplicaRequest(plan, a, ExecutionReplica(p, t.placements[p].replica), lease);
              && request.kind == Replica && IsWellShaped(t, t.plans[plan].snapshot, request) && request.placement == Some(p)
              && request.plan == plan && request.leaseSeconds == lease && request.stageKey == "replica:" + Digits(p)
  {
  }

  // ----- what a finished stage leaves behind -----

  predicate IsForStage(attempt: Attempt, request: StageRequest) {
    && attempt.plan == request.plan && attempt.kind == request.kind && attempt.stageKey == request.stageKey
    && attempt.artifact == request.artifact && attempt.placement == request.placement
  }

  /** An attempt row that closes a requested stage with terminal evidence. */
  predicate EndsStage(attempt: Attempt, request: StageRequest) {
    IsForStage(attempt, request) && IsTerminalEvidence(attempt.outcome)
  }

  /**
   * The effect came before its report: step `a` took the lease for attempt `i`, step `b` deleted the object
   * under that very lease, and step `d` reported success.
   */
  ghost predicate EffectAt(trace: seq<Action>, request: StageRequest, i: nat, a: nat, b: nat, d: nat) {
    && a < b < d < |trace| && trace[a] == ClaimIt(request) && trace[b].DeleteBytes?
    && trace[d] == Succeed(i, trace[b].claim)
    && IsLeaseOf(Run(EMPTY, trace[..a]), request, i, trace[b].claim)
  }

  /** Claiming the stage in this state takes a lease, as this attempt and this claim. */
  ghost predicate IsLeaseOf(w: World, request: StageRequest, attempt: nat, claim: nat) {
    var reply := ClaimStage(w.tables, w.now, request);
    reply.Ok? && reply.value.reply == Claimed(attempt, claim)
  }

  ghost predicate DeletedFirst(since: nat, trace: seq<Action>, request: StageRequest, i: nat) {
    exists a: nat, b: nat, d: nat :: since <= a && EffectAt(trace, request, i, a, b, d)
  }

  /**
   * The stage has ended with terminal evidence, and since then: its object was retained for another
   * snapshot, or was deleted under the attempt's own lease before success was reported.
   */
  ghost predicate IsAccomplished(since: nat, trace: seq<Action>, t: Tables, request: StageRequest) {
    exists i | 0 <= i < |t.attempts| ::
      EndsStage(t.attempts[i], request) && (t.attempts[i].outcome == SharedRetained || DeletedFirst(since, trace, request, i))
  }

  /** Every local stage of the artifacts is accomplished. */
  ghost predicate LocalEnded(since: nat, trace: seq<Action>, t: Tables, plan: nat, artifacts: seq<ExecutionArtifact>, lease: nat) {
    forall i | 0 <= i < |artifacts| :: IsAccomplished(since, trace, t, LocalRequest(plan, artifacts[i].artifact, lease))
  }

  /** Every replica stage of one artifact is accomplished. */
  ghost predicate CopiesEnded(
    since: nat, trace: seq<Action>, t: Tables, plan: nat, artifact: nat, replicas: seq<ExecutionReplica>, lease: nat)
  {
    forall i | 0 <= i < |replicas| :: IsAccomplished(since, trace, t, ReplicaRequest(plan, artifact, replicas[i], lease))
  }

  ghost predicate ReplicasEnded(since: nat, trace: seq<Action>, t: Tables, plan: nat, artifacts: seq<ExecutionArtifact>, lease: nat) {
    forall i | 0 <= i < |artifacts| ::
      CopiesEnded(since, trace, t, plan, artifacts[i].artifact, artifacts[i].replicas, lease)
  }

  /** The object a lease was taken for is gone right after a delete under it, if the lease was still live. */
  lemma EffectRemovesTheObject(trace: seq<Action>, request: StageRequest, i: nat, a: nat, b: nat, d: nat)
    requires EffectAt(trace, request, i, a, b, d)
    ensures var before := Run(EMPTY, trace[..b]); var claim := trace[b].claim; var taken := Run(EMPTY, trace[..a]);
            && claim < |before.tables.claims|
            && request.plan < |taken.tables.plans| && taken.tables.plans[request.plan].snapshot < |taken.tables.snapshots|
            && IsWellShaped(taken.tables, taken.tables.plans[request.plan].snapshot, request)
            && IsObjectOf(taken.tables, taken.tables.plans[request.plan].snapshot, request, before.tables.claims[claim].identity)
            && (IsLive(before.tables.claims[claim], before.now) ==>
                  !IsStored(Run(EMPTY, trace[..b + 1]), before.tables.claims[claim].identity))
  {
    var taken, claim := Run(EMPTY, trace[..a]), trace[b].claim;
    assert trace[..a + 1] == trace[..a] + [trace[a]] && trace[..b + 1] == trace[..b] + [trace[b]];
    RunExtends(EMPTY, trace[..a], trace[a]);
    RunExtends(EMPTY, trace[..b], trace[b]);
    LeaseNames(taken, request, i, claim);
    ClaimsKeepIdentity(trace[..a + 1], trace[..b], claim);
    if IsLive(Run(EMPTY, trace[..b]).tables.claims[claim], Run(EMPTY, trace[..b]).now) {
      DeleteUnderLease(Run(EMPTY, trace[..b]), claim);
    }
  }

  lemma LeaseNames(taken: World, request: StageRequest, i: nat, claim: nat)
    requires IsLeaseOf(taken, request, i, claim)
    ensures var u := Step(taken, ClaimIt(request)).tables;
            && claim < |u.claims|
            && request.plan < |taken.tables.plans| && taken.tables.plans[request.plan].snapshot < |taken.tables.snapshots|
            && IsWellShaped(taken.tables, taken.tables.plans[request.plan].snapshot, request)
            && IsObjectOf(taken.tables, taken.tables.plans[request.plan].snapshot, request, u.claims[claim].identity)
  {
    LeaseWrites(taken.tables, taken.now, request);
  }

  lemma DeleteUnderLease(w: World, claim: nat)
    requires claim < |w.tables.claims| && IsLive(w.tables.claims[claim], w.now)
    ensures !IsStored(Step(w, DeleteBytes(claim)), w.tables.claims[claim].identity)
  {
  }

  lemma {:induction false} ClaimsKeepIdentity(earlier: seq<Action>, later: seq<Action>, claim: nat)
    requires earlier <= later && claim < |Run(EMPTY, earlier).tables.claims|
    ensures claim < |Run(EMPTY, later).tables.claims|
    ensures Run(EMPTY, later).tables.claims[claim].identity == Run(EMPTY, earlier).tables.claims[claim].identity
    decreases |later|
  {
    if earlier != later {
      var front, action := later[..|later| - 1], later[|later| - 1];
      assert later == front + [action] && earlier <= front;
      ClaimsKeepIdentity(earlier, front, claim);
      RunExtends(EMPTY, front, action);
      StepKeepsIdentity(Run(EMPTY, front), action, claim);
    }
  }

  lemma StepKeepsIdentity(w: World, action: Action, claim: nat)
    requires claim < |w.tables.claims|
    ensures claim < |Step(w, action).tables.claims|
    ensures Step(w, action).tables.claims[claim].identity == w.tables.claims[claim].identity
  {
    StepExtends(w, action);
    var u := Step(w, action).tables;
    assert u.claims[claim].(outcome := w.tables.claims[claim].outcome) == w.tables.claims[claim];
  }

  /** Attempts keep what they are for, and terminal evidence is never rewritten. */
  ghost predicate AttemptsKept(t: Tables, u: Tables) {
    && |t.attempts| <= |u.attempts|
    && forall i | 0 <= i < |t.attempts| ::
         && u.attempts[i].(outcome := t.attempts[i].outcome, finishedAt := t.attempts[i].finishedAt) == t.attempts[i]
         && (t.attempts[i].outcome != Running ==> u.attempts[i] == t.attempts[i])
  }

  lemma ExtensionKeepsAttempts(t: Tables, u: Tables)
    requires Extends(t, u)
    ensures AttemptsKept(t, u)
  {
  }

  lemma KeptTransitively(t: Tables, u: Tables, v: Tables)
    requires AttemptsKept(t, u) && AttemptsKept(u, v)
    ensures AttemptsKept(t, v)
  {
    forall i | 0 <= i < |t.attempts|
      ensures v.attempts[i].(outcome := t.attempts[i].outcome, finishedAt := t.attempts[i].finishedAt) == t.attempts[i]
    {
      assert u.attempts[i].(outcome := t.attempts[i].outcome, finishedAt := t.attempts[i].finishedAt) == t.attempts[i];
      assert v.attempts[i].(outcome := u.attempts[i].outcome, finishedAt := u.attempts[i].finishedAt) == u.attempts[i];
    }
  }

  /** A longer history keeps every attempt of a shorter one. */
  lemma {:induction false} HistoryKeepsAttempts(earlier: seq<Action>, later: seq<Action>)
    requires earlier <= later
    ensures AttemptsKept(Run(EMPTY, earlier).tables, Run(EMPTY, later).tables)
    decreases |later|
  {
    if earlier != later {
      var front, action := later[..|later| - 1], later[|later| - 1];
      assert later == front + [action] && earlier <= front;
      HistoryKeepsAttempts(earlier, front);
      RunExtends(EMPTY, front, action);
      OneStepKeeps(Run(EMPTY, earlier).tables, Run(EMPTY, front), action);
    }
  }

  lemma OneStepKeeps(t: Tables, w: World, action: Action)
    requires AttemptsKept(t, w.tables)
    ensures AttemptsKept(t, Step(w, action).tables)
  {
    StepExtends(w, action);
    ExtensionKeepsAttempts(w.tables, Step(w, action).tables);
    KeptTransitively(t, w.tables, Step(w, action).tables);
  }

  lemma StillForStage(t: Tables, u: Tables, i: nat, request: StageRequest)
    requires AttemptsKept(t, u) && i < |t.attempts| && IsForStage(t.attempts[i], request)
    ensures i < |u.attempts| && IsForStage(u.attempts[i], request)
  {
    assert u.attempts[i].(outcome := t.attempts[i].outcome, finishedAt := t.attempts[i].finishedAt) == t.attempts[i];
  }

  lemma EffectStays(earlier: seq<Action>, later: seq<Action>, request: StageRequest, i: nat, a: nat, b: nat, d: nat)
    requires earlier <= later && EffectAt(earlier, request, i, a, b, d)
    ensures EffectAt(later, request, i, a, b, d)
  {
    assert later[..a] == earlier[..a];
  }

  /** What is accomplished stays accomplished. */
  lemma StillAccomplished(since: nat, before: nat, earlier: seq<Action>, t: Tables, later: seq<Action>, u: Tables)
    requires AttemptsKept(t, u) && earlier <= later && before <= since
    ensures forall request | IsAccomplished(since, earlier, t, request) :: IsAccomplished(before, later, u, request)
  {
    forall request | IsAccomplished(since, earlier, t, request)
      ensures IsAccomplished(before, later, u, request)
    {
      var i :| 0 <= i < |t.attempts| && EndsStage(t.attempts[i], request)
               && (t.attempts[i].outcome == SharedRetained || DeletedFirst(since, earlier, request, i));
      assert u.attempts[i] == t.attempts[i];
      if t.attempts[i].outcome != SharedRetained {
        var a: nat, b: nat, d: nat :| since <= a && EffectAt(earlier, request, i, a, b, d);
        EffectStays(earlier, later, request, i, a, b, d);
        assert DeletedFirst(before, later, request, i);
      }
    }
  }

  /** A claim's attempt row is for the stage it was asked for; a suppressed one has ended it, retained. */
  lemma ClaimIsForStage(w: World, request: StageRequest)
    requires ClaimStage(w.tables, w.now, request).Ok?
    ensures var reply := ClaimStage(w.tables, w.now, request).value.reply;
            var t := Step(w, ClaimIt(request)).tables;
            && (reply.Claimed? ==> reply.attempt < |t.attempts| && IsForStage(t.attempts[reply.attempt], request))
            && (reply.SharedReferenceRetained? ==>
                  && reply.attempt < |t.attempts| && EndsStage(t.attempts[reply.attempt], request)
                  && t.attempts[reply.attempt].outcome == SharedRetained)
  {
  }

  /** The plan waits: before its deadline, or an automatic plan of a pinned snapshot. */
  ghost predicate IsWaiting(w: World, plan: nat) {
    && plan < |w.tables.plans|
    && (w.now < w.tables.plans[plan].notBefore
        || (w.tables.plans[plan].automatic && IsPinnedNow(w.tables, w.tables.plans[plan].snapshot)))
  }

  /** The last thing that happened was a claim for a plan that waits. */
  ghost predicate IsPutOff(trace: seq<Action>, plan: nat) {
    && trace != [] && trace[|trace| - 1].ClaimIt? && trace[|trace| - 1].stage.plan == plan
    && IsWaiting(Run(EMPTY, trace[..|trace| - 1]), plan)
  }

  /**
   * The last thing that happened broke the run: a refused claim, a failure reported for a stage of the
   * plan, a success reported too late, or a refused advance or completion.
   */
  ghost predicate IsBroken(trace: seq<Action>, plan: nat) {
    && trace != []
    && var w := Run(EMPTY, trace[..|trace| - 1]);
       match trace[|trace| - 1]
       case ClaimIt(stage) => stage.plan == plan && ClaimStage(w.tables, w.now, stage).Err?
       case Fail(attempt, claim) => attempt < |w.tables.attempts| && w.tables.attempts[attempt].plan == plan
       case Succeed(attempt, claim) =>
         && attempt < |w.tables.attempts| && w.tables.attempts[attempt].plan == plan
         && !OwnsStage(w.tables, attempt, claim)
       case Advance(p) => p == plan && AdvanceToReplicas(w.tables, p).Err?
       case Complete(p) => p == plan && CompletePlan(w.tables, p).Err?
       case _ => false
  }

  lemma PutOffClaim(w: World, request: StageRequest)
    requires ClaimStage(w.tables, w.now, request).Ok?
    requires ClaimStage(w.tables, w.now, request).value.reply in {GraceActive, ProtectedPinned}
    ensures IsWaiting(w, request.plan)
  {
  }

  class Worker {
    const db: Database
    const leaseSeconds: nat
    /** What other actors do before each of this worker's coming transactions. */
    var others: seq<seq<Action>>

    ghost predicate Valid()
      reads this, db
    {
      db.Valid()
    }

    constructor (db: Database, leaseSeconds: nat, others: seq<seq<Action>>)
      requires db.Valid()
      ensures Valid() && this.db == db && this.leaseSeconds == leaseSeconds && this.others == others
    {
      this.db, this.leaseSeconds, this.others := db, leaseSeconds, others;
    }

    /** Lets the others act. */
    method Pause()
      requires Valid()
      modifies this, db
      ensures Valid() && old(db.trace) <= db.trace
    {
      if others != [] {
        db.Others(others[0]);
        others := others[1..];
      }
    }

    /**
     * Claims one stage, performs its effect under the lease, and records the result. A stage reported done
     * is accomplished by what happened during this call; one put off met a plan that waits.
     */
    method RunStage(request: StageRequest) returns (end: StageEnd)
      requires Valid()
      modifies this, db
      ensures Valid() && old(db.trace) <= db.trace
      ensures end == StageDone ==> IsAccomplished(|old(db.trace)|, db.trace, db.View(), request)
      ensures end == StageDeferred ==> IsPutOff(db.trace, request.plan)
      ensures end == StageBroken ==> IsBroken(db.trace, request.plan)
    {
      Pause();
      ghost var before, history := db.Current(), db.trace;
      var claimed := db.ClaimDeletionStage(request);
      assert db.trace[..|history|] == history;
      if claimed.Err? {
        return StageBroken;
      }
      ClaimIsForStage(before, request);
      match ActionFor(claimed.value) {
        case Suppressed => end := StageDone;
        case Deferred =>
          PutOffClaim(before, request);
          end := StageDeferred;
        case Effect(attempt, claim) => end := Perform(request, attempt, claim, history);
      }
    }

    /** The effect of a claimed stage, and its recorded outcome. */
    method Perform(request: StageRequest, attempt: nat, claim: nat, ghost history: seq<Action>) returns (end: StageEnd)
      requires Valid() && db.trace == history + [ClaimIt(request)]
      requires IsLeaseOf(Run(EMPTY, history), request, attempt, claim)
      requires attempt < |db.attempts| && IsForStage(db.attempts[attempt], request)
      modifies this, db
      ensures Valid() && old(db.trace) <= db.trace && end != StageDeferred
      ensures end == StageDone ==> IsAccomplished(|history|, db.trace, db.View(), request)
      ensures end == StageBroken ==> IsBroken(db.trace, request.plan)
    {
      ghost var claimed, taken := db.View(), db.trace;
      Pause();
      var removed := db.DeleteObject(claim);
      ghost var deleted := db.trace;
      Pause();
      ghost var reported := db.trace;
      HistoryKeepsAttempts(taken, reported);
      StillForStage(claimed, db.View(), attempt, request);
      if !removed {
        var _ := db.RecordDeletionStageFailure(attempt, claim);
        assert db.trace[..|reported|] == reported;
        return StageBroken;
      }
      var error := db.RecordDeletionStageSuccess(attempt, claim);
      assert db.trace[..|reported|] == reported;
      if error.Some? {
        return StageBroken;
      }
      HistoryKeepsAttempts(taken, db.trace);
      StillForStage(claimed, db.View(), attempt, request);
      EffectSeen(history, request, attempt, claim, deleted, |deleted| - 1, db.trace);
      assert EndsStage(db.View().attempts[attempt], request);
      end := StageDone;
    }

    /** The local stages of the artifacts, in order. */
    method RunLocalStages(plan: nat, artifacts: seq<ExecutionArtifact>) returns (end: StageEnd)
      requires Valid()
      modifies this, db
      ensures Valid() && old(db.trace) <= db.trace
      ensures end == StageDone ==> LocalEnded(|old(db.trace)|, db.trace, db.View(), plan, artifacts, leaseSeconds)
      ensures end == StageDeferred ==> IsPutOff(db.trace, plan)
      ensures end == StageBroken ==> IsBroken(db.trace, plan)
    {
      ghost var since := |db.trace|;
      for i := 0 to |artifacts|
        invariant Valid() && old(db.trace) <= db.trace
        invariant LocalEnded(since, db.trace, db.View(), plan, artifacts[..i], leaseSeconds)
      {
        ghost var earlier, history := db.View(), db.trace;
        end := RunStage(LocalRequest(plan, artifacts[i].artifact, leaseSeconds));
        if end != StageDone {
          return;
        }
        KeepAccomplished(since, |history|, history, earlier);
        LocalEndedNext(since, db.trace, db.View(), plan, artifacts, i, leaseSeconds, history, earlier);
      }
      assert artifacts[..|artifacts|] == artifacts;
      end := StageDone;
    }

    /** What was accomplished by an earlier moment still is, and what happened since counts from any earlier start. */
    lemma KeepAccomplished(since: nat, later: nat, history: seq<Action>, earlier: Tables)
      requires Valid() && history <= db.trace && earlier == Run(EMPTY, history).tables && since <= later
      ensures forall request | IsAccomplished(since, history, earlier, request) ::
                IsAccomplished(since, db.trace, db.View(), request)
      ensures forall request | IsAccomplished(later, db.trace, db.View(), request) ::
                IsAccomplished(since, db.trace, db.View(), request)
    {
      HistoryKeepsAttempts(history, db.trace);
      StillAccomplished(since, since, history, earlier, db.trace, db.View());
      HistoryKeepsAttempts(db.trace, db.trace);
      StillAccomplished(later, since, db.trace, db.View(), db.trace, db.View());
    }

    /** The replica stages of one artifact, in order. */
    method RunCopies(plan: nat, artifact: nat, replicas: seq<ExecutionReplica>) returns (end: StageEnd)
      requires Valid()
      modifies this, db
      ensures Valid() && old(db.trace) <= db.trace
      ensures end == StageDone ==> CopiesEnded(|old(db.trace)|, db.trace, db.View(), plan, artifact, replicas, leaseSeconds)
      ensures end == StageDeferred ==> IsPutOff(db.trace, plan)
      ensures end == StageBroken ==> IsBroken(db.trace, plan)
    {
      ghost var since := |db.trace|;
      for i := 0 to |replicas|
        invariant Valid() && old(db.trace) <= db.trace
        invariant CopiesEnded(since, db.trace, db.View(), plan, artifact, replicas[..i], leaseSeconds)
      {
        ghost var earlier, history := db.View(), db.trace;
        end := RunStage(ReplicaRequest(plan, artifact, replicas[i], leaseSeconds));
        if end != StageDone {
          return;
        }
        KeepAccomplished(since, |history|, history, earlier);
        CopiesEndedNext(since, db.trace, db.View(), plan, artifact, replicas, i, leaseSeconds, history, earlier);
      }
      assert replicas[..|replicas|] == replicas;
      end := StageDone;
    }

    /** The replica stages of every artifact, in order. */
    method RunReplicaStages(plan: nat, artifacts: seq<ExecutionArtifact>) returns (end: StageEnd)
      requires Valid()
      modifies this, db
      ensures Valid() && old(db.trace) <= db.trace
      ensures end == StageDone ==> ReplicasEnded(|old(db.trace)|, db.trace, db.View(), plan, artifacts, leaseSeconds)
      ensures end == StageDeferred ==> IsPutOff(db.trace, plan)
      ensures end == StageBroken ==> IsBroken(db.trace, plan)
    {
      ghost var since := |db.trace|;
      for i := 0 to |artifacts|
        invariant Valid() && old(db.trace) <= db.trace
        invariant ReplicasEnded(since, db.trace, db.View(), plan, artifacts[..i], leaseSeconds)
      {
        ghost var earlier, history := db.View(), db.trace;
        end := RunCopies(plan, artifacts[i].artifact, artifacts[i].replicas);
        if end != StageDone {
          return;
        }
        KeepAccomplished(since, |history|, history, earlier);
        ReplicasEndedNext(since, db.trace, db.View(), plan, artifacts, i, leaseSeconds, history, earlier);
      }
      assert artifacts[..|artifacts|] == artifacts;
      end := StageDone;
    }

    /** Local stages, then the mirror of a tombstoned target, then the move to replicas. */
    method RunBeforeReplicas(plan: nat, read: ExecutionPlan) returns (end: StageEnd)
      requires Valid()
      modifies this, db
      ensures Valid() && old(db.trace) <= db.trace
      ensures end == StageDone ==>
                && LocalEnded(|old(db.trace)|, db.trace, db.View(), plan, read.artifacts, leaseSeconds)
                && (read.tombstoned ==>
                      IsAccomplished(|old(db.trace)|, db.trace, db.View(), MirrorRequest(plan, read.target, leaseSeconds)))
      ensures end == StageDeferred ==> IsPutOff(db.trace, plan)
      ensures end == StageBroken ==> IsBroken(db.trace, plan)
    {
      ghost var since := |db.trace|;
      end := RunLocalStages(plan, read.artifacts);
      if end != StageDone {
        return;
      }
      ghost var local, history := db.View(), db.trace;
      if read.tombstoned {
        end := RunStage(MirrorRequest(plan, read.target, leaseSeconds));
        if end != StageDone {
          return;
        }
        KeepAccomplished(since, |history|, history, local);
      }
      ghost var mirrored, next := db.View(), db.trace;
      Pause();
      ghost var reached, before := db.trace, db.View();
      var error := db.AdvanceDeletionPlanToReplicas(plan);
      assert db.trace[..|reached|] == reached;
      KeepAccomplished(since, since, history, local);
      KeepAccomplished(since, since, next, mirrored);
      end := if error.None? then StageDone else StageBroken;
    }

    /**
     * Runs one plan as it was read: local stages, the mirror of a tombstoned target, replica stages,
     * completion. A reported completion is a plan that was seen through, each stage the worker had to run
     * accomplished by what happened during this call. Whatever happened, the protocol invariants hold.
     */
    method RunPlan(plan: nat) returns (outcome: PlanOutcome)
      requires Valid()
      modifies this, db
      ensures Valid() && old(db.trace) <= db.trace && db.IsSafe()
      ensures outcome == RunCompleted ==> plan < |db.plans| && db.plans[plan].status == Completed
      ensures outcome == RunCompleted && plan < |old(db.plans)| && old(db.plans)[plan].status != Completed ==>
                var t := old(db.View()); var snapshot := t.plans[plan].snapshot;
                && (t.plans[plan].status != ReplicaDeleting ==>
                      && (forall a | 0 <= a < |t.artifacts| && t.artifacts[a].snapshot == snapshot ::
                            && SawThrough(db.attempts, plan, a)
                            && IsAccomplished(|old(db.trace)|, db.trace, db.View(), LocalRequest(plan, a, leaseSeconds)))
                      && (t.plans[plan].tombstone.Some? ==>
                            IsAccomplished(|old(db.trace)|, db.trace, db.View(), MirrorRequest(plan, t.plans[plan].target, leaseSeconds))))
                && (forall p | 0 <= p < |t.placements| && t.placements[p].artifact < |t.artifacts|
                               && t.artifacts[t.placements[p].artifact].snapshot == snapshot ::
                      SawCopyThrough(db.attempts, plan, p))
      ensures outcome == RunDeferred ==> IsPutOff(db.trace, plan)
      ensures outcome == RunFailed ==>
                IsBroken(db.trace, plan) || plan >= |old(db.plans)| || old(db.plans)[plan].snapshot >= |old(db.snapshots)|
    {
      var read := db.DeletionExecutionPlan(plan);
      outcome := RunFailed;
      if read.Ok? {
        ghost var t, since := db.View(), |db.trace|;
        outcome := RunRead(plan, read.value);
        if outcome == RunCompleted && read.value.status != Completed {
          SeenAsRead(t, plan, read.value, since, db.trace, db.View(), leaseSeconds);
        }
      }
      db.Safety();
    }

    method RunRead(plan: nat, read: ExecutionPlan) returns (outcome: PlanOutcome)
      requires Valid() && plan < |db.plans| && db.plans[plan].status == read.status
      modifies this, db
      ensures Valid() && old(db.trace) <= db.trace
      ensures outcome == RunCompleted ==> plan < |db.plans| && db.plans[plan].status == Completed
      ensures outcome == RunCompleted && read.status != Completed ==>
                ReplicasEnded(|old(db.trace)|, db.trace, db.View(), plan, read.artifacts, leaseSeconds)
      ensures outcome == RunCompleted && read.status != Completed && read.status != ReplicaDeleting ==>
                && LocalEnded(|old(db.trace)|, db.trace, db.View(), plan, read.artifacts, leaseSeconds)
                && (read.tombstoned ==>
                      IsAccomplished(|old(db.trace)|, db.trace, db.View(), MirrorRequest(plan, read.target, leaseSeconds)))
      ensures outcome == RunDeferred ==> IsPutOff(db.trace, plan)
      ensures outcome == RunFailed ==> IsBroken(db.trace, plan)
    {
      if read.status == Completed {
        return RunCompleted;
      }
      ghost var since := |db.trace|;
      if read.status != ReplicaDeleting {
        var end := RunBeforeReplicas(plan, read);
        if end != StageDone {
          return Unfinished(end);
        }
      }
      ghost var advanced, history := db.View(), db.trace;
      var end := RunReplicaStages(plan, read.artifacts);
      if end != StageDone {
        return Unfinished(end);
      }
      ghost var copied, next := db.View(), db.trace;
      KeepAccomplished(since, |history|, history, advanced);
      ReplicasSince(since, |history|, db.trace, db.View(), plan, read.artifacts, leaseSeconds);
      var done := Finish(plan);
      KeepAccomplished(since, since, history, advanced);
      KeepAccomplished(since, since, next, copied);
      outcome := if done then RunCompleted else RunFailed;
    }

    /** Completes the plan, or finds that it cannot be. */
    method Finish(plan: nat) returns (done: bool)
      requires Valid()
      modifies this, db
      ensures Valid() && old(db.trace) <= db.trace
      ensures done ==> plan < |db.plans| && db.plans[plan].status == Completed
      ensures !done ==> IsBroken(db.trace, plan)
    {
      Pause();
      ghost var reached := db.trace;
      var error := db.CompleteDeletionPlan(plan);
      assert db.trace[..|reached|] == reached;
      done := error.None?;
    }
  }

  /** Counting from an earlier start. */
  lemma ReplicasSince(since: nat, later: nat, trace: seq<Action>, t: Tables, plan: nat, artifacts: seq<ExecutionArtifact>, lease: nat)
    requires ReplicasEnded(later, trace, t, plan, artifacts, lease)
    requires forall request | IsAccomplished(later, trace, t, request) :: IsAccomplished(since, trace, t, request)
    ensures ReplicasEnded(since, trace, t, plan, artifacts, lease)
  {
    forall i | 0 <= i < |artifacts|
      ensures CopiesEnded(since, trace, t, plan, artifacts[i].artifact, artifacts[i].replicas, lease)
    {
      assert CopiesEnded(later, trace, t, plan, artifacts[i].artifact, artifacts[i].replicas, lease);
    }
  }

  lemma EffectSeen(
    history: seq<Action>, request: StageRequest, attempt: nat, claim: nat, deleted: seq<Action>, b: nat, trace: seq<Action>)
    requires history + [ClaimIt(request)] <= deleted <= trace && b == |deleted| - 1 && deleted[b] == DeleteBytes(claim)
    requires |history| < b && |trace| > |deleted| && trace[|trace| - 1] == Succeed(attempt, claim)
    requires IsLeaseOf(Run(EMPTY, history), request, attempt, claim)
    ensures DeletedFirst(|history|, trace, request, attempt)
  {
    assert trace[..|history|] == history && trace[|history|] == ClaimIt(request);
    assert EffectAt(trace, request, attempt, |history|, b, |trace| - 1);
  }

  /** A stage that ended left evidence for the artifact or the copy it was for. */
  lemma EndedIsSeen(since: nat, trace: seq<Action>, t: Tables, plan: nat, artifact: nat, stored: ExecutionReplica, lease: nat)
    ensures IsAccomplished(since, trace, t, LocalRequest(plan, artifact, lease)) ==> SawThrough(t.attempts, plan, artifact)
    ensures IsAccomplished(since, trace, t, ReplicaRequest(plan, artifact, stored, lease)) ==>
              SawCopyThrough(t.attempts, plan, stored.placement)
  {
    if IsAccomplished(since, trace, t, LocalRequest(plan, artifact, lease)) {
      var i :| 0 <= i < |t.attempts| && EndsStage(t.attempts[i], LocalRequest(plan, artifact, lease));
      assert t.attempts[i].plan == plan;
    }
    if IsAccomplished(since, trace, t, ReplicaRequest(plan, artifact, stored, lease)) {
      var i :| 0 <= i < |t.attempts| && EndsStage(t.attempts[i], ReplicaRequest(plan, artifact, stored, lease));
      assert t.attempts[i].plan == plan;
    }
  }

  lemma SeenAsRead(t: Tables, plan: nat, read: ExecutionPlan, since: nat, trace: seq<Action>, u: Tables, lease: nat)
    requires IsReadOf(t, plan, read) && ReplicasEnded(since, trace, u, plan, read.artifacts, lease)
    requires read.status != ReplicaDeleting ==> LocalEnded(since, trace, u, plan, read.artifacts, lease)
    ensures read.status != ReplicaDeleting ==>
              forall a | 0 <= a < |t.artifacts| && t.artifacts[a].snapshot == t.plans[plan].snapshot ::
                SawThrough(u.attempts, plan, a) && IsAccomplished(since, trace, u, LocalRequest(plan, a, lease))
    ensures forall p | 0 <= p < |t.placements| && t.placements[p].artifact < |t.artifacts|
                       && t.artifacts[t.placements[p].artifact].snapshot == t.plans[plan].snapshot ::
              SawCopyThrough(u.attempts, plan, p)
  {
    if read.status != ReplicaDeleting {
      forall a | 0 <= a < |t.artifacts| && t.artifacts[a].snapshot == t.plans[plan].snapshot
        ensures SawThrough(u.attempts, plan, a) && IsAccomplished(since, trace, u, LocalRequest(plan, a, lease))
      {
        var i :| 0 <= i < |read.artifacts| && read.artifacts[i].artifact == a;
        assert IsAccomplished(since, trace, u, LocalRequest(plan, read.artifacts[i].artifact, lease));
        EndedIsSeen(since, trace, u, plan, a, ExecutionReplica(0, 0), lease);
      }
    }
    forall p | 0 <= p < |t.placements| && t.placements[p].artifact < |t.artifacts|
               && t.artifacts[t.placements[p].artifact].snapshot == t.plans[plan].snapshot
      ensures SawCopyThrough(u.attempts, plan, p)
    {
      var a := t.placements[p].artifact;
      var i :| 0 <= i < |read.artifacts| && read.artifacts[i].artifact == a;
      var stored := ExecutionReplica(p, t.placements[p].replica);
      assert HoldsCopiesOf(t.placements, read.artifacts[i]) && stored in read.artifacts[i].replicas;
      var k :| 0 <= k < |read.artifacts[i].replicas| && read.artifacts[i].replicas[k] == stored;
      assert CopiesEnded(since, trace, u, plan, a, read.artifacts[i].replicas, lease);
      assert IsAccomplished(since, trace, u, ReplicaRequest(plan, a, read.artifacts[i].replicas[k], lease));
      EndedIsSeen(since, trace, u, plan, a, stored, lease);
    }
  }

  lemma LocalEndedNext(
    since: nat, trace: seq<Action>, t: Tables, plan: nat, artifacts: seq<ExecutionArtifact>, i: nat, lease: nat,
    history: seq<Action>, earlier: Tables)
    requires i < |artifacts| && LocalEnded(since, history, earlier, plan, artifacts[..i], lease)
    requires forall request | IsAccomplished(since, history, earlier, request) :: IsAccomplished(since, trace, t, request)
    requires IsAccomplished(since, trace, t, LocalRequest(plan, artifacts[i].artifact, lease))
    ensures LocalEnded(since, trace, t, plan, artifacts[..i + 1], lease)
  {
    forall k | 0 <= k < i
      ensures IsAccomplished(since, trace, t, LocalRequest(plan, artifacts[k].artifact, lease))
    {
      assert artifacts[..i][k] == artifacts[k];
    }
  }

  lemma CopiesEndedNext(
    since: nat, trace: seq<Action>, t: Tables, plan: nat, artifact: nat, replicas: seq<ExecutionReplica>, i: nat, lease: nat,
    history: seq<Action>, earlier: Tables)
    requires i < |replicas| && CopiesEnded(since, history, earlier, plan, artifact, replicas[..i], lease)
    requires forall request | IsAccomplished(since, history, earlier, request) :: IsAccomplished(since, trace, t, request)
    requires IsAccomplished(since, trace, t, ReplicaRequest(plan, artifact, replicas[i], lease))
    ensures CopiesEnded(since, trace, t, plan, artifact, replicas[..i + 1], lease)
  {
    forall k | 0 <= k < i
      ensures IsAccomplished(since, trace, t, ReplicaRequest(plan, artifact, replicas[k], lease))
    {
      assert replicas[..i][k] == replicas[k];
    }
  }

  lemma ReplicasEndedNext(
    since: nat, trace: seq<Action>, t: Tables, plan: nat, artifacts: seq<ExecutionArtifact>, i: nat, lease: nat,
    history: seq<Action>, earlier: Tables)
    requires i < |artifacts| && ReplicasEnded(since, history, earlier, plan, artifacts[..i], lease)
    requires forall request | IsAccomplished(since, history, earlier, request) :: IsAccomplished(since, trace, t, request)
    requires exists later: nat :: CopiesEnded(later, trace, t, plan, artifacts[i].artifact, artifacts[i].replicas, lease)
               && forall request | IsAccomplished(later, trace, t, request) :: IsAccomplished(since, trace, t, request)
    ensures ReplicasEnded(since, trace, t, plan, artifacts[..i + 1], lease)
  {
    forall k | 0 <= k < i
      ensures CopiesEnded(since, trace, t, plan, artifacts[k].artifact, artifacts[k].replicas, lease)
    {
      assert artifacts[..i][k] == artifacts[k];
      assert CopiesEnded(since, history, earlier, plan, artifacts[k].artifact, artifacts[k].replicas, lease);
    }
  }
}
