/**
 * Staged deletion as a concurrent protocol: any number of workers, snapshot builders and operators
 * whose transactions interleave in any order, together with the local store they act on.
 */
module DeletionProtocol {
  import opened Common
  import opened DeletionTables

  /** The database, its clock, the digests whose bytes the local store holds, and the mirrors and replica objects that exist. */
  datatype World = World(tables: Tables, now: nat, blobs: set<nat>, copies: set<Identity>)

  datatype Action =
    | Tick(seconds: nat)
    | Publish(digest: nat)
    | Put(copy: Identity)
    | RecordBuilt(source: SnapshotSource, digests: seq<nat>)
    | PinIt(snapshot: nat, authority: nat)
    | Unpin(pin: nat)
    | PlanDeletion(request: PlanRequest)
    | Exclude(target: TargetKey, revision: nat)
    | Reactivate(target: TargetKey)
    | Place(artifact: nat, replica: nat, objectKey: nat)
    | ClaimIt(stage: StageRequest)
    | DeleteBytes(claim: nat)
    | Succeed(attempt: nat, claim: nat)
    | Fail(attempt: nat, claim: nat)
    | Advance(plan: nat)
    | Complete(plan: nat)

  /** The tables after one transaction; an error leaves them as they were. */
  function Transact(t: Tables, now: nat, action: Action): Tables {
    var r: Result<Tables> :=
      match action
      case RecordBuilt(source, digests) => RecordSnapshot(t, now, source, digests)
      case PinIt(snapshot, authority) => PinSnapshot(t, now, snapshot, authority)
      case Unpin(pin) => RevokePin(t, now, pin)
      case PlanDeletion(request) => CreatePlan(t, request)
      case Exclude(target, revision) => Ok(CreateTombstone(t, target, revision))
      case Reactivate(target) => CancelTombstone(t, target)
      case Place(artifact, replica, objectKey) => AddPlacement(t, artifact, replica, objectKey)
      case ClaimIt(stage) =>
        (match ClaimStage(t, now, stage) case Ok(c) => Ok(c.tables) case Err(e) => Err(e))
      case Succeed(attempt, claim) => StageSucceeded(t, now, attempt, claim)
      case Fail(attempt, claim) => StageFailed(t, now, attempt, claim)
      case Advance(plan) => AdvanceToReplicas(t, plan)
      case Complete(plan) => CompletePlan(t, plan)
      case Tick(_) => Ok(t)
      case Publish(_) => Ok(t)
      case Put(_) => Ok(t)
      case DeleteBytes(_) => Ok(t);
    match r case Ok(next) => next case Err(_) => t
  }

  /** The object exists: in the local store, as a mirror, or at a replica. */
  predicate IsStored(w: World, identity: Identity) {
    if identity.LocalDigest? then identity.digest in w.blobs else identity in w.copies
  }

  function Without(w: World, identity: Identity): (u: World)
    ensures u.tables == w.tables && u.now == w.now
    ensures forall other :: IsStored(u, other) <==> IsStored(w, other) && other != identity
  {
    if identity.LocalDigest? then w.(blobs := w.blobs - {identity.digest}) else w.(copies := w.copies - {identity})
  }

  /** One step. Objects are removed only under a claim whose lease is live. */
  function Step(w: World, action: Action): World {
    match action
    case Tick(seconds) => w.(now := w.now + seconds)
    case Publish(digest) => w.(blobs := w.blobs + {digest})
    case Put(copy) => if copy.LocalDigest? then w else w.(copies := w.copies + {copy})
    case DeleteBytes(claim) =>
      if claim < |w.tables.claims| && IsLive(w.tables.claims[claim], w.now)
      then Without(w, w.tables.claims[claim].identity) else w
    case _ => w.(tables := Transact(w.tables, w.now, action))
  }

  function Run(w: World, actions: seq<Action>): World
    decreases |actions|
  {
    if actions == [] then w else Step(Run(w, actions[..|actions| - 1]), actions[|actions| - 1])
  }

  const EMPTY: World := World(Tables([], [], [], [], [], [], [], []), 0, {}, {})

  // ----- the inductive invariant -----

  /** Foreign keys. */
  ghost predicate Referential(t: Tables) {
    && (forall a | 0 <= a < |t.artifacts| :: t.artifacts[a].snapshot < |t.snapshots|)
    && (forall p | 0 <= p < |t.plans| :: t.plans[p].snapshot < |t.snapshots|)
    && (forall c | 0 <= c < |t.claims| :: t.claims[c].plan < |t.plans|)
    && (forall i | 0 <= i < |t.attempts| :: t.attempts[i].plan < |t.plans|)
  }

  /** At most one running claim per physical identity. */
  ghost predicate ClaimsExclusive(t: Tables) {
    forall c, d | 0 <= c < d < |t.claims| ::
      t.claims[c].identity == t.claims[d].identity ==> !(t.claims[c].outcome == Held && t.claims[d].outcome == Held)
  }

  /** Under a live digest claim, only the plan's own snapshot still references the digest. */
  ghost predicate LiveClaimExclusive(t: Tables, now: nat)
    requires Referential(t)
  {
    forall c, a | 0 <= c < |t.claims| && 0 <= a < |t.artifacts| ::
      IsLive(t.claims[c], now) && t.claims[c].identity == LocalDigest(t.artifacts[a].digest) ==>
        t.artifacts[a].snapshot == t.plans[t.claims[c].plan].snapshot
        || t.snapshots[t.artifacts[a].snapshot].deleted
  }

  /** An attempt of a plan that deletes this digest for this snapshot. */
  ghost predicate DeletesDigest(t: Tables, i: nat, snapshot: nat, digest: nat)
    requires Referential(t) && i < |t.attempts|
  {
    var attempt := t.attempts[i];
    attempt.kind == Local && t.plans[attempt.plan].snapshot == snapshot
    && attempt.artifact.Some? && attempt.artifact.value < |t.artifacts|
    && t.artifacts[attempt.artifact.value].digest == digest
  }

  ghost predicate UnderDeletion(t: Tables, snapshot: nat, digest: nat)
    requires Referential(t)
  {
    exists i: nat | i < |t.attempts| :: DeletesDigest(t, i, snapshot, digest)
  }

  /** Every digest claim was made for an attempt of its own plan. */
  ghost predicate ClaimsAttempted(t: Tables)
    requires Referential(t)
  {
    forall c | 0 <= c < |t.claims| && t.claims[c].identity.LocalDigest? ::
      UnderDeletion(t, t.plans[t.claims[c].plan].snapshot, t.claims[c].identity.digest)
  }

  /** At most one running attempt per stage. */
  ghost predicate OneRunning(attempts: seq<Attempt>) {
    forall i, j | 0 <= i < j < |attempts| ::
      !(attempts[i].outcome == Running && attempts[j].outcome == Running && IsSameUnit(attempts[i], attempts[j]))
  }

  /** At most one open tombstone per target. */
  ghost predicate OneOpen(tombstones: seq<Tombstone>) {
    forall i, j | 0 <= i < j < |tombstones| ::
      !(tombstones[i].state == Open && tombstones[j].state == Open && tombstones[i].target == tombstones[j].target)
  }

  predicate IsSameUnit(a: Attempt, b: Attempt) {
    a.plan == b.plan && a.kind == b.kind && a.stageKey == b.stageKey
  }

  ghost predicate StorageInv(w: World) {
    && Referential(w.tables)
    && ClaimsExclusive(w.tables)
    && LiveClaimExclusive(w.tables, w.now)
    && ClaimsAttempted(w.tables)
    && OneRunning(w.tables.attempts)
    && OneOpen(w.tables.tombstones)
  }

  /** Rows are only appended or closed: identities, references and deletions never go back. */
  ghost predicate Extends(t: Tables, u: Tables) {
    && |t.snapshots| <= |u.snapshots| && |t.artifacts| <= |u.artifacts|
    && |t.plans| <= |u.plans| && |t.claims| <= |u.claims| && |t.attempts| <= |u.attempts|
    && |t.pins| <= |u.pins|
    && (forall s | 0 <= s < |t.snapshots| :: t.snapshots[s].deleted ==> u.snapshots[s].deleted)
    && u.artifacts[..|t.artifacts|] == t.artifacts
    && (forall a | |t.artifacts| <= a < |u.artifacts| :: u.artifacts[a].snapshot >= |t.snapshots|)
    && (forall p | 0 <= p < |t.plans| :: u.plans[p].(status := t.plans[p].status) == t.plans[p])
    && (forall c | 0 <= c < |t.claims| :: u.claims[c].(outcome := t.claims[c].outcome) == t.claims[c])
    && (forall c | 0 <= c < |t.claims| :: u.claims[c].outcome == Held ==> t.claims[c].outcome == Held)
    && (forall i | 0 <= i < |t.attempts| ::
          u.attempts[i].(outcome := t.attempts[i].outcome, finishedAt := t.attempts[i].finishedAt) == t.attempts[i])
    && (forall i | 0 <= i < |t.attempts| :: t.attempts[i].outcome != Running ==> u.attempts[i] == t.attempts[i])
  }

  lemma ExtendsClaim(t: Tables, now: nat, stage: StageRequest)
    requires ClaimStage(t, now, stage).Ok?
    ensures Extends(t, ClaimStage(t, now, stage).value.tables)
  {
    var u := ClaimStage(t, now, stage).value.tables;
    assert u.artifacts == t.artifacts && u.snapshots == t.snapshots;
  }

  lemma ExtendsCompletion(t: Tables, plan: nat)
    requires CompletePlan(t, plan).Ok?
    ensures Extends(t, CompletePlan(t, plan).value)
  {
    var u := CompletePlan(t, plan).value;
    assert u.artifacts == t.artifacts && u.claims == t.claims && u.attempts == t.attempts;
  }

  lemma ExtendsResult(t: Tables, now: nat, attempt: nat, claim: nat)
    ensures StageSucceeded(t, now, attempt, claim).Ok? ==> Extends(t, StageSucceeded(t, now, attempt, claim).value)
    ensures StageFailed(t, now, attempt, claim).Ok? ==> Extends(t, StageFailed(t, now, attempt, claim).value)
  {
  }

  lemma ExtendsCancellation(t: Tables, target: TargetKey)
    ensures CancelTombstone(t, target).Ok? ==> Extends(t, CancelTombstone(t, target).value)
  {
  }

  lemma ExtendsRecording(t: Tables, now: nat, source: SnapshotSource, digests: seq<nat>)
    ensures RecordSnapshot(t, now, source, digests).Ok? ==> Extends(t, RecordSnapshot(t, now, source, digests).value)
  {
  }

  lemma ExtendsItself(t: Tables)
    ensures Extends(t, t)
  {
  }

  lemma ExtendsPlanning(t: Tables, request: PlanRequest)
    ensures CreatePlan(t, request).Ok? ==> Extends(t, CreatePlan(t, request).value)
  {
  }

  lemma ExtendsPins(t: Tables, now: nat, snapshot: nat, authority: nat, pin: nat)
    ensures PinSnapshot(t, now, snapshot, authority).Ok? ==> Extends(t, PinSnapshot(t, now, snapshot, authority).value)
    ensures RevokePin(t, now, pin).Ok? ==> Extends(t, RevokePin(t, now, pin).value)
  {
  }

  lemma ExtendsAdvance(t: Tables, plan: nat)
    ensures AdvanceToReplicas(t, plan).Ok? ==> Extends(t, AdvanceToReplicas(t, plan).value)
  {
  }

  lemma ExtendsOthers(t: Tables, target: TargetKey, revision: nat, artifact: nat, replica: nat, objectKey: nat)
    ensures Extends(t, CreateTombstone(t, target, revision))
    ensures AddPlacement(t, artifact, replica, objectKey).Ok? ==>
              Extends(t, AddPlacement(t, artifact, replica, objectKey).value)
  {
  }

  lemma ExtendsStep(t: Tables, now: nat, action: Action)
    ensures Extends(t, Transact(t, now, action))
  {
    ExtendsItself(t);
    match action
    case ClaimIt(stage) => if ClaimStage(t, now, stage).Ok? { ExtendsClaim(t, now, stage); }
    case Complete(plan) => if CompletePlan(t, plan).Ok? { ExtendsCompletion(t, plan); }
    case Succeed(attempt, claim) => ExtendsResult(t, now, attempt, claim);
    case Fail(attempt, claim) => ExtendsResult(t, now, attempt, claim);
    case Reactivate(target) => ExtendsCancellation(t, target);
    case RecordBuilt(source, digests) => ExtendsRecording(t, now, source, digests);
    case PlanDeletion(request) => ExtendsPlanning(t, request);
    case PinIt(snapshot, authority) => ExtendsPins(t, now, snapshot, authority, 0);
    case Unpin(pin) => ExtendsPins(t, now, 0, 0, pin);
    case Advance(plan) => ExtendsAdvance(t, plan);
    case Exclude(target, revision) => ExtendsOthers(t, target, revision, 0, 0, 0);
    case Place(artifact, replica, objectKey) => ExtendsOthers(t, Repository(0), 0, artifact, replica, objectKey);
    case Tick(_) =>
    case Publish(_) =>
    case Put(_) =>
    case DeleteBytes(_) =>
  }

  lemma StepExtends(w: World, action: Action)
    ensures Extends(w.tables, Step(w, action).tables)
  {
    ExtendsStep(w.tables, w.now, action);
    ExtendsItself(w.tables);
  }

  lemma RunExtends(w: World, trace: seq<Action>, action: Action)
    ensures Run(w, trace + [action]) == Step(Run(w, trace), action)
  {
    assert (trace + [action])[..|trace|] == trace;
  }

  /** Rows a transaction adds refer to rows that exist. */
  lemma NewRowsRefer(t: Tables, now: nat, action: Action)
    requires Referential(t)
    ensures var u := Transact(t, now, action);
            && (forall a | |t.artifacts| <= a < |u.artifacts| :: u.artifacts[a].snapshot < |u.snapshots|)
            && (forall p | |t.plans| <= p < |u.plans| :: u.plans[p].snapshot < |u.snapshots|)
            && (forall c | |t.claims| <= c < |u.claims| :: u.claims[c].plan < |u.plans|)
            && (forall i | |t.attempts| <= i < |u.attempts| :: u.attempts[i].plan < |u.plans|)
  {
  }

  lemma ReferentialStep(t: Tables, now: nat, action: Action)
    requires Referential(t)
    ensures Referential(Transact(t, now, action))
  {
    ExtendsStep(t, now, action);
    NewRowsRefer(t, now, action);
    OldRowsRefer(t, Transact(t, now, action));
  }

  lemma OldRowsRefer(t: Tables, u: Tables)
    requires Referential(t) && Extends(t, u)
    requires && (forall a | |t.artifacts| <= a < |u.artifacts| :: u.artifacts[a].snapshot < |u.snapshots|)
             && (forall p | |t.plans| <= p < |u.plans| :: u.plans[p].snapshot < |u.snapshots|)
             && (forall c | |t.claims| <= c < |u.claims| :: u.claims[c].plan < |u.plans|)
             && (forall i | |t.attempts| <= i < |u.attempts| :: u.attempts[i].plan < |u.plans|)
    ensures Referential(u)
  {
    assert forall a | 0 <= a < |t.artifacts| :: u.artifacts[a] == u.artifacts[..|t.artifacts|][a];
    assert forall p | 0 <= p < |t.plans| :: u.plans[p].(status := t.plans[p].status).snapshot == t.plans[p].snapshot;
    assert forall c | 0 <= c < |t.claims| :: u.claims[c].(outcome := t.claims[c].outcome).plan == t.claims[c].plan;
    assert forall i | 0 <= i < |t.attempts| ::
        u.attempts[i].(outcome := t.attempts[i].outcome, finishedAt := t.attempts[i].finishedAt).plan == t.attempts[i].plan;
  }

  /** A running claim after a transaction was running before it, or is the one the stage just took. */
  lemma ClaimsExclusiveStep(t: Tables, now: nat, action: Action)
    requires ClaimsExclusive(t)
    ensures ClaimsExclusive(Transact(t, now, action))
  {
    ExtendsStep(t, now, action);
    var u := Transact(t, now, action);
    if action.ClaimIt? && |u.claims| > |t.claims| {
      var claims := ExpireClaims(t.claims, u.claims[|t.claims|].identity, now);
      assert u.claims[..|t.claims|] == claims;
    }
  }

  lemma StillUnderDeletion(t: Tables, u: Tables, snapshot: nat, digest: nat)
    requires Referential(t) && Referential(u) && Extends(t, u)
    requires UnderDeletion(t, snapshot, digest)
    ensures UnderDeletion(u, snapshot, digest)
  {
    var i: nat :| i < |t.attempts| && DeletesDigest(t, i, snapshot, digest);
    var a := t.attempts[i].artifact.value;
    assert u.artifacts[..|t.artifacts|][a] == t.artifacts[a];
    assert u.attempts[i].(outcome := t.attempts[i].outcome, finishedAt := t.attempts[i].finishedAt) == t.attempts[i];
    assert DeletesDigest(u, i, snapshot, digest);
  }

  /** What a fresh digest claim establishes about every artifact and about its own attempt. */
  lemma FreshClaim(t: Tables, now: nat, stage: StageRequest, c: nat, a: nat)
    requires Referential(t) && ClaimStage(t, now, stage).Ok?
    requires c == |t.claims| < |ClaimStage(t, now, stage).value.tables.claims| && a < |t.artifacts|
    ensures var u := ClaimStage(t, now, stage).value.tables;
            u.claims[c].identity == LocalDigest(t.artifacts[a].digest) ==>
              t.artifacts[a].snapshot == u.plans[u.claims[c].plan].snapshot
              || u.snapshots[t.artifacts[a].snapshot].deleted
  {
  }

  lemma FreshClaimAttempted(t: Tables, now: nat, stage: StageRequest, c: nat)
    requires Referential(t) && ClaimStage(t, now, stage).Ok? && Referential(ClaimStage(t, now, stage).value.tables)
    requires c == |t.claims| < |ClaimStage(t, now, stage).value.tables.claims|
    ensures var u := ClaimStage(t, now, stage).value.tables;
            u.claims[c].identity.LocalDigest? ==>
              UnderDeletion(u, u.plans[u.claims[c].plan].snapshot, u.claims[c].identity.digest)
  {
    var u := ClaimStage(t, now, stage).value.tables;
    if u.claims[c].identity.LocalDigest? {
      assert stage.kind == Local;
      assert DeletesDigest(u, |t.attempts|, u.plans[stage.plan].snapshot, u.claims[c].identity.digest);
    }
  }

  /** A recorded artifact's digest is under no live claim. */
  lemma NewArtifactIsUnclaimed(t: Tables, now: nat, action: Action, a: nat, c: nat)
    requires |t.artifacts| <= a < |Transact(t, now, action).artifacts| && c < |Transact(t, now, action).claims|
    ensures var u := Transact(t, now, action);
            !(IsLive(u.claims[c], now) && u.claims[c].identity == LocalDigest(u.artifacts[a].digest))
  {
    assert action.RecordBuilt?;
    var k := a - |t.artifacts|;
    assert Transact(t, now, action).artifacts[a].digest == action.digests[k];
    assert !IsLiveDigest(t.claims, action.digests[k], now);
  }

  /** What held of an old claim and an old artifact still holds. */
  lemma OldClaimStaysExclusive(t: Tables, u: Tables, now: nat, c: nat, a: nat)
    requires Referential(t) && Referential(u) && LiveClaimExclusive(t, now) && Extends(t, u)
    requires c < |t.claims| && a < |t.artifacts|
    requires IsLive(u.claims[c], now) && u.claims[c].identity == LocalDigest(u.artifacts[a].digest)
    ensures u.artifacts[a].snapshot == u.plans[u.claims[c].plan].snapshot || u.snapshots[u.artifacts[a].snapshot].deleted
  {
    assert u.artifacts[..|t.artifacts|][a] == t.artifacts[a];
    assert u.claims[c].(outcome := t.claims[c].outcome) == t.claims[c];
    assert u.plans[t.claims[c].plan].(status := t.plans[t.claims[c].plan].status) == t.plans[t.claims[c].plan];
  }

  lemma NewClaimIsExclusive(t: Tables, now: nat, action: Action, c: nat, a: nat)
    requires Referential(t) && Referential(Transact(t, now, action))
    requires |t.claims| <= c < |Transact(t, now, action).claims| && a < |t.artifacts|
    ensures var u := Transact(t, now, action);
            && a < |u.artifacts|
            && (u.claims[c].identity == LocalDigest(u.artifacts[a].digest) ==>
                  u.artifacts[a].snapshot == u.plans[u.claims[c].plan].snapshot || u.snapshots[u.artifacts[a].snapshot].deleted)
  {
    assert action.ClaimIt?;
    FreshClaim(t, now, action.stage, c, a);
  }

  lemma LiveClaimStep(t: Tables, now: nat, action: Action)
    requires Referential(t) && LiveClaimExclusive(t, now)
    ensures Referential(Transact(t, now, action)) && LiveClaimExclusive(Transact(t, now, action), now)
  {
    ExtendsStep(t, now, action);
    ReferentialStep(t, now, action);
    var u := Transact(t, now, action);
    forall c, a | 0 <= c < |u.claims| && 0 <= a < |u.artifacts|
                  && IsLive(u.claims[c], now) && u.claims[c].identity == LocalDigest(u.artifacts[a].digest)
      ensures u.artifacts[a].snapshot == u.plans[u.claims[c].plan].snapshot
              || u.snapshots[u.artifacts[a].snapshot].deleted
    {
      if a >= |t.artifacts| {
        NewArtifactIsUnclaimed(t, now, action, a, c);
      } else if c >= |t.claims| {
        NewClaimIsExclusive(t, now, action, c, a);
      } else {
        OldClaimStaysExclusive(t, u, now, c, a);
      }
    }
  }

  lemma ClaimsAttemptedStep(t: Tables, now: nat, action: Action)
    requires Referential(t) && ClaimsAttempted(t)
    ensures Referential(Transact(t, now, action)) && ClaimsAttempted(Transact(t, now, action))
  {
    ExtendsStep(t, now, action);
    ReferentialStep(t, now, action);
    var u := Transact(t, now, action);
    forall c | 0 <= c < |u.claims| && u.claims[c].identity.LocalDigest?
      ensures UnderDeletion(u, u.plans[u.claims[c].plan].snapshot, u.claims[c].identity.digest)
    {
      if c >= |t.claims| {
        FreshClaimAttempted(t, now, action.stage, c);
      } else {
        var plan := t.claims[c].plan;
        assert u.claims[c].(outcome := t.claims[c].outcome) == t.claims[c];
        assert u.plans[plan].(status := t.plans[plan].status) == t.plans[plan];
        StillUnderDeletion(t, u, t.plans[plan].snapshot, t.claims[c].identity.digest);
      }
    }
  }

  lemma OneOpenStep(t: Tables, now: nat, action: Action)
    requires OneOpen(t.tombstones)
    ensures OneOpen(Transact(t, now, action).tombstones)
  {
    var u := Transact(t, now, action);
    assert |u.tombstones| > |t.tombstones| ==>
        action.Exclude? && forall i | 0 <= i < |t.tombstones| :: !IsOpenFor(t.tombstones[i], action.target);
  }

  lemma OneRunningStep(t: Tables, now: nat, action: Action)
    requires OneRunning(t.attempts)
    ensures OneRunning(Transact(t, now, action).attempts)
  {
    var u := Transact(t, now, action);
    ExtendsStep(t, now, action);
    if |u.attempts| > |t.attempts| {
      FreshAttemptAlone(t, now, action.stage);
      OneRunningOnward(t, u);
    } else {
      OneRunningOnward(t, u);
    }
  }

  /** A claim that takes a lease finds no running attempt of its stage. */
  lemma FreshAttemptAlone(t: Tables, now: nat, stage: StageRequest)
    requires ClaimStage(t, now, stage).Ok? && |ClaimStage(t, now, stage).value.tables.attempts| > |t.attempts|
    ensures var attempts := ClaimStage(t, now, stage).value.tables.attempts;
            && |attempts| == |t.attempts| + 1
            && (attempts[|t.attempts|].outcome == Running ==>
                  forall i | 0 <= i < |t.attempts| ::
                    !(attempts[i].outcome == Running && IsSameUnit(attempts[i], attempts[|t.attempts|])))
  {
    var attempts := ClaimStage(t, now, stage).value.tables.attempts;
    var earlier := ExpireAttempts(t.attempts, stage, now);
    assert attempts[..|t.attempts|] == earlier;
    if attempts[|t.attempts|].outcome == Running {
      forall i | 0 <= i < |t.attempts|
        ensures !(attempts[i].outcome == Running && IsSameUnit(attempts[i], attempts[|t.attempts|]))
      {
        assert attempts[i] == earlier[i];
        assert !IsSameStage(earlier[i], stage);
      }
    }
  }

  lemma OneRunningOnward(t: Tables, u: Tables)
    requires OneRunning(t.attempts) && Extends(t, u) && |u.attempts| <= |t.attempts| + 1
    requires |u.attempts| > |t.attempts| && u.attempts[|t.attempts|].outcome == Running ==>
               forall i | 0 <= i < |t.attempts| ::
                 !(u.attempts[i].outcome == Running && IsSameUnit(u.attempts[i], u.attempts[|t.attempts|]))
    ensures OneRunning(u.attempts)
  {
    forall i, j | 0 <= i < j < |u.attempts|
      ensures !(u.attempts[i].outcome == Running && u.attempts[j].outcome == Running
                && IsSameUnit(u.attempts[i], u.attempts[j]))
    {
      if j < |t.attempts| {
        SameAttempt(t, u, i);
        SameAttempt(t, u, j);
      }
    }
  }

  lemma SameAttempt(t: Tables, u: Tables, i: nat)
    requires Extends(t, u) && i < |t.attempts|
    ensures IsSameUnit(u.attempts[i], t.attempts[i])
    ensures u.attempts[i].outcome == Running ==> t.attempts[i].outcome == Running
  {
    assert u.attempts[i].(outcome := t.attempts[i].outcome, finishedAt := t.attempts[i].finishedAt) == t.attempts[i];
  }

  lemma StorageStep(w: World, action: Action)
    requires StorageInv(w)
    ensures StorageInv(Step(w, action))
  {
    match action
    case Tick(_) =>
    case Publish(_) =>
    case Put(_) =>
    case DeleteBytes(claim) =>
    case _ =>
      ClaimsExclusiveStep(w.tables, w.now, action);
      LiveClaimStep(w.tables, w.now, action);
      ClaimsAttemptedStep(w.tables, w.now, action);
      OneRunningStep(w.tables, w.now, action);
      OneOpenStep(w.tables, w.now, action);
  }

  /** The storage invariant holds in every reachable state of every interleaving. */
  lemma {:induction false} StorageAlways(actions: seq<Action>)
    ensures StorageInv(Run(EMPTY, actions))
    decreases |actions|
  {
    if actions != [] {
      StorageAlways(actions[..|actions| - 1]);
      StorageStep(Run(EMPTY, actions[..|actions| - 1]), actions[|actions| - 1]);
    }
  }

  /**
   * Over every interleaving: while a digest claim is running and unexpired, no snapshot that is not
   * deleted, other than the plan's own, has an artifact with that digest.
   */
  lemma LiveClaimExclusivity(actions: seq<Action>, c: nat, a: nat)
    ensures var w := Run(EMPTY, actions);
            c < |w.tables.claims| && a < |w.tables.artifacts| && IsLive(w.tables.claims[c], w.now)
            && w.tables.claims[c].identity == LocalDigest(w.tables.artifacts[a].digest) ==>
              w.tables.claims[c].plan < |w.tables.plans| && w.tables.artifacts[a].snapshot < |w.tables.snapshots|
              && (w.tables.artifacts[a].snapshot == w.tables.plans[w.tables.claims[c].plan].snapshot
                  || w.tables.snapshots[w.tables.artifacts[a].snapshot].deleted)
  {
    StorageAlways(actions);
  }

  // ----- order of the stages -----

  predicate Started(status: PlanStatus) {
    status == LocalDeleting || status == ReplicaDeleting || status == Completed
  }

  predicate PastLocal(status: PlanStatus) {
    status == ReplicaDeleting || status == Completed
  }

  /** Every attempt began at or after its plan's deadline, and only a running one is unfinished. */
  ghost predicate Timely(t: Tables, now: nat)
    requires Referential(t)
  {
    forall i | 0 <= i < |t.attempts| :: IsTimely(t.attempts[i], t.plans[t.attempts[i].plan], now)
  }

  ghost predicate IsTimely(attempt: Attempt, plan: DeletionPlan, now: nat) {
    && plan.notBefore <= attempt.startedAt <= now
    && (attempt.outcome == Running <==> attempt.finishedAt.None?)
    && (attempt.finishedAt.Some? ==> attempt.finishedAt.value <= now)
  }

  /** A plan is past `planned` for deletion exactly when it has an attempt. */
  ghost predicate StartedExactly(t: Tables) {
    forall p | 0 <= p < |t.plans| :: HasAttempt(t.attempts, p) <==> Started(t.plans[p].status)
  }

  ghost predicate DonePastLocal(t: Tables) {
    forall p | 0 <= p < |t.plans| && PastLocal(t.plans[p].status) :: LocallyDone(t, p, t.plans[p].snapshot)
  }

  /** Terminal local evidence for the artifact that was finished before attempt `j` began. */
  ghost predicate DoneBefore(attempts: seq<Attempt>, j: nat, artifact: nat)
    requires j < |attempts|
  {
    exists i: nat | i < j ::
      IsEvidence(attempts[i], attempts[j].plan, artifact) && attempts[i].finishedAt.Some?
      && attempts[i].finishedAt.value <= attempts[j].startedAt
  }

  /** A replica or mirror attempt follows finished local evidence for every artifact of the snapshot. */
  ghost predicate LocalFirst(t: Tables)
    requires Referential(t)
  {
    forall j, a | 0 <= j < |t.attempts| && 0 <= a < |t.artifacts| ::
      t.attempts[j].kind != Local && t.artifacts[a].snapshot == t.plans[t.attempts[j].plan].snapshot ==>
        DoneBefore(t.attempts, j, a)
  }

  ghost predicate ReplicasPastLocal(t: Tables)
    requires Referential(t)
  {
    forall j | 0 <= j < |t.attempts| && t.attempts[j].kind == Replica :: PastLocal(t.plans[t.attempts[j].plan].status)
  }

  ghost predicate CompletedDeleted(t: Tables)
    requires Referential(t)
  {
    forall p | 0 <= p < |t.plans| && t.plans[p].status == Completed :: t.snapshots[t.plans[p].snapshot].deleted
  }

  /** A snapshot is deleted only by completing a plan of it. */
  ghost predicate DeletedByPlan(t: Tables) {
    forall s | 0 <= s < |t.snapshots| && t.snapshots[s].deleted :: CompletedFor(t.plans, s)
  }

  ghost predicate CompletedFor(plans: seq<DeletionPlan>, snapshot: nat) {
    exists p | 0 <= p < |plans| :: plans[p].snapshot == snapshot && plans[p].status == Completed
  }

  ghost predicate OrderInv(w: World) {
    && Referential(w.tables)
    && Timely(w.tables, w.now)
    && StartedExactly(w.tables)
    && DonePastLocal(w.tables)
    && LocalFirst(w.tables)
    && ReplicasPastLocal(w.tables)
    && CompletedDeleted(w.tables)
    && DeletedByPlan(w.tables)
  }

  /** How one transaction leaves one attempt: as it was, just finished, or just begun by a claim past the deadline. */
  lemma AttemptStep(t: Tables, now: nat, action: Action, i: nat)
    requires i < |Transact(t, now, action).attempts|
    ensures var attempt := Transact(t, now, action).attempts[i];
            || (i < |t.attempts| && attempt == t.attempts[i])
            || (i < |t.attempts| && attempt.outcome != Running && attempt.finishedAt == Some(now))
            || (i == |t.attempts| && attempt.startedAt == now && attempt.plan < |t.plans|
                && t.plans[attempt.plan].notBefore <= now
                && (attempt.outcome == Running <==> attempt.finishedAt.None?)
                && (attempt.finishedAt.Some? ==> attempt.finishedAt.value == now))
  {
  }

  lemma TimelyStep(t: Tables, now: nat, action: Action)
    requires Referential(t) && Timely(t, now)
    ensures Referential(Transact(t, now, action)) && Timely(Transact(t, now, action), now)
  {
    var u := Transact(t, now, action);
    ExtendsStep(t, now, action);
    ReferentialStep(t, now, action);
    forall i | 0 <= i < |u.attempts|
      ensures IsTimely(u.attempts[i], u.plans[u.attempts[i].plan], now)
    {
      AttemptStep(t, now, action, i);
      TimelyOnward(t, u, now, i);
    }
  }

  lemma TimelyOnward(t: Tables, u: Tables, now: nat, i: nat)
    requires Referential(t) && Referential(u) && Timely(t, now) && Extends(t, u) && i < |u.attempts|
    requires i < |t.attempts| && u.attempts[i] != t.attempts[i] ==>
               u.attempts[i].outcome != Running && u.attempts[i].finishedAt == Some(now)
    requires i >= |t.attempts| ==>
               && u.attempts[i].plan < |t.plans| && t.plans[u.attempts[i].plan].notBefore <= now
               && u.attempts[i].startedAt == now
               && (u.attempts[i].outcome == Running <==> u.attempts[i].finishedAt.None?)
               && (u.attempts[i].finishedAt.Some? ==> u.attempts[i].finishedAt.value == now)
    ensures IsTimely(u.attempts[i], u.plans[u.attempts[i].plan], now)
  {
    var plan := u.attempts[i].plan;
    if i < |t.attempts| {
      assert IsTimely(t.attempts[i], t.plans[t.attempts[i].plan], now);
      assert u.attempts[i].(outcome := t.attempts[i].outcome, finishedAt := t.attempts[i].finishedAt) == t.attempts[i];
    }
    assert u.plans[plan].(status := t.plans[plan].status) == t.plans[plan];
  }

  /** Old attempts stay with their plans, so a plan gains an attempt only from a claim made for it. */
  lemma SameAttempted(t: Tables, u: Tables, p: nat)
    requires Extends(t, u)
    requires forall i | |t.attempts| <= i < |u.attempts| :: u.attempts[i].plan != p
    ensures HasAttempt(u.attempts, p) <==> HasAttempt(t.attempts, p)
  {
    forall i | 0 <= i < |t.attempts|
      ensures u.attempts[i].plan == t.attempts[i].plan
    {
      assert u.attempts[i].(outcome := t.attempts[i].outcome, finishedAt := t.attempts[i].finishedAt) == t.attempts[i];
    }
    if HasAttempt(t.attempts, p) {
      var i :| 0 <= i < |t.attempts| && t.attempts[i].plan == p;
      assert u.attempts[i].plan == p;
    }
  }

  lemma StartedClaim(t: Tables, now: nat, stage: StageRequest)
    requires StartedExactly(t) && ClaimStage(t, now, stage).Ok?
    ensures StartedExactly(ClaimStage(t, now, stage).value.tables)
  {
    var u := ClaimStage(t, now, stage).value.tables;
    ExtendsClaim(t, now, stage);
    forall p | 0 <= p < |u.plans|
      ensures HasAttempt(u.attempts, p) <==> Started(u.plans[p].status)
    {
      if |u.attempts| > |t.attempts| && p == stage.plan {
        assert u.attempts[|t.attempts|].plan == p;
      } else {
        assert u.plans[p] == t.plans[p];
        SameAttempted(t, u, p);
      }
    }
  }

  /** A plan leaves `planned` for deletion only in the transaction that inserts its first attempt. */
  lemma StartedStep(t: Tables, now: nat, action: Action)
    requires Referential(t) && StartedExactly(t)
    ensures StartedExactly(Transact(t, now, action))
  {
    ExtendsStep(t, now, action);
    var u := Transact(t, now, action);
    if action.ClaimIt? {
      if ClaimStage(t, now, action.stage).Ok? { StartedClaim(t, now, action.stage); }
    } else {
      assert |u.attempts| == |t.attempts|;
      forall p | 0 <= p < |u.plans|
        ensures HasAttempt(u.attempts, p) <==> Started(u.plans[p].status)
      {
        SameAttempted(t, u, p);
        if p < |t.plans| {
          assert Started(u.plans[p].status) <==> Started(t.plans[p].status);
        } else {
          assert !HasAttempt(t.attempts, p);
        }
      }
    }
  }

  lemma StillEvidence(t: Tables, u: Tables, plan: nat, artifact: nat)
    requires Extends(t, u) && HasEvidence(t.attempts, plan, artifact)
    ensures HasEvidence(u.attempts, plan, artifact)
  {
    var i :| 0 <= i < |t.attempts| && IsEvidence(t.attempts[i], plan, artifact);
    assert IsEvidence(u.attempts[i], plan, artifact);
  }

  lemma StillLocallyDone(t: Tables, u: Tables, plan: nat, snapshot: nat)
    requires Extends(t, u) && snapshot < |t.snapshots| && LocallyDone(t, plan, snapshot)
    ensures LocallyDone(u, plan, snapshot)
  {
    forall a | 0 <= a < |u.artifacts| && u.artifacts[a].snapshot == snapshot
      ensures HasEvidence(u.attempts, plan, a)
    {
      assert a < |t.artifacts| && u.artifacts[..|t.artifacts|][a] == t.artifacts[a];
      StillEvidence(t, u, plan, a);
    }
  }

  /** A plan past its local stages was so before, or has just been moved there with all its evidence. */
  lemma PastLocalIsDone(t: Tables, now: nat, action: Action, p: nat)
    requires DonePastLocal(t) && p < |Transact(t, now, action).plans|
    requires PastLocal(Transact(t, now, action).plans[p].status)
    ensures p < |t.plans| && LocallyDone(t, p, t.plans[p].snapshot)
  {
  }

  lemma DonePastLocalStep(t: Tables, now: nat, action: Action)
    requires Referential(t) && DonePastLocal(t)
    ensures DonePastLocal(Transact(t, now, action))
  {
    ExtendsStep(t, now, action);
    var u := Transact(t, now, action);
    forall p | 0 <= p < |u.plans| && PastLocal(u.plans[p].status)
      ensures LocallyDone(u, p, u.plans[p].snapshot)
    {
      PastLocalIsDone(t, now, action, p);
      PlanIsStillDone(t, u, p);
    }
  }

  lemma PlanIsStillDone(t: Tables, u: Tables, p: nat)
    requires Referential(t) && Extends(t, u) && p < |t.plans| && LocallyDone(t, p, t.plans[p].snapshot)
    ensures LocallyDone(u, p, u.plans[p].snapshot)
  {
    assert u.plans[p].(status := t.plans[p].status) == t.plans[p];
    StillLocallyDone(t, u, p, t.plans[p].snapshot);
  }

  lemma StillDoneBefore(t: Tables, u: Tables, j: nat, a: nat)
    requires Extends(t, u) && j < |t.attempts| && DoneBefore(t.attempts, j, a)
    ensures DoneBefore(u.attempts, j, a)
  {
    var i: nat :| i < j && IsEvidence(t.attempts[i], t.attempts[j].plan, a) && t.attempts[i].finishedAt.Some?
                  && t.attempts[i].finishedAt.value <= t.attempts[j].startedAt;
    assert u.attempts[j].(outcome := t.attempts[j].outcome, finishedAt := t.attempts[j].finishedAt) == t.attempts[j];
    assert IsEvidence(u.attempts[i], u.attempts[j].plan, a);
  }

  lemma FreshAttemptHasEvidence(t: Tables, now: nat, stage: StageRequest, a: nat)
    requires DonePastLocal(t) && ClaimStage(t, now, stage).Ok? && stage.kind != Local && stage.plan < |t.plans|
    requires |t.attempts| < |ClaimStage(t, now, stage).value.tables.attempts|
    requires a < |t.artifacts| && t.artifacts[a].snapshot == t.plans[stage.plan].snapshot
    ensures HasEvidence(t.attempts, stage.plan, a)
  {
    if stage.kind == Replica {
      assert LocallyDone(t, stage.plan, t.plans[stage.plan].snapshot);
    } else {
      var prepared := Prepared(t, now, stage, LocalDeleting);
      assert LocallyDone(prepared, stage.plan, t.plans[stage.plan].snapshot);
      ExpiryMakesNoEvidence(t.attempts, stage, now, a);
    }
  }

  lemma ExpiryMakesNoEvidence(attempts: seq<Attempt>, stage: StageRequest, now: nat, a: nat)
    requires HasEvidence(ExpireAttempts(attempts, stage, now), stage.plan, a)
    ensures HasEvidence(attempts, stage.plan, a)
  {
    var expired := ExpireAttempts(attempts, stage, now);
    var i :| 0 <= i < |expired| && IsEvidence(expired[i], stage.plan, a);
    assert IsEvidence(attempts[i], stage.plan, a);
  }

  /** A fresh replica or mirror attempt finds finished local evidence for every artifact. */
  lemma FreshAttemptLocalFirst(t: Tables, now: nat, stage: StageRequest, a: nat)
    requires Referential(t) && Timely(t, now) && DonePastLocal(t)
    requires ClaimStage(t, now, stage).Ok? && stage.kind != Local && stage.plan < |t.plans|
    requires |t.attempts| < |ClaimStage(t, now, stage).value.tables.attempts|
    requires a < |t.artifacts| && t.artifacts[a].snapshot == t.plans[stage.plan].snapshot
    ensures DoneBefore(ClaimStage(t, now, stage).value.tables.attempts, |t.attempts|, a)
  {
    FreshAttemptHasEvidence(t, now, stage, a);
    ExtendsClaim(t, now, stage);
    ClaimStartsUnprotected(t, now, stage);
    EvidenceIsBefore(t, ClaimStage(t, now, stage).value.tables, now, stage.plan, a);
  }

  lemma EvidenceIsBefore(t: Tables, u: Tables, now: nat, plan: nat, a: nat)
    requires Referential(t) && Timely(t, now) && Extends(t, u) && HasEvidence(t.attempts, plan, a)
    requires |t.attempts| < |u.attempts| && u.attempts[|t.attempts|].plan == plan && u.attempts[|t.attempts|].startedAt == now
    ensures DoneBefore(u.attempts, |t.attempts|, a)
  {
    var i: nat :| i < |t.attempts| && IsEvidence(t.attempts[i], plan, a);
    assert u.attempts[i] == t.attempts[i];
  }

  /** What a new attempt brings along: it is the claim's, and follows finished local evidence. */
  lemma NewAttemptLocalFirst(t: Tables, now: nat, action: Action, a: nat)
    requires Referential(t) && Timely(t, now) && DonePastLocal(t) && a < |Transact(t, now, action).artifacts|
    requires |Transact(t, now, action).attempts| > |t.attempts|
    requires Transact(t, now, action).attempts[|t.attempts|].kind != Local
    ensures var u := Transact(t, now, action); var plan := u.attempts[|t.attempts|].plan;
            && |u.attempts| == |t.attempts| + 1 && plan < |u.plans|
            && (u.artifacts[a].snapshot == u.plans[plan].snapshot ==> DoneBefore(u.attempts, |t.attempts|, a))
  {
    assert action.ClaimIt?;
    var u := Transact(t, now, action);
    ClaimStartsUnprotected(t, now, action.stage);
    assert u.artifacts == t.artifacts && u.plans[action.stage.plan].snapshot == t.plans[action.stage.plan].snapshot;
    if t.artifacts[a].snapshot == t.plans[action.stage.plan].snapshot {
      FreshAttemptLocalFirst(t, now, action.stage, a);
    }
  }

  lemma LocalFirstStep(t: Tables, now: nat, action: Action)
    requires Referential(t) && Timely(t, now) && DonePastLocal(t) && LocalFirst(t)
    ensures Referential(Transact(t, now, action)) && LocalFirst(Transact(t, now, action))
  {
    ExtendsStep(t, now, action);
    ReferentialStep(t, now, action);
    var u := Transact(t, now, action);
    forall j, a | 0 <= j < |u.attempts| && 0 <= a < |u.artifacts|
                  && u.attempts[j].kind != Local && u.artifacts[a].snapshot == u.plans[u.attempts[j].plan].snapshot
      ensures DoneBefore(u.attempts, j, a)
    {
      if j < |t.attempts| {
        OldAttemptLocalFirst(t, u, j, a);
      } else {
        AttemptStep(t, now, action, j);
        NewAttemptLocalFirst(t, now, action, a);
      }
    }
  }

  lemma OldAttemptLocalFirst(t: Tables, u: Tables, j: nat, a: nat)
    requires Referential(t) && Referential(u) && LocalFirst(t) && Extends(t, u) && j < |t.attempts| && a < |u.artifacts|
    requires u.attempts[j].kind != Local && u.artifacts[a].snapshot == u.plans[u.attempts[j].plan].snapshot
    ensures DoneBefore(u.attempts, j, a)
  {
    var plan := t.attempts[j].plan;
    assert u.attempts[j].(outcome := t.attempts[j].outcome, finishedAt := t.attempts[j].finishedAt) == t.attempts[j];
    assert u.plans[plan].(status := t.plans[plan].status) == t.plans[plan];
    assert a < |t.artifacts| && u.artifacts[..|t.artifacts|][a] == t.artifacts[a];
    StillDoneBefore(t, u, j, a);
  }

  lemma NewReplicaIsPastLocal(t: Tables, now: nat, action: Action)
    requires |Transact(t, now, action).attempts| > |t.attempts|
    ensures var u := Transact(t, now, action); var attempt := u.attempts[|t.attempts|];
            attempt.kind == Replica ==> attempt.plan < |u.plans| && PastLocal(u.plans[attempt.plan].status)
  {
  }

  lemma ReplicasPastLocalStep(t: Tables, now: nat, action: Action)
    requires Referential(t) && ReplicasPastLocal(t)
    ensures Referential(Transact(t, now, action)) && ReplicasPastLocal(Transact(t, now, action))
  {
    ExtendsStep(t, now, action);
    ReferentialStep(t, now, action);
    var u := Transact(t, now, action);
    forall j | 0 <= j < |u.attempts| && u.attempts[j].kind == Replica
      ensures PastLocal(u.plans[u.attempts[j].plan].status)
    {
      AttemptStep(t, now, action, j);
      if j < |t.attempts| {
        SameKind(t, u, j);
        PlanMoves(t, now, action, t.attempts[j].plan);
      } else {
        NewReplicaIsPastLocal(t, now, action);
      }
    }
  }

  lemma SameKind(t: Tables, u: Tables, j: nat)
    requires Extends(t, u) && j < |t.attempts|
    ensures u.attempts[j].kind == t.attempts[j].kind && u.attempts[j].plan == t.attempts[j].plan
  {
    assert u.attempts[j].(outcome := t.attempts[j].outcome, finishedAt := t.attempts[j].finishedAt) == t.attempts[j];
  }

  lemma CompletedDeletedStep(t: Tables, now: nat, action: Action)
    requires Referential(t) && CompletedDeleted(t)
    ensures Referential(Transact(t, now, action)) && CompletedDeleted(Transact(t, now, action))
  {
    ExtendsStep(t, now, action);
    ReferentialStep(t, now, action);
    var u := Transact(t, now, action);
    forall p | 0 <= p < |u.plans| && u.plans[p].status == Completed
      ensures u.snapshots[u.plans[p].snapshot].deleted
    {
      assert p < |t.plans| && u.plans[p].(status := t.plans[p].status) == t.plans[p];
    }
  }

  lemma DeletedByPlanStep(t: Tables, now: nat, action: Action)
    requires Referential(t) && DeletedByPlan(t)
    ensures DeletedByPlan(Transact(t, now, action))
  {
    ExtendsStep(t, now, action);
    var u := Transact(t, now, action);
    forall s | 0 <= s < |u.snapshots| && u.snapshots[s].deleted
      ensures CompletedFor(u.plans, s)
    {
      if s < |t.snapshots| && t.snapshots[s].deleted {
        var p :| 0 <= p < |t.plans| && t.plans[p].snapshot == s && t.plans[p].status == Completed;
        PlanMoves(t, now, action, p);
        assert u.plans[p].(status := t.plans[p].status) == t.plans[p];
      } else {
        assert action.Complete? && u.plans[action.plan].snapshot == s;
      }
    }
  }

  lemma OrderStep(w: World, action: Action)
    requires OrderInv(w)
    ensures OrderInv(Step(w, action))
  {
    TimelyStep(w.tables, w.now, action);
    StartedStep(w.tables, w.now, action);
    DonePastLocalStep(w.tables, w.now, action);
    LocalFirstStep(w.tables, w.now, action);
    ReplicasPastLocalStep(w.tables, w.now, action);
    CompletedDeletedStep(w.tables, w.now, action);
    DeletedByPlanStep(w.tables, w.now, action);
  }

  lemma {:induction false} OrderOnward(w: World, actions: seq<Action>)
    requires OrderInv(w)
    ensures OrderInv(Run(w, actions))
    decreases |actions|
  {
    if actions != [] {
      OrderOnward(w, actions[..|actions| - 1]);
      OrderStep(Run(w, actions[..|actions| - 1]), actions[|actions| - 1]);
    }
  }

  /** A claim inserts its attempt past the deadline and, for an automatic plan, while nothing pins the snapshot. */
  lemma ClaimStartsUnprotected(t: Tables, now: nat, stage: StageRequest)
    requires ClaimStage(t, now, stage).Ok? && |ClaimStage(t, now, stage).value.tables.attempts| > |t.attempts|
    ensures var attempt := ClaimStage(t, now, stage).value.tables.attempts[|t.attempts|];
            && attempt.plan == stage.plan < |t.plans| && attempt.startedAt == now
            && t.plans[stage.plan].notBefore <= now
            && (t.plans[stage.plan].automatic ==> !IsPinned(t.pins, t.plans[stage.plan].snapshot))
  {
  }

  /** Step `k` of the run inserted attempt `j`. */
  ghost predicate StartedAt(actions: seq<Action>, k: nat, j: nat) {
    && k < |actions|
    && |Run(EMPTY, actions[..k]).tables.attempts| == j < |Run(EMPTY, actions[..k + 1]).tables.attempts|
  }

  lemma {:induction false} AttemptHasStart(actions: seq<Action>, j: nat) returns (k: nat)
    requires j < |Run(EMPTY, actions).tables.attempts|
    ensures StartedAt(actions, k, j)
    decreases |actions|
  {
    var last := |actions| - 1;
    var before := Run(EMPTY, actions[..last]);
    assert actions[..last + 1] == actions;
    if j < |before.tables.attempts| {
      k := AttemptHasStart(actions[..last], j);
      assert actions[..last][..k] == actions[..k] && actions[..last][..k + 1] == actions[..k + 1];
    } else {
      k := last;
      AttemptStep(before.tables, before.now, actions[last], j);
    }
  }

  /**
   * Over every run with any number of workers, failures, expiries and retries: the step that inserts
   * an attempt runs at or after its plan's deadline and, for an automatic plan, in a state in which
   * no pin protects the snapshot.
   */
  lemma AttemptsStartUnprotected(actions: seq<Action>, k: nat, j: nat)
    requires StartedAt(actions, k, j)
    ensures var before := Run(EMPTY, actions[..k]); var attempt := Run(EMPTY, actions[..k + 1]).tables.attempts[j];
            && actions[k].ClaimIt? && attempt.plan < |before.tables.plans|
            && var plan := before.tables.plans[attempt.plan];
               plan.notBefore <= before.now && (plan.automatic ==> !IsPinned(before.tables.pins, plan.snapshot))
  {
    var before := Run(EMPTY, actions[..k]);
    assert actions[..k + 1][..k] == actions[..k];
    ExtendsStep(before.tables, before.now, actions[k]);
    assert actions[k].ClaimIt?;
    ClaimStartsUnprotected(before.tables, before.now, actions[k].stage);
  }

  /**
   * Over every run: an attempt starts at or after its plan's deadline, and a replica or mirror attempt
   * starts after finished local evidence for every artifact of the snapshot.
   */
  lemma LocalFirstDeletion(actions: seq<Action>, j: nat, a: nat)
    ensures var t := Run(EMPTY, actions).tables;
            j < |t.attempts| ==>
              var attempt := t.attempts[j];
              attempt.plan < |t.plans| && var plan := t.plans[attempt.plan];
              && plan.notBefore <= attempt.startedAt
              && (attempt.kind != Local && a < |t.artifacts| && t.artifacts[a].snapshot == plan.snapshot ==>
                    DoneBefore(t.attempts, j, a))
              && (attempt.kind == Replica ==> PastLocal(plan.status))
  {
    OrderOnward(EMPTY, actions);
    if j < |Run(EMPTY, actions).tables.attempts| {
      AttemptsInOrder(Run(EMPTY, actions).tables, Run(EMPTY, actions).now, j, a);
    }
  }

  lemma AttemptsInOrder(t: Tables, now: nat, j: nat, a: nat)
    requires Referential(t) && Timely(t, now) && LocalFirst(t) && ReplicasPastLocal(t)
    requires j < |t.attempts|
    ensures var attempt := t.attempts[j]; var plan := t.plans[attempt.plan];
            && plan.notBefore <= attempt.startedAt
            && (attempt.kind != Local && a < |t.artifacts| && t.artifacts[a].snapshot == plan.snapshot ==>
                  DoneBefore(t.attempts, j, a))
            && (attempt.kind == Replica ==> PastLocal(plan.status))
  {
    assert IsTimely(t.attempts[j], t.plans[t.attempts[j].plan], now);
  }

  /** A completed plan of the snapshot that saw every one of its artifacts through. */
  ghost predicate SeenThrough(t: Tables, p: nat, snapshot: nat) {
    p < |t.plans| && t.plans[p].snapshot == snapshot && t.plans[p].status == Completed && LocallyDone(t, p, snapshot)
  }

  /** In every run, a snapshot is deleted exactly when a plan of it was seen through. */
  lemma DeletedOnlyWithEvidence(actions: seq<Action>, snapshot: nat)
    requires snapshot < |Run(EMPTY, actions).tables.snapshots|
    ensures var t := Run(EMPTY, actions).tables;
            t.snapshots[snapshot].deleted <==> exists p: nat :: SeenThrough(t, p, snapshot)
  {
    OrderOnward(EMPTY, actions);
    DeletedIsSeenThrough(Run(EMPTY, actions).tables, snapshot);
  }

  lemma DeletedIsSeenThrough(t: Tables, snapshot: nat)
    requires Referential(t) && DonePastLocal(t) && CompletedDeleted(t) && DeletedByPlan(t) && snapshot < |t.snapshots|
    ensures t.snapshots[snapshot].deleted <==> exists p: nat :: SeenThrough(t, p, snapshot)
  {
    if t.snapshots[snapshot].deleted {
      assert CompletedFor(t.plans, snapshot);
      var p :| 0 <= p < |t.plans| && t.plans[p].snapshot == snapshot && t.plans[p].status == Completed;
      assert SeenThrough(t, p, snapshot);
    }
  }

  // ----- finality -----

  /** The moves a plan's status makes in one transaction. */
  predicate PlanMove(before: PlanStatus, after: PlanStatus) {
    after == before
    || (before == Planned && (after == LocalDeleting || after == Withdrawn))
    || (before == LocalDeleting && after == ReplicaDeleting)
    || (before == ReplicaDeleting && after == Completed)
  }

  /** The statuses reachable from a status by any number of such moves. */
  predicate MayBecome(before: PlanStatus, after: PlanStatus) {
    after == before || before == Planned || (before == LocalDeleting && PastLocal(after))
    || (before == ReplicaDeleting && after == Completed)
  }

  lemma PlanMoves(t: Tables, now: nat, action: Action, p: nat)
    requires p < |t.plans|
    ensures var u := Transact(t, now, action); p < |u.plans| && PlanMove(t.plans[p].status, u.plans[p].status)
  {
    ExtendsStep(t, now, action);
  }

  lemma {:induction false} PlanStatusOnward(w: World, actions: seq<Action>, p: nat)
    requires p < |w.tables.plans|
    ensures p < |Run(w, actions).tables.plans|
    ensures MayBecome(w.tables.plans[p].status, Run(w, actions).tables.plans[p].status)
    decreases |actions|
  {
    if actions != [] {
      var previous := Run(w, actions[..|actions| - 1]);
      PlanStatusOnward(w, actions[..|actions| - 1], p);
      PlanMoves(previous.tables, previous.now, actions[|actions| - 1], p);
    }
  }

  /** Only a reactivation that finds no started stage cancels a tombstone, and it withdraws the waiting plans. */
  lemma CancellationWithdraws(w: World, action: Action, tombstone: nat, p: nat)
    requires tombstone < |w.tables.tombstones| && w.tables.tombstones[tombstone].state == Open
    requires tombstone < |Step(w, action).tables.tombstones|
    requires Step(w, action).tables.tombstones[tombstone].state == Cancelled
    requires p < |w.tables.plans| && w.tables.plans[p].tombstone == Some(tombstone)
    ensures !HasAttempt(Step(w, action).tables.attempts, p)
    ensures w.tables.plans[p].automatic && w.tables.plans[p].status == Planned ==>
              p < |Step(w, action).tables.plans| && Step(w, action).tables.plans[p].status == Withdrawn
  {
    var t := w.tables;
    assert action.Reactivate? && OpenTombstone(t.tombstones, action.target) == Some(tombstone);
    assert Step(w, action).tables.attempts == t.attempts;
    if HasAttempt(t.attempts, p) {
      var i :| 0 <= i < |t.attempts| && t.attempts[i].plan == p;
      assert StageStarted(t, tombstone);
    }
  }

  /**
   * A tombstone is cancelled only while none of its plans has an attempt; each automatic plan of it
   * that was still planned never gets one, whatever happens afterwards.
   */
  lemma CancellationIsFinal(before: seq<Action>, action: Action, after: seq<Action>, tombstone: nat, p: nat)
    requires var w := Run(EMPTY, before); var u := Step(w, action);
             && tombstone < |w.tables.tombstones| && w.tables.tombstones[tombstone].state == Open
             && tombstone < |u.tables.tombstones| && u.tables.tombstones[tombstone].state == Cancelled
             && p < |w.tables.plans| && w.tables.plans[p].tombstone == Some(tombstone)
    ensures !HasAttempt(Step(Run(EMPTY, before), action).tables.attempts, p)
    ensures var w := Run(EMPTY, before); var later := Run(Step(w, action), after);
            w.tables.plans[p].automatic && w.tables.plans[p].status == Planned ==>
              && p < |later.tables.plans| && later.tables.plans[p].status == Withdrawn
              && !HasAttempt(later.tables.attempts, p)
  {
    var w := Run(EMPTY, before);
    CancellationWithdraws(w, action, tombstone, p);
    if w.tables.plans[p].automatic && w.tables.plans[p].status == Planned {
      OrderOnward(EMPTY, before);
      OrderStep(w, action);
      OrderOnward(Step(w, action), after);
      PlanStatusOnward(Step(w, action), after, p);
    }
  }
}
