/**
 * The tables of staged deletion and the transactions over them.
 *
 * Every table is append-only, so a row's identity is its position. Each transaction is a function
 * from the tables and the database clock to the committed tables, or to an error with nothing
 * committed.
 */
module DeletionTables {
  import opened Common

  /** A target by its natural key: a repository, or the one wiki of a repository. */
  datatype TargetKey = Repository(repo: nat) | Wiki(parent: nat)

  datatype Snapshot = Snapshot(target: TargetKey, mirror: nat, deleted: bool)

  datatype Artifact = Artifact(snapshot: nat, digest: nat)

  datatype Placement = Placement(artifact: nat, replica: nat, objectKey: nat)

  /** One pin of a snapshot by one authority: a pin source with its reference. */
  datatype Pin = Pin(snapshot: nat, authority: nat, pinnedAt: nat, revokedAt: Option<nat>)

  datatype TombstoneState = Open | Cancelled | Closed

  datatype Tombstone = Tombstone(target: TargetKey, revision: nat, state: TombstoneState)

  datatype PlanStatus = Planned | LocalDeleting | ReplicaDeleting | Completed | Withdrawn

  datatype DeletionPlan = DeletionPlan(
    target: TargetKey, snapshot: nat, tombstone: Option<nat>, automatic: bool, notBefore: nat, status: PlanStatus)

  /** The physical object one stage removes. */
  datatype Identity = LocalDigest(digest: nat) | MirrorPath(mirror: nat) | ReplicaKey(replica: nat, objectKey: nat)

  datatype ClaimOutcome = Held | Released | Abandoned

  datatype Claim = Claim(plan: nat, identity: Identity, expiresAt: nat, outcome: ClaimOutcome)

  datatype StageKind = Local | MirrorLocal | Replica

  datatype StageOutcome = Running | Succeeded | Failed | LeaseExpired | SharedRetained

  datatype Attempt = Attempt(
    plan: nat, kind: StageKind, stageKey: string, artifact: Option<nat>, placement: Option<nat>, claim: Option<nat>,
    outcome: StageOutcome, startedAt: nat, expiresAt: nat, finishedAt: Option<nat>)

  datatype Tables = Tables(
    snapshots: seq<Snapshot>,
    artifacts: seq<Artifact>,
    placements: seq<Placement>,
    pins: seq<Pin>,
    tombstones: seq<Tombstone>,
    plans: seq<DeletionPlan>,
    claims: seq<Claim>,
    attempts: seq<Attempt>)

  datatype StageRequest = StageRequest(
    plan: nat, kind: StageKind, stageKey: string, artifact: Option<nat>, replica: Option<nat>, placement: Option<nat>,
    leaseSeconds: nat)

  /** What a snapshot is built from; `healthy` is the answer of the mirror and run tables. */
  datatype SnapshotSource = SnapshotSource(target: TargetKey, mirror: nat, healthy: bool, parent: Option<nat>)

  datatype PlanRequest = PlanRequest(
    target: TargetKey, snapshot: nat, tombstone: Option<nat>, automatic: bool, tombstonedAt: nat, notBefore: nat)

  datatype ClaimReply =
    | Claimed(attempt: nat, claim: nat)
    | GraceActive
    | ProtectedPinned
    | SharedReferenceRetained(attempt: nat)

  datatype ClaimResult = ClaimResult(tables: Tables, reply: ClaimReply)

  // ----- queries -----

  predicate IsPinned(pins: seq<Pin>, snapshot: nat) {
    exists i | 0 <= i < |pins| :: pins[i].snapshot == snapshot && pins[i].revokedAt.None?
  }

  predicate IsTerminalEvidence(outcome: StageOutcome) {
    outcome == Succeeded || outcome == SharedRetained
  }

  predicate IsEvidence(attempt: Attempt, plan: nat, artifact: nat) {
    attempt.plan == plan && attempt.kind == Local && attempt.artifact == Some(artifact)
    && IsTerminalEvidence(attempt.outcome)
  }

  predicate HasEvidence(attempts: seq<Attempt>, plan: nat, artifact: nat) {
    exists i | 0 <= i < |attempts| :: IsEvidence(attempts[i], plan, artifact)
  }

  /** Every artifact of the snapshot has terminal local evidence under the plan. */
  predicate LocallyDone(t: Tables, plan: nat, snapshot: nat) {
    forall a | 0 <= a < |t.artifacts| && t.artifacts[a].snapshot == snapshot :: HasEvidence(t.attempts, plan, a)
  }

  predicate MirrorDone(attempts: seq<Attempt>, plan: nat) {
    exists i | 0 <= i < |attempts| ::
      attempts[i].plan == plan && attempts[i].kind == MirrorLocal && attempts[i].outcome == Succeeded
  }

  predicate ReplicasDone(t: Tables, plan: nat, snapshot: nat) {
    forall p | 0 <= p < |t.placements| && t.placements[p].artifact < |t.artifacts|
               && t.artifacts[t.placements[p].artifact].snapshot == snapshot ::
      exists i | 0 <= i < |t.attempts| ::
        t.attempts[i].plan == plan && t.attempts[i].kind == Replica && t.attempts[i].placement == Some(p)
        && IsTerminalEvidence(t.attempts[i].outcome)
  }

  /** A claim still holds its identity: it is running and its lease has not expired. */
  predicate IsLive(claim: Claim, now: nat) {
    claim.outcome == Held && now < claim.expiresAt
  }

  predicate IsLiveDigest(claims: seq<Claim>, digest: nat, now: nat) {
    exists c | 0 <= c < |claims| :: claims[c].identity == LocalDigest(digest) && IsLive(claims[c], now)
  }

  predicate HasAttempt(attempts: seq<Attempt>, plan: nat) {
    exists i | 0 <= i < |attempts| :: attempts[i].plan == plan
  }

  predicate IsActivePlan(plan: DeletionPlan) {
    plan.status != Completed && plan.status != Withdrawn
  }

  // ----- recording snapshots, pins and plans -----

  function ArtifactRows(snapshot: nat, digests: seq<nat>): seq<Artifact> {
    seq(|digests|, i requires 0 <= i < |digests| => Artifact(snapshot, digests[i]))
  }

  /** An earlier snapshot of the same target and mirror, as a new one may name it. */
  predicate IsParent(t: Tables, source: SnapshotSource, parent: nat) {
    parent < |t.snapshots| && t.snapshots[parent].target == source.target && t.snapshots[parent].mirror == source.mirror
  }

  /**
   * Appends one snapshot with its artifacts unless its source or parent is refused or a live deletion
   * claim holds one of the digests. The local store is not consulted.
   */
  function RecordSnapshot(t: Tables, now: nat, source: SnapshotSource, digests: seq<nat>): (r: Result<Tables>) {
    if !source.healthy then Err(InvalidDelivery("snapshot_source"))
    else if source.parent.Some? && !IsParent(t, source, source.parent.value) then
      Err(InvalidDelivery("parent_snapshot_id"))
    else if exists i | 0 <= i < |digests| :: IsLiveDigest(t.claims, digests[i], now) then Err(StorageFailed)
    else
      Ok(t.(snapshots := t.snapshots + [Snapshot(source.target, source.mirror, false)],
            artifacts := t.artifacts + ArtifactRows(|t.snapshots|, digests)))
  }

  /** Pins a snapshot; an authority whose pin is still active keeps that pin. */
  function PinSnapshot(t: Tables, now: nat, snapshot: nat, authority: nat): (r: Result<Tables>) {
    if snapshot >= |t.snapshots| then Err(InvalidDelivery("snapshot_id"))
    else if exists i | 0 <= i < |t.pins| ::
              t.pins[i].snapshot == snapshot && t.pins[i].authority == authority && t.pins[i].revokedAt.None?
    then Ok(t)
    else Ok(t.(pins := t.pins + [Pin(snapshot, authority, now, None)]))
  }

  function RevokePin(t: Tables, now: nat, pin: nat): (r: Result<Tables>) {
    if pin >= |t.pins| || t.pins[pin].revokedAt.Some? then Err(InvalidDelivery("pin_id"))
    else Ok(t.(pins := t.pins[pin := t.pins[pin].(revokedAt := Some(now))]))
  }

  /** A pinned snapshot gets no automatic plan, and a snapshot has at most one active plan. */
  function CreatePlan(t: Tables, request: PlanRequest): (r: Result<Tables>) {
    if request.notBefore <= request.tombstonedAt || request.notBefore > I64_MAX then
      Err(InvalidDelivery("deletion_not_before"))
    else if request.snapshot >= |t.snapshots| || t.snapshots[request.snapshot].target != request.target then
      Err(InvalidDelivery("deletion_snapshot"))
    else if request.automatic && IsPinned(t.pins, request.snapshot) then Ok(t)
    else if request.tombstone.Some? && request.tombstone.value >= |t.tombstones| then Err(StorageFailed)
    else if exists p | 0 <= p < |t.plans| :: t.plans[p].snapshot == request.snapshot && IsActivePlan(t.plans[p]) then
      Err(StorageFailed)
    else
      Ok(t.(plans := t.plans + [DeletionPlan(request.target, request.snapshot, request.tombstone, request.automatic,
                                             request.notBefore, Planned)]))
  }

  // ----- tombstones -----

  predicate IsOpenFor(tombstone: Tombstone, target: TargetKey) {
    tombstone.target == target && tombstone.state == Open
  }

  predicate HasOpenTombstone(t: Tables, target: TargetKey) {
    exists i | 0 <= i < |t.tombstones| :: IsOpenFor(t.tombstones[i], target)
  }

  /** Opens a tombstone; a target with an open one keeps it. */
  function CreateTombstone(t: Tables, target: TargetKey, revision: nat): (r: Tables) {
    if HasOpenTombstone(t, target) then t
    else t.(tombstones := t.tombstones + [Tombstone(target, revision, Open)])
  }

  predicate StageStarted(t: Tables, tombstone: nat) {
    exists i | 0 <= i < |t.attempts| ::
      t.attempts[i].plan < |t.plans| && t.plans[t.attempts[i].plan].tombstone == Some(tombstone)
  }

  function WithdrawPlan(plan: DeletionPlan, tombstone: nat): DeletionPlan {
    if plan.tombstone == Some(tombstone) && plan.automatic && plan.status == Planned
    then plan.(status := Withdrawn) else plan
  }

  /** The open tombstone of a target, by position; the first one, of which the index allows no second. */
  function OpenTombstone(tombstones: seq<Tombstone>, target: TargetKey): (r: Option<nat>)
    ensures r.Some? ==>
              r.value < |tombstones| && tombstones[r.value].target == target && tombstones[r.value].state == Open
    ensures r.None? ==> forall i | 0 <= i < |tombstones| :: !(tombstones[i].target == target && tombstones[i].state == Open)
  {
    if tombstones == [] then None
    else
      var last := |tombstones| - 1;
      var earlier := OpenTombstone(tombstones[..last], target);
      if earlier.Some? then earlier
      else if IsOpenFor(tombstones[last], target) then Some(last) else None
  }

  /** Closes the open tombstone of a reactivated target, unless a stage of one of its plans began. */
  function CancelTombstone(t: Tables, target: TargetKey): (r: Result<Tables>) {
    match OpenTombstone(t.tombstones, target)
    case None => Ok(t)
    case Some(tombstone) =>
      if StageStarted(t, tombstone) then Err(InvalidDelivery("reactivation_after_deletion_started"))
      else
        Ok(t.(plans := seq(|t.plans|, i requires 0 <= i < |t.plans| => WithdrawPlan(t.plans[i], tombstone)),
              tombstones := t.tombstones[tombstone := t.tombstones[tombstone].(state := Cancelled)]))
  }

  // ----- claiming a stage -----

  predicate ValidRequest(request: StageRequest) {
    1 <= request.leaseSeconds <= 86_400 && 1 <= |request.stageKey| <= 255
  }

  /** The physical object a well-shaped request names inside the plan's snapshot. */
  function StageIdentity(t: Tables, snapshot: nat, request: StageRequest): (r: Result<Identity>)
    requires snapshot < |t.snapshots|
    ensures r.Ok? && request.kind == Local ==>
              request.artifact.Some? && request.artifact.value < |t.artifacts|
              && t.artifacts[request.artifact.value].snapshot == snapshot
              && r.value == LocalDigest(t.artifacts[request.artifact.value].digest)
    ensures r.Ok? && request.kind != Local ==> !r.value.LocalDigest?
  {
    match request.kind
    case Local =>
      if request.artifact.None? then Err(InvalidDelivery("deletion_local_artifact"))
      else if request.replica.Some? || request.placement.Some? then Err(InvalidDelivery("deletion_local_shape"))
      else if request.artifact.value >= |t.artifacts| || t.artifacts[request.artifact.value].snapshot != snapshot then
        Err(InvalidDelivery("deletion_local_artifact"))
      else Ok(LocalDigest(t.artifacts[request.artifact.value].digest))
    case MirrorLocal =>
      if request.artifact.Some? || request.replica.Some? || request.placement.Some? then
        Err(InvalidDelivery("deletion_mirror_shape"))
      else Ok(MirrorPath(t.snapshots[snapshot].mirror))
    case Replica =>
      if request.artifact.None? then Err(InvalidDelivery("deletion_replica_artifact"))
      else if request.replica.None? then Err(InvalidDelivery("deletion_replica_target"))
      else if request.placement.None? then Err(InvalidDelivery("deletion_replica_placement"))
      else if request.placement.value >= |t.placements|
           || t.placements[request.placement.value].artifact != request.artifact.value
           || t.placements[request.placement.value].replica != request.replica.value
           || request.artifact.value >= |t.artifacts|
           || t.artifacts[request.artifact.value].snapshot != snapshot then
        Err(InvalidDelivery("deletion_replica_placement"))
      else Ok(ReplicaKey(request.replica.value, t.placements[request.placement.value].objectKey))
  }

  /** The status a plan must hold, or enter, for a stage of this kind. */
  function AdvanceForStage(status: PlanStatus, kind: StageKind): (r: Result<PlanStatus>) {
    if kind == Replica then
      if status == ReplicaDeleting then Ok(ReplicaDeleting) else Err(InvalidDelivery("deletion_stage_order"))
    else
      if status == Planned || status == LocalDeleting then Ok(LocalDeleting)
      else Err(InvalidDelivery("deletion_stage_order"))
  }

  /** Another snapshot that is not deleted references the same digest. */
  predicate DigestIsShared(t: Tables, snapshot: nat, artifact: nat)
    requires artifact < |t.artifacts|
  {
    exists b | 0 <= b < |t.artifacts| ::
      b != artifact && t.artifacts[b].digest == t.artifacts[artifact].digest
      && t.artifacts[b].snapshot != snapshot
      && t.artifacts[b].snapshot < |t.snapshots| && !t.snapshots[t.artifacts[b].snapshot].deleted
  }

  predicate PlacementIsShared(t: Tables, snapshot: nat, placement: nat)
    requires placement < |t.placements|
  {
    exists q | 0 <= q < |t.placements| ::
      q != placement && t.placements[q].replica == t.placements[placement].replica
      && t.placements[q].objectKey == t.placements[placement].objectKey
      && t.placements[q].artifact < |t.artifacts|
      && var owner := t.artifacts[t.placements[q].artifact].snapshot;
         owner != snapshot && owner < |t.snapshots| && !t.snapshots[owner].deleted
  }

  predicate IsShared(t: Tables, snapshot: nat, request: StageRequest)
    requires snapshot < |t.snapshots|
    requires StageIdentity(t, snapshot, request).Ok?
  {
    match request.kind
    case Local => DigestIsShared(t, snapshot, request.artifact.value)
    case Replica => PlacementIsShared(t, snapshot, request.placement.value)
    case MirrorLocal => false
  }

  /** The insert guard: replicas only after local evidence, the mirror only for a tombstoned target. */
  predicate StageGuardAdmits(t: Tables, request: StageRequest)
    requires request.plan < |t.plans|
  {
    var plan := t.plans[request.plan];
    match request.kind
    case Local => true
    case MirrorLocal => plan.tombstone.Some? && LocallyDone(t, request.plan, plan.snapshot)
    case Replica =>
      request.artifact.Some? && HasEvidence(t.attempts, request.plan, request.artifact.value)
      && (plan.tombstone.Some? ==> MirrorDone(t.attempts, request.plan))
  }

  predicate IsSameStage(attempt: Attempt, request: StageRequest) {
    attempt.plan == request.plan && attempt.kind == request.kind && attempt.stageKey == request.stageKey
    && attempt.outcome == Running
  }

  function ExpireAttempt(attempt: Attempt, request: StageRequest, now: nat): Attempt {
    if IsSameStage(attempt, request) && attempt.expiresAt <= now
    then attempt.(outcome := LeaseExpired, finishedAt := Some(now)) else attempt
  }

  function ExpireAttempts(attempts: seq<Attempt>, request: StageRequest, now: nat): (r: seq<Attempt>) {
    seq(|attempts|, i requires 0 <= i < |attempts| => ExpireAttempt(attempts[i], request, now))
  }

  function ExpireClaim(claim: Claim, identity: Identity, now: nat): Claim {
    if claim.identity == identity && claim.outcome == Held && claim.expiresAt <= now
    then claim.(outcome := Abandoned) else claim
  }

  function ExpireClaims(claims: seq<Claim>, identity: Identity, now: nat): (r: seq<Claim>) {
    seq(|claims|, i requires 0 <= i < |claims| => ExpireClaim(claims[i], identity, now))
  }

  function NewAttempt(request: StageRequest, claim: Option<nat>, now: nat): Attempt {
    if claim.Some?
    then Attempt(request.plan, request.kind, request.stageKey, request.artifact, request.placement, claim,
                 Running, now, now + request.leaseSeconds, None)
    else Attempt(request.plan, request.kind, request.stageKey, request.artifact, request.placement, None,
                 SharedRetained, now, now, Some(now))
  }

  /** The plan moved to its stage status and this stage's expired attempts closed. */
  function Prepared(t: Tables, now: nat, request: StageRequest, status: PlanStatus): Tables
    requires request.plan < |t.plans|
  {
    t.(plans := t.plans[request.plan := t.plans[request.plan].(status := status)],
       attempts := ExpireAttempts(t.attempts, request, now))
  }

  /** The lease insert: refused while another running claim or attempt holds the same unit. */
  function TakeLease(t: Tables, now: nat, request: StageRequest, identity: Identity): (r: Result<ClaimResult>) {
    var claims := ExpireClaims(t.claims, identity, now);
    if exists c | 0 <= c < |claims| :: claims[c].identity == identity && claims[c].outcome == Held then
      Err(StorageFailed)
    else if exists i | 0 <= i < |t.attempts| :: IsSameStage(t.attempts[i], request) then Err(StorageFailed)
    else
      Ok(ClaimResult(
           t.(claims := claims + [Claim(request.plan, identity, now + request.leaseSeconds, Held)],
              attempts := t.attempts + [NewAttempt(request, Some(|claims|), now)]),
           Claimed(|t.attempts|, |claims|)))
  }

  /** Claims one stage: refuse, advance, expire, check sharing, then lease. */
  function ClaimStage(t: Tables, now: nat, request: StageRequest): (r: Result<ClaimResult>) {
    if !ValidRequest(request) then Err(InvalidDelivery("deletion_stage_claim"))
    else if request.plan >= |t.plans| || t.plans[request.plan].snapshot >= |t.snapshots| then
      Err(InvalidDelivery("plan_id"))
    else
      var plan := t.plans[request.plan];
      if now < plan.notBefore then Ok(ClaimResult(t, GraceActive))
      else if plan.automatic && IsPinned(t.pins, plan.snapshot) then Ok(ClaimResult(t, ProtectedPinned))
      else
        var identity := StageIdentity(t, plan.snapshot, request);
        var status := AdvanceForStage(plan.status, request.kind);
        if identity.Err? then Err(identity.error)
        else if status.Err? then Err(status.error)
        else
          var prepared := Prepared(t, now, request, status.value);
          if !StageGuardAdmits(prepared, request) then Err(StorageFailed)
          else if IsShared(prepared, plan.snapshot, request) then
            Ok(ClaimResult(prepared.(attempts := prepared.attempts + [NewAttempt(request, None, now)]),
                           SharedReferenceRetained(|t.attempts|)))
          else TakeLease(prepared, now, request, identity.value)
  }

  // ----- closing stages and plans -----

  predicate OwnsStage(t: Tables, attempt: nat, claim: nat) {
    attempt < |t.attempts| && t.attempts[attempt].claim == Some(claim) && t.attempts[attempt].outcome == Running
  }

  function CloseClaim(claims: seq<Claim>, claim: nat, outcome: ClaimOutcome): (r: seq<Claim>) {
    if claim < |claims| && claims[claim].outcome == Held then claims[claim := claims[claim].(outcome := outcome)]
    else claims
  }

  function StageSucceeded(t: Tables, now: nat, attempt: nat, claim: nat): (r: Result<Tables>) {
    if !OwnsStage(t, attempt, claim) then Err(StorageFailed)
    else
      Ok(t.(attempts := t.attempts[attempt := t.attempts[attempt].(outcome := Succeeded, finishedAt := Some(now))],
            claims := CloseClaim(t.claims, claim, Released)))
  }

  function StageFailed(t: Tables, now: nat, attempt: nat, claim: nat): (r: Result<Tables>) {
    if !OwnsStage(t, attempt, claim) then Err(StorageFailed)
    else
      Ok(t.(attempts := t.attempts[attempt := t.attempts[attempt].(outcome := Failed, finishedAt := Some(now))],
            claims := CloseClaim(t.claims, claim, Abandoned)))
  }

  function WithPlanStatus(t: Tables, plan: nat, status: PlanStatus): Tables
    requires plan < |t.plans|
  {
    t.(plans := t.plans[plan := t.plans[plan].(status := status)])
  }

  function AdvanceToReplicas(t: Tables, plan: nat): (r: Result<Tables>) {
    if plan < |t.plans| && t.plans[plan].status == LocalDeleting && LocallyDone(t, plan, t.plans[plan].snapshot)
    then Ok(WithPlanStatus(t, plan, ReplicaDeleting)) else Err(StorageFailed)
  }

  /** The completion guard: every artifact, placement and, for a tombstone, the mirror has evidence. */
  predicate CompletionGuardAdmits(t: Tables, plan: nat)
    requires plan < |t.plans|
  {
    LocallyDone(t, plan, t.plans[plan].snapshot) && ReplicasDone(t, plan, t.plans[plan].snapshot)
    && (t.plans[plan].tombstone.Some? ==> MirrorDone(t.attempts, plan))
  }

  /** Closes the tombstone once its last plan completed; an already closed tombstone refuses. */
  function CloseTombstoneIfReady(t: Tables, tombstone: nat): (r: Result<Tables>) {
    if exists p | 0 <= p < |t.plans| :: t.plans[p].tombstone == Some(tombstone) && t.plans[p].status != Completed
    then Ok(t)
    else if tombstone >= |t.tombstones| || t.tombstones[tombstone].state != Open then Err(StorageFailed)
    else Ok(t.(tombstones := t.tombstones[tombstone := t.tombstones[tombstone].(state := Closed)]))
  }

  function CompletePlan(t: Tables, plan: nat): (r: Result<Tables>) {
    if plan >= |t.plans| then Err(InvalidDelivery("plan_id"))
    else if t.plans[plan].status != ReplicaDeleting || t.plans[plan].snapshot >= |t.snapshots|
         || !CompletionGuardAdmits(t, plan) then Err(StorageFailed)
    else
      var snapshot := t.plans[plan].snapshot;
      var done := WithPlanStatus(t, plan, Completed)
                  .(snapshots := t.snapshots[snapshot := t.snapshots[snapshot].(deleted := true)]);
      match t.plans[plan].tombstone
      case None => Ok(done)
      case Some(tombstone) => CloseTombstoneIfReady(done, tombstone)
  }

  /** The replication worker's placement row for one artifact at one replica target. */
  function AddPlacement(t: Tables, artifact: nat, replica: nat, objectKey: nat): (r: Result<Tables>) {
    if artifact >= |t.artifacts| then Err(StorageFailed)
    else if exists p | 0 <= p < |t.placements| :: t.placements[p].artifact == artifact && t.placements[p].replica == replica
    then Err(StorageFailed)
    else Ok(t.(placements := t.placements + [Placement(artifact, replica, objectKey)]))
  }
}
