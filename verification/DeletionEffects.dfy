/** Exactly when each deletion transaction commits, and what it then writes, stated over the rows. */
module DeletionEffects {
  import opened Common
  import opened DeletionTables
  import opened DeletionProtocol

  // ----- claims -----

  /** A local attempt of the plan saw the artifact through: deleted, or retained for another snapshot. */
  ghost predicate SawThrough(attempts: seq<Attempt>, plan: nat, artifact: nat) {
    exists i | 0 <= i < |attempts| ::
      && attempts[i].plan == plan && attempts[i].kind == Local && attempts[i].artifact == Some(artifact)
      && (attempts[i].outcome == Succeeded || attempts[i].outcome == SharedRetained)
  }

  ghost predicate SawMirrorThrough(attempts: seq<Attempt>, plan: nat) {
    exists i | 0 <= i < |attempts| ::
      attempts[i].plan == plan && attempts[i].kind == MirrorLocal && attempts[i].outcome == Succeeded
  }

  ghost predicate SawCopyThrough(attempts: seq<Attempt>, plan: nat, placement: nat) {
    exists i | 0 <= i < |attempts| ::
      && attempts[i].plan == plan && attempts[i].kind == Replica && attempts[i].placement == Some(placement)
      && (attempts[i].outcome == Succeeded || attempts[i].outcome == SharedRetained)
  }

  /** The request has the shape of its kind and names rows of the plan's snapshot. */
  ghost predicate IsWellShaped(t: Tables, snapshot: nat, request: StageRequest) {
    match request.kind
    case Local =>
      && request.replica.None? && request.placement.None? && request.artifact.Some?
      && request.artifact.value < |t.artifacts| && t.artifacts[request.artifact.value].snapshot == snapshot
    case MirrorLocal => request.artifact.None? && request.replica.None? && request.placement.None?
    case Replica =>
      && request.artifact.Some? && request.replica.Some? && request.placement.Some?
      && request.placement.value < |t.placements| && request.artifact.value < |t.artifacts|
      && t.placements[request.placement.value].artifact == request.artifact.value
      && t.placements[request.placement.value].replica == request.replica.value
      && t.artifacts[request.artifact.value].snapshot == snapshot
  }

  /** The physical object a well-shaped request names. */
  ghost predicate IsObjectOf(t: Tables, snapshot: nat, request: StageRequest, identity: Identity)
    requires snapshot < |t.snapshots| && IsWellShaped(t, snapshot, request)
  {
    match request.kind
    case Local => identity == LocalDigest(t.artifacts[request.artifact.value].digest)
    case MirrorLocal => identity == MirrorPath(t.snapshots[snapshot].mirror)
    case Replica => identity == ReplicaKey(request.replica.value, t.placements[request.placement.value].objectKey)
  }

  ghost predicate IsPinnedNow(t: Tables, snapshot: nat) {
    exists k | 0 <= k < |t.pins| :: t.pins[k].snapshot == snapshot && t.pins[k].revokedAt.None?
  }

  /** The stage is in order: local before replica, the mirror of a tombstoned target in between. */
  ghost predicate IsInOrder(t: Tables, request: StageRequest)
    requires request.plan < |t.plans|
  {
    var plan := t.plans[request.plan];
    match request.kind
    case Local => plan.status == Planned || plan.status == LocalDeleting
    case MirrorLocal =>
      && (plan.status == Planned || plan.status == LocalDeleting) && plan.tombstone.Some?
      && forall a | 0 <= a < |t.artifacts| && t.artifacts[a].snapshot == plan.snapshot :: SawThrough(t.attempts, request.plan, a)
    case Replica =>
      && plan.status == ReplicaDeleting && request.artifact.Some?
      && SawThrough(t.attempts, request.plan, request.artifact.value)
      && (plan.tombstone.Some? ==> SawMirrorThrough(t.attempts, request.plan))
  }

  /** Everything a claim asks for before it looks at the object. */
  ghost predicate IsAdmitted(t: Tables, now: nat, request: StageRequest) {
    && 1 <= request.leaseSeconds <= 86_400 && 1 <= |request.stageKey| <= 255
    && request.plan < |t.plans| && t.plans[request.plan].snapshot < |t.snapshots|
    && t.plans[request.plan].notBefore <= now
    && !(t.plans[request.plan].automatic && IsPinnedNow(t, t.plans[request.plan].snapshot))
    && IsWellShaped(t, t.plans[request.plan].snapshot, request) && IsInOrder(t, request)
  }

  ghost predicate IsLiveElsewhere(t: Tables, artifact: nat, snapshot: nat)
    requires artifact < |t.artifacts|
  {
    var owner := t.artifacts[artifact].snapshot;
    owner != snapshot && owner < |t.snapshots| && !t.snapshots[owner].deleted
  }

  /** Another live snapshot references the very object: its digest, or its key at the replica. */
  ghost predicate IsReferencedElsewhere(t: Tables, request: StageRequest)
    requires request.plan < |t.plans| && IsWellShaped(t, t.plans[request.plan].snapshot, request)
  {
    var snapshot := t.plans[request.plan].snapshot;
    match request.kind
    case Local =>
      exists b | 0 <= b < |t.artifacts| ::
        t.artifacts[b].digest == t.artifacts[request.artifact.value].digest && IsLiveElsewhere(t, b, snapshot)
    case MirrorLocal => false
    case Replica =>
      exists q | 0 <= q < |t.placements| ::
        && t.placements[q].replica == request.replica.value
        && t.placements[q].objectKey == t.placements[request.placement.value].objectKey
        && t.placements[q].artifact < |t.artifacts| && IsLiveElsewhere(t, t.placements[q].artifact, snapshot)
  }

  /** An unexpired lease holds the object, or an unexpired attempt the stage. */
  ghost predicate IsHeld(t: Tables, now: nat, request: StageRequest, identity: Identity) {
    || (exists c | 0 <= c < |t.claims| ::
          t.claims[c].identity == identity && t.claims[c].outcome == Held && now < t.claims[c].expiresAt)
    || (exists i | 0 <= i < |t.attempts| ::
          && t.attempts[i].plan == request.plan && t.attempts[i].kind == request.kind
          && t.attempts[i].stageKey == request.stageKey && t.attempts[i].outcome == Running && now < t.attempts[i].expiresAt)
  }

  lemma EvidenceIsSeen(attempts: seq<Attempt>, plan: nat, artifact: nat)
    ensures HasEvidence(attempts, plan, artifact) <==> SawThrough(attempts, plan, artifact)
  {
    if HasEvidence(attempts, plan, artifact) {
      var i :| 0 <= i < |attempts| && IsEvidence(attempts[i], plan, artifact);
      assert attempts[i].plan == plan;
    }
    if SawThrough(attempts, plan, artifact) {
      var i :| 0 <= i < |attempts| && attempts[i].plan == plan && attempts[i].kind == Local
               && attempts[i].artifact == Some(artifact)
               && (attempts[i].outcome == Succeeded || attempts[i].outcome == SharedRetained);
      assert IsEvidence(attempts[i], plan, artifact);
    }
  }

  /** Closing expired attempts neither makes nor loses evidence. */
  lemma ExpiryKeepsEvidence(attempts: seq<Attempt>, request: StageRequest, now: nat, plan: nat, artifact: nat)
    ensures SawThrough(ExpireAttempts(attempts, request, now), plan, artifact) <==> SawThrough(attempts, plan, artifact)
    ensures SawMirrorThrough(ExpireAttempts(attempts, request, now), plan) <==> SawMirrorThrough(attempts, plan)
  {
    var expired := ExpireAttempts(attempts, request, now);
    assert forall i | 0 <= i < |attempts| :: expired[i] == ExpireAttempt(attempts[i], request, now);
    assert forall i | 0 <= i < |attempts| :: expired[i] == attempts[i] || attempts[i].outcome == Running;
  }

  lemma MirrorIsSeen(attempts: seq<Attempt>, plan: nat)
    ensures MirrorDone(attempts, plan) <==> SawMirrorThrough(attempts, plan)
  {
  }

  /** The insert guard and the status check together are the order over the rows. */
  lemma GuardIsOrder(t: Tables, now: nat, request: StageRequest)
    requires request.plan < |t.plans|
    ensures AdvanceForStage(t.plans[request.plan].status, request.kind).Ok?
            && StageGuardAdmits(Prepared(t, now, request, AdvanceForStage(t.plans[request.plan].status, request.kind).value), request)
       <==> IsInOrder(t, request)
  {
    var status := AdvanceForStage(t.plans[request.plan].status, request.kind);
    if status.Ok? {
      var prepared := Prepared(t, now, request, status.value);
      forall a: nat
        ensures HasEvidence(prepared.attempts, request.plan, a) <==> SawThrough(t.attempts, request.plan, a)
      {
        ExpiryKeepsEvidence(t.attempts, request, now, request.plan, a);
        EvidenceIsSeen(prepared.attempts, request.plan, a);
      }
      ExpiryKeepsEvidence(t.attempts, request, now, request.plan, 0);
      MirrorIsSeen(prepared.attempts, request.plan);
    }
  }

  /** The identity is well shaped exactly when it resolves, and resolves to the object it names. */
  lemma IdentityIsObject(t: Tables, snapshot: nat, request: StageRequest)
    requires snapshot < |t.snapshots|
    ensures StageIdentity(t, snapshot, request).Ok? <==> IsWellShaped(t, snapshot, request)
    ensures StageIdentity(t, snapshot, request).Ok? ==>
              IsObjectOf(t, snapshot, request, StageIdentity(t, snapshot, request).value)
  {
  }

  lemma SharedIsReferenced(t: Tables, now: nat, request: StageRequest, status: PlanStatus)
    requires request.plan < |t.plans| && t.plans[request.plan].snapshot < |t.snapshots|
    requires IsWellShaped(t, t.plans[request.plan].snapshot, request)
    ensures StageIdentity(Prepared(t, now, request, status), t.plans[request.plan].snapshot, request).Ok?
    ensures IsShared(Prepared(t, now, request, status), t.plans[request.plan].snapshot, request) <==>
            IsReferencedElsewhere(t, request)
  {
    var snapshot := t.plans[request.plan].snapshot;
    IdentityIsObject(t, snapshot, request);
    match request.kind
    case Local =>
      if IsReferencedElsewhere(t, request) {
        var b :| 0 <= b < |t.artifacts| && t.artifacts[b].digest == t.artifacts[request.artifact.value].digest
                 && IsLiveElsewhere(t, b, snapshot);
        assert b != request.artifact.value;
      }
    case MirrorLocal =>
    case Replica =>
      if IsReferencedElsewhere(t, request) {
        var q :| 0 <= q < |t.placements| && t.placements[q].replica == request.replica.value
                 && t.placements[q].objectKey == t.placements[request.placement.value].objectKey
                 && t.placements[q].artifact < |t.artifacts| && IsLiveElsewhere(t, t.placements[q].artifact, snapshot);
        assert q != request.placement.value;
      }
  }

  lemma LeaseIsFreeIff(t: Tables, now: nat, request: StageRequest, status: PlanStatus, identity: Identity)
    requires request.plan < |t.plans|
    ensures TakeLease(Prepared(t, now, request, status), now, request, identity).Ok? <==> !IsHeld(t, now, request, identity)
  {
    var prepared := Prepared(t, now, request, status);
    var claims := ExpireClaims(t.claims, identity, now);
    assert forall c | 0 <= c < |claims| :: claims[c] == ExpireClaim(t.claims[c], identity, now);
    assert forall i | 0 <= i < |t.attempts| :: prepared.attempts[i] == ExpireAttempt(t.attempts[i], request, now);
    if exists c | 0 <= c < |t.claims| ::
         t.claims[c].identity == identity && t.claims[c].outcome == Held && now < t.claims[c].expiresAt {
      var c :| 0 <= c < |t.claims| && t.claims[c].identity == identity && t.claims[c].outcome == Held && now < t.claims[c].expiresAt;
      assert claims[c].identity == identity && claims[c].outcome == Held;
    }
    if exists i | 0 <= i < |t.attempts| ::
         t.attempts[i].plan == request.plan && t.attempts[i].kind == request.kind
         && t.attempts[i].stageKey == request.stageKey && t.attempts[i].outcome == Running && now < t.attempts[i].expiresAt {
      var i :| 0 <= i < |t.attempts| && t.attempts[i].plan == request.plan && t.attempts[i].kind == request.kind
               && t.attempts[i].stageKey == request.stageKey && t.attempts[i].outcome == Running && now < t.attempts[i].expiresAt;
      assert IsSameStage(prepared.attempts[i], request);
    }
  }

  /**
   * The reply of a claim, over the rows. Before its deadline it is put off, and so is an automatic plan
   * of a pinned snapshot. An admitted claim is suppressed exactly when another live snapshot references
   * the object, refused exactly when an unexpired lease or attempt holds it, and leased otherwise; no
   * other claim gets an attempt.
   */
  lemma ClaimRepliesIff(t: Tables, now: nat, request: StageRequest)
    ensures IsAdmitted(t, now, request) ==>
              var plan := t.plans[request.plan]; var reply := ClaimStage(t, now, request);
              IsWellShaped(t, plan.snapshot, request)
              && if IsReferencedElsewhere(t, request)
                 then reply.Ok? && reply.value.reply == SharedReferenceRetained(|t.attempts|)
                 else exists identity: Identity ::
                        && IsObjectOf(t, plan.snapshot, request, identity)
                        && if IsHeld(t, now, request, identity) then reply == Err(StorageFailed)
                           else reply.Ok? && reply.value.reply == Claimed(|t.attempts|, |t.claims|)
    ensures !IsAdmitted(t, now, request) ==>
              var reply := ClaimStage(t, now, request);
              reply.Ok? ==> reply.value.tables == t && (reply.value.reply == GraceActive || reply.value.reply == ProtectedPinned)
  {
    if request.plan < |t.plans| && t.plans[request.plan].snapshot < |t.snapshots| {
      var plan := t.plans[request.plan];
      IdentityIsObject(t, plan.snapshot, request);
      GuardIsOrder(t, now, request);
      assert IsPinned(t.pins, plan.snapshot) <==> IsPinnedNow(t, plan.snapshot);
      if IsAdmitted(t, now, request) {
        var status := AdvanceForStage(plan.status, request.kind).value;
        var identity := StageIdentity(t, plan.snapshot, request).value;
        SharedIsReferenced(t, now, request, status);
        LeaseIsFreeIff(t, now, request, status, identity);
        assert IsObjectOf(t, plan.snapshot, request, identity);
      }
    }
  }

  /** Why a claim is put off: the deadline first, then an automatic plan's pin. */
  lemma ClaimIsPutOffIff(t: Tables, now: nat, request: StageRequest)
    requires 1 <= request.leaseSeconds <= 86_400 && 1 <= |request.stageKey| <= 255
    requires request.plan < |t.plans| && t.plans[request.plan].snapshot < |t.snapshots|
    ensures ClaimStage(t, now, request) == Ok(ClaimResult(t, GraceActive)) <==> now < t.plans[request.plan].notBefore
    ensures ClaimStage(t, now, request) == Ok(ClaimResult(t, ProtectedPinned)) <==>
            && t.plans[request.plan].notBefore <= now && t.plans[request.plan].automatic
            && IsPinnedNow(t, t.plans[request.plan].snapshot)
  {
    assert IsPinned(t.pins, t.plans[request.plan].snapshot) <==> IsPinnedNow(t, t.plans[request.plan].snapshot);
  }

  /** What a granted lease writes: one running attempt and one held claim on the object, both until the lease ends. */
  lemma LeaseWrites(t: Tables, now: nat, request: StageRequest)
    requires ClaimStage(t, now, request).Ok? && ClaimStage(t, now, request).value.reply.Claimed?
    ensures var u := ClaimStage(t, now, request).value.tables; var plan := t.plans[request.plan];
            && request.plan < |t.plans| && plan.snapshot < |t.snapshots| && IsWellShaped(t, plan.snapshot, request)
            && |u.attempts| == |t.attempts| + 1 && |u.claims| == |t.claims| + 1
            && u.attempts[|t.attempts|] == Attempt(request.plan, request.kind, request.stageKey, request.artifact,
                                                   request.placement, Some(|t.claims|), Running, now,
                                                   now + request.leaseSeconds, None)
            && u.claims[|t.claims|].plan == request.plan && u.claims[|t.claims|].outcome == Held
            && u.claims[|t.claims|].expiresAt == now + request.leaseSeconds
            && IsObjectOf(t, plan.snapshot, request, u.claims[|t.claims|].identity)
            && u.plans == t.plans[request.plan := plan.(status := if request.kind == Replica then ReplicaDeleting else LocalDeleting)]
  {
    IdentityIsObject(t, t.plans[request.plan].snapshot, request);
  }

  /** What a suppressed stage writes: one closed attempt, and no claim. */
  lemma SuppressionWrites(t: Tables, now: nat, request: StageRequest)
    requires ClaimStage(t, now, request).Ok? && ClaimStage(t, now, request).value.reply.SharedReferenceRetained?
    ensures var u := ClaimStage(t, now, request).value.tables;
            && u.claims == t.claims && |u.attempts| == |t.attempts| + 1
            && u.attempts[|t.attempts|] == Attempt(request.plan, request.kind, request.stageKey, request.artifact,
                                                   request.placement, None, SharedRetained, now, now, Some(now))
  {
  }

  /**
   * A newly leased replica key finds no other placement with that replica and key whose artifact belongs
   * to a live snapshot other than the plan's.
   */
  lemma FreshReplicaClaim(t: Tables, now: nat, request: StageRequest, q: nat)
    requires ClaimStage(t, now, request).Ok? && ClaimStage(t, now, request).value.reply.Claimed?
    requires request.kind == Replica && q < |t.placements| && t.placements[q].artifact < |t.artifacts|
    ensures var u := ClaimStage(t, now, request).value.tables;
            && |t.claims| < |u.claims| && request.plan < |t.plans|
            && (u.claims[|t.claims|].identity == ReplicaKey(t.placements[q].replica, t.placements[q].objectKey) ==>
                  !IsLiveElsewhere(t, t.placements[q].artifact, t.plans[request.plan].snapshot))
  {
    LeaseWrites(t, now, request);
    ClaimRepliesIff(t, now, request);
    assert IsAdmitted(t, now, request);
  }

  /** Every attempt of every run was admitted, over the rows of the state it was inserted in. */
  lemma AttemptsStartAdmitted(actions: seq<Action>, k: nat, j: nat)
    requires StartedAt(actions, k, j)
    ensures var before := Run(EMPTY, actions[..k]);
            actions[k].ClaimIt? && IsAdmitted(before.tables, before.now, actions[k].stage)
  {
    var before := Run(EMPTY, actions[..k]);
    assert actions[..k + 1][..k] == actions[..k];
    AttemptsStartUnprotected(actions, k, j);
    ClaimRepliesIff(before.tables, before.now, actions[k].stage);
  }

  // ----- leases -----

  /** An unexpired lease ends only when the owner of its attempt reports: no other transaction closes it. */
  lemma LeaseEndsByOwner(t: Tables, now: nat, action: Action, c: nat)
    requires c < |t.claims| && t.claims[c].outcome == Held && now < t.claims[c].expiresAt
    ensures c < |Transact(t, now, action).claims|
    ensures Transact(t, now, action).claims[c] != t.claims[c] ==>
              && (action.Succeed? || action.Fail?) && action.claim == c
              && action.attempt < |t.attempts| && t.attempts[action.attempt].claim == Some(c)
              && t.attempts[action.attempt].outcome == Running
  {
    ExtendsStep(t, now, action);
  }

  /** Likewise an unexpired running attempt. */
  lemma AttemptEndsByOwner(t: Tables, now: nat, action: Action, i: nat)
    requires i < |t.attempts| && t.attempts[i].outcome == Running && now < t.attempts[i].expiresAt
    ensures i < |Transact(t, now, action).attempts|
    ensures Transact(t, now, action).attempts[i] != t.attempts[i] ==>
              && (action.Succeed? || action.Fail?) && action.attempt == i && t.attempts[i].claim == Some(action.claim)
  {
    ExtendsStep(t, now, action);
  }

  /** A report closes its attempt as what it reports, at this instant, and its claim with it. */
  lemma ReportCloses(t: Tables, now: nat, attempt: nat, claim: nat)
    requires attempt < |t.attempts| && t.attempts[attempt].claim == Some(claim) && t.attempts[attempt].outcome == Running
    requires claim < |t.claims| && t.claims[claim].outcome == Held
    ensures StageSucceeded(t, now, attempt, claim).Ok? && StageFailed(t, now, attempt, claim).Ok?
    ensures var u := StageSucceeded(t, now, attempt, claim).value;
            && u.attempts[attempt] == t.attempts[attempt].(outcome := Succeeded, finishedAt := Some(now))
            && u.claims[claim] == t.claims[claim].(outcome := Released)
    ensures var u := StageFailed(t, now, attempt, claim).value;
            && u.attempts[attempt] == t.attempts[attempt].(outcome := Failed, finishedAt := Some(now))
            && u.claims[claim] == t.claims[claim].(outcome := Abandoned)
  {
  }

  // ----- advance and completion -----

  /** A plan advances exactly when it deletes locally and each of its artifacts was seen through. */
  lemma AdvancesIff(t: Tables, plan: nat)
    ensures AdvanceToReplicas(t, plan).Ok? <==>
            && plan < |t.plans| && t.plans[plan].status == LocalDeleting
            && forall a | 0 <= a < |t.artifacts| && t.artifacts[a].snapshot == t.plans[plan].snapshot :: SawThrough(t.attempts, plan, a)
    ensures AdvanceToReplicas(t, plan).Ok? ==>
              AdvanceToReplicas(t, plan).value == t.(plans := t.plans[plan := t.plans[plan].(status := ReplicaDeleting)])
  {
    forall a: nat
      ensures HasEvidence(t.attempts, plan, a) <==> SawThrough(t.attempts, plan, a)
    {
      EvidenceIsSeen(t.attempts, plan, a);
    }
  }

  /** Every artifact, every copy and, for a tombstoned target, the mirror was seen through. */
  ghost predicate IsFinished(t: Tables, plan: nat)
    requires plan < |t.plans|
  {
    var row := t.plans[plan];
    && (forall a | 0 <= a < |t.artifacts| && t.artifacts[a].snapshot == row.snapshot :: SawThrough(t.attempts, plan, a))
    && (forall p | 0 <= p < |t.placements| && t.placements[p].artifact < |t.artifacts|
                   && t.artifacts[t.placements[p].artifact].snapshot == row.snapshot :: SawCopyThrough(t.attempts, plan, p))
    && (row.tombstone.Some? ==> SawMirrorThrough(t.attempts, plan))
  }

  /** The plan is the last of its tombstone still to complete. */
  ghost predicate IsLastOf(t: Tables, plan: nat, tombstone: nat) {
    forall p | 0 <= p < |t.plans| && p != plan && t.plans[p].tombstone == Some(tombstone) :: t.plans[p].status == Completed
  }

  /**
   * A plan completes exactly when it is in its replica stages, everything was seen through, and the
   * tombstone it would close is still open. Plan and snapshot close, and the tombstone with its last plan.
   */
  lemma CompletesIff(t: Tables, plan: nat)
    ensures CompletePlan(t, plan).Ok? <==>
            && plan < |t.plans| && t.plans[plan].status == ReplicaDeleting && t.plans[plan].snapshot < |t.snapshots|
            && IsFinished(t, plan)
            && (t.plans[plan].tombstone.Some? && IsLastOf(t, plan, t.plans[plan].tombstone.value) ==>
                  && t.plans[plan].tombstone.value < |t.tombstones|
                  && t.tombstones[t.plans[plan].tombstone.value].state == Open)
    ensures CompletePlan(t, plan).Ok? ==>
              var row := t.plans[plan]; var u := CompletePlan(t, plan).value;
              && u.plans == t.plans[plan := row.(status := Completed)]
              && u.snapshots == t.snapshots[row.snapshot := t.snapshots[row.snapshot].(deleted := true)]
              && u.(plans := t.plans, snapshots := t.snapshots, tombstones := t.tombstones) == t
              && if row.tombstone.Some? && IsLastOf(t, plan, row.tombstone.value)
                 then u.tombstones == t.tombstones[row.tombstone.value := t.tombstones[row.tombstone.value].(state := Closed)]
                 else u.tombstones == t.tombstones
  {
    if plan < |t.plans| {
      FinishedIsAdmitted(t, plan);
      var row := t.plans[plan];
      if row.tombstone.Some? && row.snapshot < |t.snapshots| {
        LastIsReady(t, plan, row.tombstone.value);
      }
    }
  }

  lemma FinishedIsAdmitted(t: Tables, plan: nat)
    requires plan < |t.plans|
    ensures CompletionGuardAdmits(t, plan) <==> IsFinished(t, plan)
  {
    forall a: nat
      ensures HasEvidence(t.attempts, plan, a) <==> SawThrough(t.attempts, plan, a)
    {
      EvidenceIsSeen(t.attempts, plan, a);
    }
    MirrorIsSeen(t.attempts, plan);
    forall p: nat
      ensures SawCopyThrough(t.attempts, plan, p) <==>
              exists i | 0 <= i < |t.attempts| ::
                t.attempts[i].plan == plan && t.attempts[i].kind == Replica && t.attempts[i].placement == Some(p)
                && IsTerminalEvidence(t.attempts[i].outcome)
    {
    }
  }

  lemma LastIsReady(t: Tables, plan: nat, tombstone: nat)
    requires plan < |t.plans| && t.plans[plan].tombstone == Some(tombstone) && t.plans[plan].snapshot < |t.snapshots|
    ensures var done := WithPlanStatus(t, plan, Completed);
            IsLastOf(t, plan, tombstone) <==>
              !exists p | 0 <= p < |done.plans| :: done.plans[p].tombstone == Some(tombstone) && done.plans[p].status != Completed
  {
    var done := WithPlanStatus(t, plan, Completed);
    if IsLastOf(t, plan, tombstone) {
      forall p | 0 <= p < |done.plans| && done.plans[p].tombstone == Some(tombstone)
        ensures done.plans[p].status == Completed
      {
        if p != plan {
          assert done.plans[p] == t.plans[p];
        }
      }
    } else {
      var p :| 0 <= p < |t.plans| && p != plan && t.plans[p].tombstone == Some(tombstone) && t.plans[p].status != Completed;
      assert done.plans[p] == t.plans[p];
    }
  }

  // ----- pins, plans, snapshots and placements -----

  /** Pinning names a known snapshot, revoking an active pin; anything else is refused. */
  lemma PinningIsRefusedIff(t: Tables, now: nat, snapshot: nat, authority: nat, pin: nat)
    ensures PinSnapshot(t, now, snapshot, authority) == Err(InvalidDelivery("snapshot_id")) <==> snapshot >= |t.snapshots|
    ensures RevokePin(t, now, pin) == Err(InvalidDelivery("pin_id")) <==> pin >= |t.pins| || t.pins[pin].revokedAt.Some?
  {
  }

  /** Pinning protects the snapshot and no other; a second pin of the same authority changes nothing. */
  lemma PinProtects(t: Tables, now: nat, snapshot: nat, authority: nat, other: nat)
    requires snapshot < |t.snapshots|
    ensures PinSnapshot(t, now, snapshot, authority).Ok?
    ensures var u := PinSnapshot(t, now, snapshot, authority).value;
            && IsPinnedNow(u, snapshot)
            && (other != snapshot ==> (IsPinnedNow(u, other) <==> IsPinnedNow(t, other)))
            && u.pins == if exists k | 0 <= k < |t.pins| ::
                              t.pins[k].snapshot == snapshot && t.pins[k].authority == authority && t.pins[k].revokedAt.None?
                         then t.pins else t.pins + [Pin(snapshot, authority, now, None)]
  {
    var u := PinSnapshot(t, now, snapshot, authority).value;
    if u.pins != t.pins {
      assert u.pins[|t.pins|] == Pin(snapshot, authority, now, None);
    }
    if IsPinnedNow(t, other) {
      var k :| 0 <= k < |t.pins| && t.pins[k].snapshot == other && t.pins[k].revokedAt.None?;
      assert u.pins[k] == t.pins[k];
    }
  }

  /** Revoking a pin leaves a snapshot protected exactly when another pin of it is active. */
  lemma RevokeReleases(t: Tables, now: nat, pin: nat, snapshot: nat)
    requires pin < |t.pins| && t.pins[pin].revokedAt.None?
    ensures RevokePin(t, now, pin).Ok?
    ensures RevokePin(t, now, pin).value.pins[pin] == t.pins[pin].(revokedAt := Some(now))
    ensures IsPinnedNow(RevokePin(t, now, pin).value, snapshot) <==>
            exists k | 0 <= k < |t.pins| :: k != pin && t.pins[k].snapshot == snapshot && t.pins[k].revokedAt.None?
  {
    var u := RevokePin(t, now, pin).value;
    assert forall k | 0 <= k < |t.pins| && k != pin :: u.pins[k] == t.pins[k];
  }

  ghost predicate HasActivePlan(t: Tables, snapshot: nat) {
    exists p | 0 <= p < |t.plans| ::
      t.plans[p].snapshot == snapshot && t.plans[p].status in {Planned, LocalDeleting, ReplicaDeleting}
  }

  /**
   * A plan is refused for a deadline that does not lie after its tombstone, a foreign snapshot or a second
   * active plan; an automatic plan of a pinned snapshot is silently not made; otherwise it waits, planned.
   */
  lemma PlanIsMadeIff(t: Tables, request: PlanRequest)
    ensures var made := CreatePlan(t, request);
            var wellFormed := && request.tombstonedAt < request.notBefore <= I64_MAX && request.snapshot < |t.snapshots|
                              && t.snapshots[request.snapshot].target == request.target;
            if !wellFormed then made.Err?
            else if request.automatic && IsPinnedNow(t, request.snapshot) then made == Ok(t)
            else if (request.tombstone.Some? && request.tombstone.value >= |t.tombstones|) || HasActivePlan(t, request.snapshot)
            then made == Err(StorageFailed)
            else made == Ok(t.(plans := t.plans + [DeletionPlan(request.target, request.snapshot, request.tombstone,
                                                                request.automatic, request.notBefore, Planned)]))
  {
    assert IsPinned(t.pins, request.snapshot) <==> IsPinnedNow(t, request.snapshot);
    assert HasActivePlan(t, request.snapshot) <==>
           exists p | 0 <= p < |t.plans| :: t.plans[p].snapshot == request.snapshot && IsActivePlan(t.plans[p]);
  }

  /** A snapshot is recorded exactly when its source is healthy, its parent fits and no lease on its digests is live. */
  lemma SnapshotIsRecordedIff(t: Tables, now: nat, source: SnapshotSource, digests: seq<nat>)
    ensures RecordSnapshot(t, now, source, digests).Ok? <==>
            && source.healthy
            && (source.parent.Some? ==>
                  && source.parent.value < |t.snapshots| && t.snapshots[source.parent.value].target == source.target
                  && t.snapshots[source.parent.value].mirror == source.mirror)
            && (forall d, c | d in digests && 0 <= c < |t.claims| && t.claims[c].identity == LocalDigest(d) ::
                  t.claims[c].outcome != Held || t.claims[c].expiresAt <= now)
    ensures RecordSnapshot(t, now, source, digests).Ok? ==>
              var u := RecordSnapshot(t, now, source, digests).value;
              && u.snapshots == t.snapshots + [Snapshot(source.target, source.mirror, false)]
              && |u.artifacts| == |t.artifacts| + |digests|
              && (forall i | 0 <= i < |t.artifacts| :: u.artifacts[i] == t.artifacts[i])
              && (forall i | 0 <= i < |digests| :: u.artifacts[|t.artifacts| + i] == Artifact(|t.snapshots|, digests[i]))
              && u.(snapshots := t.snapshots, artifacts := t.artifacts) == t
  {
    if exists i | 0 <= i < |digests| :: IsLiveDigest(t.claims, digests[i], now) {
      var i :| 0 <= i < |digests| && IsLiveDigest(t.claims, digests[i], now);
      var c :| 0 <= c < |t.claims| && t.claims[c].identity == LocalDigest(digests[i]) && IsLive(t.claims[c], now);
      assert digests[i] in digests;
    }
    if d, c :| d in digests && 0 <= c < |t.claims| && t.claims[c].identity == LocalDigest(d)
               && t.claims[c].outcome == Held && now < t.claims[c].expiresAt {
      var i :| 0 <= i < |digests| && digests[i] == d;
      assert IsLiveDigest(t.claims, digests[i], now);
    }
  }

  /** A placement needs a known artifact, and there is one per artifact and replica. */
  lemma PlacementIsAddedIff(t: Tables, artifact: nat, replica: nat, objectKey: nat)
    ensures AddPlacement(t, artifact, replica, objectKey) ==
            if artifact < |t.artifacts|
               && forall p | 0 <= p < |t.placements| :: t.placements[p].artifact != artifact || t.placements[p].replica != replica
            then Ok(t.(placements := t.placements + [Placement(artifact, replica, objectKey)])) else Err(StorageFailed)
  {
  }

  /** At most one active plan per snapshot, in every reachable state. */
  ghost predicate OneActivePlan(t: Tables) {
    forall p, q | 0 <= p < q < |t.plans| && t.plans[p].snapshot == t.plans[q].snapshot ::
      !(IsActivePlan(t.plans[p]) && IsActivePlan(t.plans[q]))
  }

  lemma OneActivePlanStep(t: Tables, now: nat, action: Action)
    requires OneActivePlan(t)
    ensures OneActivePlan(Transact(t, now, action))
  {
    var u := Transact(t, now, action);
    ExtendsStep(t, now, action);
    NewPlanIsAlone(t, now, action);
    forall p, q | 0 <= p < q < |u.plans| && u.plans[p].snapshot == u.plans[q].snapshot
      ensures !(IsActivePlan(u.plans[p]) && IsActivePlan(u.plans[q]))
    {
      assert p < |t.plans|;
      PlanMoves(t, now, action, p);
      assert u.plans[p].(status := t.plans[p].status) == t.plans[p];
      if q < |t.plans| {
        PlanMoves(t, now, action, q);
        assert u.plans[q].(status := t.plans[q].status) == t.plans[q];
      }
    }
  }

  lemma NewPlanIsAlone(t: Tables, now: nat, action: Action)
    ensures |Transact(t, now, action).plans| <= |t.plans| + 1
    ensures |Transact(t, now, action).plans| > |t.plans| ==>
              forall p | 0 <= p < |t.plans| && t.plans[p].snapshot == Transact(t, now, action).plans[|t.plans|].snapshot ::
                !IsActivePlan(t.plans[p])
  {
  }

  lemma {:induction false} OneActivePlanAlways(actions: seq<Action>)
    ensures OneActivePlan(Run(EMPTY, actions).tables)
    decreases |actions|
  {
    if actions != [] {
      var front := actions[..|actions| - 1];
      OneActivePlanAlways(front);
      OneActivePlanStep(Run(EMPTY, front).tables, Run(EMPTY, front).now, actions[|actions| - 1]);
    }
  }
}
