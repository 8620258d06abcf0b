/**
 * The deletion tables as a database handle beside a local store. Whatever its methods are called
 * with, and whatever other actors do in between, its history is one run of the protocol.
 */
module DeletionDatabase {
  import opened Common
  import opened Sorting
  import opened DeletionTables
  import opened DeletionProtocol

  /** One stored copy of an artifact, as a plan's execution reads it. */
  datatype ExecutionReplica = ExecutionReplica(placement: nat, replica: nat)

  datatype ExecutionArtifact = ExecutionArtifact(artifact: nat, replicas: seq<ExecutionReplica>)

  datatype ExecutionPlan = ExecutionPlan(
    target: TargetKey, tombstoned: bool, status: PlanStatus, artifacts: seq<ExecutionArtifact>)

  /** The plan as it is stored, with exactly its snapshot's artifacts and exactly their placements. */
  ghost predicate IsReadOf(t: Tables, plan: nat, read: ExecutionPlan) {
    && plan < |t.plans| && read.target == t.plans[plan].target && read.status == t.plans[plan].status
    && read.tombstoned == t.plans[plan].tombstone.Some?
    && (forall a :: (exists i | 0 <= i < |read.artifacts| :: read.artifacts[i].artifact == a) <==>
          0 <= a < |t.artifacts| && t.artifacts[a].snapshot == t.plans[plan].snapshot)
    && (forall i | 0 <= i < |read.artifacts| :: HoldsCopiesOf(t.placements, read.artifacts[i]))
  }

  /** Exactly the placements of the artifact. */
  ghost predicate HoldsCopiesOf(placements: seq<Placement>, artifact: ExecutionArtifact) {
    forall x :: x in artifact.replicas <==>
      && x.placement < |placements| && placements[x.placement].replica == x.replica
      && placements[x.placement].artifact == artifact.artifact
  }

  predicate ByReplica(a: ExecutionReplica, b: ExecutionReplica) {
    a.replica < b.replica || (a.replica == b.replica && a.placement <= b.placement)
  }

  /** No running claim holds the object. */
  ghost predicate IsFree(claims: seq<Claim>, identity: Identity) {
    forall c | 0 <= c < |claims| && claims[c].identity == identity :: claims[c].outcome != Held
  }

  /** No attempt of this stage is running, so that it can be claimed again. */
  ghost predicate IsIdle(attempts: seq<Attempt>, unit: Attempt) {
    forall i | 0 <= i < |attempts| && IsSameUnit(attempts[i], unit) :: attempts[i].outcome != Running
  }

  lemma AlwaysSafe(trace: seq<Action>)
    ensures StorageInv(Run(EMPTY, trace)) && OrderInv(Run(EMPTY, trace))
  {
    StorageAlways(trace);
    OrderOnward(EMPTY, trace);
  }

  /** A live claim holds one of the digests. */
  predicate AnyLive(claims: seq<Claim>, digests: seq<nat>, now: nat) {
    digests != []
    && (AnyLive(claims, digests[..|digests| - 1], now) || IsLiveDigest(claims, digests[|digests| - 1], now))
  }

  lemma {:induction false} AnyLiveIff(claims: seq<Claim>, digests: seq<nat>, now: nat)
    ensures AnyLive(claims, digests, now) <==> exists i | 0 <= i < |digests| :: IsLiveDigest(claims, digests[i], now)
  {
    if digests != [] {
      var last := |digests| - 1;
      AnyLiveIff(claims, digests[..last], now);
      forall i | 0 <= i < last
        ensures digests[..last][i] == digests[i]
      {
      }
      if i :| 0 <= i < |digests| && IsLiveDigest(claims, digests[i], now) {
        assert i < last ==> IsLiveDigest(claims, digests[..last][i], now);
      }
    }
  }

  lemma AnyLiveOfNext(claims: seq<Claim>, digests: seq<nat>, now: nat, i: nat)
    requires i < |digests|
    ensures AnyLive(claims, digests[..i + 1], now) <==>
            AnyLive(claims, digests[..i], now) || IsLiveDigest(claims, digests[i], now)
  {
    assert digests[..i + 1][..i] == digests[..i];
  }

  lemma {:induction false} AnyLiveOfPrefix(claims: seq<Claim>, digests: seq<nat>, now: nat, i: nat)
    requires i <= |digests| && AnyLive(claims, digests[..i], now)
    ensures AnyLive(claims, digests, now)
    decreases |digests| - i
  {
    if i == |digests| {
      assert digests[..i] == digests;
    } else {
      AnyLiveOfNext(claims, digests, now, i);
      AnyLiveOfPrefix(claims, digests, now, i + 1);
    }
  }

  lemma NextArtifactRow(snapshot: nat, digests: seq<nat>, i: nat)
    requires i < |digests|
    ensures ArtifactRows(snapshot, digests[..i + 1])
            == ArtifactRows(snapshot, digests[..i]) + [Artifact(snapshot, digests[i])]
  {
    assert digests[..i + 1][..i] == digests[..i];
  }

  /** Closing the one running claim of an object frees the object. */
  lemma ClosingFrees(t: Tables, claim: nat, outcome: ClaimOutcome)
    requires ClaimsExclusive(t) && claim < |t.claims| && t.claims[claim].outcome == Held && outcome != Held
    ensures IsFree(CloseClaim(t.claims, claim, outcome), t.claims[claim].identity)
  {
    var closed := CloseClaim(t.claims, claim, outcome);
    forall c | 0 <= c < |closed| && closed[c].identity == t.claims[claim].identity
      ensures closed[c].outcome != Held
    {
      if c != claim {
        assert t.claims[if c < claim then c else claim].identity == t.claims[if c < claim then claim else c].identity;
      }
    }
  }

  /** Closing the one running attempt of a stage leaves the stage idle. */
  lemma ClosingIdles(attempts: seq<Attempt>, attempt: nat, closed: Attempt)
    requires OneRunning(attempts) && attempt < |attempts| && attempts[attempt].outcome == Running
    requires IsSameUnit(closed, attempts[attempt]) && closed.outcome != Running
    ensures IsIdle(attempts[attempt := closed], attempts[attempt])
  {
    var after := attempts[attempt := closed];
    forall i | 0 <= i < |after| && IsSameUnit(after[i], attempts[attempt])
      ensures after[i].outcome != Running
    {
      assert i < attempt ==> IsSameUnit(attempts[i], attempts[attempt]);
      assert i > attempt ==> IsSameUnit(attempts[attempt], attempts[i]);
    }
  }

  /** Cancelling the one open tombstone of a target leaves none open. */
  lemma CancellingCloses(tombstones: seq<Tombstone>, i: nat, target: TargetKey)
    requires OneOpen(tombstones) && i < |tombstones| && IsOpenFor(tombstones[i], target)
    ensures var after := tombstones[i := tombstones[i].(state := Cancelled)];
            forall k | 0 <= k < |after| :: !IsOpenFor(after[k], target)
  {
    var after := tombstones[i := tombstones[i].(state := Cancelled)];
    forall k | 0 <= k < |after|
      ensures !IsOpenFor(after[k], target)
    {
      if k != i {
        assert tombstones[k] == after[k];
      }
    }
  }

  /** A failed stage leaves no evidence and takes none away. */
  lemma FailureIsNoEvidence(attempts: seq<Attempt>, attempt: nat, now: nat, plan: nat, artifact: nat)
    requires attempt < |attempts| && attempts[attempt].outcome == Running
    ensures HasEvidence(attempts[attempt := attempts[attempt].(outcome := Failed, finishedAt := Some(now))], plan, artifact)
            <==> HasEvidence(attempts, plan, artifact)
  {
    var after := attempts[attempt := attempts[attempt].(outcome := Failed, finishedAt := Some(now))];
    if HasEvidence(attempts, plan, artifact) {
      var i :| 0 <= i < |attempts| && IsEvidence(attempts[i], plan, artifact);
      assert IsEvidence(after[i], plan, artifact);
    }
    if HasEvidence(after, plan, artifact) {
      var i :| 0 <= i < |after| && IsEvidence(after[i], plan, artifact);
      assert IsEvidence(attempts[i], plan, artifact);
    }
  }

  class Database {
    var snapshots: seq<Snapshot>
    var artifacts: seq<Artifact>
    var placements: seq<Placement>
    var pins: seq<Pin>
    var tombstones: seq<Tombstone>
    var plans: seq<DeletionPlan>
    var claims: seq<Claim>
    var attempts: seq<Attempt>
    var now: nat
    /** The digests whose bytes the local store beside the database holds. */
    var blobs: set<nat>
    /** The mirrors and replica objects that exist. */
    var copies: set<Identity>
    /** Everything that happened, in order. */
    ghost var trace: seq<Action>

    function View(): Tables
      reads this
    {
      Tables(snapshots, artifacts, placements, pins, tombstones, plans, claims, attempts)
    }

    function Current(): World
      reads this
    {
      World(View(), now, blobs, copies)
    }

    ghost predicate Valid()
      reads this
    {
      Current() == Run(EMPTY, trace)
    }

    /** The protocol invariants of the current state. */
    ghost predicate IsSafe()
      reads this
    {
      StorageInv(Current()) && OrderInv(Current())
    }

    constructor ()
      ensures Valid() && trace == []
    {
      snapshots, artifacts, placements, pins := [], [], [], [];
      tombstones, plans, claims, attempts := [], [], [], [];
      now, blobs, copies, trace := 0, {}, {}, [];
    }

    /** Every state the handle can be in is safe. */
    lemma Safety()
      requires Valid()
      ensures IsSafe()
    {
      AlwaysSafe(trace);
    }

    /** At most one running claim per object, one running attempt per stage, one open tombstone per target. */
    lemma Exclusion()
      requires Valid()
      ensures ClaimsExclusive(View()) && OneRunning(attempts) && OneOpen(tombstones)
    {
      AlwaysSafe(trace);
    }

    /** Enters the coming action into the history. */
    ghost method Begin(action: Action)
      requires Valid()
      modifies this`trace
      ensures trace == old(trace) + [action] && Run(EMPTY, trace) == Step(Current(), action)
    {
      RunExtends(EMPTY, trace, action);
      trace := trace + [action];
    }

    /** Replaces every row at once, as another process's commit does. */
    method Install(next: World)
      modifies this`snapshots, this`artifacts, this`placements, this`pins, this`tombstones, this`plans, this`claims,
               this`attempts, this`now, this`blobs, this`copies
      ensures Current() == next
    {
      var t := next.tables;
      snapshots, artifacts, placements, pins := t.snapshots, t.artifacts, t.placements, t.pins;
      tombstones, plans, claims, attempts := t.tombstones, t.plans, t.claims, t.attempts;
      now, blobs, copies := next.now, next.blobs, next.copies;
    }

    /** One action of another actor. */
    method Other(action: Action)
      requires Valid()
      modifies this
      ensures Valid() && trace == old(trace) + [action]
    {
      var next := Step(Current(), action);
      ghost var history := trace + [action];
      RunExtends(EMPTY, trace, action);
      Install(next);
      trace := history;
    }

    /** What other actors do meanwhile: any protocol actions, in order. */
    method Others(turn: seq<Action>)
      requires Valid()
      modifies this
      ensures Valid() && trace == old(trace) + turn
    {
      for i := 0 to |turn|
        invariant Valid() && trace == old(trace) + turn[..i]
      {
        Other(turn[i]);
        assert turn[..i + 1] == turn[..i] + [turn[i]];
      }
      assert turn[..|turn|] == turn;
      AlwaysSafe(trace);
    }

    /** The conditional artifact insert: no row while a live claim holds the digest. */
    method InsertArtifact(snapshot: nat, digest: nat) returns (inserted: bool)
      modifies this`artifacts
      ensures inserted <==> !IsLiveDigest(claims, digest, now)
      ensures artifacts == if inserted then old(artifacts) + [Artifact(snapshot, digest)] else old(artifacts)
    {
      inserted := !IsLiveDigest(claims, digest, now);
      if inserted {
        artifacts := artifacts + [Artifact(snapshot, digest)];
      }
    }

    /** Inserts every artifact row, or none. */
    method InsertArtifacts(snapshot: nat, digests: seq<nat>) returns (inserted: bool)
      modifies this`artifacts
      ensures inserted <==> !AnyLive(claims, digests, now)
      ensures artifacts == if inserted then old(artifacts) + ArtifactRows(snapshot, digests) else old(artifacts)
    {
      var kept := artifacts;
      ghost var rows: seq<Artifact> := [];
      for i := 0 to |digests|
        invariant rows == ArtifactRows(snapshot, digests[..i]) && artifacts == kept + rows
        invariant !AnyLive(claims, digests[..i], now)
      {
        AnyLiveOfNext(claims, digests, now, i);
        inserted := InsertArtifact(snapshot, digests[i]);
        if !inserted {
          artifacts := kept;
          AnyLiveOfPrefix(claims, digests, now, i + 1);
          return;
        }
        NextArtifactRow(snapshot, digests, i);
        rows := rows + [Artifact(snapshot, digests[i])];
        assert artifacts == kept + rows;
      }
      assert digests[..|digests|] == digests;
      inserted := true;
    }

    /**
     * Appends a built snapshot with its bundle, manifest and LFS artifacts; any refusal rolls all of
     * it back. No live claim then holds one of its digests.
     */
    method RecordBuiltSnapshot(source: SnapshotSource, bundle: nat, manifest: nat, lfs: seq<nat>) returns (r: Result<nat>)
      requires Valid()
      modifies this
      ensures Valid() && trace == old(trace) + [RecordBuilt(source, [bundle, manifest] + lfs)]
      ensures match RecordSnapshot(old(View()), now, source, [bundle, manifest] + lfs)
              case Err(e) => r == Err(e) && View() == old(View())
              case Ok(next) => r == Ok(|old(snapshots)|) && View() == next
      ensures now == old(now) && blobs == old(blobs) && copies == old(copies)
      ensures r.Ok? ==> forall digest | digest in [bundle, manifest] + lfs :: !IsLiveDigest(claims, digest, now)
    {
      var digests := [bundle, manifest] + lfs;
      Begin(RecordBuilt(source, digests));
      r := RecordRows(source, digests);
      AnyLiveIff(claims, digests, now);
    }

    /** The guarded inserts: source, parent, snapshot and artifacts. */
    method RecordRows(source: SnapshotSource, digests: seq<nat>) returns (r: Result<nat>)
      modifies this`snapshots, this`artifacts
      ensures match RecordSnapshot(old(View()), now, source, digests)
              case Err(e) => r == Err(e) && View() == old(View())
              case Ok(next) => r == Ok(|old(snapshots)|) && View() == next
      ensures r.Ok? ==> !AnyLive(claims, digests, now)
    {
      if !source.healthy {
        return Err(InvalidDelivery("snapshot_source"));
      }
      if source.parent.Some? && !IsParent(View(), source, source.parent.value) {
        return Err(InvalidDelivery("parent_snapshot_id"));
      }
      var snapshot := |snapshots|;
      AnyLiveIff(claims, digests, now);
      var inserted := InsertArtifacts(snapshot, digests);
      if !inserted {
        return Err(StorageFailed);
      }
      snapshots := snapshots + [Snapshot(source.target, source.mirror, false)];
      r := Ok(snapshot);
    }

    /** Claims one stage: refuse, advance the plan, close expired rows, then suppress or lease. */
    method ClaimRows(request: StageRequest) returns (r: Result<ClaimReply>)
      modifies this`plans, this`attempts, this`claims
      ensures match ClaimStage(old(View()), now, request)
              case Err(e) => r == Err(e) && View() == old(View())
              case Ok(c) => r == Ok(c.reply) && View() == c.tables
    {
      if !ValidRequest(request) {
        return Err(InvalidDelivery("deletion_stage_claim"));
      }
      if request.plan >= |plans| || plans[request.plan].snapshot >= |snapshots| {
        return Err(InvalidDelivery("plan_id"));
      }
      var plan := plans[request.plan];
      if now < plan.notBefore {
        return Ok(GraceActive);
      }
      if plan.automatic && IsPinned(pins, plan.snapshot) {
        return Ok(ProtectedPinned);
      }
      var identity := StageIdentity(View(), plan.snapshot, request);
      if identity.Err? {
        return Err(identity.error);
      }
      var status := AdvanceForStage(plan.status, request.kind);
      if status.Err? {
        return Err(status.error);
      }
      var keptPlans, keptAttempts := plans, attempts;
      plans := plans[request.plan := plan.(status := status.value)];
      attempts := ExpireAttempts(attempts, request, now);
      if !StageGuardAdmits(View(), request) {
        plans, attempts := keptPlans, keptAttempts;
        return Err(StorageFailed);
      }
      if IsShared(View(), plan.snapshot, request) {
        var attempt := |attempts|;
        attempts := attempts + [NewAttempt(request, None, now)];
        return Ok(SharedReferenceRetained(attempt));
      }
      r := LeaseRows(request, identity.value);
      if r.Err? {
        plans, attempts := keptPlans, keptAttempts;
      }
    }

    /** Closes expired claims of the object and leases it, unless it or the stage is still held. */
    method LeaseRows(request: StageRequest, identity: Identity) returns (r: Result<ClaimReply>)
      modifies this`attempts, this`claims
      ensures match TakeLease(old(View()), now, request, identity)
              case Err(e) => r == Err(e) && View() == old(View())
              case Ok(c) => r == Ok(c.reply) && View() == c.tables
    {
      var expired := ExpireClaims(claims, identity, now);
      if (exists c | 0 <= c < |expired| :: expired[c].identity == identity && expired[c].outcome == Held)
         || exists i | 0 <= i < |attempts| :: IsSameStage(attempts[i], request) {
        return Err(StorageFailed);
      }
      var attempt, claim := |attempts|, |expired|;
      claims := expired + [Claim(request.plan, identity, now + request.leaseSeconds, Held)];
      attempts := attempts + [NewAttempt(request, Some(claim), now)];
      r := Ok(Claimed(attempt, claim));
    }

    /** One claim transaction; a lease it grants on a digest leaves no other live snapshot with that digest. */
    method ClaimDeletionStage(request: StageRequest) returns (r: Result<ClaimReply>)
      requires Valid()
      modifies this
      ensures Valid() && trace == old(trace) + [ClaimIt(request)]
      ensures Current() == Step(old(Current()), ClaimIt(request))
      ensures match ClaimStage(old(View()), now, request)
              case Err(e) => r == Err(e)
              case Ok(c) => r == Ok(c.reply)
    {
      Begin(ClaimIt(request));
      r := ClaimRows(request);
    }

    /** Tries to delete the object of a claim, while its lease is live; a failed try changes nothing. */
    method DeleteObject(claim: nat) returns (removed: bool)
      requires Valid()
      modifies this
      ensures Valid() && View() == old(View()) && now == old(now)
      ensures trace == if removed then old(trace) + [DeleteBytes(claim)] else old(trace)
      ensures removed && claim < |claims| && IsLive(claims[claim], now) ==> !IsStored(Current(), claims[claim].identity)
      ensures forall identity | IsStored(old(Current()), identity) && !IsStored(Current(), identity) ::
                removed && claim < |claims| && IsLive(claims[claim], now) && claims[claim].identity == identity
    {
      removed := *;
      if !removed {
        return;
      }
      Begin(DeleteBytes(claim));
      if claim < |claims| && IsLive(claims[claim], now) {
        match claims[claim].identity {
          case LocalDigest(digest) => blobs := blobs - {digest};
          case _ => copies := copies - {claims[claim].identity};
        }
      }
    }

    /**
     * Finalizes a claimed stage as verified success. Exactly the owner of the running attempt can; the
     * attempt is then terminal evidence, its stage idle, and the object it held free.
     */
    method RecordDeletionStageSuccess(attempt: nat, claim: nat) returns (error: Option<VaultError>)
      requires Valid()
      modifies this
      ensures Valid() && trace == old(trace) + [Succeed(attempt, claim)]
      ensures Current() == Step(old(Current()), Succeed(attempt, claim))
      ensures error.None? <==> OwnsStage(old(View()), attempt, claim)
      ensures error.None? ==>
                && attempt < |attempts| && IsSameUnit(attempts[attempt], old(attempts)[attempt])
                && IsTerminalEvidence(attempts[attempt].outcome) && IsIdle(attempts, attempts[attempt])
                && (claim < |old(claims)| && old(claims)[claim].outcome == Held ==>
                      IsFree(claims, old(claims)[claim].identity))
      ensures error.Some? ==> View() == old(View())
    {
      Exclusion();
      Begin(Succeed(attempt, claim));
      if !OwnsStage(View(), attempt, claim) {
        return Some(StorageFailed);
      }
      ghost var before := View();
      var closed := attempts[attempt].(outcome := Succeeded, finishedAt := Some(now));
      ClosingIdles(attempts, attempt, closed);
      attempts := attempts[attempt := closed];
      if claim < |claims| && claims[claim].outcome == Held {
        ClosingFrees(before, claim, Released);
        claims := claims[claim := claims[claim].(outcome := Released)];
      }
      error := None;
    }

    /**
     * Finalizes a claimed stage as a retryable failure. The stage is then idle and the object free, so
     * that both can be claimed again, and no evidence was made or lost.
     */
    method RecordDeletionStageFailure(attempt: nat, claim: nat) returns (error: Option<VaultError>)
      requires Valid()
      modifies this
      ensures Valid() && trace == old(trace) + [Fail(attempt, claim)]
      ensures Current() == Step(old(Current()), Fail(attempt, claim))
      ensures error.None? <==> OwnsStage(old(View()), attempt, claim)
      ensures error.None? ==>
                && attempt < |attempts| && IsSameUnit(attempts[attempt], old(attempts)[attempt])
                && IsIdle(attempts, attempts[attempt])
                && (claim < |old(claims)| && old(claims)[claim].outcome == Held ==>
                      IsFree(claims, old(claims)[claim].identity))
      ensures forall plan, artifact ::
                HasEvidence(attempts, plan, artifact) <==> HasEvidence(old(attempts), plan, artifact)
      ensures error.Some? ==> View() == old(View())
    {
      Exclusion();
      Begin(Fail(attempt, claim));
      if !OwnsStage(View(), attempt, claim) {
        return Some(StorageFailed);
      }
      ghost var before := View();
      var closed := attempts[attempt].(outcome := Failed, finishedAt := Some(now));
      ClosingIdles(attempts, attempt, closed);
      attempts := attempts[attempt := closed];
      forall plan, artifact
        ensures HasEvidence(attempts, plan, artifact) <==> HasEvidence(before.attempts, plan, artifact)
      {
        FailureIsNoEvidence(before.attempts, attempt, now, plan, artifact);
      }
      if claim < |claims| && claims[claim].outcome == Held {
        ClosingFrees(before, claim, Abandoned);
        claims := claims[claim := claims[claim].(outcome := Abandoned)];
      }
      error := None;
    }

    /**
     * Moves a plan to its replica stages, exactly when it deletes locally and every artifact has
     * terminal evidence. From then on the order admits replica stages and refuses local ones.
     */
    method AdvanceDeletionPlanToReplicas(plan: nat) returns (error: Option<VaultError>)
      requires Valid()
      modifies this
      ensures Valid() && trace == old(trace) + [Advance(plan)]
      ensures Current() == Step(old(Current()), Advance(plan))
      ensures error.None? <==> AdvanceToReplicas(old(View()), plan).Ok?
      ensures error.None? <==>
                && plan < |old(plans)| && old(plans)[plan].status == LocalDeleting
                && forall a | 0 <= a < |artifacts| && artifacts[a].snapshot == old(plans)[plan].snapshot ::
                     HasEvidence(attempts, plan, a)
      ensures error.None? ==>
                && plan < |plans| && AdvanceForStage(plans[plan].status, Replica).Ok?
                && AdvanceForStage(plans[plan].status, Local).Err? && AdvanceForStage(plans[plan].status, MirrorLocal).Err?
      ensures error.Some? ==> View() == old(View())
    {
      Begin(Advance(plan));
      if plan < |plans| && plans[plan].status == LocalDeleting && LocallyDone(View(), plan, plans[plan].snapshot) {
        plans := plans[plan := plans[plan].(status := ReplicaDeleting)];
        return None;
      }
      error := Some(StorageFailed);
    }

    /** Completes the plan, its snapshot and, with its last plan, the tombstone; or refuses and changes nothing. */
    method CompleteRows(plan: nat) returns (error: Option<VaultError>)
      modifies this`plans, this`snapshots, this`tombstones
      ensures match CompletePlan(old(View()), plan)
              case Err(e) => error == Some(e) && View() == old(View())
              case Ok(next) => error == None && View() == next
    {
      if plan >= |plans| {
        return Some(InvalidDelivery("plan_id"));
      }
      if plans[plan].status != ReplicaDeleting || plans[plan].snapshot >= |snapshots|
         || !CompletionGuardAdmits(View(), plan) {
        return Some(StorageFailed);
      }
      var keptPlans, keptSnapshots := plans, snapshots;
      var snapshot, tombstone := plans[plan].snapshot, plans[plan].tombstone;
      plans := plans[plan := plans[plan].(status := Completed)];
      snapshots := snapshots[snapshot := snapshots[snapshot].(deleted := true)];
      if tombstone.Some?
         && !exists p | 0 <= p < |plans| :: plans[p].tombstone == tombstone && plans[p].status != Completed {
        if tombstone.value >= |tombstones| || tombstones[tombstone.value].state != Open {
          plans, snapshots := keptPlans, keptSnapshots;
          return Some(StorageFailed);
        }
        tombstones := tombstones[tombstone.value := tombstones[tombstone.value].(state := Closed)];
      }
      error := None;
    }

    /** One completion transaction: afterwards the snapshot is deleted by a plan that was seen through. */
    method CompleteDeletionPlan(plan: nat) returns (error: Option<VaultError>)
      requires Valid()
      modifies this
      ensures Valid() && trace == old(trace) + [Complete(plan)]
      ensures Current() == Step(old(Current()), Complete(plan))
      ensures error.None? <==> CompletePlan(old(View()), plan).Ok?
      ensures error.None? ==>
                && plan < |plans| && plans[plan].snapshot < |snapshots|
                && snapshots[plans[plan].snapshot].deleted && SeenThrough(View(), plan, plans[plan].snapshot)
                && ReplicasDone(View(), plan, plans[plan].snapshot)
      ensures error.Some? ==> View() == old(View())
    {
      Begin(Complete(plan));
      ghost var before := View();
      error := CompleteRows(plan);
      if error.None? {
        assert ReplicasDone(before, plan, before.plans[plan].snapshot);
        assert placements == before.placements && artifacts == before.artifacts && attempts == before.attempts;
      }
    }

    /** Closes the target's open tombstone and withdraws its waiting automatic plans. */
    method CancelTargetTombstone(target: TargetKey) returns (error: Option<VaultError>)
      requires Valid()
      modifies this
      ensures Valid() && trace == old(trace) + [Reactivate(target)]
      ensures match CancelTombstone(old(View()), target)
              case Err(e) => error == Some(e) && View() == old(View())
              case Ok(next) => error == None && View() == next
      ensures error.None? ==> !HasOpenTombstone(View(), target)
    {
      Exclusion();
      Begin(Reactivate(target));
      var active := OpenTombstone(tombstones, target);
      if active.None? {
        return None;
      }
      if StageStarted(View(), active.value) {
        return Some(InvalidDelivery("reactivation_after_deletion_started"));
      }
      ghost var before := plans;
      for i := 0 to |plans|
        invariant |plans| == |before| && tombstones == old(tombstones) && trace == old(trace) + [Reactivate(target)]
        invariant now == old(now) && blobs == old(blobs) && copies == old(copies) && snapshots == old(snapshots) && artifacts == old(artifacts)
        invariant placements == old(placements) && pins == old(pins) && claims == old(claims) && attempts == old(attempts)
        invariant forall k | 0 <= k < i :: plans[k] == WithdrawPlan(before[k], active.value)
        invariant forall k | i <= k < |plans| :: plans[k] == before[k]
      {
        if plans[i].tombstone == active && plans[i].automatic && plans[i].status == Planned {
          plans := plans[i := plans[i].(status := Withdrawn)];
        }
      }
      assert plans == seq(|before|, i requires 0 <= i < |before| => WithdrawPlan(before[i], active.value));
      CancellingCloses(tombstones, active.value, target);
      tombstones := tombstones[active.value := tombstones[active.value].(state := Cancelled)];
      error := None;
    }

    /** The stored copies of one artifact, by replica target. */
    method ReplicasOf(artifact: nat) returns (replicas: seq<ExecutionReplica>)
      ensures forall r :: r in replicas <==>
                r.placement < |placements| && placements[r.placement].artifact == artifact
                && placements[r.placement].replica == r.replica
      ensures Sorted(replicas, ByReplica)
    {
      var found: seq<ExecutionReplica> := [];
      for p := 0 to |placements|
        invariant forall r :: r in found <==>
                    r.placement < p && placements[r.placement].artifact == artifact
                    && placements[r.placement].replica == r.replica
      {
        if placements[p].artifact == artifact {
          found := found + [ExecutionReplica(p, placements[p].replica)];
        }
      }
      replicas := SortBy(found, ByReplica);
      SortMembers(found, ByReplica);
      SortSorts(found, ByReplica);
    }

    /** Reads one plan with exactly the artifacts of its snapshot, in order, and exactly their placements. */
    method DeletionExecutionPlan(plan: nat) returns (r: Result<ExecutionPlan>)
      ensures r.Ok? <==> plan < |plans| && plans[plan].snapshot < |snapshots|
      ensures r.Ok? ==>
                && IsReadOf(View(), plan, r.value)
                && forall i, j | 0 <= i < j < |r.value.artifacts| :: r.value.artifacts[i].artifact < r.value.artifacts[j].artifact
    {
      if plan >= |plans| || plans[plan].snapshot >= |snapshots| {
        return Err(InvalidDelivery("plan_id"));
      }
      var snapshot := plans[plan].snapshot;
      var found: seq<ExecutionArtifact> := [];
      for a := 0 to |artifacts|
        invariant forall b :: (exists i | 0 <= i < |found| :: found[i].artifact == b) <==>
                    0 <= b < a && artifacts[b].snapshot == snapshot
        invariant forall i | 0 <= i < |found| :: found[i].artifact < a
        invariant forall i, j | 0 <= i < j < |found| :: found[i].artifact < found[j].artifact
        invariant forall i | 0 <= i < |found| :: HoldsCopiesOf(placements, found[i])
      {
        if artifacts[a].snapshot == snapshot {
          var replicas := ReplicasOf(a);
          ghost var before := found;
          found := found + [ExecutionArtifact(a, replicas)];
          assert found[|before|].artifact == a;
          assert forall i | 0 <= i < |before| :: found[i] == before[i];
        }
      }
      r := Ok(ExecutionPlan(plans[plan].target, plans[plan].tombstone.Some?, plans[plan].status, found));
    }
  }
}
