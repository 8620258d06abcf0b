/** When the bytes of a snapshot that nobody deletes are stored, over every run of the deletion protocol. */
module DeletionBytes {
  import opened Common
  import opened DeletionTables
  import opened DeletionProtocol

  /** The snapshot of artifact `a` is not deleted, and no attempt deletes this digest for it. */
  ghost predicate IsUntouched(t: Tables, a: nat) {
    && Referential(t) && a < |t.artifacts| && !t.snapshots[t.artifacts[a].snapshot].deleted
    && !UnderDeletion(t, t.artifacts[a].snapshot, t.artifacts[a].digest)
  }

  /** What is untouched afterwards was untouched before. */
  lemma UntouchedBefore(t: Tables, u: Tables, a: nat)
    requires Referential(t) && Extends(t, u) && IsUntouched(u, a) && a < |t.artifacts|
    ensures IsUntouched(t, a) && u.artifacts[a] == t.artifacts[a]
  {
    assert u.artifacts[..|t.artifacts|][a] == t.artifacts[a];
    if UnderDeletion(t, t.artifacts[a].snapshot, t.artifacts[a].digest) {
      StillUnderDeletion(t, u, t.artifacts[a].snapshot, t.artifacts[a].digest);
    }
  }

  /** For an untouched artifact, one step stores its bytes or leaves them as they are: no delete reaches them. */
  lemma UntouchedBytesStep(w: World, action: Action, a: nat)
    requires StorageInv(w) && IsUntouched(w.tables, a)
    ensures w.tables.artifacts[a].digest in Step(w, action).blobs <==>
            w.tables.artifacts[a].digest in w.blobs || action == Publish(w.tables.artifacts[a].digest)
  {
    var t, digest := w.tables, w.tables.artifacts[a].digest;
    if action.DeleteBytes? && action.claim < |t.claims| && t.claims[action.claim].identity == LocalDigest(digest) {
      assert UnderDeletion(t, t.plans[t.claims[action.claim].plan].snapshot, digest);
      assert !IsLive(t.claims[action.claim], w.now);
    }
  }

  lemma UntouchedOverStep(w: World, action: Action, a: nat)
    requires StorageInv(w) && a < |w.tables.artifacts| && IsUntouched(Step(w, action).tables, a)
    ensures var digest := w.tables.artifacts[a].digest;
            && IsUntouched(w.tables, a) && Step(w, action).tables.artifacts[a].digest == digest
            && (digest in Step(w, action).blobs <==> digest in w.blobs || action == Publish(digest))
  {
    StepExtends(w, action);
    UntouchedBefore(w.tables, Step(w, action).tables, a);
    UntouchedBytesStep(w, action, a);
  }

  /** Some step of the run after step `k` published the digest. */
  ghost predicate RepublishedAfter(actions: seq<Action>, k: nat, digest: nat) {
    exists m: nat :: k < m < |actions| && actions[m] == Publish(digest)
  }

  /** Step `k` of the run wrote the row of artifact `a`. */
  ghost predicate RecordedAt(actions: seq<Action>, k: nat, a: nat) {
    k < |actions| && |Run(EMPTY, actions[..k]).tables.artifacts| <= a < |Run(EMPTY, actions[..k + 1]).tables.artifacts|
  }

  lemma OnlyRecordingAddsArtifacts(w: World, action: Action)
    requires |Step(w, action).tables.artifacts| > |w.tables.artifacts|
    ensures action.RecordBuilt? && Step(w, action).blobs == w.blobs
  {
  }

  lemma RepublishedByLast(front: seq<Action>, action: Action, k: nat, digest: nat)
    requires k < |front|
    ensures RepublishedAfter(front + [action], k, digest) <==> RepublishedAfter(front, k, digest) || action == Publish(digest)
  {
    var actions := front + [action];
    if RepublishedAfter(front, k, digest) {
      var m: nat :| k < m < |front| && front[m] == Publish(digest);
      assert actions[m] == Publish(digest);
    }
    if action == Publish(digest) {
      assert actions[|front|] == Publish(digest);
    }
    if RepublishedAfter(actions, k, digest) && action != Publish(digest) {
      var m: nat :| k < m < |actions| && actions[m] == Publish(digest);
      assert front[m] == Publish(digest);
    }
  }

  /** Digest `digest` is stored now exactly when it was stored in `origin` or was published since. */
  ghost predicate StoredSince(w: World, origin: World, republished: bool, digest: nat) {
    digest in w.blobs <==> digest in origin.blobs || republished
  }

  lemma StoredSinceStep(w: World, origin: World, republished: bool, action: Action, a: nat)
    requires StorageInv(w) && a < |w.tables.artifacts| && IsUntouched(Step(w, action).tables, a)
    requires StoredSince(w, origin, republished, w.tables.artifacts[a].digest)
    ensures var digest := w.tables.artifacts[a].digest;
            && Step(w, action).tables.artifacts[a].digest == digest
            && StoredSince(Step(w, action), origin, republished || action == Publish(digest), digest)
  {
    UntouchedOverStep(w, action, a);
  }

  /**
   * In every run, the digest of an untouched artifact is stored exactly when it was stored at the
   * moment its row was recorded, or was published again since: whatever other snapshots share it and
   * are deleted, no delete reaches it.
   */
  lemma {:induction false} UntouchedBytesStoredIff(actions: seq<Action>, k: nat, a: nat)
    requires RecordedAt(actions, k, a) && IsUntouched(Run(EMPTY, actions).tables, a)
    ensures var w := Run(EMPTY, actions); var digest := w.tables.artifacts[a].digest;
            StoredSince(w, Run(EMPTY, actions[..k]), RepublishedAfter(actions, k, digest), digest)
    decreases |actions|, 1
  {
    var last := |actions| - 1;
    var front := actions[..last];
    assert actions == front + [actions[last]];
    if k == last {
      assert actions[..k + 1] == actions;
      StoredIffAtFirst(front, actions[last], a);
    } else {
      assert front[..k] == actions[..k] && front[..k + 1] == actions[..k + 1];
      ArtifactsStay(EMPTY, front, k + 1);
      StoredIffOnward(front, actions[last], k, a);
    }
  }

  lemma StoredIffAtFirst(front: seq<Action>, action: Action, a: nat)
    requires |Run(EMPTY, front).tables.artifacts| <= a < |Run(EMPTY, front + [action]).tables.artifacts|
    ensures var w := Run(EMPTY, front + [action]); var digest := w.tables.artifacts[a].digest;
            StoredSince(w, Run(EMPTY, front), RepublishedAfter(front + [action], |front|, digest), digest)
  {
    RunExtends(EMPTY, front, action);
    OnlyRecordingAddsArtifacts(Run(EMPTY, front), action);
  }

  lemma {:induction false} StoredIffOnward(front: seq<Action>, action: Action, k: nat, a: nat)
    requires RecordedAt(front, k, a) && a < |Run(EMPTY, front).tables.artifacts|
    requires IsUntouched(Run(EMPTY, front + [action]).tables, a)
    ensures var w := Run(EMPTY, front + [action]); var digest := w.tables.artifacts[a].digest;
            StoredSince(w, Run(EMPTY, front[..k]), RepublishedAfter(front + [action], k, digest), digest)
    decreases |front| + 1, 0
  {
    var w := Run(EMPTY, front);
    var digest := w.tables.artifacts[a].digest;
    StorageAlways(front);
    RunExtends(EMPTY, front, action);
    UntouchedOverStep(w, action, a);
    UntouchedBytesStoredIff(front, k, a);
    StoredSinceStep(w, Run(EMPTY, front[..k]), RepublishedAfter(front, k, digest), action, a);
    RepublishedByLast(front, action, k, digest);
  }

  const SOURCE: SnapshotSource := SnapshotSource(Repository(1), 1, true, None)

  /** A builder finds the published bytes just before another worker deletes them, and records its row just after. */
  const LATE_RECORD: seq<Action> := [
    Publish(7), RecordBuilt(SOURCE, [7]), PlanDeletion(PlanRequest(Repository(1), 0, None, false, 0, 1)), Tick(1),
    ClaimIt(StageRequest(0, Local, "local", Some(0), None, None, 60)),
    Publish(7), DeleteBytes(0), Succeed(0, 0), RecordBuilt(SOURCE, [7])]

  /** That run ends with a live snapshot nobody deletes whose bytes are not stored. */
  lemma LateRecordLacksItsBytes()
    ensures var w := Run(EMPTY, LATE_RECORD);
            && |w.tables.artifacts| == 2 && w.tables.artifacts[1] == Artifact(1, 7)
            && IsUntouched(w.tables, 1) && 7 !in w.blobs
  {
    var request := StageRequest(0, Local, "local", Some(0), None, None, 60);
    var first := ArtifactRows(0, [7]);
    assert first == [Artifact(0, 7)];
    var w2 := World(EMPTY.tables.(snapshots := [Snapshot(Repository(1), 1, false)], artifacts := first), 0, {7}, {});
    RunToSecond(w2);
    var plan := DeletionPlan(Repository(1), 0, None, false, 1, Planned);
    var w4 := w2.(tables := w2.tables.(plans := [plan]), now := 1);
    RunToFourth(w2, w4);
    var attempt := NewAttempt(request, Some(0), 1);
    var claim := Claim(0, LocalDigest(7), 61, Held);
    var w5 := w4.(tables := w4.tables.(plans := [plan.(status := LocalDeleting)], claims := [claim], attempts := [attempt]));
    RunToFifth(w4, w5, request);
    var w8 := w5.(tables := w5.tables.(claims := [claim.(outcome := Released)],
                                       attempts := [attempt.(outcome := Succeeded, finishedAt := Some(1))]),
                  blobs := {});
    RunToEighth(w5, w8);
    RunToEnd(w8);
  }

  lemma RunToSecond(w2: World)
    requires w2 == World(EMPTY.tables.(snapshots := [Snapshot(Repository(1), 1, false)], artifacts := [Artifact(0, 7)]), 0, {7}, {})
    ensures Run(EMPTY, LATE_RECORD[..2]) == w2
  {
    assert LATE_RECORD[..1] == [] + [Publish(7)] && LATE_RECORD[..2] == LATE_RECORD[..1] + [RecordBuilt(SOURCE, [7])];
    RunExtends(EMPTY, [], Publish(7));
    RunExtends(EMPTY, LATE_RECORD[..1], RecordBuilt(SOURCE, [7]));
    assert ArtifactRows(0, [7]) == [Artifact(0, 7)];
  }

  lemma RunToFourth(w2: World, w4: World)
    requires Run(EMPTY, LATE_RECORD[..2]) == w2 && |w2.tables.snapshots| == 1 && w2.now == 0
    requires w2.tables.snapshots[0].target == Repository(1) && w2.tables.plans == []
    requires w4 == w2.(tables := w2.tables.(plans := [DeletionPlan(Repository(1), 0, None, false, 1, Planned)]), now := 1)
    ensures Run(EMPTY, LATE_RECORD[..4]) == w4
  {
    assert LATE_RECORD[..3] == LATE_RECORD[..2] + [LATE_RECORD[2]] && LATE_RECORD[..4] == LATE_RECORD[..3] + [Tick(1)];
    RunExtends(EMPTY, LATE_RECORD[..2], LATE_RECORD[2]);
    RunExtends(EMPTY, LATE_RECORD[..3], Tick(1));
  }

  lemma RunToFifth(w4: World, w5: World, request: StageRequest)
    requires Run(EMPTY, LATE_RECORD[..4]) == w4 && request == StageRequest(0, Local, "local", Some(0), None, None, 60)
    requires w4.now == 1 && w4.tables.plans == [DeletionPlan(Repository(1), 0, None, false, 1, Planned)]
    requires w4.tables.artifacts == [Artifact(0, 7)] && |w4.tables.snapshots| == 1
    requires w4.tables.claims == [] && w4.tables.attempts == []
    requires w5 == w4.(tables := w4.tables.(
                         plans := [w4.tables.plans[0].(status := LocalDeleting)],
                         claims := [Claim(0, LocalDigest(7), 61, Held)], attempts := [NewAttempt(request, Some(0), 1)]))
    ensures Run(EMPTY, LATE_RECORD[..5]) == w5
  {
    assert LATE_RECORD[..5] == LATE_RECORD[..4] + [ClaimIt(request)];
    RunExtends(EMPTY, LATE_RECORD[..4], ClaimIt(request));
    assert ExpireAttempts([], request, 1) == [] && ExpireClaims([], LocalDigest(7), 1) == [];
  }

  lemma RunToEighth(w5: World, w8: World)
    requires Run(EMPTY, LATE_RECORD[..5]) == w5 && w5.now == 1 && w5.blobs == {7}
    requires w5.tables.claims == [Claim(0, LocalDigest(7), 61, Held)] && |w5.tables.attempts| == 1
    requires w5.tables.attempts[0].claim == Some(0) && w5.tables.attempts[0].outcome == Running
    requires w8 == w5.(tables := w5.tables.(
                         claims := [w5.tables.claims[0].(outcome := Released)],
                         attempts := [w5.tables.attempts[0].(outcome := Succeeded, finishedAt := Some(1))]),
                       blobs := {})
    ensures Run(EMPTY, LATE_RECORD[..8]) == w8
  {
    assert LATE_RECORD[..6] == LATE_RECORD[..5] + [Publish(7)] && LATE_RECORD[..7] == LATE_RECORD[..6] + [DeleteBytes(0)]
           && LATE_RECORD[..8] == LATE_RECORD[..7] + [Succeed(0, 0)];
    RunExtends(EMPTY, LATE_RECORD[..5], Publish(7));
    RunExtends(EMPTY, LATE_RECORD[..6], DeleteBytes(0));
    RunExtends(EMPTY, LATE_RECORD[..7], Succeed(0, 0));
  }

  lemma RunToEnd(w8: World)
    requires Run(EMPTY, LATE_RECORD[..8]) == w8 && w8.blobs == {} && w8.now == 1
    requires w8.tables.snapshots == [Snapshot(Repository(1), 1, false)] && w8.tables.artifacts == [Artifact(0, 7)]
    requires |w8.tables.plans| == 1 && w8.tables.plans[0].snapshot == 0
    requires |w8.tables.claims| == 1 && w8.tables.claims[0].outcome == Released && w8.tables.claims[0].plan == 0
    requires |w8.tables.attempts| == 1 && w8.tables.attempts[0].plan == 0
    ensures var w := Run(EMPTY, LATE_RECORD);
            && w.tables.artifacts == [Artifact(0, 7), Artifact(1, 7)] && IsUntouched(w.tables, 1) && 7 !in w.blobs
  {
    assert LATE_RECORD == LATE_RECORD[..8] + [RecordBuilt(SOURCE, [7])];
    RunExtends(EMPTY, LATE_RECORD[..8], RecordBuilt(SOURCE, [7]));
    assert ArtifactRows(1, [7]) == [Artifact(1, 7)];
    assert !IsLiveDigest(w8.tables.claims, 7, 1);
    SecondIsUntouched(Run(EMPTY, LATE_RECORD).tables);
  }

  lemma SecondIsUntouched(t: Tables)
    requires |t.snapshots| == 2 && !t.snapshots[1].deleted && t.artifacts == [Artifact(0, 7), Artifact(1, 7)]
    requires |t.plans| == 1 && t.plans[0].snapshot == 0 && |t.claims| == 1 && t.claims[0].plan == 0
    requires |t.attempts| == 1 && t.attempts[0].plan == 0
    ensures IsUntouched(t, 1)
  {
  }

  lemma {:induction false} ArtifactsStay(w: World, actions: seq<Action>, k: nat)
    requires k <= |actions|
    ensures |Run(w, actions[..k]).tables.artifacts| <= |Run(w, actions).tables.artifacts|
    decreases |actions|
  {
    if k == |actions| {
      assert actions[..k] == actions;
    } else {
      var front := actions[..|actions| - 1];
      assert front[..k] == actions[..k];
      ArtifactsStay(w, front, k);
      StepExtends(Run(w, front), actions[|actions| - 1]);
    }
  }
}
