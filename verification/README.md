# Vault: a verified model of its protocols and algorithms

Vault backs up Git repositories. This project models the parts of it whose correctness is not
visible in any single function, and proves what they promise:

- **Policy lane** (`PolicyStore`, `PolicyReplay`, `PolicyConvergence`, `PolicyRuns`, `PolicyAbandoned`,
  `PolicyEffects`, `PolicyDatabase`, `Planner`, `TargetState`). A whole-catalog policy command becomes a list of database transactions.
  A crash is a prefix of that list, a redelivery starts the handler again. The store is keyed by
  natural keys and its append-only tables are sequences, so "the same final state" is equality of
  stores. `PolicyDatabase.Database` holds the tables as mutable fields and is proved, method by
  method, against the transaction functions.
- **Staged deletion** (`DeletionTables`, `DeletionProtocol`, `DeletionBytes`, `DeletionEffects`,
  `DeletionDatabase`, `RetentionWorker`). Workers, snapshot builders and operators interleave transactions over shared
  tables, a clock and the local bytes. The inductive invariants hold in every state of every
  interleaving, and `DeletionDatabase.Database` and the worker that drives it are proved to take only
  steps of that protocol.
- **Retention engine and admission planners** (`Sorting`, `RetentionEngine`, `RetentionRounds`,
  `QuotaPressure`, `Admission`, `ReplicationBacklog`, `VerificationSchedule`).
- **Evidence algorithms** (`ManifestChain`, `ByteText`, `RefEvidence`, `LfsEvidence`, `CivilDate`,
  `Redaction`, `BlobStore`).

`Common` holds the result shapes and 64-bit helpers. `dafny verify dfyconfig.toml` checks everything.

Modelling decisions:

- One SQL transaction is one atomic step. The unique indexes and guard triggers of `schema.sql` are
  part of the transactions: an insert they refuse is the transaction's error and commits nothing.
- Hashing and manifest trust are function parameters. The name-based message identifier of a delivery
  is the pair (command, repository).
- Integers are unbounded; where the code saturates, checks or truncates, the model does so explicitly.
- The documentation of `redact_secrets` says every occurrence of every secret is replaced. The code
  does not guarantee that none remains: a secret made of marker bytes survives, and a later secret's
  marker can complete an earlier secret. `Redaction.AlwaysRemovedIff` states exactly which secrets are
  always removed.
- The documentation of `record_built_snapshot` says there is never a claimed snapshot without bytes. The
  code looks at deletion claims, not at the store, so a delete between publishing and recording breaks
  it; `DeletionBytes` has that run and states exactly when the bytes are there.
- The documentation of `apply_transition` names an invalid delivery for an unknown target. The revision
  insert comes first and its foreign key refuses, so the model reports a storage failure, as the code does.

## Model

| member | source | states |
|---|---|---|
| `PolicyReplay.CrashEquivalence` | services/vault/src/policy_bus/handler.rs:93-134 | An attempt stopped after any number of its transactions, and redelivered any number of times with further stops, ends in exactly the store and report of one uninterrupted attempt, errors included |
| `PolicyReplay.RedeliveryResumes` | services/vault/src/policy_bus/handler.rs:93-134 | One interruption anywhere followed by a full redelivery gives the original outcome |
| `PolicyReplay.ReplayStability` | crates/persistence/src/policy_lane.rs:57-101 | At every point inside the application of a version, the governed-before query and the whole list of intended transactions are the original ones |
| `PolicyReplay.GovernedIsStable` | crates/persistence/src/policy_lane.rs:57-101 | No single transaction of the application of a version changes what was governed before that version |
| `PolicyReplay.TransitionKeepsRevisions` | crates/persistence/src/lib.rs:215-235 | Convergence never writes a revision: its insert always conflicts with the governing row; other targets, inbox and ledger are untouched |
| `PolicyReplay.AbsorbedAfterwards` | services/vault/src/reconcile.rs:44-138 | Repeating a committed ingest or convergence changes nothing |
| `PolicyReplay.StaysAbsorbed` | services/vault/src/reconcile.rs:44-138 | A later transaction of the same application never un-absorbs an earlier one |
| `PolicyReplay.PrefixIsAbsorbed` | services/vault/src/reconcile.rs:44-138 | After any successful prefix, every transaction of it is absorbed, the ledger is unchanged and the earlier query answers the same |
| `PolicyReplay.CompletedIsRecorded` | services/vault/src/policy_bus/handler.rs:100-172 | An attempt that reports success has its ledger row |
| `PolicyReplay.DecidedOnce` | services/vault/src/policy_bus/handler.rs:100-116 | Redelivering a decided command writes nothing |
| `PolicyConvergence.WholeCatalogConvergence` | crates/core/src/policy_feed.rs:47-76 | A command that starts above all stored revisions, and may be stopped or refused any number of times while other actors move statuses in between: right after the attempt that succeeds the lane governs exactly the named repositories, and every delivered repository is settled for the planner |
| `PolicyConvergence.MidwayRun` | services/vault/src/policy_bus/handler.rs:93-134 | However many of its transactions ran, and whether one failed, a command stays midway: same ledger, same governed-before set, each repository at its old history or that plus the one delivered revision |
| `PolicyConvergence.GovernedAfterBatch` | crates/persistence/src/lib.rs:427-443 | Once every delivery has reached its repository, in this attempt or an earlier one, the governed set is the named one |
| `PolicyConvergence.DeliversNamedAndDropped` | crates/core/src/policy_feed.rs:47-107 | A repository gets a delivery exactly when the document names it or the lane governed it before |
| `PolicyConvergence.SettledAfterCommand` | services/vault/src/reconcile.rs:99-138 | For each delivered repository the planner proposes neither exclusion nor reactivation after the attempt that succeeds |
| `PolicyConvergence.LeftBehindIff` | services/vault/src/reconcile.rs:44-138 | An accepted command leaves a repository unsettled exactly when it already was, the document does not name it and the lane did not govern it before |
| `PolicyConvergence.NoneLeftBehindIff` | crates/core/src/policy_feed.rs:60-76 | No repository is left unsettled exactly when every unsettled one is named or was governed before |
| `PolicyAbandoned.OvertakenWithdrawalIsLeftBehind` | services/vault/src/policy_bus/handler.rs:93-134 | A run in which a later version is applied between a crash and its redelivery: every command is decided, and the withdrawn repository still awaits exclusion |
| `PolicyRuns.CatalogFollowsTheLastDocument` | crates/core/src/policy_feed.rs:47-76 | Over every run of commands one after the other, each stopped, refused and redelivered with other actors in between until its last attempt succeeds, the governed set is what the last accepted document names |
| `PolicyRuns.RetriedCommandConverges` | services/vault/src/policy_bus/handler.rs:52-72 | A command that was refused or stopped before still makes its document the catalog and settles all it delivered, right after the attempt that succeeds |
| `PolicyRuns.EpisodeKeepsCatalog` | services/vault/src/policy_bus/handler.rs:93-172 | One command with any stops, refusals and moves of other actors between its attempts keeps the catalog invariant once its last attempt succeeds |
| `PolicyRuns.MoveKeepsCatalog` | crates/persistence/src/wiki.rs:46-106 | A discovered wiki or a status move never changes which repositories the lane governs |
| `PolicyRuns.MoveKeepsMidway` | crates/persistence/src/lib.rs:174-187 | Nor does it disturb a command that is midway |
| `PolicyRuns.WikiFollowsParent` | crates/persistence/src/wiki.rs:46-106 | A discovered wiki is enrolled once and gets the parent's governing revision as a plain mirror, field by field |
| `PolicyRuns.StatusMovesIff` | crates/persistence/src/lib.rs:174-187 | A status move changes that one status exactly when the guard admits it |
| `PolicyRuns.LedgerChainAlways` | crates/persistence/src/policy_lane.rs:133-229 | Over every run: one row per command, one acknowledgement per row and no other acknowledgement, each stating the row's decision |
| `PolicyRuns.AcknowledgementsChain` | crates/core/src/policy_feed.rs:130-176 | Each accepted acknowledgement carries the highest version accepted before it, zero for the first |
| `PolicyRuns.AcceptedVersionsRise` | services/vault/src/policy_bus/handler.rs:100-172 | Accepted versions strictly increase in decision order |
| `PolicyStore.Governing` | crates/persistence/src/lib.rs:427-443 | The highest revision governs, absent exactly when there is none |
| `PolicyEffects.ReactivationCommitsIff` | services/vault/src/reconcile.rs:99-138 | An excluded target whose governing level is above none is reactivated exactly when the revision is storable and no stage of its open tombstone began; then it is requested, with exactly one event, its tombstone cancelled and the waiting automatic plans withdrawn |
| `PolicyEffects.NoneOpenAfterCancel` | crates/persistence/src/retention.rs:446-507 | With one open tombstone per target before, none of the target is open after a cancellation |
| `PolicyEffects.ExclusionCommitsIff` | crates/core/src/planner.rs:107-129 | A target under an unpinned revision at level none is excluded exactly when it is unpinned, the revision is storable and the status has a legal move; which refusal otherwise; then one event and an open tombstone for the revision |
| `PolicyEffects.OtherwiseConvergenceIsIdle` | services/vault/src/reconcile.rs:99-138 | In every other case convergence writes nothing |
| `PolicyEffects.IngestDoes` | crates/persistence/src/lib.rs:305-417 | Which deliveries are refused, absorbed or stored, and each row and event a stored one leaves |
| `PolicyEffects.RevisionRoundTrip` | services/vault/src/reconcile.rs:142-157 | A stored revision and the record it stands for determine each other |
| `PolicyEffects.RecordRoundTrip` | services/vault/src/reconcile.rs:142-157 | Going through the stored row changes nothing the planner reads |
| `PolicyEffects.GovernedBeforeIs` | crates/persistence/src/policy_lane.rs:57-101 | The query from the stored rows: refused beyond the storage range, else exactly the repositories whose highest counting row came from the source above none, ascending |
| `PolicyEffects.DeliveriesInOrder` | crates/core/src/policy_feed.rs:47-107 | Named repositories in document order at the mirrored level, then the dropped ones ascending at none, each with its message id, version and correlation |
| `PolicyEffects.RecordDoes` | crates/persistence/src/policy_lane.rs:172-229 | Which decisions are refused, repeated or written, and the one row and one acknowledgement of a written one |
| `PolicyStore.Dropped` | crates/core/src/policy_feed.rs:60-76 | The withdrawn repositories are exactly the governed ones the document does not name |
| `PolicyStore.Touched` | services/vault/src/reconcile.rs:44-98 | The touched targets are exactly those the batch delivers to |
| `PolicyDatabase.Database.Decide` | services/vault/src/policy_bus/handler.rs:100-172 | The handler leaves exactly the store, and reports exactly the error, of the specified attempt |
| `PolicyDatabase.Database.HandleCommand` | services/vault/src/policy_bus/handler.rs:41-73 | What never decodes is terminated and writes nothing; otherwise the whole effect on the store, and the message is acknowledged exactly when the command is recorded |
| `PolicyDatabase.Decode` | services/vault/src/policy_bus/handler.rs:74-92 | A payload is a command exactly when envelope, type, producer, scope and body all pass |
| `PolicyDatabase.RefusedIsUnrecorded` | services/vault/src/policy_bus/handler.rs:100-116 | A refused attempt leaves its command undecided |
| `PolicyDatabase.Settle` | services/vault/src/policy_bus/handler.rs:52-73 | Success acknowledges, an unusable value terminates, anything else is retried |
| `PolicyDatabase.Database.RunCycle` | services/vault/src/reconcile.rs:44-90 | All ingests, then convergence of each touched target once; stops at the first error |
| `PolicyDatabase.Database.IngestBatch` | services/vault/src/reconcile.rs:44-98 | The ingest loop runs the transactions in order and remembers each target once |
| `PolicyDatabase.Database.ConvergeBatch` | services/vault/src/reconcile.rs:44-90 | The convergence loop runs the transactions in order |
| `PolicyDatabase.Database.Converge` | services/vault/src/reconcile.rs:99-138 | Builds the plan and executes its one status move: the convergence that `PolicyEffects` states field by field |
| `PolicyDatabase.Database.Ingest` | crates/persistence/src/lib.rs:305-417 | Inbox slot, enrollment at first sight and revision in one commit; a duplicate writes nothing |
| `PolicyDatabase.Database.Transition` | crates/persistence/src/lib.rs:201-296 | Revision evidence, tombstone, guarded status and event in one commit, or an error and nothing |
| `PolicyDatabase.Database.InsertRevision` | crates/persistence/src/lib.rs:215-235 | A used revision number keeps its row |
| `PolicyDatabase.Database.RecordPolicyDecision` | crates/persistence/src/policy_lane.rs:172-229 | One ledger row with its acknowledgement, at most one per command and per accepted version |
| `PolicyDatabase.Database.Governed` | crates/persistence/src/policy_lane.rs:72-101 | The repositories governed before a version, in ascending order |
| `Planner.BuildPlan` | crates/core/src/planner.rs:92-138 | The pushed items and divergences are the specified ones, with both counters |
| `Planner.Items` | crates/core/src/planner.rs:92-138 | Exactly when each work item is proposed, and that all but the mirror work come alone |
| `Planner.OnlyMirrorWorkWaits` | crates/core/src/planner.rs:32-45 | Everything proposed can be executed, except the mirror work of a collected LFS target |
| `TargetState.TablesAgree` | schema.sql:176-214 | The core table and the trigger's pair set agree on every ordered pair |
| `Planner.Divergences` | crates/core/src/planner.rs:92-138 | Exactly when each divergence is recorded |
| `DeletionProtocol.LiveClaimExclusivity` | crates/persistence/src/retention/stages.rs:271-300 | In every interleaving, while a digest claim is running and unexpired, no live snapshot but the plan's own references the digest |
| `DeletionBytes.UntouchedBytesStoredIff` | crates/persistence/src/snapshot.rs:70-160 | In every run, the digest of a live snapshot that no attempt deletes it for is stored exactly when it was stored as the row was recorded or was published since: deletes for other snapshots never reach it |
| `DeletionBytes.LateRecordLacksItsBytes` | crates/persistence/src/snapshot.rs:70-160 | A run in which a snapshot is recorded just after the bytes it found were deleted under a live lease, so that it never has them |
| `DeletionProtocol.StorageAlways` | crates/persistence/src/retention/stages.rs:79-147 | The storage invariant (references, one running claim per object, claim exclusivity, one running attempt per stage, one open tombstone per target) holds in every reachable state |
| `DeletionProtocol.FreshClaim` | crates/persistence/src/retention/stages.rs:92-117 | A newly taken digest lease finds no other live snapshot that references the digest |
| `DeletionEffects.ClaimRepliesIff` | crates/persistence/src/retention/stages.rs:79-147 | Over the rows: an admitted claim is suppressed exactly when another live snapshot references the digest or the replica key, refused exactly when an unexpired lease or attempt holds it, and leased otherwise; no other claim gets an attempt |
| `DeletionEffects.ClaimIsPutOffIff` | crates/persistence/src/retention/stages.rs:206-236 | A claim is put off exactly before the deadline, or for an automatic plan of a pinned snapshot |
| `DeletionEffects.LeaseWrites` | crates/persistence/src/retention/stages.rs:423-499 | The running attempt, the held claim on the named object and the plan status a granted lease leaves |
| `DeletionEffects.SuppressionWrites` | crates/persistence/src/retention/stages.rs:369-421 | The one closed attempt a suppressed stage leaves, with no claim |
| `DeletionEffects.FreshReplicaClaim` | crates/persistence/src/retention/stages.rs:301-330 | A newly leased replica key finds no other placement with that replica and key of a live snapshot other than the plan's |
| `DeletionEffects.AttemptsStartAdmitted` | crates/persistence/src/retention/stages.rs:79-147 | In every run each attempt was inserted by a claim admitted over the rows of that state: shape, deadline, pins, stage order and earlier evidence |
| `DeletionEffects.LeaseEndsByOwner` | crates/persistence/src/retention/stages.rs:332-367 | No transaction closes an unexpired lease but the report of its own running attempt |
| `DeletionEffects.AttemptEndsByOwner` | crates/persistence/src/retention/stages.rs:332-367 | Likewise for an unexpired running attempt |
| `DeletionEffects.ReportCloses` | crates/persistence/src/retention_execution.rs:163-278 | What a success and a failure report write to the attempt and its claim |
| `DeletionEffects.AdvancesIff` | crates/persistence/src/retention_execution.rs:285-309 | A plan advances exactly when it deletes locally and each artifact was seen through |
| `DeletionEffects.CompletesIff` | crates/persistence/src/retention_execution.rs:316-394 | A plan completes exactly when every artifact, copy and mirror was seen through; the tombstone closes exactly with its last plan |
| `DeletionEffects.PinProtects` | crates/persistence/src/retention.rs:119-197 | Pinning protects that snapshot and no other, once per authority |
| `DeletionEffects.PinningIsRefusedIff` | crates/persistence/src/retention.rs:119-250 | Which pins and revocations are refused |
| `DeletionEffects.RevokeReleases` | crates/persistence/src/retention.rs:199-250 | After a revocation a snapshot is protected exactly when another pin of it is active |
| `DeletionEffects.PlanIsMadeIff` | crates/persistence/src/retention.rs:252-302 | When a plan is refused, silently not made for a pinned snapshot, or made |
| `DeletionEffects.OneActivePlanAlways` | schema.sql:899-901 | At most one active plan per snapshot in every reachable state |
| `DeletionEffects.SnapshotIsRecordedIff` | crates/persistence/src/snapshot.rs:79-160 | A snapshot is recorded exactly for a healthy source, a fitting parent and no live lease on its digests, and the rows it leaves |
| `DeletionEffects.PlacementIsAddedIff` | schema.sql:1181-1199 | A placement needs a known artifact, and there is one per artifact and replica |
| `DeletionProtocol.LocalFirstDeletion` | crates/persistence/src/retention/stages.rs:178-269 | Every attempt starts at or after the deadline, and replica or mirror ones after finished local evidence for every artifact |
| `DeletionProtocol.AttemptsStartUnprotected` | crates/persistence/src/retention/stages.rs:178-236 | The step that inserts an attempt runs in a state past the deadline in which, for an automatic plan, no pin protects the snapshot |
| `DeletionProtocol.AttemptHasStart` | crates/persistence/src/retention/stages.rs:460-499 | Every attempt of every run was inserted by one step of it |
| `DeletionProtocol.FreshAttemptLocalFirst` | schema.sql:1292-1367 | A new replica or mirror attempt finds finished local evidence for each artifact of the snapshot |
| `DeletionProtocol.DeletedOnlyWithEvidence` | crates/persistence/src/retention_execution.rs:316-361 | A snapshot is deleted exactly when some completed plan of it saw every artifact through |
| `DeletionProtocol.OrderOnward` | services/vault/src/retention.rs:74-118 | The ordering invariant holds onward from any state that has it, over any run |
| `DeletionProtocol.StartedStep` | crates/persistence/src/retention/stages.rs:238-269 | A plan is past planned for deletion exactly when it has an attempt |
| `DeletionProtocol.PlanMoves` | schema.sql:905-978 | One transaction moves a plan only along planned, local, replica, completed, or planned to cancelled |
| `DeletionProtocol.PlanStatusOnward` | schema.sql:905-978 | Over any run a plan's status only moves forward; a cancelled or completed plan never moves |
| `DeletionProtocol.CancellationWithdraws` | crates/persistence/src/retention.rs:446-507 | A tombstone is cancelled only while none of its plans has an attempt, and its waiting automatic plans are withdrawn |
| `DeletionProtocol.CancellationIsFinal` | crates/persistence/src/retention.rs:446-507 | Such a withdrawn plan never gets an attempt in any later run |
| `DeletionTables.StageIdentity` | crates/persistence/src/retention/stages.rs:501-599 | A well-shaped local request names the digest of an artifact of the plan's snapshot; other kinds never name a digest |
| `DeletionTables.OpenTombstone` | crates/persistence/src/retention.rs:446-470 | Finds an open tombstone of the target, absent exactly when there is none |
| `DeletionDatabase.Database.ClaimDeletionStage` | crates/persistence/src/retention/stages.rs:79-147 | The claim is one step of the protocol history: refusals, plan advance, expiry, shared suppression or lease, with late refusals rolled back |
| `DeletionDatabase.Database.Safety` | crates/persistence/src/retention/stages.rs:79-147 | Whatever the handle was called with and whatever others did, both protocol invariants hold of its rows |
| `DeletionDatabase.Database.InsertArtifact` | crates/persistence/src/snapshot.rs:288-331 | The row is inserted exactly when no live claim holds the digest |
| `DeletionDatabase.Database.RecordBuiltSnapshot` | crates/persistence/src/snapshot.rs:79-160 | Unhealthy source, foreign parent or a live claim on a digest refuse and roll back; otherwise all artifacts are there and no live claim holds one |
| `DeletionDatabase.Database.RecordDeletionStageSuccess` | crates/persistence/src/retention_execution.rs:163-215 | Succeeds exactly for the owner of the running attempt; then the attempt is terminal evidence, its stage idle and the object it held free |
| `DeletionDatabase.Database.RecordDeletionStageFailure` | crates/persistence/src/retention_execution.rs:223-278 | Succeeds exactly for the owner of the running attempt; then stage and object can be claimed again, and no evidence was made or lost |
| `DeletionDatabase.Database.AdvanceDeletionPlanToReplicas` | crates/persistence/src/retention_execution.rs:285-309 | Succeeds exactly when the plan deletes locally and every artifact has evidence; from then on replica stages are in order and local ones refused |
| `DeletionDatabase.Database.CompleteDeletionPlan` | crates/persistence/src/retention_execution.rs:316-394 | Success means a deleted snapshot whose plan was seen through at every artifact and placement; otherwise nothing changed |
| `DeletionDatabase.Database.CancelTargetTombstone` | crates/persistence/src/retention.rs:446-507 | The update loop withdraws the waiting automatic plans; success leaves no open tombstone of the target |
| `DeletionDatabase.Database.DeletionExecutionPlan` | crates/persistence/src/retention_execution.rs:83-155 | Reads exactly the artifacts of the plan's snapshot, in order, each with exactly its placements |
| `RetentionWorker.ActionFor` | services/vault/src/retention.rs:384-398 | Only a claimed stage has an effect; only shared retention is suppressed |
| `RetentionWorker.Worker.RunStage` | services/vault/src/retention.rs:129-184 | A stage reported done was retained for another snapshot, or its object was deleted under the attempt's own lease after the claim and before success was recorded, all during this call; one put off met a plan that waits |
| `RetentionWorker.EffectRemovesTheObject` | services/vault/src/retention.rs:151-170 | That delete is of the very object the request names, and while the lease is live the object is gone right after it |
| `RetentionWorker.RequestsAreWellShaped` | services/vault/src/retention.rs:129-150 | Each request names its own row of the plan's snapshot in the shape its kind asks for, with the worker's lease and key |
| `RetentionWorker.DigitsIdentify` | services/vault/src/retention.rs:129-150 | Different rows have different key texts |
| `RetentionWorker.Worker.RunLocalStages` | services/vault/src/retention.rs:120-128 | Every local stage of the artifacts is accomplished, whatever other actors did meanwhile |
| `RetentionWorker.Worker.RunReplicaStages` | services/vault/src/retention.rs:185-194 | Every replica stage of every placement is accomplished, whatever other actors did meanwhile |
| `RetentionWorker.Worker.RunPlan` | services/vault/src/retention.rs:74-118 | A reported completion is a completed plan: every placement of the snapshot at the start was seen through, and so was every artifact and the mirror when they were still to do, each by an effect before its report; a deferred run ended at a claim for a plan that waits |
| `RetentionWorker.HistoryKeepsAttempts` | crates/persistence/src/retention_execution.rs:163-278 | A longer history keeps what every attempt is for, and never rewrites terminal evidence |
| `RetentionEngine.EvaluateRetention` | crates/core/src/retention.rs:124-177 | One decision per snapshot in report order, for every input; with distinct ids the grouped, sorted, top-N evaluation is the set-based reference |
| `RetentionEngine.ReasonsExactly` | crates/core/src/retention.rs:160-177 | From the fields alone: pinned, else younger than a positive floor, else fewer than max(N,1) newer restorable snapshots of the mirror, else eligible |
| `RetentionEngine.GivenReasonsExactly` | crates/core/src/retention.rs:160-177 | The same for any input, with protection by id |
| `RetentionEngine.ReportIsOrdered` | crates/core/src/retention.rs:152-159 | The report is ordered by mirror, creation time and id |
| `RetentionEngine.GroupRestorable` | crates/core/src/retention.rs:129-135 | The groups are exactly the restorable snapshots of each mirror |
| `RetentionEngine.KeepIdsIsKept` | crates/core/src/retention.rs:136-150 | Being among the first N of the sorted window is having fewer than N newer restorable rivals |
| `RetentionEngine.KeepsTheNewest` | crates/core/src/retention.rs:124-177 | Each mirror keeps min(max(N,1), count) restorable snapshots, each newer than any it does not keep |
| `RetentionEngine.DecisionsIgnoreInputOrder` | crates/core/src/retention.rs:152-177 | Permuting the input does not change the report |
| `RetentionEngine.EveryIdIsDecidedOnce` | crates/core/src/retention.rs:152-177 | Every snapshot gets exactly one decision, its reference reason |
| `RetentionRounds.RestorePointNeverLost` | crates/core/src/retention.rs:124-177 | Over any sequence of rounds with any policies, clocks, deletions of eligible snapshots and additions, a mirror keeps a restorable snapshot at least as new |
| `RetentionRounds.EveryRoundKeepsTheNewest` | crates/core/src/retention.rs:124-177 | In each round of any sequence the newest min(max(N,1), count) of each mirror survive |
| `RetentionRounds.RoundKeepsTheNewest` | crates/core/src/retention.rs:124-177 | The same for one round, with what is kept newer than what is not |
| `RetentionRounds.NoneLeftEligible` | crates/core/src/retention.rs:124-177 | Removing every eligible snapshot leaves none eligible at that instant |
| `QuotaPressure.EvaluateQuotaPressure` | crates/core/src/retention.rs:181-234 | For every input: selections are the shortest prefix of the escalation order that reaches the request; refusal holds exactly when the true unbounded sum of all candidates is below it, despite saturation |
| `QuotaPressure.PressureIsSafe` | crates/core/src/retention.rs:187-208 | Only snapshots past their deadline whose id is last reported eligible are selected, an inactive-target one only after every ordinary candidate; with distinct ids none is pinned, younger than the floor or among the newest max(N,1) |
| `QuotaPressure.CandidatesEscalate` | crates/core/src/retention.rs:201-208 | Candidates are ordered by tier, creation time, mirror and id |
| `QuotaPressure.SelectionNames` | crates/core/src/retention.rs:216-224 | A selection carries id, estimate and the tier of its target |
| `QuotaPressure.ChosenIsCandidate` | crates/core/src/retention.rs:187-200 | With distinct ids the chosen snapshots are the candidates of the set-based reference |
| `QuotaPressure.TakeUntil` | crates/core/src/retention.rs:210-234 | The selection loop and its saturated total |
| `QuotaPressure.SelectCandidates` | crates/core/src/retention.rs:187-200 | For every input the candidates are the grace-complete snapshots whose id is last reported eligible |
| `ReplicationBacklog.PlanReplicationBacklog` | services/vault/src/replication.rs:439-471 | Admitted and deferred partition the input, both ceilings hold of the true sums, no deferred unit fits the final set |
| `ReplicationBacklog.FirstAdmittedIsStalest` | services/vault/src/replication.rs:443-451 | With a positive item ceiling the first admitted unit is never-verified whenever such a unit fits alone, else it has the least stamp among those that fit, ties by snapshot, artifact and replica |
| `ReplicationBacklog.PassIsOrdered` | services/vault/src/replication.rs:443-451 | Admitted and deferred units are each listed in that order |
| `ReplicationBacklog.BacklogDrains` | services/vault/src/replication.rs:439-471 | n units that fit alone are each admitted within n passes, whatever order and stamps the deferred ones return with; only oversized units remain |
| `ReplicationBacklog.PassMakesProgress` | services/vault/src/replication.rs:439-471 | A pass over a backlog with a fitting unit leaves strictly fewer fitting units |
| `ReplicationBacklog.PassConserves` | services/vault/src/replication.rs:439-471 | A pass neither loses nor duplicates a unit |
| `Admission.FirstFittingIsTaken` | services/vault/src/replication.rs:456-468 | With a positive item ceiling the first item that fits alone is the first one taken |
| `Admission.GreedyIsMaximal` | services/vault/src/replication.rs:456-468 | No item left out could join the final taken set |
| `Admission.GreedyPartitions` | services/vault/src/replication.rs:456-468 | Greedy admission splits its input as a multiset |
| `Admission.GreedyWithinCeilings` | services/vault/src/replication.rs:456-468 | The taken items respect both ceilings |
| `Admission.GreedyKeepsOrder` | services/vault/src/replication.rs:456-468 | Both halves keep the order of the input |
| `VerificationSchedule.PlanDueSnapshots` | services/vault/src/restore_verification.rs:704-781 | A policy is refused exactly when one of its six bounds is zero; otherwise selected, drill and deferred lists are those of the specified pass |
| `VerificationSchedule.Staleness` | services/vault/src/restore_verification.rs:714-724 | The least of the stamps that exist, or zero when neither does |
| `VerificationSchedule.DueIff` | services/vault/src/restore_verification.rs:782-798 | Dueness of verification and of drill, each by its own stamp and frequency |
| `VerificationSchedule.DrillsAreTheDueOnes` | services/vault/src/restore_verification.rs:754-758 | The drill list is exactly the selected snapshots whose drill stamp is absent or a drill frequency old |
| `VerificationSchedule.DueAreOrdered` | services/vault/src/restore_verification.rs:714-724 | Due candidates are considered by their older stamp, ties by snapshot |
| `VerificationSchedule.PassIsOrdered` | services/vault/src/restore_verification.rs:714-763 | Selection and deferrals keep that order |
| `VerificationSchedule.Admit` | services/vault/src/restore_verification.rs:726-763 | The admission loop with checked addition and a reason per deferral |
| `VerificationSchedule.PassPartitionsTheDue` | services/vault/src/restore_verification.rs:704-763 | Selected and deferred are exactly the due candidates, within both ceilings, and the selection is maximal |
| `VerificationSchedule.ReasonsStayTrue` | services/vault/src/restore_verification.rs:731-751 | Each deferred candidate is reported once, in order, with a reason that is true of the final selection |
| `VerificationSchedule.StalestFittingIsSelected` | services/vault/src/restore_verification.rs:714-724 | The stalest due candidate that fits the scratch budget alone is always selected first |
| `ManifestChain.VerifyManifestChain` | crates/core/src/snapshot.rs:66-93 | The verdict is explained by a path from the head of at most max_depth loaded manifests |
| `ManifestChain.SuccessIsSoundness` | crates/core/src/snapshot.rs:66-93 | Success exactly when a parent path ends within the bound, all loaded, trusted and distinct; and it returns that path |
| `ManifestChain.VerifiedChainIs` | crates/core/src/snapshot.rs:78-89 | A verified chain link by link: loaded, trusted, each the parent of the one before, the last without one, digests distinct |
| `ManifestChain.VerdictIsUnique` | crates/core/src/snapshot.rs:66-93 | Only one verdict has an explanation: the first failure in walk order |
| `ManifestChain.DeeperBoundAgrees` | crates/core/src/snapshot.rs:74-92 | Raising the bound changes no verdict other than too deep |
| `ManifestChain.LoopsAreFound` | crates/core/src/snapshot.rs:78-81 | With fewer stored digests than the bound the walk never gives up for depth |
| `RefEvidence.ParseRefs` | services/vault/src/snapshot_lifecycle.rs:227-251 | Accepts exactly the outputs whose lines split into valid refs with distinct names, and returns those refs; otherwise reports the first refused line's error |
| `RefEvidence.ValidRefIff` | services/vault/src/snapshot_lifecycle.rs:235-242 | Which object ids and names are accepted, byte by byte |
| `RefEvidence.ShowParseRoundTrip` | services/vault/src/snapshot_lifecycle.rs:227-251 | Printed evidence splits back into itself |
| `RefEvidence.FeedRefs` | crates/core/src/snapshot.rs:380-389 | The digest is fed the canonical stream |
| `RefEvidence.RefStreamIsInjective` | crates/core/src/snapshot.rs:380-389 | The hashed bytes determine the refs and their order |
| `RefEvidence.HashedBytesIdentifyTheRefs` | crates/core/src/snapshot.rs:206-219 | For accepted lists, the sorted hashed bytes agree exactly when the refs are a permutation |
| `RefEvidence.ParseRefOutput` | services/vault/src/restore_verification.rs:604-618 | The drill's reading of the output: split every line, sort by name, refuse a line without a space |
| `RefEvidence.DrillComparesUpToOrder` | services/vault/src/restore_verification.rs:384-402 | The comparison succeeds exactly when the restored lines are a permutation of the preserved ones |
| `LfsEvidence.ValidLfs` | crates/core/src/snapshot.rs:280-307 | The loop over neighbours accepts exactly valid evidence, strictly ascending as a whole |
| `LfsEvidence.SoundObjectIff` | crates/core/src/snapshot.rs:290-303 | Which objects are accepted, field by field |
| `LfsEvidence.TotalIsSaturated` | crates/core/src/snapshot.rs:282-285 | The total is the true sum held at the largest 64-bit value |
| `LfsEvidence.CanonicalLfsDigest` | crates/core/src/snapshot.rs:311-322 | Hashes the canonical stream |
| `LfsEvidence.LfsStreamIsInjective` | crates/core/src/snapshot.rs:311-322 | The hashed bytes, decimal sizes included, determine the objects |
| `LfsEvidence.HashedBytesIdentifyTheEvidence` | crates/core/src/snapshot.rs:280-322 | Valid evidence with the same hashed bytes is equal up to the tool version |
| `LfsEvidence.NewEvidence` | crates/core/src/snapshot.rs:185-199 | Built evidence is the sorted input, and is valid exactly when the tool is named, the objects are sound and the identifiers distinct |
| `ByteText.DecimalRoundTrip` | crates/core/src/snapshot.rs:311-322 | A decimal size reads back as itself |
| `ByteText.LexIsFirstDifference` | crates/core/src/snapshot.rs:214 | Names are ordered at their first differing byte, a prefix first |
| `ByteText.LinesOfReturns` | services/vault/src/snapshot_lifecycle.rs:227-230 | A carriage return before a line feed belongs to the line end |
| `CivilDate.NextDay` | services/vault/src/snapshot_lifecycle.rs:271-286 | For every day number, before or after the epoch, the next day is the Gregorian successor, and month and day are in range |
| `CivilDate.AgreesWithCounting` | services/vault/src/snapshot_lifecycle.rs:271-286 | The closed form equals counting day by day from 1970-01-01 |
| `CivilDate.CivilDateOfDayNumber` | services/vault/src/snapshot_lifecycle.rs:271-286 | Every calendar date is the image of its day number |
| `CivilDate.DayNumberOfCivilDate` | services/vault/src/snapshot_lifecycle.rs:271-286 | Day numbers and dates correspond one to one |
| `CivilDate.EraIsFloor` | services/vault/src/snapshot_lifecycle.rs:272-277 | Truncating division with the correction rounds down for every operand |
| `CivilDate.DayZero` | services/vault/src/snapshot_lifecycle.rs:271-286 | Day 0 is 1970-01-01 |
| `CivilDate.TimestampIsInjective` | services/vault/src/snapshot_lifecycle.rs:253-269 | No two clock readings have the same timestamp text |
| `Redaction.RedactSecrets` | crates/gitrunner/src/outcome.rs:33-54 | The nested loop runs one leftmost, non-overlapping replacement pass per secret |
| `Redaction.CutsAreLeftmost` | crates/gitrunner/src/outcome.rs:39-49 | No kept gap holds the secret, and each cut was the leftmost occurrence |
| `Redaction.GapsRestore` | crates/gitrunner/src/outcome.rs:39-49 | Putting the secret back between the gaps restores the input |
| `Redaction.DisjointSecretsAreGone` | crates/gitrunner/src/outcome.rs:33-54 | No non-empty secret that shares no byte with the marker is left, for any list of secrets |
| `Redaction.NothingSurvives` | crates/gitrunner/src/outcome.rs:33-54 | The same for every secret that cannot overlap the marker: later passes never bring it back |
| `Redaction.AlwaysRemovedIff` | crates/gitrunner/src/outcome.rs:33-54 | Every call that is given a secret removes it, whatever the text and the other secrets, exactly when the secret agrees with the marker at no overlapping offset |
| `Redaction.LaterPassRestoresSecret` | crates/gitrunner/src/outcome.rs:33-54 | A two-secret input on which a later pass restores a secret that each single pass always removes |
| `Redaction.OnePassIsCompleteIff` | crates/gitrunner/src/outcome.rs:38-50 | One pass alone removes its secret from every input exactly when the secret has no agreeing overlap with the marker that leftmost cutting allows |
| `Redaction.MarkerBytesSurvive` | crates/gitrunner/src/outcome.rs:26-54 | A concrete input on which a secret remains |
| `BlobStore.StreamToTemporary` | crates/blobstore/src/lib.rs:282-318 | The copy is accepted exactly when the source matches the reference, and is then the source; the size limit is the only other error |
| `BlobStore.Verify` | crates/blobstore/src/lib.rs:213-242 | Accepts exactly the bytes that match length, limit and digest |
| `BlobStore.ContentAlwaysHashesToItsName` | crates/blobstore/src/lib.rs:113-157 | Under any interleaving of publishers and deleters, the bytes at a digest path hash to its name |
| `BlobStore.NeverOverwritten` | crates/blobstore/src/lib.rs:136-157 | An existing digest path keeps its bytes; only a confirmed deletion removes it |
| `BlobStore.ComparisonReadsAll` | crates/blobstore/src/lib.rs:213-242 | A call confirms or finishes a comparison only after reading the whole file and finding the digest, and for a deletion the length |
| `BlobStore.RemovalIsConfirmed` | crates/blobstore/src/lib.rs:248-278 | A path is removed only by a call whose own comparison confirmed that reference |
| `BlobStore.DeletionReportsAbsence` | crates/blobstore/src/lib.rs:253-278 | Deleted and already-absent are reported only in a state where the path is absent |
| `BlobStore.PublishedVerifies` | crates/blobstore/src/lib.rs:113-157 | A publication that returned success verifies from its link or length check on, for as long as nobody deletes that digest |
| `BlobStore.PublishesAlone` | crates/blobstore/src/lib.rs:113-157 | An undisturbed publication of matching bytes succeeds, leaves them at the absent digest path and no temporary file |
| `BlobStore.RepublishesAlone` | crates/blobstore/src/lib.rs:147-151 | Publishing what already verifies succeeds and leaves every path as it was |
| `BlobStore.DeletesAlone` | crates/blobstore/src/lib.rs:248-278 | An undisturbed deletion of a verifying reference removes exactly its path; of an absent one, nothing |
| `BlobStore.InvStep` | crates/blobstore/src/lib.rs:213-344 | Every file-system step of every call keeps the store invariant |
| `Sorting.SortIsOrderIndependent` | crates/core/src/retention.rs:152-177 | The sorted form of a list without equivalent distinct elements does not depend on the input order |

## Left out

- PostgreSQL isolation and locking: each transaction is atomic, so lock order and serialization failures are not modelled.
- Minted identifiers, row ordinals, audit rows, timestamps of the policy store and telemetry: they do not affect the modelled decisions.
- Delivery validation and the acknowledgement envelope: finite checks before and after the modelled decision; the provider is always the one the lane serves. Parsing JSON is not modelled; decoding starts from the parsed envelope.
- CatalogFollowsTheLastDocument: assumes that a command's last attempt succeeds before the next command starts. When it never does, or a later command overtakes it, `WholeCatalogConvergence` still applies to the next version above everything stored, and `LeftBehindIff` says exactly what stays unsettled.
- DeletionDatabase.Database.RecordBuiltSnapshot: digest shape, sizes, media types and LFS totals are not validated, and whether the mirror is healthy is an input, because no property depends on them.
- DeletionDatabase.Database.CompleteDeletionPlan: the target row's move to deleted in the same transaction is not modelled; target statuses live in the policy store and no stage reads them.
- RetentionWorker.Worker.RunPlan: the guarded move of a tombstoned target to deleting before its first stage is not modelled, for the same reason; a guard refusal there would only end the run earlier.
- Effects after a lease expired: the code does not exclude them, so bytes are removed in the model only under a live lease.
- Replica-side exclusion: a replication attempt that runs while a delete is claimed is not checked, and the worker handles only the placements read at its start.
- CivilDate: unbounded day numbers; the 64-bit sum overflows only far beyond any clock the caller converts.
- UTF-8 validation of captured output: texts are byte sequences already known to be valid.
- Reference validation, file kinds, symbolic links, directory creation and path confinement in the blob store: operating-system effects.
- SHA-256, Ed25519 and manifest serialization: parameters of the model; digests are compared, never computed.
- Git and LFS processes, S3, NATS, HTTP, configuration and quota reservation sums: I/O plumbing or easy members.
