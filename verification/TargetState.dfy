/** Target statuses, and the relation both the core and the database guard check moves against. */
module TargetState {

  datatype TargetStatus =
    | Requested | Cloning | Ready | Fetching | Snapshotting | Verifying
    | Healthy | Degraded | Paused | Excluded | Deleting | Deleted

  /** The moves the model admits; everything else is refused. */
  const TRANSITIONS: set<(TargetStatus, TargetStatus)> := {
    (Requested, Cloning), (Requested, Excluded),
    (Cloning, Ready), (Cloning, Degraded), (Cloning, Excluded),
    (Ready, Fetching), (Ready, Degraded), (Ready, Paused), (Ready, Excluded),
    (Fetching, Snapshotting), (Fetching, Ready), (Fetching, Degraded), (Fetching, Paused), (Fetching, Excluded),
    (Snapshotting, Verifying), (Snapshotting, Degraded),
    (Verifying, Healthy), (Verifying, Degraded),
    (Healthy, Fetching), (Healthy, Degraded), (Healthy, Paused), (Healthy, Excluded),
    (Degraded, Fetching), (Degraded, Cloning), (Degraded, Paused), (Degraded, Excluded),
    (Paused, Ready), (Paused, Excluded),
    (Excluded, Requested), (Excluded, Deleting),
    (Deleting, Deleted)
  }

  predicate IsLegal(from: TargetStatus, to: TargetStatus) {
    (from, to) in TRANSITIONS
  }

  /** The pair set of the database trigger, written status by status. */
  function GuardSuccessors(from: TargetStatus): set<TargetStatus> {
    match from
    case Requested => {Cloning, Excluded}
    case Cloning => {Ready, Degraded, Excluded}
    case Ready => {Fetching, Degraded, Paused, Excluded}
    case Fetching => {Snapshotting, Ready, Degraded, Paused, Excluded}
    case Snapshotting => {Verifying, Degraded}
    case Verifying => {Healthy, Degraded}
    case Healthy => {Fetching, Degraded, Paused, Excluded}
    case Degraded => {Fetching, Cloning, Paused, Excluded}
    case Paused => {Ready, Excluded}
    case Excluded => {Requested, Deleting}
    case Deleting => {Deleted}
    case Deleted => {}
  }

  /** The core table and the trigger's pair set agree on every ordered pair. */
  lemma TablesAgree(from: TargetStatus, to: TargetStatus)
    ensures IsLegal(from, to) <==> to in GuardSuccessors(from)
  {
    match from
    case Requested =>
    case Cloning =>
    case Ready =>
    case Fetching =>
    case Snapshotting =>
    case Verifying =>
    case Healthy =>
    case Degraded =>
    case Paused =>
    case Excluded =>
    case Deleting =>
    case Deleted =>
  }

  /** The database guard: a same-status write is an annotation, any other write must be legal. */
  predicate GuardAdmits(from: TargetStatus, to: TargetStatus) {
    from == to || to in GuardSuccessors(from)
  }
}
