/** Content-addressed storage: concurrent publishers and deleters over one directory. */
module BlobStore {
  import opened Common
  import opened ByteText

  type Digest = Text

  datatype BlobRef = BlobRef(owner: Text, sha256: Digest, mediaType: Text, sizeBytes: U64)

  /** The store's byte limit, and the digest function it applies. */
  datatype Store = Store(maxBytes: U64, hash: Text -> Digest)

  datatype StreamError = DigestMismatch | SizeLimitExceeded

  datatype Streamed = Accepted(temporary: Text) | Declined(error: StreamError)

  const COPY_BUFFER_BYTES: nat := 16 * 1024

  /** Bytes that match a reference within the limit. */
  predicate Matches(store: Store, ref: BlobRef, bytes: Text) {
    |bytes| == ref.sizeBytes && |bytes| <= store.maxBytes && store.hash(bytes) == ref.sha256
  }

  /** Copies a source into a temporary file, buffer by buffer, counting and digesting as it goes. */
  method StreamToTemporary(store: Store, expected: BlobRef, source: Text) returns (result: Streamed)
    ensures result.Accepted? <==> Matches(store, expected, source)
    ensures result.Accepted? ==> result.temporary == source
    ensures result.Declined? ==> (result.error == SizeLimitExceeded <==> |source| > store.maxBytes)
  {
    var temporary: Text := [];
    var digested: Text := [];
    var written: U64 := 0;
    while |temporary| < |source|
      invariant temporary <= source && digested == temporary && written == |temporary| <= store.maxBytes
      decreases |source| - |temporary|
    {
      var left := |source| - |temporary|;
      var count := if left < COPY_BUFFER_BYTES then left else COPY_BUFFER_BYTES;
      var chunk := source[|temporary|..|temporary| + count];
      if written + count > U64_MAX || written + count > store.maxBytes {
        return Declined(SizeLimitExceeded);
      }
      written := written + count;
      digested := digested + chunk;
      temporary := temporary + chunk;
    }
    assert temporary == source;
    if written != expected.sizeBytes || store.hash(digested) != expected.sha256 {
      return Declined(DigestMismatch);
    }
    result := Accepted(temporary);
  }

  /** Re-reads stored bytes; accepts exactly those that match the reference. */
  method Verify(store: Store, ref: BlobRef, stored: Text) returns (ok: bool)
    ensures ok <==> Matches(store, ref, stored)
  {
    if |stored| != ref.sizeBytes || |stored| > store.maxBytes {
      return false;
    }
    var digested: Text := [];
    var read: nat := 0;
    while read < |stored|
      invariant read <= |stored| && digested == stored[..read]
      decreases |stored| - read
    {
      var left := |stored| - read;
      var count := if left < COPY_BUFFER_BYTES then left else COPY_BUFFER_BYTES;
      digested := digested + stored[read..read + count];
      read := read + count;
    }
    assert stored[..read] == stored;
    ok := read == ref.sizeBytes && store.hash(digested) == ref.sha256;
  }

  // ----- the file system and its users -----

  datatype Path = Temporary(process: nat, sequence: nat) | Blob(digest: Digest)

  datatype Goal = Publishing | Deletion

  /** How far one call has come. */
  datatype Phase =
    | Streaming(ref: BlobRef, temp: Path, node: nat)
    | Ready(ref: BlobRef, temp: Path, node: nat)
    | Linked(ref: BlobRef, temp: Path)
    | Collided(ref: BlobRef, temp: Path)
    | Measuring(goal: Goal, ref: BlobRef)
    | Opening(goal: Goal, ref: BlobRef)
    | Reading(goal: Goal, ref: BlobRef, node: nat, count: nat)
    | Published(ref: BlobRef)
    | Confirmed(ref: BlobRef)
    | Removed(ref: BlobRef)
    | Deleted(ref: BlobRef)
    | AlreadyAbsent(ref: BlobRef)
    | Failed

  /** Paths name inodes, so a hard link shares its bytes; each call has its own identity. */
  datatype World = World(paths: map<Path, nat>, data: map<nat, Text>, calls: map<nat, Phase>)

  datatype Action =
    | StartPublish(call: nat, ref: BlobRef, temp: Path, node: nat)
    | WriteChunk(call: nat, chunk: Text)
    | FinishStream(call: nat)
    | Link(call: nat)
    | DropTemporary(call: nat)
    | StartDelete(call: nat, ref: BlobRef)
    | Measure(call: nat)
    | Open(call: nat)
    | Read(call: nat, count: nat)
    | Compare(call: nat)
    | Remove(call: nat)
    | CheckAbsent(call: nat)
    | Stop(call: nat)

  function Moved(w: World, call: nat, phase: Phase): World { w.(calls := w.calls[call := phase]) }

  function Unlinked(w: World, path: Path): World { w.(paths := w.paths - {path}) }

  /** The bytes a path leads to. */
  function Content(w: World, path: Path): Option<Text> {
    if path in w.paths && w.paths[path] in w.data then Some(w.data[w.paths[path]]) else None
  }

  /** One file-system step of one call; a step its phase does not allow changes nothing. */
  function Next(store: Store, w: World, a: Action): World {
    match a
    case StartPublish(call, ref, temp, node) =>
      if call in w.calls || temp.Blob? || temp in w.paths || node in w.data || ref.sizeBytes > store.maxBytes then w
      else Moved(w.(paths := w.paths[temp := node], data := w.data[node := []]), call, Streaming(ref, temp, node))
    case StartDelete(call, ref) =>
      if call in w.calls then w
      else Moved(w, call, if Blob(ref.sha256) in w.paths then Measuring(Deletion, ref) else AlreadyAbsent(ref))
    case Stop(call) =>
      if call in w.calls then Moved(w, call, Failed) else w
    case _ =>
      if a.call in w.calls then Continue(store, w, a, w.calls[a.call]) else w
  }

  function Continue(store: Store, w: World, a: Action, phase: Phase): World
    requires a.call in w.calls && w.calls[a.call] == phase
  {
    match (a, phase)
    case (WriteChunk(call, chunk), Streaming(ref, temp, node)) =>
      if node !in w.data then w
      else if |w.data[node]| + |chunk| > store.maxBytes then Moved(Unlinked(w, temp), call, Failed)
      else w.(data := w.data[node := w.data[node] + chunk])
    case (FinishStream(call), Streaming(ref, temp, node)) =>
      if node in w.data && |w.data[node]| == ref.sizeBytes && store.hash(w.data[node]) == ref.sha256
      then Moved(w, call, Ready(ref, temp, node))
      else Moved(Unlinked(w, temp), call, Failed)
    case (Link(call), Ready(ref, temp, node)) =>
      if temp !in w.paths then Moved(w, call, Failed)
      else if Blob(ref.sha256) in w.paths then Moved(w, call, Collided(ref, temp))
      else Moved(w.(paths := w.paths[Blob(ref.sha256) := w.paths[temp]]), call, Linked(ref, temp))
    case (DropTemporary(call), Linked(ref, temp)) => Moved(Unlinked(w, temp), call, Published(ref))
    case (DropTemporary(call), Collided(ref, temp)) => Moved(Unlinked(w, temp), call, Measuring(Publishing, ref))
    case (Measure(call), Measuring(goal, ref)) =>
      var content := Content(w, Blob(ref.sha256));
      if content.Some? && |content.value| == ref.sizeBytes && (goal.Deletion? ==> |content.value| <= store.maxBytes)
      then Moved(w, call, Opening(goal, ref))
      else Moved(w, call, Failed)
    case (Open(call), Opening(goal, ref)) =>
      if Blob(ref.sha256) in w.paths then Moved(w, call, Reading(goal, ref, w.paths[Blob(ref.sha256)], 0))
      else Moved(w, call, Failed)
    case (Read(call, count), Reading(goal, ref, node, done)) =>
      if node !in w.data then w
      else
        var reached := if done + count < |w.data[node]| then done + count else |w.data[node]|;
        Moved(w, call, Reading(goal, ref, node, reached))
    case (Compare(call), Reading(goal, ref, node, done)) =>
      if node !in w.data || done != |w.data[node]| then w
      else if store.hash(w.data[node]) != ref.sha256 || (goal.Deletion? && done != ref.sizeBytes)
      then Moved(w, call, Failed)
      else Moved(w, call, if goal.Publishing? then Published(ref) else Confirmed(ref))
    case (Remove(call), Confirmed(ref)) =>
      if Blob(ref.sha256) in w.paths then Moved(Unlinked(w, Blob(ref.sha256)), call, Removed(ref))
      else Moved(w, call, Failed)
    case (CheckAbsent(call), Removed(ref)) =>
      Moved(w, call, if Blob(ref.sha256) in w.paths then Failed else Deleted(ref))
    case _ => w
  }

  // ----- the invariant -----

  /** A call that still holds its temporary file. */
  predicate OwnsTemporary(phase: Phase) {
    phase.Streaming? || phase.Ready? || phase.Linked? || phase.Collided?
  }

  predicate OwnsNode(phase: Phase) { phase.Streaming? || phase.Ready? }

  ghost predicate SoundBlob(store: Store, w: World, digest: Digest) {
    Blob(digest) in w.paths ==>
      var node := w.paths[Blob(digest)];
      node in w.data && store.hash(w.data[node]) == digest && |w.data[node]| <= store.maxBytes
  }

  ghost predicate SoundCall(store: Store, w: World, call: nat)
    requires call in w.calls
  {
    var phase := w.calls[call];
    && (OwnsTemporary(phase) ==> phase.temp.Temporary? && phase.temp in w.paths)
    && (OwnsNode(phase) ==>
          && w.paths[phase.temp] == phase.node && phase.node in w.data && |w.data[phase.node]| <= store.maxBytes)
    && (phase.Ready? ==> Matches(store, phase.ref, w.data[phase.node]))
    && (phase.Streaming? ==> forall digest | Blob(digest) in w.paths :: w.paths[Blob(digest)] != phase.node)
    && (phase.Reading? ==> phase.node in w.data)
    && (phase.Measuring? && phase.goal.Publishing? ==> phase.ref.sizeBytes <= store.maxBytes)
    && (phase.Streaming? || phase.Ready? || phase.Linked? || phase.Collided? ==> phase.ref.sizeBytes <= store.maxBytes)
  }

  /** Two calls never share a temporary path, nor a file one of them still writes. */
  predicate Apart(a: Phase, b: Phase) {
    && (OwnsTemporary(a) && OwnsTemporary(b) ==> a.temp != b.temp)
    && (OwnsNode(a) && OwnsNode(b) ==> a.node != b.node)
  }

  ghost predicate Inv(store: Store, w: World) {
    && (forall path | path in w.paths :: w.paths[path] in w.data)
    && (forall digest :: SoundBlob(store, w, digest))
    && (forall call | call in w.calls :: SoundCall(store, w, call))
    && (forall a, b | a in w.calls && b in w.calls && a != b :: Apart(w.calls[a], w.calls[b]))
  }

  lemma SoundBlobStep(store: Store, w: World, a: Action, digest: Digest)
    requires Inv(store, w)
    ensures SoundBlob(store, Next(store, w, a), digest)
  {
    assert SoundBlob(store, w, digest);
    assert a.call in w.calls ==> SoundCall(store, w, a.call);
  }

  /** The call that moves stays sound. */
  lemma OwnStep(store: Store, w: World, a: Action)
    requires Inv(store, w) && a.call in Next(store, w, a).calls
    ensures SoundCall(store, Next(store, w, a), a.call)
  {
    assert a.call in w.calls ==> SoundCall(store, w, a.call);
  }

  /** A step changes no other call's phase and forgets no file. */
  lemma OtherPhasesFrame(store: Store, w: World, a: Action, call: nat)
    requires call in w.calls && call != a.call
    ensures var next := Next(store, w, a);
            call in next.calls && next.calls[call] == w.calls[call] && w.data.Keys <= next.data.Keys
  {
  }

  /** A step leaves every other call's temporary file in place. */
  lemma OtherPathsFrame(store: Store, w: World, a: Action, call: nat, temp: Path)
    requires call in w.calls && call != a.call && OwnsTemporary(w.calls[call]) && w.calls[call].temp == temp
    requires temp.Temporary? && temp in w.paths
    requires a.call in w.calls ==> Apart(w.calls[call], w.calls[a.call])
    ensures temp in Next(store, w, a).paths && Next(store, w, a).paths[temp] == w.paths[temp]
  {
  }

  /** A step leaves the bytes every other call owns. */
  lemma OtherBytesFrame(store: Store, w: World, a: Action, call: nat, node: nat)
    requires call in w.calls && call != a.call && OwnsNode(w.calls[call]) && w.calls[call].node == node && node in w.data
    requires a.call in w.calls ==> Apart(w.calls[call], w.calls[a.call])
    ensures node in Next(store, w, a).data && Next(store, w, a).data[node] == w.data[node]
  {
  }

  /** No step links a file that another call still writes. */
  lemma OtherFilesStayUnlinked(store: Store, w: World, a: Action, call: nat, digest: Digest)
    requires Inv(store, w) && call in w.calls && call != a.call && w.calls[call].Streaming?
    requires Blob(digest) in Next(store, w, a).paths
    ensures Next(store, w, a).paths[Blob(digest)] != w.calls[call].node
  {
    assert SoundCall(store, w, call);
    assert a.call in w.calls ==> SoundCall(store, w, a.call);
    assert a.call in w.calls ==> Apart(w.calls[call], w.calls[a.call]);
  }

  lemma SoundCallStep(store: Store, w: World, a: Action, call: nat)
    requires Inv(store, w) && call in Next(store, w, a).calls
    ensures SoundCall(store, Next(store, w, a), call)
  {
    if call == a.call {
      OwnStep(store, w, a);
    } else {
      OtherStep(store, w, a, call, Next(store, w, a));
    }
  }

  lemma NoCallAppears(store: Store, w: World, a: Action, call: nat)
    requires call in Next(store, w, a).calls && call != a.call
    ensures call in w.calls
  {
  }

  lemma OtherStep(store: Store, w: World, a: Action, call: nat, next: World)
    requires Inv(store, w) && next == Next(store, w, a) && call in next.calls && call != a.call
    ensures SoundCall(store, next, call)
  {
    NoCallAppears(store, w, a, call);
    assert SoundCall(store, w, call);
    var phase := w.calls[call];
    OtherPhasesFrame(store, w, a, call);
    if OwnsTemporary(phase) { OtherPathsFrame(store, w, a, call, phase.temp); }
    if OwnsNode(phase) { OtherBytesFrame(store, w, a, call, phase.node); }
    forall digest | Blob(digest) in next.paths && w.calls[call].Streaming?
      ensures next.paths[Blob(digest)] != w.calls[call].node
    {
      OtherFilesStayUnlinked(store, w, a, call, digest);
    }
  }

  /** A call that moves stays apart from the others: what it newly owns did not exist before. */
  lemma OwnStaysApart(store: Store, w: World, a: Action, other: nat)
    requires Inv(store, w) && a.call in Next(store, w, a).calls && other in w.calls && other != a.call
    ensures Apart(Next(store, w, a).calls[a.call], w.calls[other])
  {
    assert SoundCall(store, w, other);
    assert a.call in w.calls ==> SoundCall(store, w, a.call);
    assert a.call in w.calls ==> Apart(w.calls[a.call], w.calls[other]);
  }

  lemma ApartStep(store: Store, w: World, a: Action, x: nat, y: nat)
    requires Inv(store, w) && x in Next(store, w, a).calls && y in Next(store, w, a).calls && x != y
    ensures Apart(Next(store, w, a).calls[x], Next(store, w, a).calls[y])
  {
    ApartFor(store, w, a, Next(store, w, a), x, y);
  }

  lemma ApartFor(store: Store, w: World, a: Action, next: World, x: nat, y: nat)
    requires Inv(store, w) && next == Next(store, w, a) && x in next.calls && y in next.calls && x != y
    ensures Apart(next.calls[x], next.calls[y])
  {
    if x != a.call {
      NoCallAppears(store, w, a, x);
      OtherPhasesFrame(store, w, a, x);
    }
    if y != a.call {
      NoCallAppears(store, w, a, y);
      OtherPhasesFrame(store, w, a, y);
    }
    if x == a.call {
      OwnStaysApart(store, w, a, y);
    } else if y == a.call {
      OwnStaysApart(store, w, a, x);
    } else {
      assert Apart(w.calls[x], w.calls[y]);
    }
  }

  /** Every step of every call keeps the invariant. */
  lemma InvStep(store: Store, w: World, a: Action)
    requires Inv(store, w)
    ensures Inv(store, Next(store, w, a))
  {
    var next := Next(store, w, a);
    PathsStep(store, w, a);
    forall digest
      ensures SoundBlob(store, next, digest)
    {
      SoundBlobStep(store, w, a, digest);
    }
    forall call | call in next.calls
      ensures SoundCall(store, next, call)
    {
      SoundCallStep(store, w, a, call);
    }
    forall x, y | x in next.calls && y in next.calls && x != y
      ensures Apart(next.calls[x], next.calls[y])
    {
      ApartStep(store, w, a, x, y);
    }
  }

  lemma PathsStep(store: Store, w: World, a: Action)
    requires Inv(store, w)
    ensures var next := Next(store, w, a); forall path | path in next.paths :: next.paths[path] in next.data
  {
    assert a.call in w.calls ==> SoundCall(store, w, a.call);
  }

  // ----- whole runs -----

  function After(store: Store, w: World, actions: seq<Action>): World {
    if actions == [] then w
    else Next(store, After(store, w, actions[..|actions| - 1]), actions[|actions| - 1])
  }

  lemma {:induction false} InvAlways(store: Store, w: World, actions: seq<Action>)
    requires Inv(store, w)
    ensures Inv(store, After(store, w, actions))
  {
    if actions != [] {
      InvAlways(store, w, actions[..|actions| - 1]);
      InvStep(store, After(store, w, actions[..|actions| - 1]), actions[|actions| - 1]);
    }
  }

  /** At every moment of every interleaving, the bytes found at a digest path hash to its name. */
  lemma ContentAlwaysHashesToItsName(store: Store, w: World, actions: seq<Action>, digest: Digest)
    requires Inv(store, w)
    ensures var found := Content(After(store, w, actions), Blob(digest));
            && (Blob(digest) in After(store, w, actions).paths ==> found.Some?)
            && (found.Some? ==> store.hash(found.value) == digest)
  {
    InvAlways(store, w, actions);
    assert SoundBlob(store, After(store, w, actions), digest);
  }

  /** The step that takes a digest path away: a deleter that has read and confirmed the bytes. */
  predicate RemovesDigest(w: World, a: Action, digest: Digest) {
    a.Remove? && a.call in w.calls && w.calls[a.call].Confirmed? && w.calls[a.call].ref.sha256 == digest
  }

  /** An existing digest path is never overwritten, and only a confirmed deletion takes it away. */
  lemma NeverOverwritten(store: Store, w: World, a: Action, digest: Digest)
    requires Inv(store, w) && Blob(digest) in w.paths
    ensures !RemovesDigest(w, a, digest) ==> Blob(digest) in Next(store, w, a).paths
    ensures Blob(digest) in Next(store, w, a).paths ==>
              Content(Next(store, w, a), Blob(digest)) == Content(w, Blob(digest))
  {
    assert SoundBlob(store, w, digest);
    assert a.call in w.calls ==> SoundCall(store, w, a.call);
  }

  /** The reference verifies: its path leads to bytes that match it. */
  ghost predicate Verifies(store: Store, w: World, ref: BlobRef) {
    var found := Content(w, Blob(ref.sha256));
    found.Some? && Matches(store, ref, found.value)
  }

  /** No step of a stretch of the run removes the digest. */
  ghost predicate KeptBetween(store: Store, w: World, actions: seq<Action>, digest: Digest, from: nat, until: nat) {
    forall k | from <= k < until && k < |actions| :: !RemovesDigest(After(store, w, actions[..k]), actions[k], digest)
  }

  lemma {:induction false} StaysVerified(store: Store, w: World, actions: seq<Action>, ref: BlobRef, from: nat, until: nat)
    requires Inv(store, w) && from <= until <= |actions|
    requires Verifies(store, After(store, w, actions[..from]), ref)
    requires KeptBetween(store, w, actions, ref.sha256, from, until)
    ensures Verifies(store, After(store, w, actions[..until]), ref)
    decreases until
  {
    if until > from {
      var last := until - 1;
      StaysVerified(store, w, actions, ref, from, last);
      InvAlways(store, w, actions[..last]);
      AfterOneMore(store, w, actions, last);
      assert !RemovesDigest(After(store, w, actions[..last]), actions[last], ref.sha256);
      VerifiesStep(store, After(store, w, actions[..last]), actions[last], ref);
    }
  }

  lemma AfterOneMore(store: Store, w: World, actions: seq<Action>, k: nat)
    requires k < |actions|
    ensures After(store, w, actions[..k + 1]) == Next(store, After(store, w, actions[..k]), actions[k])
  {
    assert actions[..k + 1][..k] == actions[..k];
  }

  lemma VerifiesStep(store: Store, w: World, a: Action, ref: BlobRef)
    requires Inv(store, w) && Verifies(store, w, ref) && !RemovesDigest(w, a, ref.sha256)
    ensures Verifies(store, Next(store, w, a), ref)
  {
    NeverOverwritten(store, w, a, ref.sha256);
  }

  /** The call has linked its file, or found an existing one of the right length and is now re-reading it. */
  predicate IsAssured(w: World, call: nat, ref: BlobRef) {
    && call in w.calls
    && match w.calls[call]
       case Linked(r, _) => r == ref
       case Opening(goal, r) => goal.Publishing? && r == ref
       case Reading(goal, r, _, _) => goal.Publishing? && r == ref
       case Published(r) => r == ref
       case _ => false
  }

  /** A call becomes assured only by its own link or length check. */
  lemma AssuredBy(store: Store, w: World, a: Action, call: nat, ref: BlobRef)
    requires IsAssured(Next(store, w, a), call, ref) && !IsAssured(w, call, ref)
    ensures a.call == call && (a.Link? || a.Measure?) && call in w.calls
    ensures a.Link? ==> w.calls[call].Ready? && w.calls[call].ref == ref && Blob(ref.sha256) !in w.paths
    ensures a.Measure? ==> w.calls[call] == Measuring(Publishing, ref)
  {
  }

  /** At that moment the reference verifies. */
  lemma AssuredStep(store: Store, w: World, a: Action, call: nat, ref: BlobRef)
    requires Inv(store, w) && IsAssured(Next(store, w, a), call, ref) && !IsAssured(w, call, ref)
    ensures a.call == call && (a.Link? || a.Measure?)
    ensures Verifies(store, Next(store, w, a), ref)
  {
    AssuredBy(store, w, a, call, ref);
    assert SoundBlob(store, w, ref.sha256);
    assert SoundCall(store, w, call);
  }

  /** A call confirms or finishes a comparison only by its own step, having read the whole file and found the digest. */
  lemma ComparisonReadsAll(store: Store, w: World, a: Action, call: nat, ref: BlobRef)
    requires call in w.calls && call in Next(store, w, a).calls && w.calls[call].Reading?
    requires Next(store, w, a).calls[call] == Confirmed(ref) || Next(store, w, a).calls[call] == Published(ref)
    ensures a == Compare(call) && w.calls[call].ref == ref
    ensures var reading := w.calls[call];
            && reading.node in w.data && reading.count == |w.data[reading.node]|
            && store.hash(w.data[reading.node]) == ref.sha256
            && (reading.goal.Deletion? ==> |w.data[reading.node]| == ref.sizeBytes)
  {
  }

  /** Only a comparison confirms, and only a confirmed call of that reference removes. */
  lemma RemovalIsConfirmed(store: Store, w: World, a: Action, call: nat, ref: BlobRef)
    requires call in Next(store, w, a).calls && !(call in w.calls && w.calls[call] == Next(store, w, a).calls[call])
    ensures Next(store, w, a).calls[call] == Confirmed(ref) ==> call in w.calls && w.calls[call].Reading? && a == Compare(call)
    ensures Next(store, w, a).calls[call] == Removed(ref) ==>
              && a == Remove(call) && call in w.calls && w.calls[call] == Confirmed(ref)
              && Blob(ref.sha256) in w.paths && Blob(ref.sha256) !in Next(store, w, a).paths
  {
  }

  /** A deletion reports success, or that there was nothing to delete, only in a state where the path is absent. */
  lemma DeletionReportsAbsence(store: Store, w: World, a: Action, call: nat, ref: BlobRef)
    requires call in Next(store, w, a).calls && !(call in w.calls && w.calls[call] == Next(store, w, a).calls[call])
    requires Next(store, w, a).calls[call] == Deleted(ref) || Next(store, w, a).calls[call] == AlreadyAbsent(ref)
    ensures Blob(ref.sha256) !in w.paths && Next(store, w, a).paths == w.paths
    ensures Next(store, w, a).calls[call] == Deleted(ref) ==> call in w.calls && w.calls[call] == Removed(ref)
  {
  }

  /** A re-read opens the digest path of its reference, and only grows until the whole file is read. */
  lemma ReadingFollowsThePath(store: Store, w: World, a: Action, call: nat)
    requires call in Next(store, w, a).calls && Next(store, w, a).calls[call].Reading?
    requires !(call in w.calls && w.calls[call] == Next(store, w, a).calls[call])
    ensures var reading := Next(store, w, a).calls[call];
            if a.Open? then Blob(reading.ref.sha256) in w.paths && reading.node == w.paths[Blob(reading.ref.sha256)] && reading.count == 0
            else a.Read? && call in w.calls && w.calls[call].Reading? && reading == w.calls[call].(count := reading.count)
                 && reading.node in w.data && reading.count <= |w.data[reading.node]|
  {
  }

  /** The moment a call became assured. */
  lemma {:induction false} AssuredSince(store: Store, w: World, actions: seq<Action>, call: nat, ref: BlobRef)
    returns (i: nat)
    requires Inv(store, w) && call !in w.calls && IsAssured(After(store, w, actions), call, ref)
    ensures 0 < i <= |actions| && actions[i - 1].call == call && (actions[i - 1].Link? || actions[i - 1].Measure?)
    ensures Verifies(store, After(store, w, actions[..i]), ref)
  {
    var last := |actions| - 1;
    if IsAssured(After(store, w, actions[..last]), call, ref) {
      i := AssuredSince(store, w, actions[..last], call, ref);
      assert actions[..i] == actions[..last][..i];
    } else {
      InvAlways(store, w, actions[..last]);
      AssuredStep(store, After(store, w, actions[..last]), actions[last], call, ref);
      i := |actions|;
      assert actions[..i] == actions;
    }
  }

  /**
   * A publication that returned success did so after its own link or length check, and from that
   * moment on its reference verifies for as long as nobody deletes that digest.
   */
  lemma PublishedVerifies(store: Store, w: World, actions: seq<Action>, call: nat, ref: BlobRef) returns (i: nat)
    requires Inv(store, w) && call !in w.calls
    requires call in After(store, w, actions).calls && After(store, w, actions).calls[call] == Published(ref)
    ensures 0 < i <= |actions| && actions[i - 1].call == call && (actions[i - 1].Link? || actions[i - 1].Measure?)
    ensures forall m | i <= m <= |actions| && KeptBetween(store, w, actions, ref.sha256, i, m) ::
              Verifies(store, After(store, w, actions[..m]), ref)
  {
    i := AssuredSince(store, w, actions, call, ref);
    forall m | i <= m <= |actions| && KeptBetween(store, w, actions, ref.sha256, i, m)
      ensures Verifies(store, After(store, w, actions[..m]), ref)
    {
      StaysVerified(store, w, actions, ref, i, m);
    }
  }

  // ----- calls that nobody disturbs -----

  /** A call may start: its identity, its temporary path and its inode are new, and the size is within the limit. */
  ghost predicate CanPublish(store: Store, w: World, call: nat, ref: BlobRef, temp: Path, node: nat) {
    call !in w.calls && temp.Temporary? && temp !in w.paths && node !in w.data && ref.sizeBytes <= store.maxBytes
  }

  /** The call streams one source and finishes. */
  function StreamedFully(store: Store, w: World, call: nat, ref: BlobRef, temp: Path, node: nat, source: Text): World {
    Next(store, Next(store, Next(store, w, StartPublish(call, ref, temp, node)), WriteChunk(call, source)), FinishStream(call))
  }

  function LinkedAndDropped(store: Store, w: World, call: nat): World {
    Next(store, Next(store, w, Link(call)), DropTemporary(call))
  }

  /** The call measures, opens, reads and compares an existing file. */
  function Reread(store: Store, w: World, call: nat, count: nat): World {
    Next(store, Next(store, Next(store, Next(store, w, Measure(call)), Open(call)), Read(call, count)), Compare(call))
  }

  function RemovedAndChecked(store: Store, w: World, call: nat): World {
    Next(store, Next(store, w, Remove(call)), CheckAbsent(call))
  }

  /** Streaming matching bytes makes the temporary file ready to link. */
  lemma StreamsAlone(store: Store, w: World, call: nat, ref: BlobRef, temp: Path, node: nat, source: Text)
    requires CanPublish(store, w, call, ref, temp, node) && Matches(store, ref, source)
    ensures StreamedFully(store, w, call, ref, temp, node, source)
            == w.(paths := w.paths[temp := node], data := w.data[node := source], calls := w.calls[call := Ready(ref, temp, node)])
  {
    var w1 := Next(store, w, StartPublish(call, ref, temp, node));
    var w2 := Next(store, w1, WriteChunk(call, source));
    assert [] + source == source;
    assert w2.data == w1.data[node := source] == w.data[node := source];
  }

  lemma LinksAlone(store: Store, w: World, call: nat, ref: BlobRef, temp: Path, node: nat)
    requires call in w.calls && w.calls[call] == Ready(ref, temp, node)
    requires temp.Temporary? && temp in w.paths && w.paths[temp] == node
    ensures Blob(ref.sha256) !in w.paths ==>
              LinkedAndDropped(store, w, call) ==
              w.(paths := w.paths[Blob(ref.sha256) := node] - {temp}, calls := w.calls[call := Published(ref)])
    ensures Blob(ref.sha256) in w.paths ==>
              LinkedAndDropped(store, w, call) ==
              w.(paths := w.paths - {temp}, calls := w.calls[call := Measuring(Publishing, ref)])
  {
  }

  /** Re-reading an existing file of the right length and digest finishes the comparison. */
  lemma ComparesAlone(store: Store, w: World, call: nat, goal: Goal, ref: BlobRef)
    requires call in w.calls && w.calls[call] == Measuring(goal, ref) && Verifies(store, w, ref)
    ensures Reread(store, w, call, ref.sizeBytes)
            == w.(calls := w.calls[call := if goal.Publishing? then Published(ref) else Confirmed(ref)])
  {
    var node := w.paths[Blob(ref.sha256)];
    var w1 := Next(store, w, Measure(call));
    assert w1 == w.(calls := w.calls[call := Opening(goal, ref)]);
    var w2 := Next(store, w1, Open(call));
    assert w2 == w.(calls := w.calls[call := Reading(goal, ref, node, 0)]);
    var w3 := Next(store, w2, Read(call, ref.sizeBytes));
    assert w3 == w.(calls := w.calls[call := Reading(goal, ref, node, ref.sizeBytes)]);
  }

  lemma RemovesAlone(store: Store, w: World, call: nat, ref: BlobRef)
    requires call in w.calls && w.calls[call] == Confirmed(ref) && Blob(ref.sha256) in w.paths
    ensures RemovedAndChecked(store, w, call)
            == w.(paths := w.paths - {Blob(ref.sha256)}, calls := w.calls[call := Deleted(ref)])
  {
  }

  /** A publication of matching bytes that nobody disturbs leaves them at a digest path that was absent, and no temporary file. */
  lemma PublishesAlone(store: Store, w: World, call: nat, ref: BlobRef, temp: Path, node: nat, source: Text)
    requires CanPublish(store, w, call, ref, temp, node) && Matches(store, ref, source) && Blob(ref.sha256) !in w.paths
    ensures var after := LinkedAndDropped(store, StreamedFully(store, w, call, ref, temp, node, source), call);
            after == w.(paths := w.paths[Blob(ref.sha256) := node], data := w.data[node := source],
                        calls := w.calls[call := Published(ref)])
  {
    StreamsAlone(store, w, call, ref, temp, node, source);
    LinksAlone(store, StreamedFully(store, w, call, ref, temp, node, source), call, ref, temp, node);
    assert w.paths[temp := node][Blob(ref.sha256) := node] - {temp} == w.paths[Blob(ref.sha256) := node];
  }

  /** Publishing what is already there succeeds too, and leaves every path as it was. */
  lemma RepublishesAlone(store: Store, w: World, call: nat, ref: BlobRef, temp: Path, node: nat, source: Text)
    requires CanPublish(store, w, call, ref, temp, node) && Matches(store, ref, source) && Verifies(store, w, ref)
    ensures var collided := LinkedAndDropped(store, StreamedFully(store, w, call, ref, temp, node, source), call);
            Reread(store, collided, call, ref.sizeBytes)
            == w.(data := w.data[node := source], calls := w.calls[call := Published(ref)])
  {
    StreamsAlone(store, w, call, ref, temp, node, source);
    LinksAlone(store, StreamedFully(store, w, call, ref, temp, node, source), call, ref, temp, node);
    var collided := w.(data := w.data[node := source], calls := w.calls[call := Measuring(Publishing, ref)]);
    assert w.paths[temp := node] - {temp} == w.paths;
    assert w.calls[call := Ready(ref, temp, node)][call := Measuring(Publishing, ref)] == collided.calls;
    ComparesAlone(store, collided, call, Publishing, ref);
    assert collided.calls[call := Published(ref)] == w.calls[call := Published(ref)];
  }

  /** A deletion of a verifying reference that nobody disturbs removes exactly that path; of an absent one, nothing. */
  lemma DeletesAlone(store: Store, w: World, call: nat, ref: BlobRef)
    requires call !in w.calls
    ensures Blob(ref.sha256) !in w.paths ==>
              Next(store, w, StartDelete(call, ref)) == w.(calls := w.calls[call := AlreadyAbsent(ref)])
    ensures Verifies(store, w, ref) ==>
              RemovedAndChecked(store, Reread(store, Next(store, w, StartDelete(call, ref)), call, ref.sizeBytes), call)
              == w.(paths := w.paths - {Blob(ref.sha256)}, calls := w.calls[call := Deleted(ref)])
  {
    if Verifies(store, w, ref) {
      var measuring := w.(calls := w.calls[call := Measuring(Deletion, ref)]);
      StartsDeletion(store, w, call, ref);
      ComparesAlone(store, measuring, call, Deletion, ref);
      var confirmed := w.(calls := w.calls[call := Confirmed(ref)]);
      assert measuring.calls[call := Confirmed(ref)] == confirmed.calls;
      RemovesAlone(store, confirmed, call, ref);
      assert confirmed.calls[call := Deleted(ref)] == w.calls[call := Deleted(ref)];
    }
  }

  lemma StartsDeletion(store: Store, w: World, call: nat, ref: BlobRef)
    requires call !in w.calls && Blob(ref.sha256) in w.paths
    ensures Next(store, w, StartDelete(call, ref)) == w.(calls := w.calls[call := Measuring(Deletion, ref)])
  {
  }
}
