/** The bounded walk along signed manifests and their parent links. */
module ManifestChain {
  import opened Common

  type Digest = string

  datatype BlobRef = BlobRef(owner: string, sha256: Digest, mediaType: string, sizeBytes: nat)

  datatype Manifest = Manifest(parentManifest: Option<BlobRef>, evidence: string, signingKeyId: string, signature: string)

  datatype ManifestError =
    | InvalidSigningKey | InvalidVerificationKey | UnknownSigningKey | InvalidSignature | Serialization
    | InvalidLfsEvidence | MissingManifest | ChainCycle | ChainTooDeep

  datatype Loaded = Loaded(manifest: Manifest) | LoadFailed(error: ManifestError)

  datatype Verdict = Verified(chain: seq<BlobRef>) | Rejected(error: ManifestError)

  /** What the walk reads: immutable storage, and the trusted keys' verdict on a manifest. */
  datatype Sources = Sources(load: BlobRef -> Loaded, distrust: Manifest -> Option<ManifestError>)

  /** Loaded, and signed by a trusted key. */
  predicate IsTrusted(sources: Sources, ref: BlobRef) {
    var loaded := sources.load(ref);
    loaded.Loaded? && sources.distrust(loaded.manifest).None?
  }

  function ParentOf(sources: Sources, ref: BlobRef): Option<BlobRef> {
    var loaded := sources.load(ref);
    if loaded.Loaded? then loaded.manifest.parentManifest else None
  }

  /** A path from the head along parent links. */
  ghost predicate IsParentPath(sources: Sources, head: BlobRef, path: seq<BlobRef>) {
    && |path| > 0 && path[0] == head
    && forall i | 0 <= i < |path| - 1 :: ParentOf(sources, path[i]) == Some(path[i + 1])
  }

  ghost predicate DistinctDigests(path: seq<BlobRef>) {
    forall i, j | 0 <= i < j < |path| :: path[i].sha256 != path[j].sha256
  }

  function DigestsOf(path: seq<BlobRef>): set<Digest> {
    set ref | ref in path :: ref.sha256
  }

  ghost predicate IsClean(sources: Sources, path: seq<BlobRef>) {
    DistinctDigests(path) && forall ref | ref in path :: IsTrusted(sources, ref)
  }

  /** The path ends in a manifest without a parent, within the bound, and everything on it is sound. */
  ghost predicate IsSoundChain(sources: Sources, head: BlobRef, maxDepth: nat, path: seq<BlobRef>) {
    && IsParentPath(sources, head, path) && |path| <= maxDepth && IsClean(sources, path)
    && ParentOf(sources, path[|path| - 1]) == None
  }

  /** Everything on the path before its last reference is sound, and the last one is where the walk fails. */
  ghost predicate FailsAtEnd(sources: Sources, head: BlobRef, maxDepth: nat, path: seq<BlobRef>, error: ManifestError) {
    && IsParentPath(sources, head, path) && |path| <= maxDepth + 1
    && var last := path[|path| - 1]; var before := path[..|path| - 1];
    && IsClean(sources, before)
    && if |path| == maxDepth + 1 then error == ChainTooDeep
       else if last.sha256 in DigestsOf(before) then error == ChainCycle
       else
         match sources.load(last)
         case LoadFailed(e) => error == e
         case Loaded(manifest) => sources.distrust(manifest) == Some(error)
  }

  /** The path that accounts for a verdict. */
  ghost predicate Explains(sources: Sources, head: BlobRef, maxDepth: nat, path: seq<BlobRef>, verdict: Verdict) {
    match verdict
    case Verified(chain) => chain == path && IsSoundChain(sources, head, maxDepth, path)
    case Rejected(error) => FailsAtEnd(sources, head, maxDepth, path, error)
  }

  /** Walks from the head; the walk loads at most `maxDepth` manifests. */
  method VerifyManifestChain(sources: Sources, head: BlobRef, maxDepth: nat) returns (verdict: Verdict)
    ensures exists path :: Explains(sources, head, maxDepth, path, verdict)
  {
    var visited: set<Digest> := {};
    var chain: seq<BlobRef> := [];
    var current := head;
    while |chain| < maxDepth
      invariant |chain| <= maxDepth
      invariant IsParentPath(sources, head, chain + [current]) && IsClean(sources, chain)
      invariant visited == DigestsOf(chain)
      decreases maxDepth - |chain|
    {
      ghost var path := chain + [current];
      assert path[..|path| - 1] == chain;
      if current.sha256 in visited {
        verdict := Rejected(ChainCycle);
        assert Explains(sources, head, maxDepth, path, verdict);
        return;
      }
      visited := visited + {current.sha256};
      var loaded := sources.load(current);
      if loaded.LoadFailed? {
        verdict := Rejected(loaded.error);
        assert Explains(sources, head, maxDepth, path, verdict);
        return;
      }
      var distrust := sources.distrust(loaded.manifest);
      if distrust.Some? {
        verdict := Rejected(distrust.value);
        assert Explains(sources, head, maxDepth, path, verdict);
        return;
      }
      VisitedGrows(sources, chain, current);
      chain := chain + [current];
      if loaded.manifest.parentManifest.None? {
        verdict := Verified(chain);
        assert Explains(sources, head, maxDepth, path, verdict);
        return;
      }
      ghost var next := chain + [loaded.manifest.parentManifest.value];
      assert next[..|next| - 1] == chain;
      forall i | 0 <= i < |next| - 1
        ensures ParentOf(sources, next[i]) == Some(next[i + 1])
      {
        assert next[i] == path[i];
        if i < |path| - 1 {
          assert next[i + 1] == path[i + 1];
        }
      }
      current := loaded.manifest.parentManifest.value;
    }
    verdict := Rejected(ChainTooDeep);
    ghost var path := chain + [current];
    assert path[..|path| - 1] == chain;
    assert Explains(sources, head, maxDepth, path, verdict);
  }

  lemma VisitedGrows(sources: Sources, chain: seq<BlobRef>, current: BlobRef)
    requires IsClean(sources, chain) && IsTrusted(sources, current)
    requires current.sha256 !in DigestsOf(chain)
    ensures IsClean(sources, chain + [current])
    ensures DigestsOf(chain + [current]) == DigestsOf(chain) + {current.sha256}
  {
    assert current in chain + [current];
    forall ref | ref in chain
      ensures ref in chain + [current] && ref.sha256 in DigestsOf(chain)
    {
    }
  }

  /** Parent paths from one head agree as far as both go. */
  lemma {:induction false} PathsAgree(sources: Sources, head: BlobRef, a: seq<BlobRef>, b: seq<BlobRef>, i: nat)
    requires IsParentPath(sources, head, a) && IsParentPath(sources, head, b) && i < |a| && i < |b|
    ensures a[i] == b[i]
  {
    if i > 0 {
      PathsAgree(sources, head, a, b, i - 1);
      assert ParentOf(sources, a[i - 1]) == Some(a[i - 1 + 1]);
      assert ParentOf(sources, b[i - 1]) == Some(b[i - 1 + 1]);
    }
  }

  /** Whether the walk stops at the last reference of a path. */
  ghost predicate StopsAtEnd(sources: Sources, maxDepth: nat, path: seq<BlobRef>)
    requires path != []
  {
    var last := path[|path| - 1];
    || |path| == maxDepth + 1 || last.sha256 in DigestsOf(path[..|path| - 1])
    || !IsTrusted(sources, last) || ParentOf(sources, last).None?
  }

  lemma PassesBeforeEnd(sources: Sources, head: BlobRef, maxDepth: nat, path: seq<BlobRef>, verdict: Verdict, k: nat)
    requires Explains(sources, head, maxDepth, path, verdict) && 0 < k < |path|
    ensures !StopsAtEnd(sources, maxDepth, path[..k])
  {
    var before := path[..k];
    LastIsNew(before);
    assert path[k - 1] in path && path[..|path| - 1][k - 1] in path[..|path| - 1];
    assert ParentOf(sources, path[k - 1]) == Some(path[k - 1 + 1]);
  }

  /** A path that accounts for a verdict cannot go past the end of another one that does. */
  lemma NoLongerExplanation(
    sources: Sources, head: BlobRef, maxDepth: nat, p: seq<BlobRef>, v: Verdict, q: seq<BlobRef>, w: Verdict)
    requires Explains(sources, head, maxDepth, p, v) && Explains(sources, head, maxDepth, q, w)
    ensures |q| <= |p|
  {
    assert StopsAtEnd(sources, maxDepth, p);
    if |p| < |q| {
      forall i | 0 <= i < |p|
        ensures p[i] == q[i]
      {
        PathsAgree(sources, head, p, q, i);
      }
      assert q[..|p|] == p;
      PassesBeforeEnd(sources, head, maxDepth, q, w, |p|);
    }
  }

  /**
   * The verdict is determined: of all failures along the parent path the first in walk order is
   * reported, and only that one.
   */
  lemma VerdictIsUnique(
    sources: Sources, head: BlobRef, maxDepth: nat, p: seq<BlobRef>, v: Verdict, q: seq<BlobRef>, w: Verdict)
    requires Explains(sources, head, maxDepth, p, v) && Explains(sources, head, maxDepth, q, w)
    ensures p == q && v == w
  {
    NoLongerExplanation(sources, head, maxDepth, p, v, q, w);
    NoLongerExplanation(sources, head, maxDepth, q, w, p, v);
    forall i | 0 <= i < |p|
      ensures p[i] == q[i]
    {
      PathsAgree(sources, head, p, q, i);
    }
    assert p == q;
    if v.Verified? || w.Verified? {
      LastIsNew(p);
      assert p[|p| - 1] in p;
    }
  }

  lemma LastIsNew(path: seq<BlobRef>)
    requires DistinctDigests(path) && path != []
    ensures path[|path| - 1].sha256 !in DigestsOf(path[..|path| - 1])
  {
  }

  /** The walk succeeds exactly when a sound chain exists, and then returns that chain. */
  lemma SuccessIsSoundness(sources: Sources, head: BlobRef, maxDepth: nat, p: seq<BlobRef>, v: Verdict)
    requires Explains(sources, head, maxDepth, p, v)
    ensures v.Verified? <==> exists path :: IsSoundChain(sources, head, maxDepth, path)
    ensures forall path | IsSoundChain(sources, head, maxDepth, path) :: v == Verified(path)
  {
    forall path | IsSoundChain(sources, head, maxDepth, path)
      ensures v == Verified(path)
    {
      assert Explains(sources, head, maxDepth, path, Verified(path));
      VerdictIsUnique(sources, head, maxDepth, p, v, path, Verified(path));
    }
    if v.Verified? {
      assert IsSoundChain(sources, head, maxDepth, p);
    }
  }

  /** What a verified chain is, link by link: loaded, trusted, each the parent of the one before, the last without one. */
  lemma VerifiedChainIs(sources: Sources, head: BlobRef, maxDepth: nat, p: seq<BlobRef>, chain: seq<BlobRef>)
    requires Explains(sources, head, maxDepth, p, Verified(chain))
    ensures 0 < |chain| <= maxDepth && chain[0] == head
    ensures forall i | 0 <= i < |chain| ::
              && sources.load(chain[i]).Loaded? && sources.distrust(sources.load(chain[i]).manifest) == None
              && sources.load(chain[i]).manifest.parentManifest == if i + 1 < |chain| then Some(chain[i + 1]) else None
    ensures forall i, j | 0 <= i < j < |chain| :: chain[i].sha256 != chain[j].sha256
  {
    forall i | 0 <= i < |chain|
      ensures && sources.load(chain[i]).Loaded? && sources.distrust(sources.load(chain[i]).manifest) == None
              && sources.load(chain[i]).manifest.parentManifest == if i + 1 < |chain| then Some(chain[i + 1]) else None
    {
      assert chain[i] in chain && IsTrusted(sources, chain[i]);
      assert i + 1 < |chain| ==> ParentOf(sources, chain[i]) == Some(chain[i + 1]);
    }
  }

  /** Raising the bound never changes a verdict other than "too deep". */
  lemma DeeperBoundAgrees(sources: Sources, head: BlobRef, low: nat, high: nat, p: seq<BlobRef>, v: Verdict, q: seq<BlobRef>, w: Verdict)
    requires low <= high && Explains(sources, head, low, p, v) && |p| <= low && Explains(sources, head, high, q, w)
    ensures v == w && p == q
  {
    assert Explains(sources, head, high, p, v);
    VerdictIsUnique(sources, head, high, p, v, q, w);
  }

  /** When storage holds fewer digests than the bound, the walk never gives up for depth: a loop is always reported as one. */
  lemma LoopsAreFound(sources: Sources, head: BlobRef, maxDepth: nat, p: seq<BlobRef>, v: Verdict, stored: set<Digest>)
    requires Explains(sources, head, maxDepth, p, v)
    requires forall ref | sources.load(ref).Loaded? :: ref.sha256 in stored
    requires |stored| < maxDepth
    ensures |p| <= maxDepth
  {
    if |p| == maxDepth + 1 {
      var before := p[..maxDepth];
      assert before == p[..|p| - 1];
      forall i | 0 <= i < |before|
        ensures before[i].sha256 in stored
      {
        assert before[i] in before && IsTrusted(sources, before[i]);
      }
      PigeonHole(before, stored);
    }
  }

  lemma {:induction false} PigeonHole(path: seq<BlobRef>, stored: set<Digest>)
    requires DistinctDigests(path) && forall i | 0 <= i < |path| :: path[i].sha256 in stored
    ensures |path| <= |stored|
  {
    if path != [] {
      var last := |path| - 1;
      PigeonHole(path[..last], stored - {path[last].sha256});
    }
  }
}
