/** Git LFS evidence: building it, validating it, and what its aggregate digest identifies. */
module LfsEvidence {
  import opened Common
  import opened Sorting
  import opened ByteText

  datatype BlobRef = BlobRef(owner: Text, sha256: Text, mediaType: Text, sizeBytes: U64)

  datatype LfsObject = LfsObject(oid: Text, blob: BlobRef)

  datatype Evidence = Evidence(toolVersion: Text, objects: seq<LfsObject>, totalBytes: nat, aggregateSha256: Text)

  /** "ratatoskr-vault" */
  const OWNER: Text :=
    [0x72, 0x61, 0x74, 0x61, 0x74, 0x6f, 0x73, 0x6b, 0x72, 0x2d, 0x76, 0x61, 0x75, 0x6c, 0x74]

  /** "application/octet-stream" */
  const MEDIA_TYPE: Text :=
    [0x61, 0x70, 0x70, 0x6c, 0x69, 0x63, 0x61, 0x74, 0x69, 0x6f, 0x6e, 0x2f,
     0x6f, 0x63, 0x74, 0x65, 0x74, 0x2d, 0x73, 0x74, 0x72, 0x65, 0x61, 0x6d]

  /** The digest function, applied to the whole canonical stream. */
  type Hash = Text -> Text

  // ----- the hashed stream -----

  function LfsRecord(item: LfsObject): Text {
    item.oid + [SPACE] + Decimal(item.blob.sizeBytes) + [SPACE] + item.blob.sha256 + [LF]
  }

  function LfsStream(objects: seq<LfsObject>): Text {
    if objects == [] then [] else LfsRecord(objects[0]) + LfsStream(objects[1..])
  }

  method CanonicalLfsDigest(objects: seq<LfsObject>, hash: Hash) returns (digest: Text)
    ensures digest == hash(LfsStream(objects))
  {
    var stream: Text := [];
    for i := 0 to |objects|
      invariant stream + LfsStream(objects[i..]) == LfsStream(objects)
    {
      assert objects[i..][1..] == objects[i + 1..];
      stream := stream + LfsRecord(objects[i]);
    }
    assert objects[|objects|..] == [];
    assert stream == LfsStream(objects);
    digest := hash(stream);
  }

  // ----- validation -----

  predicate IsHexDigest(oid: Text) {
    |oid| == 64 && forall b | b in oid :: IsDigit(b) || 0x61 <= b <= 0x66
  }

  /** An object whose identifier, digest and placement agree. */
  predicate IsSoundObject(item: LfsObject) {
    && item.oid == item.blob.sha256 && IsHexDigest(item.oid)
    && item.blob.owner == OWNER && item.blob.mediaType == MEDIA_TYPE
  }

  /** The sum of the sizes, held at the largest 64-bit value once it would pass it. */
  function TotalBytes(objects: seq<LfsObject>): (total: nat)
    ensures total <= U64_MAX
  {
    if objects == [] then 0
    else
      var sum := TotalBytes(objects[..|objects| - 1]) + objects[|objects| - 1].blob.sizeBytes;
      if sum > U64_MAX then U64_MAX else sum
  }

  /** The true sum of the sizes. */
  function TrueTotal(objects: seq<LfsObject>): nat {
    if objects == [] then 0 else TrueTotal(objects[..|objects| - 1]) + objects[|objects| - 1].blob.sizeBytes
  }

  /** The total is the true sum, held at the largest 64-bit value. */
  lemma {:induction false} TotalIsSaturated(objects: seq<LfsObject>)
    ensures TotalBytes(objects) == if TrueTotal(objects) > U64_MAX then U64_MAX else TrueTotal(objects)
  {
    if objects != [] {
      TotalIsSaturated(objects[..|objects| - 1]);
    }
  }

  /** Which objects are accepted, field by field. */
  lemma SoundObjectIff(item: LfsObject)
    ensures IsSoundObject(item) <==>
            && item.oid == item.blob.sha256 && |item.oid| == 64
            && (forall k | 0 <= k < 64 && k < |item.oid| ::
                  'a' as int <= item.oid[k] <= 'f' as int || '0' as int <= item.oid[k] <= '9' as int)
            && item.blob.owner == Ascii("ratatoskr-vault") && item.blob.mediaType == Ascii("application/octet-stream")
  {
    assert forall k | 0 <= k < |item.oid| :: item.oid[k] in item.oid;
    assert OWNER == Ascii("ratatoskr-vault");
    assert MEDIA_TYPE == Ascii("application/octet-stream");
  }

  /** An ASCII text as bytes. */
  function Ascii(text: string): Text {
    seq(|text|, i requires 0 <= i < |text| => if text[i] as int < 128 then text[i] as int else 63)
  }

  ghost predicate StrictlyAscending(objects: seq<LfsObject>) {
    forall i, j | 0 <= i < j < |objects| :: LexLeq(objects[i].oid, objects[j].oid) && objects[i].oid != objects[j].oid
  }

  ghost predicate IsValid(evidence: Evidence, hash: Hash) {
    && evidence.toolVersion != [] && evidence.totalBytes == TotalBytes(evidence.objects)
    && evidence.aggregateSha256 == hash(LfsStream(evidence.objects))
    && StrictlyAscending(evidence.objects) && forall item | item in evidence.objects :: IsSoundObject(item)
  }

  method SumBytes(objects: seq<LfsObject>) returns (total: nat)
    ensures total == TotalBytes(objects)
  {
    total := 0;
    for i := 0 to |objects|
      invariant total == TotalBytes(objects[..i])
    {
      assert objects[..i + 1][..i] == objects[..i];
      var sum := total + objects[i].blob.sizeBytes;
      total := if sum > U64_MAX then U64_MAX else sum;
    }
    assert objects[..|objects|] == objects;
  }

  /** Checks the totals, then each object against its predecessor only. */
  method ValidLfs(evidence: Evidence, hash: Hash) returns (valid: bool)
    ensures valid <==> IsValid(evidence, hash)
  {
    var total := SumBytes(evidence.objects);
    var aggregate := CanonicalLfsDigest(evidence.objects, hash);
    if evidence.toolVersion == [] || evidence.totalBytes != total || evidence.aggregateSha256 != aggregate {
      return false;
    }
    var objects := evidence.objects;
    var previous: Option<Text> := None;
    for i := 0 to |objects|
      invariant previous == if i == 0 then None else Some(objects[i - 1].oid)
      invariant StrictlyAscending(objects[..i]) && forall item | item in objects[..i] :: IsSoundObject(item)
    {
      var item := objects[i];
      assert item in objects && objects[..i + 1] == objects[..i] + [item];
      if !IsSoundObject(item) {
        return false;
      }
      if previous.Some? && LexLeq(item.oid, previous.value) {
        NotAscending(objects, i);
        return false;
      }
      AscendingGrows(objects, i);
      previous := Some(item.oid);
    }
    assert objects[..|objects|] == objects;
    valid := true;
  }

  lemma NotAscending(objects: seq<LfsObject>, i: nat)
    requires 0 < i < |objects| && LexLeq(objects[i].oid, objects[i - 1].oid)
    ensures !StrictlyAscending(objects)
  {
    if StrictlyAscending(objects) {
      LexAntisymmetric(objects[i - 1].oid, objects[i].oid);
    }
  }

  lemma AscendingGrows(objects: seq<LfsObject>, i: nat)
    requires i < |objects| && StrictlyAscending(objects[..i])
    requires i > 0 ==> !LexLeq(objects[i].oid, objects[i - 1].oid)
    ensures StrictlyAscending(objects[..i + 1])
  {
    if i > 0 {
      var latest := objects[i].oid;
      forall k | 0 <= k < i
        ensures LexLeq(objects[k].oid, latest) && objects[k].oid != latest
      {
        var a, b := objects[k].oid, objects[i - 1].oid;
        LexTotal(latest, b);
        assert LexLeq(a, b) by {
          LexTotal(a, a);
          assert k < i - 1 ==> LexLeq(objects[..i][k].oid, objects[..i][i - 1].oid);
        }
        LexTransitive(a, b, latest);
        if a == latest {
          assert false;
        }
      }
    }
  }

  // ----- what the stream identifies -----

  lemma RecordSplits(a: LfsObject, x: Text, b: LfsObject, y: Text)
    requires IsSoundObject(a) && IsSoundObject(b) && LfsRecord(a) + x == LfsRecord(b) + y
    ensures a == b && x == y
  {
    var sizeA, sizeB := Decimal(a.blob.sizeBytes), Decimal(b.blob.sizeBytes);
    var tailA, tailB := a.blob.sha256 + [LF] + x, b.blob.sha256 + [LF] + y;
    assert LfsRecord(a) + x == a.oid + [SPACE] + (sizeA + [SPACE] + tailA);
    assert LfsRecord(b) + y == b.oid + [SPACE] + (sizeB + [SPACE] + tailB);
    SplitsOnce(a.oid, sizeA + [SPACE] + tailA, b.oid, sizeB + [SPACE] + tailB, SPACE);
    SplitsOnce(sizeA, tailA, sizeB, tailB, SPACE);
    SplitsOnce(a.blob.sha256, x, b.blob.sha256, y, LF);
    DecimalIsInjective(a.blob.sizeBytes, b.blob.sizeBytes);
  }

  lemma {:induction false} LfsStreamIsInjective(a: seq<LfsObject>, b: seq<LfsObject>)
    requires forall item | item in a :: IsSoundObject(item)
    requires forall item | item in b :: IsSoundObject(item)
    requires LfsStream(a) == LfsStream(b)
    ensures a == b
  {
    if a != [] && b != [] {
      RecordSplits(a[0], LfsStream(a[1..]), b[0], LfsStream(b[1..]));
      LfsStreamIsInjective(a[1..], b[1..]);
      assert a == [a[0]] + a[1..] && b == [b[0]] + b[1..];
    }
  }

  /** Valid evidence with the same hashed bytes is the same evidence, up to the tool that collected it. */
  lemma HashedBytesIdentifyTheEvidence(a: Evidence, b: Evidence, hash: Hash)
    requires IsValid(a, hash) && IsValid(b, hash) && LfsStream(a.objects) == LfsStream(b.objects)
    ensures a == b.(toolVersion := a.toolVersion)
  {
    LfsStreamIsInjective(a.objects, b.objects);
  }

  // ----- building evidence -----

  predicate ByOid(a: LfsObject, b: LfsObject) { LexLeq(a.oid, b.oid) }

  lemma ByOidIsTotal()
    ensures IsTotalPreorder(ByOid)
  {
    forall a: LfsObject, b: LfsObject
      ensures ByOid(a, b) || ByOid(b, a)
    {
      LexTotal(a.oid, b.oid);
    }
    forall a: LfsObject, b: LfsObject, c: LfsObject | ByOid(a, b) && ByOid(b, c)
      ensures ByOid(a, c)
    {
      LexTransitive(a.oid, b.oid, c.oid);
    }
  }

  ghost predicate DistinctOids(objects: seq<LfsObject>) {
    forall i, j | 0 <= i < j < |objects| :: objects[i].oid != objects[j].oid
  }

  lemma {:induction false} DistinctCounts(s: seq<LfsObject>)
    requires DistinctOids(s)
    ensures forall x | x in s :: multiset(s)[x] == 1
    ensures forall x, y | x in s && y in s && x.oid == y.oid :: x == y
  {
    if s != [] {
      var last := |s| - 1;
      DistinctCounts(s[..last]);
      assert s == s[..last] + [s[last]];
      assert s[last] !in s[..last];
    }
  }

  lemma PermutationKeepsDistinct(s: seq<LfsObject>, t: seq<LfsObject>)
    requires DistinctOids(s) && multiset(s) == multiset(t)
    ensures DistinctOids(t)
  {
    DistinctCounts(s);
    forall i, j | 0 <= i < j < |t|
      ensures t[i].oid != t[j].oid
    {
      assert t[i] in multiset(s) && t[j] in multiset(s);
      assert t == t[..j] + [t[j]] + t[j + 1..] && t[i] in t[..j];
      assert multiset(t)[t[j]] == multiset(t[..j])[t[j]] + 1 + multiset(t[j + 1..])[t[j]];
    }
  }

  /** Sorts the observed objects and totals them. */
  method NewEvidence(toolVersion: Text, objects: seq<LfsObject>, hash: Hash) returns (evidence: Evidence)
    ensures evidence.toolVersion == toolVersion && evidence.objects == SortBy(objects, ByOid)
    ensures multiset(evidence.objects) == multiset(objects) && Sorted(evidence.objects, ByOid)
    ensures IsValid(evidence, hash) <==>
              && toolVersion != [] && (forall item | item in objects :: IsSoundObject(item))
              && DistinctOids(objects)
  {
    var sorted := SortBy(objects, ByOid);
    ByOidIsTotal();
    SortKeeps(objects, ByOid);
    SortSorts(objects, ByOid);
    SortMembers(objects, ByOid);
    if DistinctOids(objects) {
      PermutationKeepsDistinct(objects, sorted);
    }
    if DistinctOids(sorted) {
      PermutationKeepsDistinct(sorted, objects);
    }
    var total := SumBytes(sorted);
    var aggregate := CanonicalLfsDigest(sorted, hash);
    evidence := Evidence(toolVersion, sorted, total, aggregate);
  }
}
