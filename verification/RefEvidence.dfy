/** Ref evidence: parsing it, hashing it, and comparing it after a restore drill. */
module RefEvidence {
  import opened Common
  import opened Sorting
  import opened ByteText

  datatype Ref = Ref(name: Text, oid: Text)

  datatype ParseError = MalformedLine | InvalidRef | DuplicateRef

  datatype Parsed = Refs(refs: seq<Ref>) | Refused(error: ParseError)

  predicate IsObjectId(oid: Text) {
    (|oid| == 40 || |oid| == 64) && forall b | b in oid :: IsLowercase(b) || IsDigit(b)
  }

  predicate IsRefName(name: Text) {
    name != [] && forall b | b in name :: !IsControl(b)
  }

  predicate IsValidRef(ref: Ref) { IsObjectId(ref.oid) && IsRefName(ref.name) }

  /** Which refs are accepted, byte by byte: 40 or 64 lowercase letters and digits, and a printable name. */
  lemma ValidRefIff(ref: Ref)
    ensures IsValidRef(ref) <==>
            && (|ref.oid| == 40 || |ref.oid| == 64)
            && (forall k | 0 <= k < |ref.oid| :: 'a' as int <= ref.oid[k] <= 'z' as int || '0' as int <= ref.oid[k] <= '9' as int)
            && |ref.name| > 0 && (forall k | 0 <= k < |ref.name| :: ref.name[k] >= 32 && ref.name[k] != 127)
  {
    assert forall k | 0 <= k < |ref.oid| :: ref.oid[k] in ref.oid;
    assert forall k | 0 <= k < |ref.name| :: ref.name[k] in ref.name;
  }

  ghost predicate DistinctNames(refs: seq<Ref>) {
    forall i, j | 0 <= i < j < |refs| :: refs[i].name != refs[j].name
  }

  /** Refs as evidence holds them. */
  ghost predicate IsEvidence(refs: seq<Ref>) {
    DistinctNames(refs) && forall ref | ref in refs :: IsValidRef(ref)
  }

  /** Splits a line at its first space. */
  function SplitLine(line: Text): (r: Option<Ref>)
    ensures r.Some? ==> SPACE !in r.value.oid && line == ShowLine(r.value)
    ensures r.None? ==> SPACE !in line
  {
    var k := IndexOf(line, SPACE);
    if k == |line| then None
    else
      assert line == line[..k] + [line[k]] + line[k + 1..];
      Some(Ref(line[k + 1..], line[..k]))
  }

  lemma SplitOfShown(ref: Ref)
    requires SPACE !in ref.oid
    ensures SplitLine(ShowLine(ref)) == Some(ref)
  {
    var line := ShowLine(ref);
    IndexOfMark(ref.oid, SPACE, ref.name);
    assert line[..|ref.oid|] == ref.oid && line[|ref.oid| + 1..] == ref.name;
  }

  function ShowLine(ref: Ref): Text { ref.oid + [SPACE] + ref.name }

  // ----- parsing at snapshot time -----

  /** The lines split into the given refs, one by one. */
  ghost predicate ParsesTo(lines: seq<Text>, refs: seq<Ref>) {
    |refs| == |lines| && forall i | 0 <= i < |lines| :: SplitLine(lines[i]) == Some(refs[i])
  }

  function NamesOf(refs: seq<Ref>): set<Text> { set ref | ref in refs :: ref.name }

  /** Why a line is refused after the earlier ones were accepted, if it is. */
  function LineError(earlier: seq<Ref>, line: Text): Option<ParseError> {
    match SplitLine(line)
    case None => Some(MalformedLine)
    case Some(ref) =>
      if !IsValidRef(ref) then Some(InvalidRef)
      else if ref.name in NamesOf(earlier) then Some(DuplicateRef)
      else None
  }

  /** Parses `show-ref` output; the first refused line decides the error. */
  method ParseRefs(output: Text) returns (parsed: Parsed)
    ensures parsed.Refs? ==> ParsesTo(Lines(output), parsed.refs) && IsEvidence(parsed.refs)
    ensures parsed.Refused? ==>
              exists i, refs ::
                && 0 <= i < |Lines(output)| && ParsesTo(Lines(output)[..i], refs) && IsEvidence(refs)
                && LineError(refs, Lines(output)[i]) == Some(parsed.error)
    ensures forall refs | ParsesTo(Lines(output), refs) && IsEvidence(refs) :: parsed == Refs(refs)
  {
    var lines := Lines(output);
    var names: set<Text> := {};
    var refs: seq<Ref> := [];
    for i := 0 to |lines|
      invariant ParsesTo(lines[..i], refs) && IsEvidence(refs) && names == NamesOf(refs)
    {
      var split := SplitLine(lines[i]);
      var refusal := None;
      if split.None? {
        refusal := Some(MalformedLine);
      } else if !IsValidRef(split.value) {
        refusal := Some(InvalidRef);
      } else if split.value.name in names {
        refusal := Some(DuplicateRef);
      }
      if refusal.Some? {
        assert LineError(refs, lines[i]) == refusal;
        RefusedLineIsNoEvidence(lines, i, refs);
        return Refused(refusal.value);
      }
      AcceptOne(refs, split.value);
      names := names + {split.value.name};
      refs := refs + [split.value];
      assert lines[..i + 1] == lines[..i] + [lines[i]];
    }
    assert lines[..|lines|] == lines;
    parsed := Refs(refs);
    forall other | ParsesTo(lines, other)
      ensures refs == other
    {
      assert forall i | 0 <= i < |lines| :: Some(refs[i]) == SplitLine(lines[i]) == Some(other[i]);
    }
  }

  lemma RefusedLineIsNoEvidence(lines: seq<Text>, i: nat, refs: seq<Ref>)
    requires i < |lines| && ParsesTo(lines[..i], refs) && LineError(refs, lines[i]).Some?
    ensures forall all | ParsesTo(lines, all) :: !IsEvidence(all)
  {
    forall all | ParsesTo(lines, all)
      ensures !IsEvidence(all)
    {
      assert SplitLine(lines[i]) == Some(all[i]) && all[i] in all;
      forall k | 0 <= k < i
        ensures refs[k] == all[k]
      {
        assert SplitLine(lines[..i][k]) == Some(refs[k]);
        assert SplitLine(lines[k]) == Some(all[k]);
      }
    }
  }

  lemma AcceptOne(refs: seq<Ref>, ref: Ref)
    requires IsEvidence(refs) && IsValidRef(ref) && ref.name !in NamesOf(refs)
    ensures IsEvidence(refs + [ref]) && NamesOf(refs + [ref]) == NamesOf(refs) + {ref.name}
  {
    assert ref in refs + [ref];
    forall r | r in refs
      ensures r in refs + [ref] && r.name in NamesOf(refs)
    {
    }
  }

  function ShowLines(refs: seq<Ref>): seq<Text> {
    seq(|refs|, i requires 0 <= i < |refs| => ShowLine(refs[i]))
  }

  lemma ValidRefShows(ref: Ref)
    requires IsValidRef(ref)
    ensures SplitLine(ShowLine(ref)) == Some(ref)
    ensures LF !in ShowLine(ref) && WithoutReturn(ShowLine(ref)) == ShowLine(ref)
  {
    var line := ShowLine(ref);
    SplitOfShown(ref);
    assert line[|line| - 1] == ref.name[|ref.name| - 1];
    assert ref.name[|ref.name| - 1] in ref.name;
  }

  /** Printing evidence the way `show-ref` does and splitting the lines gives back the evidence. */
  lemma ShowParseRoundTrip(refs: seq<Ref>)
    requires IsEvidence(refs)
    ensures Lines(Joined(ShowLines(refs))) == ShowLines(refs)
    ensures ParsesTo(Lines(Joined(ShowLines(refs))), refs)
  {
    forall i | 0 <= i < |refs|
      ensures var line := ShowLines(refs)[i];
              SplitLine(line) == Some(refs[i]) && LF !in line && WithoutReturn(line) == line
    {
      assert refs[i] in refs;
      ValidRefShows(refs[i]);
    }
    LinesOfJoined(ShowLines(refs));
  }

  // ----- the hashed stream -----

  function RefRecord(ref: Ref): Text { ref.oid + [TAB] + ref.name + [LF] }

  function RefStream(refs: seq<Ref>): Text {
    if refs == [] then [] else RefRecord(refs[0]) + RefStream(refs[1..])
  }

  /** Feeds the records to the digest in order; the result is everything it was fed. */
  method FeedRefs(refs: seq<Ref>) returns (stream: Text)
    ensures stream == RefStream(refs)
  {
    stream := [];
    for i := 0 to |refs|
      invariant stream + RefStream(refs[i..]) == RefStream(refs)
    {
      assert refs[i..][1..] == refs[i + 1..];
      stream := stream + RefRecord(refs[i]);
    }
    assert refs[|refs|..] == [];
  }

  lemma RecordSplits(a: Ref, x: Text, b: Ref, y: Text)
    requires IsValidRef(a) && IsValidRef(b) && RefRecord(a) + x == RefRecord(b) + y
    ensures a == b && x == y
  {
    assert RefRecord(a) + x == a.oid + [TAB] + (a.name + [LF] + x);
    assert RefRecord(b) + y == b.oid + [TAB] + (b.name + [LF] + y);
    SplitsOnce(a.oid, a.name + [LF] + x, b.oid, b.name + [LF] + y, TAB);
    SplitsOnce(a.name, x, b.name, y, LF);
  }

  /** The hashed bytes determine the refs and their order. */
  lemma {:induction false} RefStreamIsInjective(a: seq<Ref>, b: seq<Ref>)
    requires forall ref | ref in a :: IsValidRef(ref)
    requires forall ref | ref in b :: IsValidRef(ref)
    requires RefStream(a) == RefStream(b)
    ensures a == b
  {
    if a != [] && b != [] {
      RecordSplits(a[0], RefStream(a[1..]), b[0], RefStream(b[1..]));
      RefStreamIsInjective(a[1..], b[1..]);
      assert a == [a[0]] + a[1..] && b == [b[0]] + b[1..];
    }
  }

  // ----- canonical order -----

  predicate ByName(a: Ref, b: Ref) { LexLeq(a.name, b.name) }

  lemma ByNameIsTotal()
    ensures IsTotalPreorder(ByName)
  {
    forall a: Ref, b: Ref
      ensures ByName(a, b) || ByName(b, a)
    {
      LexTotal(a.name, b.name);
    }
    forall a: Ref, b: Ref, c: Ref | ByName(a, b) && ByName(b, c)
      ensures ByName(a, c)
    {
      LexTransitive(a.name, b.name, c.name);
    }
  }

  lemma EqualNamesEqualRefs(refs: seq<Ref>)
    requires DistinctNames(refs)
    ensures EquivalentsEqual(refs, ByName)
  {
    forall x, y | x in refs && y in refs && ByName(x, y) && ByName(y, x)
      ensures x == y
    {
      LexAntisymmetric(x.name, y.name);
    }
  }

  /** Manifests hash their refs sorted by name: the hashed bytes are equal exactly when the sets of refs are. */
  lemma HashedBytesIdentifyTheRefs(a: seq<Ref>, b: seq<Ref>)
    requires IsEvidence(a) && IsEvidence(b)
    ensures RefStream(SortBy(a, ByName)) == RefStream(SortBy(b, ByName)) <==> multiset(a) == multiset(b)
  {
    ByNameIsTotal();
    EqualNamesEqualRefs(a);
    SortKeeps(a, ByName);
    SortKeeps(b, ByName);
    SortMembers(a, ByName);
    SortMembers(b, ByName);
    if multiset(a) == multiset(b) {
      SortIsOrderIndependent(a, b, ByName);
    }
    if RefStream(SortBy(a, ByName)) == RefStream(SortBy(b, ByName)) {
      RefStreamIsInjective(SortBy(a, ByName), SortBy(b, ByName));
    }
  }

  // ----- the restore drill -----

  /** The drill's reading of `show-ref` output: no validation, sorted by name. */
  method ParseRefOutput(output: Text) returns (observed: Option<seq<Ref>>)
    ensures observed == Observed(output)
  {
    var lines := Lines(output);
    var refs: seq<Ref> := [];
    for i := 0 to |lines|
      invariant SplitAll(lines[..i]) == Some(refs)
    {
      assert lines[..i + 1][..i] == lines[..i];
      var split := SplitLine(lines[i]);
      if split.None? {
        SplitAllStops(lines, i + 1);
        return None;
      }
      refs := refs + [split.value];
    }
    assert lines[..|lines|] == lines;
    observed := Some(SortBy(refs, ByName));
  }

  function SplitAll(lines: seq<Text>): Option<seq<Ref>> {
    if lines == [] then Some([])
    else
      var before := SplitAll(lines[..|lines| - 1]);
      var last := SplitLine(lines[|lines| - 1]);
      if before.None? || last.None? then None else Some(before.value + [last.value])
  }

  function Observed(output: Text): Option<seq<Ref>> {
    var split := SplitAll(Lines(output));
    if split.None? then None else Some(SortBy(split.value, ByName))
  }

  lemma {:induction false} SplitAllStops(lines: seq<Text>, k: nat)
    requires k <= |lines| && SplitAll(lines[..k]).None?
    ensures SplitAll(lines).None?
    decreases |lines| - k
  {
    if k == |lines| {
      assert lines[..k] == lines;
    } else {
      assert lines[..k + 1][..k] == lines[..k];
      SplitAllStops(lines, k + 1);
    }
  }

  lemma {:induction false} SplitAllParses(lines: seq<Text>, refs: seq<Ref>)
    requires SplitAll(lines) == Some(refs)
    ensures ParsesTo(lines, refs)
  {
    if lines != [] {
      var last := |lines| - 1;
      SplitAllParses(lines[..last], SplitAll(lines[..last]).value);
      ParsesOneMore(lines, SplitAll(lines[..last]).value, SplitLine(lines[last]).value);
    }
  }

  lemma ParsesOneMore(lines: seq<Text>, refs: seq<Ref>, ref: Ref)
    requires lines != [] && ParsesTo(lines[..|lines| - 1], refs) && SplitLine(lines[|lines| - 1]) == Some(ref)
    ensures ParsesTo(lines, refs + [ref])
  {
    forall i | 0 <= i < |lines|
      ensures SplitLine(lines[i]) == Some((refs + [ref])[i])
    {
      if i < |lines| - 1 {
        assert lines[..|lines| - 1][i] == lines[i];
      }
    }
  }

  lemma {:induction false} LinesCount(lines: seq<Text>, refs: seq<Ref>, ref: Ref)
    requires ParsesTo(lines, refs) && SPACE !in ref.oid
    ensures multiset(lines)[ShowLine(ref)] == multiset(refs)[ref]
  {
    if lines != [] {
      var last := |lines| - 1;
      var line, shown := lines[last], refs[last];
      LinesCount(lines[..last], refs[..last], ref);
      SplitOfShown(ref);
      assert line == ShowLine(ref) <==> shown == ref;
      LastCounts(lines, ShowLine(ref));
      LastCounts(refs, ref);
    }
  }

  lemma LastCounts<T>(s: seq<T>, x: T)
    requires s != []
    ensures multiset(s)[x] == multiset(s[..|s| - 1])[x] + if s[|s| - 1] == x then 1 else 0
  {
    assert s == s[..|s| - 1] + [s[|s| - 1]];
  }

  /** Two outputs that split into refs have the same lines exactly when they have the same refs. */
  lemma SameLinesSameRefs(a: seq<Text>, x: seq<Ref>, b: seq<Text>, y: seq<Ref>)
    requires ParsesTo(a, x) && ParsesTo(b, y)
    ensures multiset(a) == multiset(b) <==> multiset(x) == multiset(y)
  {
    if multiset(a) == multiset(b) {
      forall ref
        ensures multiset(x)[ref] == multiset(y)[ref]
      {
        if SPACE !in ref.oid {
          LinesCount(a, x, ref);
          LinesCount(b, y, ref);
        } else {
          NoSpacedIds(a, x, ref);
          NoSpacedIds(b, y, ref);
        }
      }
      assert multiset(x) == multiset(y);
    }
    if multiset(x) == multiset(y) {
      forall line
        ensures multiset(a)[line] == multiset(b)[line]
      {
        var split := SplitLine(line);
        if split.Some? {
          LinesCount(a, x, split.value);
          LinesCount(b, y, split.value);
        } else {
          NoUnsplitLines(a, x, line);
          NoUnsplitLines(b, y, line);
        }
      }
      assert multiset(a) == multiset(b);
    }
  }

  lemma NoSpacedIds(lines: seq<Text>, refs: seq<Ref>, ref: Ref)
    requires ParsesTo(lines, refs) && SPACE in ref.oid
    ensures multiset(refs)[ref] == 0
  {
    forall i | 0 <= i < |refs|
      ensures refs[i] != ref
    {
      assert SplitLine(lines[i]) == Some(refs[i]);
    }
    assert ref !in multiset(refs);
  }

  lemma NoUnsplitLines(lines: seq<Text>, refs: seq<Ref>, line: Text)
    requires ParsesTo(lines, refs) && SplitLine(line).None?
    ensures multiset(lines)[line] == 0
  {
    forall i | 0 <= i < |lines|
      ensures lines[i] != line
    {
      assert SplitLine(lines[i]) == Some(refs[i]);
    }
    assert line !in multiset(lines);
  }

  /**
   * For evidence parsed from some output and stored sorted by name, the drill's comparison succeeds
   * exactly when the restored repository prints a permutation of the same lines.
   */
  lemma DrillComparesUpToOrder(preserved: Text, refs: seq<Ref>, restored: Text)
    requires ParsesTo(Lines(preserved), refs) && IsEvidence(refs)
    ensures Observed(restored) == Some(SortBy(refs, ByName))
            <==> multiset(Lines(restored)) == multiset(Lines(preserved))
  {
    var lines := Lines(restored);
    ByNameIsTotal();
    SortKeeps(refs, ByName);
    match SplitAll(lines)
    case Some(seen) =>
      SplitAllParses(lines, seen);
      SortKeeps(seen, ByName);
      SameLinesSameRefs(lines, seen, Lines(preserved), refs);
      if multiset(seen) == multiset(refs) {
        EqualNamesEqualRefs(refs);
        SortIsOrderIndependent(refs, seen, ByName);
      }
    case None =>
      SomeLineUnsplit(lines);
      var line :| line in lines && SplitLine(line).None?;
      assert line in multiset(lines);
      NoUnsplitLines(Lines(preserved), refs, line);
  }

  lemma {:induction false} SomeLineUnsplit(lines: seq<Text>)
    requires SplitAll(lines).None?
    ensures exists line :: line in lines && SplitLine(line).None?
  {
    var last := |lines| - 1;
    if SplitLine(lines[last]).None? {
      assert lines[last] in lines;
    } else {
      SomeLineUnsplit(lines[..last]);
      var line :| line in lines[..last] && SplitLine(line).None?;
      assert line in lines;
    }
  }
}
