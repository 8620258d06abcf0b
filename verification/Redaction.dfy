/** Replacing secret byte strings in captured output by a fixed marker. */
module Redaction {
  import opened Common
  import opened ByteText

  /** "[redacted]" */
  const MARKER: Text := [0x5b, 0x72, 0x65, 0x64, 0x61, 0x63, 0x74, 0x65, 0x64, 0x5d]

  predicate Occurs(s: Text, text: Text, i: int) {
    0 <= i && i + |s| <= |text| && text[i..i + |s|] == s
  }

  ghost predicate Contains(text: Text, s: Text) {
    exists i :: Occurs(s, text, i)
  }

  lemma SubSlice(text: Text, from: nat, to: nat, i: nat, n: nat)
    requires from <= to <= |text| && i + n <= to - from
    ensures text[from..to][i..i + n] == text[from + i..from + i + n]
  {
    var part := text[from..to];
    var left, right := part[i..i + n], text[from + i..from + i + n];
    forall k | 0 <= k < n
      ensures left[k] == right[k]
    {
      assert left[k] == part[i + k] == text[from + i + k];
    }
  }

  lemma OccursInTail(s: Text, text: Text)
    requires |s| <= |text| && text != []
    ensures forall j | j != 0 :: Occurs(s, text, j) <==> Occurs(s, text[1..], j - 1)
    ensures forall j :: Occurs(s, text[1..], j) ==> Occurs(s, text, j + 1)
  {
    forall j | 1 <= j && j + |s| <= |text|
      ensures Occurs(s, text, j) <==> Occurs(s, text[1..], j - 1)
    {
      SubSlice(text, 1, |text|, j - 1, |s|);
      assert text[1..] == text[1..|text|];
    }
    forall j | Occurs(s, text[1..], j)
      ensures Occurs(s, text, j + 1)
    {
      SubSlice(text, 1, |text|, j, |s|);
      assert text[1..] == text[1..|text|];
    }
  }

  /** The leftmost occurrence. */
  function Find(text: Text, s: Text): (r: Option<nat>)
    requires s != []
    ensures r.Some? ==> Occurs(s, text, r.value) && forall j | j < r.value :: !Occurs(s, text, j)
    ensures r.None? ==> forall j :: !Occurs(s, text, j)
  {
    if |text| < |s| then None
    else if text[..|s|] == s then Some(0)
    else
      OccursInTail(s, text);
      match Find(text[1..], s)
      case None => None
      case Some(k) => Some(k + 1)
  }

  /** What is kept when every leftmost, non-overlapping occurrence is cut out. */
  function Gaps(text: Text, s: Text): (gaps: seq<Text>)
    requires s != []
    ensures gaps != []
    decreases |text|
  {
    match Find(text, s)
    case None => [text]
    case Some(k) => [text[..k]] + Gaps(text[k + |s|..], s)
  }

  function Join(gaps: seq<Text>, between: Text): Text
    requires gaps != []
  {
    if |gaps| == 1 then gaps[0] else gaps[0] + between + Join(gaps[1..], between)
  }

  /** One pass of redaction. */
  function Redact(text: Text, s: Text): Text {
    if s == [] then text else Join(Gaps(text, s), MARKER)
  }

  function RedactAll(text: Text, secrets: seq<Text>): Text {
    if secrets == [] then text else Redact(RedactAll(text, secrets[..|secrets| - 1]), secrets[|secrets| - 1])
  }

  /** Runs one pass per secret, in order. */
  method RedactSecrets(bytes: Text, secrets: seq<Text>) returns (redacted: Text)
    ensures redacted == RedactAll(bytes, secrets)
  {
    redacted := bytes;
    for i := 0 to |secrets|
      invariant redacted == RedactAll(bytes, secrets[..i])
    {
      var secret := secrets[i];
      assert secrets[..i + 1][..i] == secrets[..i];
      if secret == [] || |redacted| < |secret| {
        continue;
      }
      var replaced: Text := [];
      var rest := redacted;
      while Find(rest, secret).Some?
        invariant replaced + Redact(rest, secret) == Redact(redacted, secret)
        decreases |rest|
      {
        var position := Find(rest, secret).value;
        var tail := rest[position + |secret|..];
        assert Redact(rest, secret) == rest[..position] + MARKER + Redact(tail, secret);
        replaced := replaced + rest[..position];
        replaced := replaced + MARKER;
        rest := tail;
      }
      redacted := replaced + rest;
    }
    assert secrets[..|secrets|] == secrets;
  }

  // ----- what one pass cuts -----

  /** Putting the secret back between the gaps restores the input. */
  lemma {:induction false} GapsRestore(text: Text, s: Text)
    requires s != []
    ensures Join(Gaps(text, s), s) == text
    decreases |text|
  {
    match Find(text, s)
    case None =>
    case Some(k) =>
      GapsRestore(text[k + |s|..], s);
      assert text == text[..k] + text[k..k + |s|] + text[k + |s|..];
  }

  lemma OccursInside(s: Text, text: Text, from: nat, to: nat, i: int)
    requires from <= to <= |text| && Occurs(s, text[from..to], i)
    ensures Occurs(s, text, from + i)
  {
    SubSlice(text, from, to, i, |s|);
  }

  /** No gap holds the secret, and a gap followed by the secret holds it only there: each cut was leftmost. */
  lemma {:induction false} CutsAreLeftmost(text: Text, s: Text, k: nat)
    requires s != [] && k < |Gaps(text, s)|
    ensures !Contains(Gaps(text, s)[k], s)
    ensures k < |Gaps(text, s)| - 1 ==> forall j | j < |Gaps(text, s)[k]| :: !Occurs(s, Gaps(text, s)[k] + s, j)
    decreases |text|
  {
    match Find(text, s)
    case None =>
    case Some(p) =>
      if k > 0 {
        CutsAreLeftmost(text[p + |s|..], s, k - 1);
      } else {
        var gap := Gaps(text, s)[0];
        assert gap == text[0..p] && gap + s == text[0..p + |s|];
        forall j
          ensures !Occurs(s, gap, j) && (j < |gap| ==> !Occurs(s, gap + s, j))
        {
          if Occurs(s, gap, j) {
            OccursInside(s, text, 0, p, j);
          } else if j < |gap| && Occurs(s, gap + s, j) {
            OccursInside(s, text, 0, p + |s|, j);
          }
        }
      }
  }

  /** Every gap is a stretch of the input. */
  lemma {:induction false} GapsAreInside(text: Text, s: Text, k: nat, t: Text)
    requires s != [] && k < |Gaps(text, s)| && Contains(Gaps(text, s)[k], t)
    ensures Contains(text, t)
    decreases |text|
  {
    match Find(text, s)
    case None =>
    case Some(p) =>
      if k == 0 {
        var i :| Occurs(t, Gaps(text, s)[0], i);
        assert text[..p] == text[0..p];
        OccursInside(t, text, 0, p, i);
      } else {
        var tail := text[p + |s|..];
        GapsAreInside(tail, s, k - 1, t);
        var i :| Occurs(t, tail, i);
        assert tail == text[p + |s|..|text|];
        OccursInside(t, text, p + |s|, |text|, i);
      }
  }

  // ----- when a secret can appear beside a marker -----

  /** Placing the marker at offset `a` of `t` (before its start when negative), they overlap and agree there. */
  ghost predicate Agrees(t: Text, a: int) {
    -|MARKER| < a < |t| && forall k | 0 <= k < |MARKER| && 0 <= a + k < |t| :: t[a + k] == MARKER[k]
  }

  /** An occurrence among joined gaps lies in a gap, or overlaps the marker after some gap. */
  ghost predicate Straddles(t: Text, gaps: seq<Text>, k: int, a: int) {
    && 0 <= k < |gaps| - 1 && Agrees(t, a)
    && (a > 0 ==> a <= |gaps[k]| && gaps[k][|gaps[k]| - a..] == t[..a])
  }

  lemma {:induction false} WhereOccurrencesLie(t: Text, gaps: seq<Text>, i: int)
    requires gaps != [] && t != [] && Occurs(t, Join(gaps, MARKER), i)
    ensures (exists k :: 0 <= k < |gaps| && Contains(gaps[k], t)) || (exists k, a :: Straddles(t, gaps, k, a))
  {
    var text := Join(gaps, MARKER);
    if |gaps| == 1 {
      assert Contains(gaps[0], t);
    } else {
      var g, after := |gaps[0]|, |gaps[0]| + |MARKER|;
      var rest := Join(gaps[1..], MARKER);
      assert text == gaps[0] + MARKER + rest;
      if i + |t| <= g {
        assert text[i..i + |t|] == gaps[0][i..i + |t|];
        assert Occurs(t, gaps[0], i);
      } else if i >= after {
        assert text[i..i + |t|] == rest[i - after..i - after + |t|];
        WhereOccurrencesLie(t, gaps[1..], i - after);
        if k :| 0 <= k < |gaps[1..]| && Contains(gaps[1..][k], t) {
          assert Contains(gaps[k + 1], t);
        } else {
          var k, a :| Straddles(t, gaps[1..], k, a);
          assert Straddles(t, gaps, k + 1, a);
        }
      } else {
        var a := g - i;
        forall k | 0 <= k < |MARKER| && 0 <= a + k < |t|
          ensures t[a + k] == MARKER[k]
        {
          assert t[a + k] == text[i..i + |t|][a + k] == text[g + k];
        }
        if a > 0 {
          forall k | 0 <= k < a
            ensures gaps[0][g - a..][k] == t[k]
          {
            assert text[i..i + |t|][k] == text[i + k] == gaps[0][i + k];
          }
        }
        assert Straddles(t, gaps, 0, a);
      }
    }
  }

  /** A pass never introduces a text that cannot overlap the marker. */
  lemma PassIntroducesNothing(text: Text, s: Text, t: Text)
    requires t != [] && (forall a :: !Agrees(t, a)) && !Contains(text, t)
    ensures !Contains(Redact(text, s), t)
  {
    if s != [] && Contains(Redact(text, s), t) {
      var i :| Occurs(t, Redact(text, s), i);
      WhereOccurrencesLie(t, Gaps(text, s), i);
      var k :| 0 <= k < |Gaps(text, s)| && Contains(Gaps(text, s)[k], t);
      GapsAreInside(text, s, k, t);
    }
  }

  /** A pass removes its own secret, when that cannot overlap the marker. */
  lemma PassRemovesItsSecret(text: Text, s: Text)
    requires s != [] && forall a :: !Agrees(s, a)
    ensures !Contains(Redact(text, s), s)
  {
    if Contains(Redact(text, s), s) {
      var i :| Occurs(s, Redact(text, s), i);
      WhereOccurrencesLie(s, Gaps(text, s), i);
      var k :| 0 <= k < |Gaps(text, s)| && Contains(Gaps(text, s)[k], s);
      CutsAreLeftmost(text, s, k);
    }
  }

  /** No secret that cannot overlap the marker survives: later passes never bring an earlier secret back. */
  lemma {:induction false} NothingSurvives(text: Text, secrets: seq<Text>, n: nat)
    requires n < |secrets| && secrets[n] != [] && forall a :: !Agrees(secrets[n], a)
    ensures !Contains(RedactAll(text, secrets), secrets[n])
  {
    var last := |secrets| - 1;
    var before := RedactAll(text, secrets[..last]);
    if n == last {
      PassRemovesItsSecret(before, secrets[last]);
    } else {
      NothingSurvives(text, secrets[..last], n);
      PassIntroducesNothing(before, secrets[last], secrets[n]);
    }
  }

  /** In particular no non-empty secret that shares no byte with the marker survives. */
  lemma DisjointSecretsAreGone(text: Text, secrets: seq<Text>)
    ensures forall s | s in secrets && s != [] && (forall b | b in s :: b !in MARKER) ::
              !Contains(RedactAll(text, secrets), s)
  {
    forall s | s in secrets && s != [] && (forall b | b in s :: b !in MARKER)
      ensures !Contains(RedactAll(text, secrets), s)
    {
      forall a
        ensures !Agrees(s, a)
      {
        if -|MARKER| < a < |s| {
          var k := if a < 0 then -a else 0;
          assert s[a + k] in s && MARKER[k] in MARKER;
          assert s[a + k] != MARKER[k];
        }
      }
      var n :| 0 <= n < |secrets| && secrets[n] == s;
      NothingSurvives(text, secrets, n);
    }
  }

  // ----- exactly when one pass can leave its own secret behind -----

  /** The secret can overlap a marker that replaced it, and what precedes the marker does not cut it earlier. */
  ghost predicate CanReappear(s: Text, a: int) {
    Agrees(s, a) && forall j | j < a :: !Occurs(s, Front(s, a) + s, j)
  }

  /** The input on which a secret reappears around its own marker. */
  function Witness(s: Text, a: int): Text
    requires -|MARKER| < a < |s|
  {
    Front(s, a) + s + Back(s, a)
  }

  /** What of the secret lies before the marker. */
  function Front(s: Text, a: int): Text
    requires a < |s|
  {
    if a > 0 then s[..a] else []
  }

  /** What of the secret lies after the marker. */
  function Back(s: Text, a: int): Text
    requires -|MARKER| < a
  {
    if a + |MARKER| < |s| then s[a + |MARKER|..] else []
  }

  lemma CutOnce(front: Text, s: Text, back: Text)
    requires s != [] && |back| < |s| && forall j | j < |front| :: !Occurs(s, front + s, j)
    ensures Redact(front + s + back, s) == front + MARKER + back
  {
    var text := front + s + back;
    assert text[|front|..|front| + |s|] == s && text[|front| + |s|..] == back && text[..|front|] == front;
    forall j | j < |front|
      ensures !Occurs(s, text, j)
    {
      if 0 <= j {
        SubSlice(text, 0, |front + s|, j, |s|);
        assert text[0..|front + s|] == front + s;
        assert !Occurs(s, front + s, j);
      }
    }
    assert Occurs(s, text, |front|);
    assert Find(text, s) == Some(|front|);
    assert Find(back, s) == None;
    assert Gaps(text, s) == [front] + [back];
    assert ([front] + [back])[1..] == [back] && Join([back], MARKER) == back;
  }

  lemma ShowsAround(s: Text, a: int, front: Text, back: Text)
    requires s != [] && Agrees(s, a)
    requires front == Front(s, a) && back == Back(s, a)
    ensures Occurs(s, front + MARKER + back, if a < 0 then -a else 0)
  {
    var text := front + MARKER + back;
    var start := if a < 0 then -a else 0;
    var shown := text[start..start + |s|];
    forall k | 0 <= k < |s|
      ensures shown[k] == s[k]
    {
      assert shown[k] == text[start + k];
      if 0 <= k - a < |MARKER| {
        assert s[a + (k - a)] == MARKER[k - a];
      }
    }
  }

  lemma ReappearsOnWitness(s: Text, a: int)
    requires s != [] && CanReappear(s, a)
    ensures Contains(Redact(Witness(s, a), s), s)
  {
    var front, back := Front(s, a), Back(s, a);
    CutOnce(front, s, back);
    ShowsAround(s, a, front, back);
  }

  lemma SurvivalNeedsOverlap(text: Text, s: Text)
    requires s != [] && Contains(Redact(text, s), s)
    ensures exists a :: CanReappear(s, a)
  {
    var gaps := Gaps(text, s);
    var i :| Occurs(s, Redact(text, s), i);
    forall k | 0 <= k < |gaps|
      ensures !Contains(gaps[k], s)
    {
      CutsAreLeftmost(text, s, k);
    }
    WhereOccurrencesLie(s, gaps, i);
    var k, a :| Straddles(s, gaps, k, a);
    CutsAreLeftmost(text, s, k);
    if a > 0 {
      var shift := |gaps[k]| - a;
      forall j | j < a
        ensures !Occurs(s, s[..a] + s, j)
      {
        if Occurs(s, s[..a] + s, j) {
          assert s[..a] + s == (gaps[k] + s)[shift..|gaps[k] + s|];
          OccursInside(s, gaps[k] + s, shift, |gaps[k] + s|, j);
        }
      }
    }
    assert CanReappear(s, a);
  }

  /** A single pass removes its secret from every input exactly when the secret cannot reappear around the marker. */
  lemma OnePassIsCompleteIff(s: Text)
    requires s != []
    ensures (forall text :: !Contains(Redact(text, s), s)) <==> (forall a :: !CanReappear(s, a))
  {
    if a :| CanReappear(s, a) {
      ReappearsOnWitness(s, a);
    }
    if text :| Contains(Redact(text, s), s) {
      SurvivalNeedsOverlap(text, s);
    }
  }

  // ----- exactly which secrets a list of secrets can leave behind -----

  /** A byte that is none of three given ones. */
  function OtherByte(x: Byte, y: Byte, z: Byte): (b: Byte)
    ensures b != x && b != y && b != z
  {
    if 0 !in {x, y, z} then 0 else if 1 !in {x, y, z} then 1 else if 2 !in {x, y, z} then 2 else 3
  }

  /** A second secret whose marker completes `s` at offset `a`. */
  function Decoy(s: Text, a: int): Text
    requires s != [] && a < |s|
  {
    seq(|s|, _ => OtherByte(s[0], s[|s| - 1], if a > 0 then s[a - 1] else s[0]))
  }

  /** What surrounds the marker, with the second secret in its place. */
  function DecoyText(s: Text, a: int): Text
    requires s != [] && -|MARKER| < a < |s|
  {
    Front(s, a) + Decoy(s, a) + Back(s, a)
  }

  /** The first pass finds nothing: every window of that length meets the decoy at its first or last byte. */
  lemma DecoyHidesSecret(s: Text, a: int)
    requires s != [] && -|MARKER| < a < |s|
    ensures !Contains(DecoyText(s, a), s)
  {
    var text, front := DecoyText(s, a), Front(s, a);
    var b := Decoy(s, a)[0];
    forall i
      ensures !Occurs(s, text, i)
    {
      if 0 <= i && i + |s| <= |text| {
        var window := text[i..i + |s|];
        if i < |front| {
          assert window[|s| - 1] == text[i + |s| - 1] == b;
        } else {
          assert window[0] == text[i] == b;
        }
      }
    }
  }

  /** In the second pass the decoy is cut exactly where it was put. */
  lemma DecoyIsCutInPlace(s: Text, a: int)
    requires s != [] && -|MARKER| < a < |s|
    ensures Redact(DecoyText(s, a), Decoy(s, a)) == Front(s, a) + MARKER + Back(s, a)
  {
    var front, decoy := Front(s, a), Decoy(s, a);
    forall j | j < |front|
      ensures !Occurs(decoy, front + decoy, j)
    {
      if 0 <= j {
        var window := (front + decoy)[j..j + |decoy|];
        assert window[a - 1 - j] == (front + decoy)[a - 1] == s[a - 1];
      }
    }
    CutOnce(front, decoy, Back(s, a));
  }

  lemma AbsentIsKept(text: Text, s: Text)
    requires s != [] && !Contains(text, s)
    ensures Redact(text, s) == text
  {
    assert Find(text, s) == None;
  }

  lemma RedactTwice(text: Text, s: Text, t: Text)
    ensures RedactAll(text, [s, t]) == Redact(Redact(text, s), t)
  {
    assert [s, t][..1] == [s] && [s][..0] == [];
    assert RedactAll(text, [s]) == Redact(RedactAll(text, []), s);
  }

  /** Some text and some list of secrets that names `s` leave `s` in the output. */
  ghost predicate CanSurvive(s: Text, text: Text, secrets: seq<Text>) {
    s in secrets && Contains(RedactAll(text, secrets), s)
  }

  lemma SurvivesBesideDecoy(s: Text, a: int)
    requires s != [] && Agrees(s, a)
    ensures CanSurvive(s, DecoyText(s, a), [s, Decoy(s, a)])
  {
    DecoyHidesSecret(s, a);
    AbsentIsKept(DecoyText(s, a), s);
    RedactTwice(DecoyText(s, a), s, Decoy(s, a));
    DecoyIsCutInPlace(s, a);
    ShowsAround(s, a, Front(s, a), Back(s, a));
  }

  /**
   * Every call that is given a secret removes it, whatever the text and the other secrets, exactly
   * when the secret agrees with the marker at no overlapping offset.
   */
  lemma AlwaysRemovedIff(s: Text)
    requires s != []
    ensures (forall text, secrets :: !CanSurvive(s, text, secrets)) <==> (forall a :: !Agrees(s, a))
  {
    if a :| Agrees(s, a) {
      SurvivesBesideDecoy(s, a);
    } else {
      forall text, secrets
        ensures !CanSurvive(s, text, secrets)
      {
        if s in secrets {
          var n :| 0 <= n < |secrets| && secrets[n] == s;
          NothingSurvives(text, secrets, n);
        }
      }
    }
  }

  /**
   * Completeness of each single pass is not enough for a list: one pass always removes "[[", yet the
   * secrets "[[" and "x" turn "[x" into "[[redacted]", which contains "[[".
   */
  lemma LaterPassRestoresSecret()
    ensures var s: Text := [0x5b, 0x5b];
            && (forall text :: !Contains(Redact(text, s), s))
            && CanSurvive(s, [0x5b, 0x78], [s, [0x78]])
  {
    var s, x: Text := [0x5b, 0x5b], [0x78];
    var text: Text := [0x5b, 0x78];
    forall a
      ensures !CanReappear(s, a)
    {
      if a == 1 {
        assert (Front(s, 1) + s)[0..2] == s;
        assert Occurs(s, Front(s, 1) + s, 0);
      } else if a == 0 {
        assert s[0 + 1] != MARKER[1];
      } else if -|MARKER| < a < 0 {
        assert s[a + (-a)] != MARKER[-a];
      }
    }
    OnePassIsCompleteIff(s);
    assert !Occurs(s, text, 0) by { assert text[0..2] == text; }
    AbsentIsKept(text, s);
    RedactTwice(text, s, x);
    assert [0x5b] + x + [] == text;
    assert !Occurs(x, [0x5b] + x, 0) by { assert ([0x5b] + x)[0..1][0] == 0x5b; }
    CutOnce([0x5b], x, []);
    var redacted := [0x5b] + MARKER + [];
    assert redacted[0..2] == s;
    assert Occurs(s, redacted, 0);
  }

  /** A secret made of marker bytes does survive: redacting "red" leaves "[redacted]". */
  lemma MarkerBytesSurvive()
    ensures var s: Text := [0x72, 0x65, 0x64]; Contains(RedactAll(s, [s]), s)
  {
    var s: Text := [0x72, 0x65, 0x64];
    assert Agrees(s, -1);
    ReappearsOnWitness(s, -1);
    assert Witness(s, -1) == s;
    assert [s][..0] == [];
    assert RedactAll(s, [s]) == Redact(RedactAll(s, []), s) == Redact(s, s);
  }
}
