/** Text as UTF-8 bytes: ordering, splitting and decimal numbers. */
module ByteText {

  type Byte = b: int | 0 <= b < 256

  type Text = seq<Byte>

  const TAB: Byte := 0x09
  const LF: Byte := 0x0a
  const CR: Byte := 0x0d
  const SPACE: Byte := 0x20

  predicate IsDigit(b: Byte) { 0x30 <= b <= 0x39 }

  predicate IsLowercase(b: Byte) { 0x61 <= b <= 0x7a }

  predicate IsControl(b: Byte) { b < 0x20 || b == 0x7f }

  // ----- byte-wise order -----

  predicate LexLeq(a: Text, b: Text) {
    a == [] || (b != [] && (a[0] < b[0] || (a[0] == b[0] && LexLeq(a[1..], b[1..]))))
  }

  lemma {:induction false} LexTotal(a: Text, b: Text)
    ensures LexLeq(a, b) || LexLeq(b, a)
  {
    if a != [] && b != [] {
      LexTotal(a[1..], b[1..]);
    }
  }

  lemma {:induction false} LexTransitive(a: Text, b: Text, c: Text)
    requires LexLeq(a, b) && LexLeq(b, c)
    ensures LexLeq(a, c)
  {
    if a != [] && a[0] == b[0] == c[0] {
      LexTransitive(a[1..], b[1..], c[1..]);
    }
  }

  lemma {:induction false} LexAntisymmetric(a: Text, b: Text)
    requires LexLeq(a, b) && LexLeq(b, a)
    ensures a == b
  {
    if a != [] {
      LexAntisymmetric(a[1..], b[1..]);
      assert a == [a[0]] + a[1..] && b == [b[0]] + b[1..];
    }
  }

  /** `a` comes before `b` at the first byte where they differ, or is a prefix of it. */
  ghost predicate DiffersBelow(a: Text, b: Text, k: nat) {
    k < |a| && k < |b| && a[..k] == b[..k] && a[k] < b[k]
  }

  /** The order is decided at the first difference, and a prefix comes first. */
  lemma {:induction false} LexIsFirstDifference(a: Text, b: Text)
    ensures LexLeq(a, b) <==> a <= b || exists k: nat :: DiffersBelow(a, b, k)
  {
    if a != [] && b != [] {
      LexIsFirstDifference(a[1..], b[1..]);
      assert a == [a[0]] + a[1..] && b == [b[0]] + b[1..];
      if a[0] == b[0] {
        TailDiffers(a, b);
      } else if a[0] < b[0] {
        assert DiffersBelow(a, b, 0);
      } else {
        forall k: nat | 0 < k < |a| && k < |b|
          ensures a[..k] != b[..k]
        {
          assert a[..k][0] == a[0] && b[..k][0] == b[0];
        }
      }
    }
  }

  lemma TailDiffers(a: Text, b: Text)
    requires a != [] && b != [] && a[0] == b[0]
    ensures (exists k: nat :: DiffersBelow(a, b, k)) <==> (exists k: nat :: DiffersBelow(a[1..], b[1..], k))
    ensures a <= b <==> a[1..] <= b[1..]
  {
    assert a == [a[0]] + a[1..] && b == [b[0]] + b[1..];
    if k: nat :| DiffersBelow(a, b, k) {
      assert k > 0;
      assert a[1..][..k - 1] == a[..k][1..] && b[1..][..k - 1] == b[..k][1..];
      assert DiffersBelow(a[1..], b[1..], k - 1);
    }
    if k: nat :| DiffersBelow(a[1..], b[1..], k) {
      assert a[..k + 1] == [a[0]] + a[1..][..k] && b[..k + 1] == [b[0]] + b[1..][..k];
      assert DiffersBelow(a, b, k + 1);
    }
  }

  // ----- splitting -----

  /** The position of the first such byte, or the length when there is none. */
  function IndexOf(text: Text, b: Byte): (k: nat)
    ensures k <= |text| && b !in text[..k]
    ensures k < |text| ==> text[k] == b
    ensures k == |text| <==> b !in text
  {
    if text == [] || text[0] == b then 0
    else
      var k := IndexOf(text[1..], b);
      assert text[..k + 1] == [text[0]] + text[1..][..k];
      assert text == [text[0]] + text[1..];
      k + 1
  }

  /** A separator that occurs in neither head determines where both texts split. */
  lemma SplitsOnce(a: Text, x: Text, b: Text, y: Text, mark: Byte)
    requires mark !in a && mark !in b && a + [mark] + x == b + [mark] + y
    ensures a == b && x == y
  {
    var whole := a + [mark] + x;
    assert whole[|a|] == mark && (b + [mark] + y)[|b|] == mark;
    assert |a| == |b|;
    assert a == whole[..|a|] == b;
    assert x == whole[|a| + 1..] == y;
  }

  lemma IndexOfMark(a: Text, mark: Byte, x: Text)
    requires mark !in a
    ensures IndexOf(a + [mark] + x, mark) == |a|
  {
    var whole := a + [mark] + x;
    var k := IndexOf(whole, mark);
    assert whole[|a|] == mark;
    assert !(k > |a|) by {
      assert mark !in whole[..k];
    }
  }

  /** The lines of a text: each ends at a line feed, which may follow a carriage return; the last end is optional. */
  function Lines(text: Text): (lines: seq<Text>)
    decreases |text|
  {
    var k := IndexOf(text, LF);
    if text == [] then []
    else if k == |text| then [text]
    else [WithoutReturn(text[..k])] + Lines(text[k + 1..])
  }

  function WithoutReturn(line: Text): Text {
    if line != [] && line[|line| - 1] == CR then line[..|line| - 1] else line
  }

  /** Each line with its line feed. */
  function Joined(lines: seq<Text>): Text {
    if lines == [] then [] else lines[0] + [LF] + Joined(lines[1..])
  }

  /** Lines that hold no line feed and end in no carriage return survive being joined and split again. */
  lemma {:induction false} LinesOfJoined(lines: seq<Text>)
    requires forall line | line in lines :: LF !in line && WithoutReturn(line) == line
    ensures Lines(Joined(lines)) == lines
  {
    if lines != [] {
      var text := Joined(lines);
      IndexOfMark(lines[0], LF, Joined(lines[1..]));
      assert text[..|lines[0]|] == lines[0] && text[|lines[0]| + 1..] == Joined(lines[1..]);
      LinesOfJoined(lines[1..]);
      assert lines[0] in lines;
    }
  }

  /** Each line with a carriage return and a line feed. */
  function JoinedWithReturns(lines: seq<Text>): Text {
    if lines == [] then [] else lines[0] + [CR, LF] + JoinedWithReturns(lines[1..])
  }

  /** A carriage return before a line feed belongs to the line end, whatever the line is. */
  lemma {:induction false} LinesOfReturns(lines: seq<Text>)
    requires forall line | line in lines :: LF !in line
    ensures Lines(JoinedWithReturns(lines)) == lines
  {
    if lines != [] {
      var text, line := JoinedWithReturns(lines), lines[0];
      var rest := JoinedWithReturns(lines[1..]);
      assert line in lines;
      assert text == line + [CR] + [LF] + rest;
      IndexOfMark(line + [CR], LF, rest);
      assert text[..|line| + 1] == line + [CR] && text[|line| + 2..] == rest;
      assert (line + [CR])[..|line|] == line;
      LinesOfReturns(lines[1..]);
    }
  }

  /** A last line needs no end, and keeps a carriage return. */
  lemma LastLineIsOpen(line: Text)
    requires line != [] && LF !in line
    ensures Lines(line) == [line]
  {
  }

  // ----- decimal numbers -----

  function Decimal(n: nat): (digits: Text)
    ensures digits != [] && forall b | b in digits :: IsDigit(b)
  {
    if n < 10 then [0x30 + n] else Decimal(n / 10) + [0x30 + n % 10]
  }

  function ValueOf(digits: Text): int {
    if digits == [] then 0
    else
      var last: int := digits[|digits| - 1];
      ValueOf(digits[..|digits| - 1]) * 10 + (last - 0x30)
  }

  lemma {:induction false} DecimalRoundTrip(n: nat)
    ensures ValueOf(Decimal(n)) == n
  {
    if n < 10 {
      assert Decimal(n)[..0] == [];
    } else {
      DecimalRoundTrip(n / 10);
      var digits := Decimal(n);
      assert digits[..|digits| - 1] == Decimal(n / 10);
    }
  }

  lemma DecimalIsInjective(m: nat, n: nat)
    requires Decimal(m) == Decimal(n)
    ensures m == n
  {
    DecimalRoundTrip(m);
    DecimalRoundTrip(n);
  }
}
