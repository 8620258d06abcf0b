/** Stable sorting by a total preorder, and when the sorted form of a list is unique. */
module Sorting {

  ghost predicate IsTotalPreorder<T(!new)>(leq: (T, T) -> bool) {
    && (forall a, b :: leq(a, b) || leq(b, a))
    && (forall a, b, c :: leq(a, b) && leq(b, c) ==> leq(a, c))
  }

  ghost predicate Sorted<T>(s: seq<T>, leq: (T, T) -> bool) {
    forall i, j | 0 <= i < j < |s| :: leq(s[i], s[j])
  }

  /** Places `x` before the first element it does not exceed. */
  function Insert<T>(x: T, s: seq<T>, leq: (T, T) -> bool): seq<T> {
    if s == [] then [x]
    else if leq(x, s[0]) then [x] + s
    else [s[0]] + Insert(x, s[1..], leq)
  }

  function SortBy<T>(s: seq<T>, leq: (T, T) -> bool): seq<T> {
    if s == [] then [] else Insert(s[0], SortBy(s[1..], leq), leq)
  }

  lemma {:induction false} InsertKeeps<T>(x: T, s: seq<T>, leq: (T, T) -> bool)
    ensures multiset(Insert(x, s, leq)) == multiset{x} + multiset(s)
  {
    if s != [] && !leq(x, s[0]) {
      InsertKeeps(x, s[1..], leq);
      assert s == [s[0]] + s[1..];
    }
  }

  lemma {:induction false} InsertSorts<T(!new)>(x: T, s: seq<T>, leq: (T, T) -> bool)
    requires IsTotalPreorder(leq) && Sorted(s, leq)
    ensures Sorted(Insert(x, s, leq), leq)
  {
    if s != [] && !leq(x, s[0]) {
      var rest := Insert(x, s[1..], leq);
      InsertSorts(x, s[1..], leq);
      InsertKeeps(x, s[1..], leq);
      forall k | 0 <= k < |rest|
        ensures leq(s[0], rest[k])
      {
        assert rest[k] in multiset(rest);
        assert rest[k] == x || rest[k] in s[1..];
      }
    }
  }

  lemma {:induction false} SortKeeps<T>(s: seq<T>, leq: (T, T) -> bool)
    ensures multiset(SortBy(s, leq)) == multiset(s)
    ensures |SortBy(s, leq)| == |s|
  {
    if s != [] {
      SortKeeps(s[1..], leq);
      InsertKeeps(s[0], SortBy(s[1..], leq), leq);
      assert s == [s[0]] + s[1..];
    }
    assert |multiset(SortBy(s, leq))| == |multiset(s)|;
  }

  lemma {:induction false} SortSorts<T(!new)>(s: seq<T>, leq: (T, T) -> bool)
    requires IsTotalPreorder(leq)
    ensures Sorted(SortBy(s, leq), leq)
  {
    if s != [] {
      SortSorts(s[1..], leq);
      InsertSorts(s[0], SortBy(s[1..], leq), leq);
    }
  }

  /** Elements that the order cannot tell apart are equal. */
  ghost predicate EquivalentsEqual<T>(s: seq<T>, leq: (T, T) -> bool) {
    forall x, y | x in s && y in s && leq(x, y) && leq(y, x) :: x == y
  }

  lemma FirstsAgree<T>(a: seq<T>, b: seq<T>, leq: (T, T) -> bool)
    requires Sorted(a, leq) && Sorted(b, leq) && a != [] && b != []
    requires multiset(a) == multiset(b) && EquivalentsEqual(a, leq)
    ensures a[0] == b[0]
  {
    assert a[0] in multiset(b) && b[0] in multiset(a);
    var i :| 0 <= i < |b| && b[i] == a[0];
    var j :| 0 <= j < |a| && a[j] == b[0];
    if i > 0 && j > 0 {
      assert leq(a[0], a[j]) && leq(b[0], b[i]);
    }
  }

  lemma TailMultiset<T>(a: seq<T>)
    requires a != []
    ensures multiset(a[1..]) == multiset(a) - multiset{a[0]}
  {
    assert a == [a[0]] + a[1..];
  }

  lemma TailSorted<T>(a: seq<T>, leq: (T, T) -> bool)
    requires Sorted(a, leq) && a != []
    ensures Sorted(a[1..], leq)
    ensures EquivalentsEqual(a, leq) ==> EquivalentsEqual(a[1..], leq)
  {
  }

  /** Two sorted lists with the same elements are the same list when equivalent elements are equal. */
  lemma {:induction false} SortedIsUnique<T>(a: seq<T>, b: seq<T>, leq: (T, T) -> bool)
    requires Sorted(a, leq) && Sorted(b, leq) && multiset(a) == multiset(b) && EquivalentsEqual(a, leq)
    ensures a == b
  {
    SameSize(a, b);
    if a != [] {
      FirstsAgree(a, b, leq);
      TailMultiset(a);
      TailMultiset(b);
      TailSorted(a, leq);
      TailSorted(b, leq);
      SortedIsUnique(a[1..], b[1..], leq);
      SameEnds(a, b);
    }
  }

  lemma SameSize<T>(a: seq<T>, b: seq<T>)
    requires multiset(a) == multiset(b)
    ensures |a| == |b|
  {
    assert |a| == |multiset(a)| == |multiset(b)| == |b|;
  }

  lemma SameEnds<T>(a: seq<T>, b: seq<T>)
    requires a != [] && b != [] && a[0] == b[0] && a[1..] == b[1..]
    ensures a == b
  {
    assert a == [a[0]] + a[1..] && b == [b[0]] + b[1..];
  }

  lemma SortIsOrderIndependent<T(!new)>(a: seq<T>, b: seq<T>, leq: (T, T) -> bool)
    requires IsTotalPreorder(leq) && multiset(a) == multiset(b) && EquivalentsEqual(a, leq)
    ensures SortBy(a, leq) == SortBy(b, leq)
  {
    SortKeeps(a, leq);
    SortKeeps(b, leq);
    SortSorts(a, leq);
    SortSorts(b, leq);
    SortMembers(a, leq);
    SortedIsUnique(SortBy(a, leq), SortBy(b, leq), leq);
  }

  lemma SortMembers<T>(s: seq<T>, leq: (T, T) -> bool)
    ensures forall x :: x in SortBy(s, leq) <==> x in s
  {
    SortKeeps(s, leq);
    forall x
      ensures x in SortBy(s, leq) <==> x in s
    {
      assert x in multiset(SortBy(s, leq)) <==> x in multiset(s);
    }
  }
}
