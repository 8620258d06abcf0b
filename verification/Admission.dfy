/** Greedy admission of an ordered work list under an item ceiling and a byte ceiling. */
module Admission {
  import opened Sorting

  datatype Split<T> = Split(taken: seq<T>, left: seq<T>)

  datatype Ceilings = Ceilings(maxItems: nat, maxBytes: nat)

  /** The true, unbounded sum of the sizes. */
  function Total<T>(items: seq<T>, size: T -> nat): nat {
    if items == [] then 0
    else Total(items[..|items| - 1], size) + size(items[|items| - 1])
  }

  /** Whether `x` can join `taken` under both ceilings. */
  predicate Fits<T>(taken: seq<T>, x: T, size: T -> nat, limits: Ceilings) {
    |taken| < limits.maxItems && Total(taken, size) + size(x) <= limits.maxBytes
  }

  /** Takes each item, in order, exactly when it fits what was taken before it. */
  function Greedy<T>(items: seq<T>, size: T -> nat, limits: Ceilings): Split<T> {
    if items == [] then Split([], [])
    else
      var before := Greedy(items[..|items| - 1], size, limits);
      var x := items[|items| - 1];
      if Fits(before.taken, x, size, limits) then before.(taken := before.taken + [x])
      else before.(left := before.left + [x])
  }

  /** Nothing is lost or duplicated. */
  lemma {:induction false} GreedyPartitions<T>(items: seq<T>, size: T -> nat, limits: Ceilings)
    ensures multiset(items) == multiset(Greedy(items, size, limits).taken) + multiset(Greedy(items, size, limits).left)
  {
    if items != [] {
      var last := |items| - 1;
      GreedyPartitions(items[..last], size, limits);
      var before, after := Greedy(items[..last], size, limits), Greedy(items, size, limits);
      LastJoins(items);
      if Fits(before.taken, items[last], size, limits) {
        assert after.taken[..|before.taken|] == before.taken;
        LastJoins(after.taken);
      } else {
        assert after.left[..|before.left|] == before.left;
        LastJoins(after.left);
      }
    }
  }

  lemma LastJoins<T>(s: seq<T>)
    requires s != []
    ensures multiset(s) == multiset(s[..|s| - 1]) + multiset{s[|s| - 1]}
  {
    assert s == s[..|s| - 1] + [s[|s| - 1]];
  }

  /** Both ceilings hold of the final taken set. */
  lemma {:induction false} GreedyWithinCeilings<T>(items: seq<T>, size: T -> nat, limits: Ceilings)
    ensures var taken := Greedy(items, size, limits).taken;
            |taken| <= limits.maxItems && Total(taken, size) <= limits.maxBytes
  {
    if items != [] {
      GreedyWithinCeilings(items[..|items| - 1], size, limits);
    }
  }

  /** No item left out could be added to the final taken set. */
  lemma {:induction false} GreedyIsMaximal<T>(items: seq<T>, size: T -> nat, limits: Ceilings)
    ensures forall i | 0 <= i < |Greedy(items, size, limits).left| ::
              !Fits(Greedy(items, size, limits).taken, Greedy(items, size, limits).left[i], size, limits)
  {
    if items != [] {
      var last := |items| - 1;
      GreedyIsMaximal(items[..last], size, limits);
      TotalOfPrefix(Greedy(items[..last], size, limits).taken, Greedy(items, size, limits).taken, size);
    }
  }

  /** What was decided about a prefix is never revised. */
  lemma {:induction false} GreedyGrows<T>(items: seq<T>, k: nat, size: T -> nat, limits: Ceilings)
    requires k <= |items|
    ensures Greedy(items[..k], size, limits).taken <= Greedy(items, size, limits).taken
    ensures Greedy(items[..k], size, limits).left <= Greedy(items, size, limits).left
  {
    if k == |items| {
      assert items[..k] == items;
    } else {
      var last := |items| - 1;
      assert items[..last][..k] == items[..k];
      GreedyGrows(items[..last], k, size, limits);
    }
  }

  /** Both halves keep the order of the input. */
  lemma {:induction false} GreedyKeepsOrder<T>(items: seq<T>, size: T -> nat, limits: Ceilings, leq: (T, T) -> bool)
    requires Sorted(items, leq)
    ensures Sorted(Greedy(items, size, limits).taken, leq) && Sorted(Greedy(items, size, limits).left, leq)
  {
    if items != [] {
      var last := |items| - 1;
      var before := Greedy(items[..last], size, limits);
      GreedyKeepsOrder(items[..last], size, limits, leq);
      GreedyTakesFromItems(items[..last], size, limits);
      forall x | x in items[..last]
        ensures leq(x, items[last])
      {
        var k :| 0 <= k < last && items[..last][k] == x;
        assert x == items[k];
      }
      assert forall k | 0 <= k < |before.taken| :: before.taken[k] in items[..last];
      assert forall k | 0 <= k < |before.left| :: before.left[k] in items[..last];
      SortedAppend(before.taken, items[last], leq);
      SortedAppend(before.left, items[last], leq);
    }
  }

  lemma SortedAppend<T>(s: seq<T>, x: T, leq: (T, T) -> bool)
    requires Sorted(s, leq) && forall k | 0 <= k < |s| :: leq(s[k], x)
    ensures Sorted(s + [x], leq)
  {
  }

  lemma GreedyTakesFromItems<T>(items: seq<T>, size: T -> nat, limits: Ceilings)
    ensures forall k | 0 <= k < |Greedy(items, size, limits).taken| :: Greedy(items, size, limits).taken[k] in items
    ensures forall k | 0 <= k < |Greedy(items, size, limits).left| :: Greedy(items, size, limits).left[k] in items
  {
    var split := Greedy(items, size, limits);
    GreedyPartitions(items, size, limits);
    forall k | 0 <= k < |split.taken|
      ensures split.taken[k] in items
    {
      assert split.taken[k] in multiset(split.taken) + multiset(split.left);
      assert split.taken[k] in multiset(items);
    }
    forall k | 0 <= k < |split.left|
      ensures split.left[k] in items
    {
      assert split.left[k] in multiset(split.taken) + multiset(split.left);
      assert split.left[k] in multiset(items);
    }
  }

  lemma {:induction false} TotalOfPrefix<T>(a: seq<T>, b: seq<T>, size: T -> nat)
    requires a <= b
    ensures Total(a, size) <= Total(b, size)
  {
    if a == b {
      return;
    }
    var last := |b| - 1;
    assert a <= b[..last];
    TotalOfPrefix(a, b[..last], size);
  }

  /** While only items too large for the whole ceiling have been seen, none of them is taken. */
  lemma {:induction false} OversizedAreLeft<T>(items: seq<T>, size: T -> nat, limits: Ceilings)
    requires forall x | x in items :: size(x) > limits.maxBytes
    ensures Greedy(items, size, limits).taken == []
  {
    if items != [] {
      OversizedAreLeft(items[..|items| - 1], size, limits);
    }
  }

  /** With a positive item ceiling, the first item that fits the byte ceiling alone is the first one taken. */
  lemma FirstFittingIsTaken<T>(items: seq<T>, k: nat, size: T -> nat, limits: Ceilings)
    requires limits.maxItems > 0 && k < |items| && size(items[k]) <= limits.maxBytes
    requires forall j | 0 <= j < k :: size(items[j]) > limits.maxBytes
    ensures [items[k]] <= Greedy(items, size, limits).taken
  {
    OversizedAreLeft(items[..k], size, limits);
    assert items[..k + 1][..k] == items[..k];
    GreedyGrows(items, k + 1, size, limits);
  }
}
