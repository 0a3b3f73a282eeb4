/**
  Non-increasing order of item weights, the order First-Fit-Decreasing puts
  the items in before packing them (a sort with a "greater than" comparison).
 */
module Ordering {

  predicate NonIncreasing(s: seq<int>)
  {
    forall i, j :: 0 <= i < j < |s| ==> s[i] >= s[j]
  }

  lemma NonIncreasingTail(s: seq<int>)
    requires s != [] && NonIncreasing(s)
    ensures NonIncreasing(s[1..])
  {
  }

  /** Inserts `x` before the first element not larger than it. */
  function Insert(x: int, s: seq<int>): (r: seq<int>)
    ensures |r| == |s| + 1
    ensures multiset(r) == multiset(s) + multiset{x}
  {
    if s == [] || s[0] <= x then [x] + s
    else
      assert s == [s[0]] + s[1..];
      [s[0]] + Insert(x, s[1..])
  }

  /** Inserting into a non-increasing sequence keeps it non-increasing; the
      result starts with `x` or with the old first element. */
  lemma {:induction false} InsertSorted(x: int, s: seq<int>)
    requires NonIncreasing(s)
    ensures NonIncreasing(Insert(x, s))
    ensures Insert(x, s)[0] == x || (s != [] && Insert(x, s)[0] == s[0])
  {
    if s == [] || s[0] <= x {
      Cons(x, s);
    } else {
      NonIncreasingTail(s);
      InsertSorted(x, s[1..]);
      Cons(s[0], Insert(x, s[1..]));
    }
  }

  /** Putting an element no smaller than the head in front keeps the order. */
  lemma Cons(h: int, t: seq<int>)
    requires NonIncreasing(t) && (t == [] || h >= t[0])
    ensures NonIncreasing([h] + t)
  {
    var r := [h] + t;
    forall i, j | 0 <= i < j < |r|
      ensures r[i] >= r[j]
    {
      if i == 0 {
        assert r[j] == t[j - 1] <= t[0];
      } else {
        assert r[i] == t[i - 1] && r[j] == t[j - 1];
      }
    }
  }

  /** A reference sort: the items in non-increasing order. */
  function Descending(s: seq<int>): (r: seq<int>)
    ensures NonIncreasing(r)
    ensures multiset(r) == multiset(s)
  {
    if s == [] then []
    else
      assert s == [s[0]] + s[1..];
      var t := Descending(s[1..]);
      InsertSorted(s[0], t);
      Insert(s[0], t)
  }

  /** There is only one non-increasing arrangement of a multiset of weights:
      any sort into non-increasing order gives the same sequence. */
  lemma {:induction false} SortedUnique(a: seq<int>, b: seq<int>)
    requires NonIncreasing(a) && NonIncreasing(b)
    requires multiset(a) == multiset(b)
    ensures a == b
  {
    if a == [] {
      assert |b| == |multiset(b)| == 0;
    } else {
      SameLargest(a, b);
      SameRest(a, b);
      NonIncreasingTail(a);
      NonIncreasingTail(b);
      SortedUnique(a[1..], b[1..]);
      assert a == [a[0]] + a[1..] && b == [b[0]] + b[1..];
    }
  }

  /** Two non-increasing arrangements of one multiset start with the same
      element: the largest one. */
  lemma SameLargest(a: seq<int>, b: seq<int>)
    requires NonIncreasing(a) && NonIncreasing(b)
    requires multiset(a) == multiset(b) && a != []
    ensures b != [] && a[0] == b[0]
  {
    assert a[0] in multiset(b);
    var i :| 0 <= i < |b| && b[i] == a[0];
    assert b[0] in multiset(a);
    var j :| 0 <= j < |a| && a[j] == b[0];
  }

  /** Removing the same first element from two arrangements of one multiset
      leaves arrangements of one multiset. */
  lemma SameRest(a: seq<int>, b: seq<int>)
    requires multiset(a) == multiset(b) && a != [] && b != [] && a[0] == b[0]
    ensures multiset(a[1..]) == multiset(b[1..])
  {
    assert a == [a[0]] + a[1..] && b == [b[0]] + b[1..];
    assert multiset(a[1..]) == multiset(a) - multiset{a[0]};
    assert multiset(b[1..]) == multiset(b) - multiset{b[0]};
  }

  /** `Descending` is characterised by its contract: any non-increasing
      arrangement of the items is it. */
  lemma DescendingIs(s: seq<int>, d: seq<int>)
    requires NonIncreasing(d) && multiset(s) == multiset(d)
    ensures Descending(s) == d
  {
    SortedUnique(Descending(s), d);
  }

  /** First-Fit-Decreasing sees the same items whatever order they arrive in. */
  lemma DescendingIgnoresOrder(a: seq<int>, b: seq<int>)
    requires multiset(a) == multiset(b)
    ensures Descending(a) == Descending(b)
  {
    SortedUnique(Descending(a), Descending(b));
  }
}
