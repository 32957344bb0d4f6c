/**
  Sorting a list by a comparison, as `Array.prototype.sort` does with a comparator. The result
  is ordered and is a rearrangement of the input; the order among elements the comparison
  ranks equal is not specified.
*/
module Sorting {

  /** `le(a, b)`: a may come before b. The comparison ranks every pair and chains. */
  ghost predicate TotalPreorder<T(!new)>(le: (T, T) -> bool) {
    Total(le) && Transitive(le)
  }

  ghost predicate Total<T(!new)>(le: (T, T) -> bool) {
    forall a, b :: le(a, b) || le(b, a)
  }

  ghost predicate Transitive<T(!new)>(le: (T, T) -> bool) {
    forall a, b, c :: le(a, b) && le(b, c) ==> le(a, c)
  }

  predicate Sorted<T>(xs: seq<T>, le: (T, T) -> bool) {
    forall i, j :: 0 <= i < j < |xs| ==> le(xs[i], xs[j])
  }

  /** An element that fits after the left part and before the right part joins them in order. */
  lemma SortedSplice<T(!new)>(left: seq<T>, x: T, right: seq<T>, le: (T, T) -> bool)
    requires TotalPreorder(le) && Sorted(left, le) && Sorted(right, le)
    requires forall k :: 0 <= k < |left| ==> le(left[k], x)
    requires forall k :: 0 <= k < |right| ==> le(x, right[k])
    ensures Sorted(left + [x] + right, le)
  {
    var r := left + [x] + right;
    forall i, j | 0 <= i < j < |r|
      ensures le(r[i], r[j])
    {
      if j < |left| {
        assert r[i] == left[i] && r[j] == left[j];
      } else if i < |left| && j == |left| {
        assert r[i] == left[i] && r[j] == x;
      } else if i < |left| {
        assert r[i] == left[i] && r[j] == right[j - |left| - 1];
        assert le(left[i], x) && le(x, right[j - |left| - 1]);
      } else if i == |left| {
        assert r[i] == x && r[j] == right[j - |left| - 1];
      } else {
        assert r[i] == right[i - |left| - 1] && r[j] == right[j - |left| - 1];
      }
    }
  }

  /** Everything before a place whose left neighbour may precede `x` may precede `x`. */
  lemma LeftBelow<T(!new)>(xs: seq<T>, i: nat, x: T, le: (T, T) -> bool)
    requires Transitive(le) && Sorted(xs, le) && i <= |xs|
    requires i > 0 ==> le(xs[i - 1], x)
    ensures forall k :: 0 <= k < i ==> le(xs[k], x)
  {
    forall k | 0 <= k < i - 1
      ensures le(xs[k], x)
    {
      assert le(xs[k], xs[i - 1]);
    }
  }

  /** Put `x` into an ordered list: after every element that may come before it. */
  method Insert<T(!new)>(xs: seq<T>, x: T, le: (T, T) -> bool) returns (r: seq<T>)
    requires Total(le) && Transitive(le) && Sorted(xs, le)
    ensures Sorted(r, le)
    ensures multiset(r) == multiset(xs) + multiset{x}
  {
    var i := |xs|;
    while i > 0 && !le(xs[i - 1], x)
      invariant 0 <= i <= |xs|
      invariant forall k :: i <= k < |xs| ==> le(x, xs[k])
    {
      i := i - 1;
    }
    LeftBelow(xs, i, x, le);
    var left, right := xs[..i], xs[i..];
    SortedSplice(left, x, right, le);
    r := left + [x] + right;
    SpliceCount(xs, i, x);
  }

  /** Putting `x` between a prefix and the rest adds one `x` and nothing else. */
  lemma SpliceCount<T>(xs: seq<T>, i: nat, x: T)
    requires i <= |xs|
    ensures multiset(xs[..i] + [x] + xs[i..]) == multiset(xs) + multiset{x}
  {
    assert xs == xs[..i] + xs[i..];
  }

  /** Insertion sort. */
  method Sort<T(!new)>(xs: seq<T>, le: (T, T) -> bool) returns (r: seq<T>)
    requires TotalPreorder(le)
    ensures Sorted(r, le)
    ensures multiset(r) == multiset(xs)
  {
    r := [];
    var n := 0;
    while n < |xs|
      invariant 0 <= n <= |xs|
      invariant Sorted(r, le)
      invariant multiset(r) == multiset(xs[..n])
    {
      r := Insert(r, xs[n], le);
      assert xs[..n + 1] == xs[..n] + [xs[n]];
      n := n + 1;
    }
    assert xs[..n] == xs;
  }

  /**
    The first k elements of an ordered list may each come before every later one: taking a
    prefix of the sorted list picks the first k by the comparison.
  */
  lemma PrefixFirst<T>(xs: seq<T>, le: (T, T) -> bool, k: nat)
    requires Sorted(xs, le) && k <= |xs|
    ensures forall i, j :: 0 <= i < k <= j < |xs| ==> le(xs[i], xs[j])
  {
  }
}
