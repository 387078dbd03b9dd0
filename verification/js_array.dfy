/**
  The two list combinators the blog component is built from: `Array.prototype.filter`
  (used for deleting a post and for the visible-list projection) and
  `Array.prototype.map` (used for updating a post in place), over immutable sequences.
 */
module JsArray {

  /** `a` is an order-preserving subsequence of `b`: `a` is `b` with some elements dropped. */
  predicate IsSubsequence<T(==,!new)>(a: seq<T>, b: seq<T>)
    decreases |b|
  {
    |a| == 0 ||
    (|b| > 0 && ((a[0] == b[0] && IsSubsequence(a[1..], b[1..])) || IsSubsequence(a, b[1..])))
  }

  /** `xs.filter(keep)`: the elements of `xs` that satisfy `keep`, in their original order. */
  function Filter<T(==,!new)>(xs: seq<T>, keep: T -> bool): (r: seq<T>)
    ensures |r| <= |xs|
    ensures IsSubsequence(r, xs)
    ensures forall x :: x in r <==> x in xs && keep(x)
    ensures forall x :: multiset(r)[x] == if keep(x) then multiset(xs)[x] else 0
    decreases |xs|
  {
    if |xs| == 0 then []
    else
      var rest := Filter(xs[1..], keep);
      assert xs == [xs[0]] + xs[1..];
      if keep(xs[0]) then [xs[0]] + rest else rest
  }

  /** `xs.map(f)`: `f` applied to every element, same length and order. */
  function Map<T, U>(xs: seq<T>, f: T -> U): (r: seq<U>)
    ensures |r| == |xs|
    ensures forall i :: 0 <= i < |xs| ==> r[i] == f(xs[i])
    decreases |xs|
  {
    if |xs| == 0 then [] else [f(xs[0])] + Map(xs[1..], f)
  }

  /** A filter that keeps every element returns the list itself. */
  lemma {:induction false} FilterKeepsAll<T(!new)>(xs: seq<T>, keep: T -> bool)
    requires forall i :: 0 <= i < |xs| ==> keep(xs[i])
    ensures Filter(xs, keep) == xs
    decreases |xs|
  {
    if |xs| > 0 {
      FilterKeepsAll(xs[1..], keep);
      assert keep(xs[0]);
      assert Filter(xs, keep) == [xs[0]] + Filter(xs[1..], keep);
      assert xs == [xs[0]] + xs[1..];
    }
  }

  /** Two predicates that agree on every element of `xs` select the same sublist. */
  lemma {:induction false} FilterCongruent<T(!new)>(xs: seq<T>, keep1: T -> bool, keep2: T -> bool)
    requires forall i :: 0 <= i < |xs| ==> keep1(xs[i]) == keep2(xs[i])
    ensures Filter(xs, keep1) == Filter(xs, keep2)
    decreases |xs|
  {
    if |xs| > 0 {
      FilterCongruent(xs[1..], keep1, keep2);
    }
  }

  /** A filter that rejects exactly the element at position `k` cuts out just that element. */
  lemma {:induction false} FilterDropsOne<T(!new)>(xs: seq<T>, keep: T -> bool, k: int)
    requires 0 <= k < |xs| && !keep(xs[k])
    requires forall i :: 0 <= i < |xs| && i != k ==> keep(xs[i])
    ensures Filter(xs, keep) == xs[..k] + xs[k + 1..]
    decreases |xs|
  {
    var tail := xs[1..];
    if k == 0 {
      FilterKeepsAll(tail, keep);
      assert Filter(xs, keep) == Filter(tail, keep);
      assert xs[..0] + xs[1..] == tail;
    } else {
      FilterDropsOne(tail, keep, k - 1);
      assert keep(xs[0]);
      assert Filter(xs, keep) == [xs[0]] + (tail[..k - 1] + tail[k..]);
      ConsAroundGap(xs, k);
    }
  }

  /** Putting the head back in front of the tail with a gap gives the list with the same gap. */
  lemma ConsAroundGap<T>(xs: seq<T>, k: int)
    requires 0 < k < |xs|
    ensures [xs[0]] + (xs[1..][..k - 1] + xs[1..][k..]) == xs[..k] + xs[k + 1..]
  {
    assert xs[..k] == [xs[0]] + xs[1..][..k - 1];
    assert xs[k + 1..] == xs[1..][k..];
  }
}
