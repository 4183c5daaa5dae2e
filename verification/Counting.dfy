/** How long a list without repetitions can be. */
module Counting {

  ghost predicate Distinct<T>(q: seq<T>) {
    forall k, l :: 0 <= k < |q| && 0 <= l < |q| && k != l ==> q[k] != q[l]
  }

  function UpTo(n: nat): (s: set<int>)
    ensures |s| == n && forall x :: x in s <==> 0 <= x < n
  {
    if n == 0 then {} else UpTo(n - 1) + {n - 1}
  }

  lemma {:induction false} SubsetSize<T>(s: set<T>, t: set<T>)
    requires s <= t
    ensures |s| <= |t|
    ensures |s| == |t| ==> s == t
  {
    if s == {} {
    } else {
      var x :| x in s;
      SubsetSize(s - {x}, t - {x});
    }
  }

  function Elements<T>(q: seq<T>): set<T> {
    set x | x in q
  }

  lemma {:induction false} SizeOfDistinct<T>(q: seq<T>)
    requires Distinct(q)
    ensures |Elements(q)| == |q|
  {
    if q == [] {
    } else {
      var n := |q| - 1;
      SizeOfDistinct(q[..n]);
      assert q[n] !in q[..n];
      assert Elements(q) == Elements(q[..n]) + {q[n]};
    }
  }

  /** Distinct numbers below n are at most n, and are all of them if there are n. */
  lemma {:induction false} DistinctBelow(q: seq<int>, n: nat)
    requires Distinct(q) && forall k :: 0 <= k < |q| ==> 0 <= q[k] < n
    ensures |q| <= n
    ensures |q| == n <==> UpTo(n) <= Elements(q)
  {
    SizeOfDistinct(q);
    assert Elements(q) <= UpTo(n);
    SubsetSize(Elements(q), UpTo(n));
    if UpTo(n) <= Elements(q) { assert Elements(q) == UpTo(n); }
  }
}
