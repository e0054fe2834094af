/** Sizes of finite sets. */
module Cardinality {

  /** A set of numbers below n has at most n elements, and n only if it holds all of them. */
  lemma {:induction false} BoundedSet(s: set<nat>, n: nat)
    requires forall x :: x in s ==> x < n
    ensures |s| <= n
    ensures |s| == n ==> forall x: nat :: x < n ==> x in s
  {
    if n > 0 {
      var t := s - {n - 1};
      BoundedSet(t, n - 1);
      if n - 1 in s { assert s == t + {n - 1}; } else { assert s == t; }
    } else {
      assert s == {};
    }
  }

  /** A set that holds every number below n has at least n elements. */
  lemma {:induction false} CoveringSet(s: set<nat>, n: nat)
    requires forall x: nat :: x < n ==> x in s
    ensures |s| >= n
  {
    if n > 0 {
      CoveringSet(s - {n - 1}, n - 1);
    }
  }

  lemma SubsetSize<T>(a: set<T>, b: set<T>)
    requires a <= b
    ensures |a| <= |b|
  {
    assert b == a + (b - a);
    assert |b| == |a| + |b - a|;
  }
}
