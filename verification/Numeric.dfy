/** Reductions over sequences of reals, as numpy's argmax, min, max and sum compute them. */
module Numeric {

  /** The first position of the largest value (np.argmax). */
  function ArgMax(s: seq<real>): (k: nat)
    requires s != []
    ensures k < |s|
    ensures forall q :: 0 <= q < |s| ==> s[q] <= s[k]
    ensures forall q :: 0 <= q < k ==> s[q] < s[k]
  {
    if |s| == 1 then 0
    else
      var k := ArgMax(s[..|s| - 1]);
      if s[|s| - 1] > s[k] then |s| - 1 else k
  }

  function Greatest(s: seq<real>): (m: real)
    requires s != []
    ensures m in s
    ensures forall q :: 0 <= q < |s| ==> s[q] <= m
  {
    s[ArgMax(s)]
  }

  function Least(s: seq<real>): (m: real)
    requires s != []
    ensures m in s
    ensures forall q :: 0 <= q < |s| ==> m <= s[q]
  {
    if |s| == 1 then s[0]
    else
      var m := Least(s[..|s| - 1]);
      if s[|s| - 1] < m then s[|s| - 1] else m
  }

  function Sum(s: seq<real>): real {
    if s == [] then 0.0 else Sum(s[..|s| - 1]) + s[|s| - 1]
  }

  /** A sum is empty, or no smaller than any of its non-negative terms. */
  lemma {:induction false} SumBoundsTerms(s: seq<real>)
    requires forall q :: 0 <= q < |s| ==> s[q] >= 0.0
    ensures Sum(s) >= 0.0
    ensures forall q :: 0 <= q < |s| ==> s[q] <= Sum(s)
  {
    if s != [] {
      SumBoundsTerms(s[..|s| - 1]);
    }
  }
}
