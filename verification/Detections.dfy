/** Detections as the merge carries them, index selection, and numpy's stable visiting orders. */
module Detections {
  import opened Geometry

  /** The fields of a detection that every stage after fusion reads. */
  datatype Hit = Hit(box: Box, score: real, classId: int, truncated: bool)

  datatype Detection = Detection(hit: Hit, tileId: nat)

  // ----- Index selection (_index)

  predicate Ascending(keep: seq<nat>) {
    forall q, r :: 0 <= q < r < |keep| ==> keep[q] < keep[r]
  }

  /** A selection of indices of a sequence of length n. */
  predicate Selects(keep: seq<nat>, n: nat) {
    forall r :: 0 <= r < |keep| ==> keep[r] < n
  }

  predicate Distinct<T(==)>(s: seq<T>) {
    forall q, r :: 0 <= q < r < |s| ==> s[q] != s[r]
  }

  function Pick<T>(s: seq<T>, keep: seq<nat>): (picked: seq<T>)
    requires Selects(keep, |s|)
    ensures |picked| == |keep|
    ensures forall r :: 0 <= r < |keep| ==> picked[r] == s[keep[r]]
  {
    seq(|keep|, r requires 0 <= r < |keep| => s[keep[r]])
  }

  /** The indices below n that belong to a set, in increasing order. */
  function Sorted(members: set<nat>, n: nat): (keep: seq<nat>)
    ensures Ascending(keep) && Selects(keep, n)
    ensures forall i :: i in keep <==> i < n && i in members
  {
    if n == 0 then []
    else if n - 1 in members then Sorted(members, n - 1) + [n - 1]
    else Sorted(members, n - 1)
  }

  /** There is only one way to list a set of indices in increasing order. */
  lemma {:induction false} AscendingUnique(a: seq<nat>, b: seq<nat>)
    requires Ascending(a) && Ascending(b)
    requires forall i :: i in a <==> i in b
    ensures a == b
  {
    assert a != [] ==> a[0] in b;
    assert b != [] ==> b[0] in a;
    if a != [] {
      var x, y := a[|a| - 1], b[|b| - 1];
      assert x in b && y in a;
      assert x == y;
      var a', b' := a[..|a| - 1], b[..|b| - 1];
      forall i ensures i in a' <==> i in b' {
        assert i in a' <==> i in a && i != x;
        assert i in b' <==> i in b && i != y;
      }
      AscendingUnique(a', b');
      assert a == a' + [x] && b == b' + [y];
    }
  }

  // ----- Visiting orders (np.argsort / np.lexsort, stable)

  /** Whether a is visited before b on their fields alone: complete boxes first when preferred,
      then by decreasing score. */
  predicate Precedes(a: Hit, b: Hit, preferComplete: bool) {
    if preferComplete && a.truncated != b.truncated then b.truncated else a.score > b.score
  }

  /** Whether index i is visited before index j: on the fields, earlier index first on a tie. */
  predicate Before(hits: seq<Hit>, preferComplete: bool, i: nat, j: nat)
    requires i < |hits| && j < |hits|
  {
    Precedes(hits[i], hits[j], preferComplete) || (!Precedes(hits[j], hits[i], preferComplete) && i < j)
  }

  predicate IsPermutation(order: seq<nat>, n: nat) {
    && |order| == n && Selects(order, n) && Distinct(order)
    && forall i: nat :: i < n ==> i in order
  }

  /** Where a permutation lists an index. */
  ghost function Position(order: seq<nat>, i: nat): (r: nat)
    requires IsPermutation(order, |order|) && i < |order|
    ensures r < |order| && order[r] == i
  {
    assert i in order;
    var r :| 0 <= r < |order| && order[r] == i;
    r
  }

  predicate IsOrder(order: seq<nat>, hits: seq<Hit>, preferComplete: bool) {
    && IsPermutation(order, |hits|)
    && forall q, r :: 0 <= q < r < |order| ==> Before(hits, preferComplete, order[q], order[r])
  }

  /** Where a new last index goes: before the first visited index it precedes. */
  function Slot(hits: seq<Hit>, preferComplete: bool, order: seq<nat>, i: nat): (k: nat)
    requires i < |hits| && Selects(order, |hits|)
    ensures k <= |order|
    ensures forall q :: 0 <= q < k ==> !Precedes(hits[i], hits[order[q]], preferComplete)
    ensures k < |order| ==> Precedes(hits[i], hits[order[k]], preferComplete)
  {
    if order == [] || Precedes(hits[i], hits[order[0]], preferComplete) then 0
    else 1 + Slot(hits, preferComplete, order[1..], i)
  }

  /** The stable order numpy's sort visits the detections in. */
  function VisitOrder(hits: seq<Hit>, preferComplete: bool): (order: seq<nat>)
    ensures IsOrder(order, hits, preferComplete)
  {
    if hits == [] then []
    else
      var n := |hits| - 1;
      var rest := VisitOrder(hits[..n], preferComplete);
      var k := Slot(hits, preferComplete, rest, n);
      InsertKeepsOrder(hits, preferComplete, rest, k);
      Insert(rest, k, n)
  }

  function Insert(order: seq<nat>, k: nat, i: nat): (inserted: seq<nat>)
    requires k <= |order|
    ensures |inserted| == |order| + 1 && inserted[k] == i
    ensures forall q :: 0 <= q < k ==> inserted[q] == order[q]
    ensures forall q :: k < q < |inserted| ==> inserted[q] == order[q - 1]
  {
    order[..k] + [i] + order[k..]
  }

  lemma InsertKeepsPermutation(order: seq<nat>, n: nat, k: nat)
    requires IsPermutation(order, n) && k <= n
    ensures IsPermutation(Insert(order, k, n), n + 1)
  {
    var order' := Insert(order, k, n);
    forall i: nat | i < n + 1 ensures i in order' {
      if i < n {
        assert i in order;
        var r :| 0 <= r < n && order[r] == i;
        assert order'[if r < k then r else r + 1] == i;
      }
    }
  }

  /** The new last index is visited before everything from its slot on. */
  lemma SlotPrecedes(hits: seq<Hit>, preferComplete: bool, rest: seq<nat>, k: nat, r: nat)
    requires |hits| > 0 && IsOrder(rest, hits[..|hits| - 1], preferComplete)
    requires k == Slot(hits, preferComplete, rest, |hits| - 1) && k <= r < |rest|
    ensures Before(hits, preferComplete, |hits| - 1, rest[r])
  {
    var n := |hits| - 1;
    assert r == k || Before(hits[..n], preferComplete, rest[k], rest[r]);
  }

  lemma InsertKeepsOrder(hits: seq<Hit>, preferComplete: bool, rest: seq<nat>, k: nat)
    requires |hits| > 0 && IsOrder(rest, hits[..|hits| - 1], preferComplete)
    requires k == Slot(hits, preferComplete, rest, |hits| - 1)
    ensures IsOrder(Insert(rest, k, |hits| - 1), hits, preferComplete)
  {
    var n := |hits| - 1;
    InsertKeepsPermutation(rest, n, k);
    forall r | k <= r < n ensures Before(hits, preferComplete, n, rest[r]) {
      SlotPrecedes(hits, preferComplete, rest, k, r);
    }
    forall r | 0 <= r < k ensures Before(hits, preferComplete, rest[r], n) {
    }
    forall q, r | 0 <= q < r < n ensures Before(hits, preferComplete, rest[q], rest[r]) {
      assert Before(hits[..n], preferComplete, rest[q], rest[r]);
    }
    hide Before, Insert;
    var order := Insert(rest, k, n);
    forall q, r | 0 <= q < r < |order| ensures Before(hits, preferComplete, order[q], order[r]) {
    }
  }

  /** The hits in the order they are visited. */
  function Visited(hits: seq<Hit>, preferComplete: bool): (visited: seq<Hit>)
    ensures |visited| == |hits|
  {
    Pick(hits, VisitOrder(hits, preferComplete))
  }

  lemma BeforeTotal(hits: seq<Hit>, preferComplete: bool, i: nat, j: nat)
    requires i < |hits| && j < |hits|
    ensures !(Before(hits, preferComplete, i, j) && Before(hits, preferComplete, j, i))
    ensures i != j ==> Before(hits, preferComplete, i, j) || Before(hits, preferComplete, j, i)
  {
  }

  // ----- Visiting depends only on the set of hits when no two scores are equal

  predicate DistinctScores(hits: seq<Hit>) {
    forall i, j :: 0 <= i < j < |hits| ==> hits[i].score != hits[j].score
  }

  predicate StrictlySorted(s: seq<Hit>, preferComplete: bool) {
    forall q, r :: 0 <= q < r < |s| ==> Precedes(s[q], s[r], preferComplete)
  }

  function HitSet(s: seq<Hit>): set<Hit> {
    set h | h in s
  }

  lemma {:induction false} StrictlySortedUnique(s: seq<Hit>, t: seq<Hit>, preferComplete: bool)
    requires StrictlySorted(s, preferComplete) && StrictlySorted(t, preferComplete)
    requires forall h :: h in s <==> h in t
    ensures s == t
  {
    assert s != [] ==> s[0] in t;
    assert t != [] ==> t[0] in s;
    if s != [] {
      assert s[0] in t && t[0] in s;
      assert s[0] == t[0];
      forall h ensures h in s[1..] <==> h in t[1..] {
        assert h in s[1..] <==> h in s && h != s[0];
        assert h in t[1..] <==> h in t && h != t[0];
      }
      StrictlySortedUnique(s[1..], t[1..], preferComplete);
      assert s == [s[0]] + s[1..] && t == [t[0]] + t[1..];
    }
  }

  lemma VisitedHas(hits: seq<Hit>, preferComplete: bool)
    ensures forall h :: h in Visited(hits, preferComplete) <==> h in hits
  {
    var order := VisitOrder(hits, preferComplete);
    forall h | h in hits ensures h in Visited(hits, preferComplete) {
      var i: nat :| i < |hits| && hits[i] == h;
      assert i in order;
      var r :| 0 <= r < |order| && order[r] == i;
      assert Visited(hits, preferComplete)[r] == h;
    }
  }

  lemma VisitedUnique(a: seq<Hit>, b: seq<Hit>, preferComplete: bool)
    requires DistinctScores(a) && DistinctScores(b) && HitSet(a) == HitSet(b)
    ensures Visited(a, preferComplete) == Visited(b, preferComplete)
  {
    VisitedHas(a, preferComplete);
    VisitedHas(b, preferComplete);
    VisitedSorted(a, preferComplete);
    VisitedSorted(b, preferComplete);
    forall h ensures h in a <==> h in b {
      assert h in a <==> h in HitSet(a);
      assert h in b <==> h in HitSet(b);
    }
    StrictlySortedUnique(Visited(a, preferComplete), Visited(b, preferComplete), preferComplete);
  }

  lemma VisitedSorted(a: seq<Hit>, preferComplete: bool)
    requires DistinctScores(a)
    ensures StrictlySorted(Visited(a, preferComplete), preferComplete)
  {
    var order := VisitOrder(a, preferComplete);
    forall q, r | 0 <= q < r < |order| ensures Precedes(a[order[q]], a[order[r]], preferComplete) {
      assert Before(a, preferComplete, order[q], order[r]);
      assert order[q] != order[r];
    }
  }
}
