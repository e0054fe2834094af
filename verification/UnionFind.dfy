/** The union-find inside fuse_seam_fragments: a parent array with path halving and no rank, which
    refines a labelling that gives every item its root outright. */
module UnionFind {

  /** Every item is labelled with the representative of its class. */
  ghost predicate IsLabelling(root: seq<nat>) {
    forall i :: 0 <= i < |root| ==> root[i] < |root| && root[root[i]] == root[i]
  }

  ghost function Singletons(n: nat): seq<nat> {
    seq(n, i => i)
  }

  /** The class of j joins the class of i and takes its root. */
  ghost function MergeRoots(root: seq<nat>, i: nat, j: nat): (merged: seq<nat>)
    requires IsLabelling(root) && i < |root| && j < |root|
    ensures |merged| == |root| && IsLabelling(merged) && merged[i] == merged[j]
  {
    seq(|root|, x requires 0 <= x < |root| => if root[x] == root[j] then root[i] else root[x])
  }

  /** The parent links form a forest with the given roots; rank strictly grows along every link. */
  ghost predicate Forest(parent: seq<nat>, root: seq<nat>, rank: seq<nat>, top: nat) {
    && |root| == |rank| == |parent|
    && IsLabelling(root)
    && forall i :: 0 <= i < |parent| ==> Linked(parent, root, rank, top, i)
  }

  ghost predicate Linked(parent: seq<nat>, root: seq<nat>, rank: seq<nat>, top: nat, i: nat)
    requires |root| == |rank| == |parent| && i < |parent|
  {
    && parent[i] < |parent|
    && root[parent[i]] == root[i]
    && (parent[i] == i <==> root[i] == i)
    && rank[i] <= top
    && (parent[i] != i ==> rank[i] < rank[parent[i]])
  }

  /** Pointing an item at its grandparent changes nobody's root. */
  lemma HalvingKeepsForest(parent: seq<nat>, root: seq<nat>, rank: seq<nat>, top: nat, i: nat)
    requires Forest(parent, root, rank, top) && i < |parent| && parent[i] != i
    ensures var p := parent[i];
            p < |parent| && parent[p] < |parent| && rank[i] < rank[parent[p]] <= top
            && Forest(parent[i := parent[p]], root, rank, top)
  {
    var p := parent[i];
    assert Linked(parent, root, rank, top, i);
    assert Linked(parent, root, rank, top, p);
    var parent' := parent[i := parent[p]];
    assert Linked(parent, root, rank, top, parent[p]);
    forall x | 0 <= x < |parent'| ensures Linked(parent', root, rank, top, x) {
      assert Linked(parent, root, rank, top, x);
    }
  }

  /** Hanging one root under another merges exactly their two classes. */
  lemma LinkingKeepsForest(parent: seq<nat>, root: seq<nat>, rank: seq<nat>, top: nat, i: nat, j: nat)
    requires Forest(parent, root, rank, top) && i < |parent| && j < |parent| && root[i] != root[j]
    ensures var ri, rj := root[i], root[j];
            var rank' := rank[ri := if rank[ri] <= rank[rj] then rank[rj] + 1 else rank[ri]];
            Forest(parent[rj := ri], MergeRoots(root, i, j), rank', top + 1)
  {
    var ri, rj := root[i], root[j];
    var rank' := rank[ri := if rank[ri] <= rank[rj] then rank[rj] + 1 else rank[ri]];
    assert Linked(parent, root, rank, top, rj);
    assert Linked(parent, root, rank, top, ri);
    var parent', root', top' := parent[rj := ri], MergeRoots(root, i, j), top + 1;
    forall x: nat | x < |parent'| ensures Linked(parent', root', rank', top', x) {
      assert Linked(parent, root, rank, top, x);
    }
  }

  class DisjointSets {
    const parent: array<nat>
    ghost var root: seq<nat>
    ghost var rank: seq<nat>
    ghost var top: nat

    ghost predicate Valid()
      reads this, parent
    {
      Forest(parent[..], root, rank, top)
    }

    constructor (n: nat)
      ensures Valid() && fresh(parent) && root == Singletons(n)
    {
      parent := new nat[n](i => i);
      root, rank, top := Singletons(n), seq(n, _ => 0), 0;
    }

    /** Walks to the root, halving the path on the way: it terminates, returns the root and
        changes nobody's root. */
    method Find(start: nat) returns (r: nat)
      requires Valid() && start < |root|
      modifies parent
      ensures Valid() && r == root[start]
    {
      var i: nat := start;
      assert Linked(parent[..], root, rank, top, i);
      while parent[i] != i
        invariant Valid() && i < parent.Length && root[i] == root[start] && Linked(parent[..], root, rank, top, i)
        decreases top - rank[i]
      {
        HalvingKeepsForest(parent[..], root, rank, top, i);
        assert Linked(parent[..], root, rank, top, parent[i]);
        ghost var halved := parent[..][i := parent[parent[i]]];
        parent[i] := parent[parent[i]];
        assert parent[..] == halved;
        assert Linked(parent[..], root, rank, top, i);
        i := parent[i];
        assert Linked(parent[..], root, rank, top, i);
      }
      r := i;
    }

    method Union(i: nat, j: nat)
      requires Valid() && i < |root| && j < |root|
      modifies this, parent
      ensures Valid() && root == if old(root[i] == root[j]) then old(root) else MergeRoots(old(root), i, j)
    {
      var ri := Find(i);
      var rj := Find(j);
      if ri != rj {
        LinkingKeepsForest(parent[..], root, rank, top, i, j);
        ghost var linked := parent[..][rj := ri];
        parent[rj] := ri;
        assert parent[..] == linked;
        root, rank := MergeRoots(root, i, j), rank[ri := if rank[ri] <= rank[rj] then rank[rj] + 1 else rank[ri]];
        top := top + 1;
      }
    }
  }
}
