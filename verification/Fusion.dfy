/** Rebuilding objects that tile seams cut into pieces (fuse_seam_fragments). */
module Fusion {
  import opened Cardinality
  import opened Geometry
  import opened Detections
  import opened Numeric
  import opened UnionFind

  /** Detections as parallel arrays with, for each, the edges a seam cuts off. */
  datatype Pool = Pool(dets: seq<Detection>, seams: seq<set<Cut>>) {
    ghost predicate Valid() { |dets| == |seams| }
  }

  /** `low`, cut at its high edge along the axis, and `high`, cut at its low edge, join. */
  predicate Completes(pool: Pool, seamIou: real, axis: Axis, low: nat, high: nat)
    requires |pool.dets| == |pool.seams| && low < |pool.dets| && high < |pool.dets|
  {
    && Cut(axis, HighEdge) in pool.seams[low]
    && Cut(axis, LowEdge) in pool.seams[high]
    && FragmentsJoin(pool.dets[low].hit.box, pool.dets[high].hit.box, axis, seamIou)
  }

  /** The pair relation: same class, different tiles, complementary truncation on some axis. */
  predicate Joins(pool: Pool, seamIou: real, i: nat, j: nat)
    requires |pool.dets| == |pool.seams| && i < |pool.dets| && j < |pool.dets|
  {
    && pool.seams[i] != {} && pool.seams[j] != {}
    && pool.dets[i].hit.classId == pool.dets[j].hit.classId
    && pool.dets[i].tileId != pool.dets[j].tileId
    && (|| Completes(pool, seamIou, AxisX, i, j) || Completes(pool, seamIou, AxisX, j, i)
        || Completes(pool, seamIou, AxisY, i, j) || Completes(pool, seamIou, AxisY, j, i))
  }

  // ----- The reference labelling: merge classes pair by pair, in the order of the loops

  ghost function MergeIf(root: seq<nat>, joined: bool, i: nat, j: nat): (root': seq<nat>)
    requires IsLabelling(root) && i < |root| && j < |root|
    ensures |root'| == |root| && IsLabelling(root')
  {
    if joined && root[i] != root[j] then MergeRoots(root, i, j) else root
  }

  /** After the pairs of row i with second index below j. */
  ghost function AfterRow(pool: Pool, seamIou: real, root: seq<nat>, i: nat, j: nat): (root': seq<nat>)
    requires pool.Valid() && IsLabelling(root) && i < j <= |root| == |pool.dets|
    ensures |root'| == |root| && IsLabelling(root')
  {
    if j == i + 1 then root
    else MergeIf(AfterRow(pool, seamIou, root, i, j - 1), Joins(pool, seamIou, i, j - 1), i, j - 1)
  }

  /** After the first i rows. */
  ghost function AfterRows(pool: Pool, seamIou: real, i: nat): (root: seq<nat>)
    requires pool.Valid() && i <= |pool.dets|
    ensures |root| == |pool.dets| && IsLabelling(root)
  {
    if i == 0 then Singletons(|pool.dets|)
    else AfterRow(pool, seamIou, AfterRows(pool, seamIou, i - 1), i - 1, |pool.dets|)
  }

  ghost function Roots(pool: Pool, seamIou: real): (root: seq<nat>)
    requires pool.Valid()
    ensures |root| == |pool.dets| && IsLabelling(root)
  {
    AfterRows(pool, seamIou, |pool.dets|)
  }

  // ----- The fused detections

  function Boxes(dets: seq<Detection>): seq<Box> {
    seq(|dets|, k requires 0 <= k < |dets| => dets[k].hit.box)
  }

  function Scores(dets: seq<Detection>): seq<real> {
    seq(|dets|, k requires 0 <= k < |dets| => dets[k].hit.score)
  }

  function Enclosing(boxes: seq<Box>): Box
    requires boxes != []
  {
    Box(Least(seq(|boxes|, k requires 0 <= k < |boxes| => boxes[k].x1)),
        Least(seq(|boxes|, k requires 0 <= k < |boxes| => boxes[k].y1)),
        Greatest(seq(|boxes|, k requires 0 <= k < |boxes| => boxes[k].x2)),
        Greatest(seq(|boxes|, k requires 0 <= k < |boxes| => boxes[k].y2)))
  }

  /** One group replaced by its enclosing box, carrying its best member's score, class and tile. */
  function Group(pool: Pool, members: seq<nat>): Detection
    requires |pool.dets| == |pool.seams| && members != [] && Selects(members, |pool.dets|)
  {
    var dets := Pick(pool.dets, members);
    var best := dets[ArgMax(Scores(dets))];
    Detection(Hit(Enclosing(Boxes(dets)), Greatest(Scores(dets)), best.hit.classId,
                  |members| == 1 && pool.seams[members[0]] != {}),
              best.tileId)
  }

  ghost function Members(root: seq<nat>, r: nat): (members: seq<nat>)
    ensures Ascending(members) && Selects(members, |root|)
    ensures forall i :: i in members <==> 0 <= i < |root| && root[i] == r
  {
    Sorted(set i | 0 <= i < |root| && root[i] == r, |root|)
  }

  /** The representatives, in increasing order. */
  ghost function Keys(root: seq<nat>): (keys: seq<nat>)
    requires IsLabelling(root)
    ensures Ascending(keys) && Selects(keys, |root|)
    ensures forall r :: r in keys <==> 0 <= r < |root| && root[r] == r
  {
    Sorted(set r | 0 <= r < |root| && root[r] == r, |root|)
  }

  ghost function Fused(pool: Pool, seamIou: real): (fused: seq<Detection>)
    requires pool.Valid()
  {
    var root := Roots(pool, seamIou);
    var keys := Keys(root);
    seq(|keys|, k requires 0 <= k < |keys| => GroupAt(pool, root, keys[k]))
  }

  ghost function GroupAt(pool: Pool, root: seq<nat>, r: nat): Detection
    requires pool.Valid() && |root| == |pool.dets| && r < |root| && root[r] == r
  {
    assert r in Members(root, r);
    Group(pool, Members(root, r))
  }

  /** Every detection, flagged as truncated exactly when a seam cuts it. */
  function Flagged(pool: Pool): (dets: seq<Detection>)
    requires |pool.dets| == |pool.seams|
    ensures |dets| == |pool.dets|
  {
    seq(|pool.dets|, i requires 0 <= i < |pool.dets| =>
      pool.dets[i].(hit := pool.dets[i].hit.(truncated := pool.seams[i] != {})))
  }

  // ----- The early returns agree with the general rebuild

  lemma AloneIsFlagged(pool: Pool, i: nat)
    requires pool.Valid() && i < |pool.dets|
    ensures Group(pool, [i]) == Flagged(pool)[i]
  {
    var dets := Pick(pool.dets, [i]);
    assert Boxes(dets) == [pool.dets[i].hit.box];
  }

  lemma NothingFused(pool: Pool, seamIou: real)
    requires pool.Valid()
    requires forall r :: 0 <= r < |pool.dets| ==> Roots(pool, seamIou)[r] == r
    ensures Fused(pool, seamIou) == Flagged(pool)
  {
    var n, root := |pool.dets|, Roots(pool, seamIou);
    forall r ensures r in Singletons(n) <==> r in Keys(root) {
      if 0 <= r < n { assert Singletons(n)[r] == r; }
    }
    AscendingUnique(Keys(root), Singletons(n));
    forall r: nat | r < n ensures GroupAt(pool, root, r) == Flagged(pool)[r] {
      AscendingUnique(Members(root, r), [r]);
      AloneIsFlagged(pool, r);
    }
  }

  // ----- The algorithm

  /** Both orders of a pair along one axis; a second union of the same pair changes nothing. */
  method JoinAlong(sets: DisjointSets, pool: Pool, seamIou: real, axis: Axis, i: nat, j: nat)
    requires sets.Valid() && pool.Valid() && i < j < |sets.root| == |pool.dets|
    modifies sets, sets.parent
    ensures sets.Valid()
    ensures sets.root == MergeIf(old(sets.root), Completes(pool, seamIou, axis, i, j)
        || Completes(pool, seamIou, axis, j, i), i, j)
  {
    hide Completes;
    if Completes(pool, seamIou, axis, i, j) {
      sets.Union(i, j);
    }
    if Completes(pool, seamIou, axis, j, i) {
      sets.Union(i, j);
    }
  }

  method JoinPair(sets: DisjointSets, pool: Pool, seamIou: real, i: nat, j: nat)
    requires sets.Valid() && pool.Valid() && i < j < |sets.root| == |pool.dets|
    modifies sets, sets.parent
    ensures sets.Valid() && sets.root == MergeIf(old(sets.root), Joins(pool, seamIou, i, j), i, j)
  {
    hide Completes;
    if pool.seams[i] == {} || pool.seams[j] == {} {
      return;
    }
    if pool.dets[i].hit.classId != pool.dets[j].hit.classId {
      return;
    }
    if pool.dets[i].tileId == pool.dets[j].tileId {
      return;
    }
    JoinAlong(sets, pool, seamIou, AxisX, i, j);
    JoinAlong(sets, pool, seamIou, AxisY, i, j);
  }

  /** The pair loops. */
  method JoinAll(pool: Pool, seamIou: real) returns (sets: DisjointSets)
    requires pool.Valid()
    ensures fresh(sets) && fresh(sets.parent) && sets.Valid() && sets.root == Roots(pool, seamIou)
  {
    hide Joins, MergeIf;
    var num := |pool.dets|;
    sets := new DisjointSets(num);
    for i := 0 to num
      invariant fresh(sets) && fresh(sets.parent)
      invariant sets.Valid() && sets.root == AfterRows(pool, seamIou, i)
    {
      for j := i + 1 to num
        invariant fresh(sets) && fresh(sets.parent)
        invariant sets.Valid() && sets.root == AfterRow(pool, seamIou, AfterRows(pool, seamIou, i), i, j)
      {
        JoinPair(sets, pool, seamIou, i, j);
      }
    }
  }

  /** The group dictionary: every index is appended to the list kept under its root. */
  method CollectGroups(sets: DisjointSets) returns (groups: map<nat, seq<nat>>)
    requires sets.Valid()
    modifies sets.parent
    ensures forall r :: r in groups <==> 0 <= r < |sets.root| && sets.root[r] == r
    ensures forall r :: r in groups ==> groups[r] == Members(sets.root, r)
  {
    ghost var root := sets.root;
    groups := map[];
    for i := 0 to |sets.parent[..]|
      invariant sets.Valid()
      invariant forall r :: r in groups <==> exists x :: 0 <= x < i && root[x] == r
      invariant forall r :: r in groups ==> groups[r] == Members(root[..i], r)
    {
      var r := sets.Find(i);
      MembersGrow(root, i, groups);
      groups := groups[r := (if r in groups then groups[r] else []) + [i]];
    }
    assert root[..|root|] == root;
  }

  method FuseSeamFragments(pool: Pool, seamIou: real) returns (fused: seq<Detection>)
    requires pool.Valid()
    ensures fused == Fused(pool, seamIou)
  {
    hide Joins, Group, Flagged, MergeIf, AfterRows, Fused, Members;
    var num := |pool.dets|;
    ghost var root := Roots(pool, seamIou);
    if num < 2 {
      NothingFused(pool, seamIou);
      return Flagged(pool);
    }
    var sets := JoinAll(pool, seamIou);
    var groups := CollectGroups(sets);
    if |groups| == num {
      BoundedSet(groups.Keys, num);
      NothingFused(pool, seamIou);
      return Flagged(pool);
    }
    var keys := Sorted(groups.Keys, num);
    AscendingUnique(keys, Keys(root));
    fused := [];
    for k := 0 to |keys|
      invariant |fused| == k
      invariant forall q :: 0 <= q < k ==> fused[q] == GroupAt(pool, root, keys[q])
    {
      assert keys[k] in groups && keys[k] in Members(root, keys[k]);
      fused := fused + [Group(pool, groups[keys[k]])];
    }
    FusedIs(pool, seamIou, fused);
  }

  lemma FusedIs(pool: Pool, seamIou: real, fused: seq<Detection>)
    requires pool.Valid()
    requires var root := Roots(pool, seamIou);
             |fused| == |Keys(root)| && forall q :: 0 <= q < |fused| ==> fused[q] == GroupAt(pool, root, Keys(root)[q])
    ensures fused == Fused(pool, seamIou)
  {
  }

  lemma MembersGrow(root: seq<nat>, i: nat, groups: map<nat, seq<nat>>)
    requires i < |root|
    requires forall r :: r in groups <==> exists x :: 0 <= x < i && root[x] == r
    requires forall r :: r in groups ==> groups[r] == Members(root[..i], r)
    ensures forall r :: r in groups && r != root[i] ==> Members(root[..i + 1], r) == groups[r]
    ensures var r := root[i]; Members(root[..i + 1], r) == (if r in groups then groups[r] else []) + [i]
  {
    forall r | r in groups && r != root[i] ensures Members(root[..i + 1], r) == groups[r] {
      AscendingUnique(Members(root[..i + 1], r), groups[r]);
    }
    var r := root[i];
    AscendingUnique(Members(root[..i + 1], r), (if r in groups then groups[r] else []) + [i]);
  }
}
