/** What fusion is for: an object that seams cut into pieces comes back whole, in any pool. */
module CutObjects {
  import opened Geometry
  import opened Detections
  import opened Fusion
  import opened FusionLaws
  import opened FusionProvenance
  import opened OverlapMeaning

  // ----- Which sets of detections become one

  /** Any two of the selected detections are connected, and no detection outside joins one of them. */
  ghost predicate IsComponent(pool: Pool, seamIou: real, s: seq<nat>)
    requires pool.Valid() && Selects(s, |pool.dets|)
  {
    && s != []
    && (forall i, j :: i in s && j in s ==> Connected(pool, seamIou, i, j))
    && Closed(pool, seamIou, s)
  }

  ghost predicate Closed(pool: Pool, seamIou: real, s: seq<nat>)
    requires pool.Valid()
  {
    forall i, m :: i in s && Joined(pool, seamIou, i, m) ==> m in s
  }

  lemma {:induction false} PathStays(pool: Pool, seamIou: real, s: seq<nat>, path: seq<nat>, i: nat, j: nat)
    requires pool.Valid() && Closed(pool, seamIou, s) && i in s && IsPath(pool, seamIou, path, i, j)
    ensures j in s
    decreases |path|
  {
    hide Joined;
    if |path| > 1 {
      assert Joined(pool, seamIou, path[0], path[1]);
      PathStays(pool, seamIou, s, path[1..], path[1], j);
    }
  }

  lemma SourcesAreComponent(pool: Pool, seamIou: real, k: nat)
    requires pool.Valid() && k < |Fused(pool, seamIou)|
    ensures IsComponent(pool, seamIou, Sources(pool, seamIou, k))
  {
    hide Fused, Roots, Sources, Joins, Connected;
    var s := Sources(pool, seamIou, k);
    FusedIsGroup(pool, seamIou, k);
    forall i, j | i in s && j in s ensures Connected(pool, seamIou, i, j) {
      GroupsAreComponents(pool, seamIou, i, j);
    }
    forall i, m | i in s && Joined(pool, seamIou, i, m) ensures m in s {
      OneStep(pool, seamIou, i, m);
      GroupsAreComponents(pool, seamIou, i, m);
    }
  }

  lemma ComponentIsFused(pool: Pool, seamIou: real, s: seq<nat>) returns (k: nat)
    requires pool.Valid() && Ascending(s) && Selects(s, |pool.dets|) && IsComponent(pool, seamIou, s)
    ensures k < |Fused(pool, seamIou)| && Sources(pool, seamIou, k) == s
  {
    hide Fused, Roots, Sources, Joins, Connected, Closed;
    k := SourcesCover(pool, seamIou, s[0]);
    FusedIsGroup(pool, seamIou, k);
    var members := Sources(pool, seamIou, k);
    forall i ensures i in members <==> i in s {
      if i in members || i in s {
        GroupsAreComponents(pool, seamIou, s[0], i);
        assert s[0] in s;
        if Connected(pool, seamIou, s[0], i) {
          ReachedStays(pool, seamIou, s, s[0], i);
        }
      }
    }
    AscendingUnique(members, s);
  }

  lemma ReachedStays(pool: Pool, seamIou: real, s: seq<nat>, i: nat, j: nat)
    requires pool.Valid() && Closed(pool, seamIou, s) && i in s && Connected(pool, seamIou, i, j)
    ensures j in s
  {
    hide IsPath, Closed;
    var path :| IsPath(pool, seamIou, path, i, j);
    PathStays(pool, seamIou, s, path, i, j);
  }

  /** In any pool, exactly the components are fused: some fused detection replaces the selected ones
      and no others if and only if they are connected and joined by no outsider. */
  lemma FusedIffComponent(pool: Pool, seamIou: real, s: seq<nat>)
    requires pool.Valid() && Ascending(s) && Selects(s, |pool.dets|)
    ensures (exists k :: 0 <= k < |Fused(pool, seamIou)| && Sources(pool, seamIou, k) == s)
            <==> IsComponent(pool, seamIou, s)
  {
    hide Fused, Sources, IsComponent;
    if k :| 0 <= k < |Fused(pool, seamIou)| && Sources(pool, seamIou, k) == s {
      SourcesAreComponent(pool, seamIou, k);
    }
    if IsComponent(pool, seamIou, s) {
      var k := ComponentIsFused(pool, seamIou, s);
    }
  }

  /** The fused detection is the object itself: its box, the class its pieces agree on, their best
      score, and complete. */
  ghost predicate Rebuilds(pool: Pool, s: seq<nat>, whole: Box, hit: Hit)
    requires pool.Valid() && Selects(s, |pool.dets|)
  {
    && hit.box == whole && !hit.truncated
    && (forall m :: m in s ==> pool.dets[m].hit.classId == hit.classId && pool.dets[m].hit.score <= hit.score)
    && exists m :: m in s && pool.dets[m].hit.score == hit.score
  }

  /** In any pool, two or more connected pieces that no other detection joins and whose smallest
      enclosing box is the object's come back as that object. */
  lemma PiecesAreRebuilt(pool: Pool, seamIou: real, s: seq<nat>, whole: Box) returns (k: nat)
    requires pool.Valid() && Ascending(s) && Selects(s, |pool.dets|) && IsComponent(pool, seamIou, s) && |s| >= 2
    requires MinimalEnclosing(whole, Boxes(Pick(pool.dets, s)))
    ensures k < |Fused(pool, seamIou)| && Sources(pool, seamIou, k) == s
    ensures Rebuilds(pool, s, whole, Fused(pool, seamIou)[k].hit)
  {
    hide Fused, Sources, IsComponent, MinimalEnclosing;
    k := ComponentIsFused(pool, seamIou, s);
    GroupComesFrom(pool, seamIou, k);
    var boxes := Boxes(Pick(pool.dets, s));
    MinimalEnclosingUnique(Fused(pool, seamIou)[k].hit.box, whole, boxes, boxes);
  }

  // ----- Slices of one object

  /** The second part starts and ends no earlier than the first and starts before the first has
      ended, all up to the tolerance. */
  predicate Follows(first: (real, real), second: (real, real)) {
    && first.0 <= second.0 + SEAM_TOL && first.1 <= second.1 + SEAM_TOL
    && second.0 <= first.1 + SEAM_TOL
  }

  lemma SlicesJoin(whole: Box, axis: Axis, first: (real, real), second: (real, real), seamIou: real)
    requires Proper(whole) && seamIou <= 1.0 && Follows(first, second)
    ensures FragmentsJoin(Slice(whole, axis, first.0, first.1), Slice(whole, axis, second.0, second.1), axis, seamIou)
  {
    var other := Other(axis);
    var low, high := Slice(whole, axis, first.0, first.1), Slice(whole, axis, second.0, second.1);
    assert low.Low(other) == high.Low(other) == whole.Low(other)
        && low.High(other) == high.High(other) == whole.High(other);
    var extent := whole.High(other) - whole.Low(other);
    RatioIsOne(extent, extent);
  }

  /** Two pieces of one object whose cuts overlap, or miss each other by no more than the
      tolerance, pass the geometric test for every seam_iou up to 1. */
  lemma PiecesJoin(whole: Box, axis: Axis, lowCut: real, highCut: real, seamIou: real)
    requires Proper(whole) && seamIou <= 1.0
    requires whole.Low(axis) <= highCut <= lowCut + SEAM_TOL && lowCut <= whole.High(axis)
    ensures FragmentsJoin(Below(whole, axis, lowCut), Above(whole, axis, highCut), axis, seamIou)
  {
    SlicesJoin(whole, axis, (whole.Low(axis), lowCut), (highCut, whole.High(axis)), seamIou);
  }

  /** The slice lies inside the object. */
  predicate Within(whole: Box, axis: Axis, part: (real, real)) {
    whole.Low(axis) <= part.0 && part.1 <= whole.High(axis)
  }

  /** Detection i is the given slice of the object. */
  predicate Shows(pool: Pool, i: nat, whole: Box, axis: Axis, part: (real, real), classId: int)
    requires i < |pool.dets|
  {
    && Within(whole, axis, part)
    && pool.dets[i].hit.box == Slice(whole, axis, part.0, part.1) && pool.dets[i].hit.classId == classId
  }

  /** Neighbouring slices follow each other and were cut apart by seams of different tiles. */
  predicate Neighbours(pool: Pool, axis: Axis, i: nat, j: nat, first: (real, real), second: (real, real))
    requires |pool.dets| == |pool.seams| && i < |pool.dets| && j < |pool.dets|
  {
    && Follows(first, second) && pool.dets[i].tileId != pool.dets[j].tileId
    && Cut(axis, HighEdge) in pool.seams[i] && Cut(axis, LowEdge) in pool.seams[j]
  }

  /** One object seen as two or more slices, the first at its low end and the last at its high end,
      anywhere in a pool: slice t is detection at[t]. */
  ghost predicate CutInSlices(pool: Pool, at: seq<nat>, whole: Box, axis: Axis, parts: seq<(real, real)>,
      classId: int)
  {
    && pool.Valid() && |at| == |parts| >= 2 && Selects(at, |pool.dets|) && Distinct(at)
    && parts[0].0 == whole.Low(axis) && parts[|parts| - 1].1 == whole.High(axis)
    && (forall t :: 0 <= t < |at| ==> Shows(pool, at[t], whole, axis, parts[t], classId))
    && forall t {:trigger at[t]} :: 0 < t < |at| ==> Neighbours(pool, axis, at[t - 1], at[t], parts[t - 1], parts[t])
  }

  lemma NeighboursJoin(pool: Pool, at: seq<nat>, whole: Box, axis: Axis, parts: seq<(real, real)>, classId: int,
      seamIou: real, t: nat)
    requires CutInSlices(pool, at, whole, axis, parts, classId) && Proper(whole) && seamIou <= 1.0 && 0 < t < |at|
    ensures Joined(pool, seamIou, at[t - 1], at[t])
  {
    hide FragmentsJoin, Slice, Proper, Follows;
    SlicesJoin(whole, axis, parts[t - 1], parts[t], seamIou);
    assert Neighbours(pool, axis, at[t - 1], at[t], parts[t - 1], parts[t]);
    assert Shows(pool, at[t - 1], whole, axis, parts[t - 1], classId);
    assert Completes(pool, seamIou, axis, at[t - 1], at[t]);
  }

  /** Walking from slice to slice connects any two of them. */
  lemma {:induction false} SlicesConnected(pool: Pool, at: seq<nat>, whole: Box, axis: Axis,
      parts: seq<(real, real)>, classId: int, seamIou: real, p: nat, q: nat)
    requires CutInSlices(pool, at, whole, axis, parts, classId) && Proper(whole) && seamIou <= 1.0
    requires pool.Valid() && p <= q < |at|
    ensures Connected(pool, seamIou, at[p], at[q]) && Connected(pool, seamIou, at[q], at[p])
    decreases q
  {
    hide Joined, Proper, CutInSlices, Connected;
    if p == q {
      ConnectedReflexive(pool, seamIou, at[p]);
    } else {
      SlicesConnected(pool, at, whole, axis, parts, classId, seamIou, p, q - 1);
      NeighboursJoin(pool, at, whole, axis, parts, classId, seamIou, q);
      OneStep(pool, seamIou, at[q - 1], at[q]);
      ConnectedTransitive(pool, seamIou, at[p], at[q - 1], at[q]);
      ConnectedSymmetric(pool, seamIou, at[p], at[q]);
    }
  }

  /** The pool positions of the slices, in increasing order. */
  function Positions(at: seq<nat>, n: nat): (s: seq<nat>)
    requires Selects(at, n)
    ensures Ascending(s) && Selects(s, n) && forall i :: i in s <==> i in at
  {
    Sorted((set i | i in at), n)
  }

  lemma SlicesEnclose(pool: Pool, at: seq<nat>, whole: Box, axis: Axis, parts: seq<(real, real)>, classId: int)
    requires CutInSlices(pool, at, whole, axis, parts, classId)
    ensures MinimalEnclosing(whole, Boxes(Pick(pool.dets, Positions(at, |pool.dets|))))
  {
    hide Neighbours;
    var s := Positions(at, |pool.dets|);
    var boxes := Boxes(Pick(pool.dets, s));
    forall k | 0 <= k < |boxes| ensures Encloses(whole, boxes[k]) {
      assert s[k] in s;
      var t :| 0 <= t < |at| && at[t] == s[k];
      SliceInside(pool, at[t], whole, axis, parts[t], classId);
    }
    var last := |at| - 1;
    assert at[0] in s && at[last] in s;
    var a :| 0 <= a < |s| && s[a] == at[0];
    var b :| 0 <= b < |s| && s[b] == at[last];
    assert Shows(pool, at[0], whole, axis, parts[0], classId);
    assert Shows(pool, at[last], whole, axis, parts[last], classId);
    forall other | forall k :: 0 <= k < |boxes| ==> Encloses(other, boxes[k]) ensures Encloses(other, whole) {
      assert Encloses(other, boxes[a]) && Encloses(other, boxes[b]);
      EndsEnclose(other, whole, axis, parts[0], parts[last]);
    }
  }

  lemma SliceInside(pool: Pool, i: nat, whole: Box, axis: Axis, part: (real, real), classId: int)
    requires i < |pool.dets| && Shows(pool, i, whole, axis, part, classId)
    ensures Encloses(whole, pool.dets[i].hit.box)
  {
  }

  lemma EndsEnclose(other: Box, whole: Box, axis: Axis, first: (real, real), last: (real, real))
    requires first.0 == whole.Low(axis) && last.1 == whole.High(axis)
    requires Encloses(other, Slice(whole, axis, first.0, first.1))
    requires Encloses(other, Slice(whole, axis, last.0, last.1))
    ensures Encloses(other, whole)
  {
  }

  /** An object cut into any number of slices, wherever they sit in a pool and whatever else the pool
      holds: unless another detection joins one of them, fusion gives the object back. */
  lemma SlicedObjectIsRebuilt(pool: Pool, at: seq<nat>, whole: Box, axis: Axis, parts: seq<(real, real)>,
      classId: int, seamIou: real) returns (k: nat)
    requires CutInSlices(pool, at, whole, axis, parts, classId) && Proper(whole) && seamIou <= 1.0
    requires Closed(pool, seamIou, at)
    ensures k < |Fused(pool, seamIou)| && Sources(pool, seamIou, k) == Positions(at, |pool.dets|)
    ensures Rebuilds(pool, at, whole, Fused(pool, seamIou)[k].hit)
  {
    hide Fused, Sources, Proper, Connected, Shows, Neighbours, Positions, MinimalEnclosing, Joined;
    var s := Positions(at, |pool.dets|);
    forall i, j | i in s && j in s ensures Connected(pool, seamIou, i, j) {
      var p :| 0 <= p < |at| && at[p] == i;
      var q :| 0 <= q < |at| && at[q] == j;
      SlicesConnected(pool, at, whole, axis, parts, classId, seamIou, if p <= q then p else q, if p <= q then q else p);
    }
    assert at[0] in s && at[1] in s;
    SlicesEnclose(pool, at, whole, axis, parts, classId);
    k := PiecesAreRebuilt(pool, seamIou, s, whole);
  }

  // ----- The plain case: one seam, two tiles

  /** One object seen in two tiles as detections i and j, each cut at one seam. */
  ghost predicate CutInTwo(pool: Pool, i: nat, j: nat, whole: Box, axis: Axis, lowCut: real, highCut: real) {
    && pool.Valid() && i < |pool.dets| && j < |pool.dets| && i != j
    && pool.dets[i].hit.box == Below(whole, axis, lowCut) && pool.dets[j].hit.box == Above(whole, axis, highCut)
    && pool.dets[i].hit.classId == pool.dets[j].hit.classId && pool.dets[i].tileId != pool.dets[j].tileId
    && Cut(axis, HighEdge) in pool.seams[i] && Cut(axis, LowEdge) in pool.seams[j]
  }

  /** Cutting an object in two along either axis and fusing gives one detection: the object's own
      box, the better score, the same class, and no longer truncated; and nothing else when the pool
      holds nothing else. */
  lemma CutObjectIsRebuilt(pool: Pool, i: nat, j: nat, whole: Box, axis: Axis, lowCut: real, highCut: real,
      seamIou: real) returns (k: nat)
    requires CutInTwo(pool, i, j, whole, axis, lowCut, highCut) && Proper(whole) && seamIou <= 1.0
    requires whole.Low(axis) <= highCut <= lowCut + SEAM_TOL && lowCut <= whole.High(axis)
    requires |pool.dets| == 2 || Closed(pool, seamIou, [i, j])
    ensures var fused := Fused(pool, seamIou); var a, b := pool.dets[i].hit.score, pool.dets[j].hit.score;
            && k < |fused| && fused[k].hit == Hit(whole, Max(a, b), pool.dets[i].hit.classId, false)
            && (|pool.dets| == 2 ==> |fused| == 1)
  {
    hide Fused, Proper, Positions, Joins, Slice;
    var at, parts := [i, j], [(whole.Low(axis), lowCut), (highCut, whole.High(axis))];
    var classId := pool.dets[i].hit.classId;
    assert at[0] == i && at[1] == j && parts[0] == (whole.Low(axis), lowCut) && parts[1] == (highCut, whole.High(axis));
    assert Shows(pool, i, whole, axis, parts[0], classId) && Shows(pool, j, whole, axis, parts[1], classId);
    assert Neighbours(pool, axis, i, j, parts[0], parts[1]);
    k := SlicedObjectIsRebuilt(pool, at, whole, axis, parts, classId, seamIou);
    assert i in at && j in at;
    if |pool.dets| == 2 {
      AllInOne(pool, seamIou, k, at);
    }
  }

  /** A fused detection that replaces the whole pool is the only one. */
  lemma AllInOne(pool: Pool, seamIou: real, k: nat, at: seq<nat>)
    requires pool.Valid() && k < |Fused(pool, seamIou)| && forall i: nat :: i < |pool.dets| ==> i in at
    requires forall i :: i in at ==> i in Sources(pool, seamIou, k)
    ensures |Fused(pool, seamIou)| == 1
  {
    hide Fused, Sources, Roots;
    if |Fused(pool, seamIou)| > 1 {
      var other := if k == 0 then 1 else 0;
      FusedIsGroup(pool, seamIou, other);
      var m := Sources(pool, seamIou, other)[0];
      assert m in Sources(pool, seamIou, other);
      SourcesDisjoint(pool, seamIou, k, other, m);
    }
  }
}
