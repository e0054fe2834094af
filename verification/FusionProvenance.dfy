/** Where a fused detection comes from, and why the order of the pool does not matter. */
module FusionProvenance {
  import opened Geometry
  import opened Detections
  import opened Numeric
  import opened Fusion
  import opened FusionLaws

  /** The pool indices the k-th fused detection replaces. */
  ghost function Sources(pool: Pool, seamIou: real, k: nat): (members: seq<nat>)
    requires pool.Valid() && k < |Fused(pool, seamIou)|
    ensures Ascending(members) && Selects(members, |pool.dets|)
  {
    var root := Roots(pool, seamIou);
    Members(root, Keys(root)[k])
  }

  ghost predicate Encloses(outer: Box, inner: Box) {
    outer.x1 <= inner.x1 && outer.y1 <= inner.y1 && outer.x2 >= inner.x2 && outer.y2 >= inner.y2
  }

  /** The smallest box around the given ones: it contains each of them and every box doing so. */
  ghost predicate MinimalEnclosing(outer: Box, boxes: seq<Box>) {
    && (forall k :: 0 <= k < |boxes| ==> Encloses(outer, boxes[k]))
    && forall other :: (forall k :: 0 <= k < |boxes| ==> Encloses(other, boxes[k])) ==> Encloses(other, outer)
  }

  lemma EnclosingIsMinimal(boxes: seq<Box>)
    requires boxes != []
    ensures MinimalEnclosing(Enclosing(boxes), boxes)
  {
    var n := |boxes|;
    var lefts, tops := seq(n, k requires 0 <= k < n => boxes[k].x1), seq(n, k requires 0 <= k < n => boxes[k].y1);
    var rights, bottoms := seq(n, k requires 0 <= k < n => boxes[k].x2), seq(n, k requires 0 <= k < n => boxes[k].y2);
    var outer := Enclosing(boxes);
    assert outer == Box(Least(lefts), Least(tops), Greatest(rights), Greatest(bottoms));
    hide Enclosing, Least, Greatest;
    forall k | 0 <= k < n ensures Encloses(outer, boxes[k]) {
      assert lefts[k] == boxes[k].x1 && tops[k] == boxes[k].y1 && rights[k] == boxes[k].x2 && bottoms[k] == boxes[k].y2;
    }
    var a :| 0 <= a < n && lefts[a] == outer.x1;
    var b :| 0 <= b < n && tops[b] == outer.y1;
    var c :| 0 <= c < n && rights[c] == outer.x2;
    var d :| 0 <= d < n && bottoms[d] == outer.y2;
    forall other | forall k :: 0 <= k < n ==> Encloses(other, boxes[k]) ensures Encloses(other, outer) {
      assert Encloses(other, boxes[a]) && Encloses(other, boxes[b]) && Encloses(other, boxes[c])
          && Encloses(other, boxes[d]);
    }
  }

  lemma MinimalEnclosingUnique(p: Box, q: Box, boxes: seq<Box>, boxes': seq<Box>)
    requires MinimalEnclosing(p, boxes) && MinimalEnclosing(q, boxes')
    requires forall b :: b in boxes <==> b in boxes'
    ensures p == q
  {
    forall k | 0 <= k < |boxes'| ensures Encloses(p, boxes'[k]) {
      assert boxes'[k] in boxes;
    }
    forall k | 0 <= k < |boxes| ensures Encloses(q, boxes[k]) {
      assert boxes[k] in boxes';
    }
    assert Encloses(p, q) && Encloses(q, p);
  }

  lemma {:induction false} ConnectedFacts(pool: Pool, seamIou: real, path: seq<nat>, i: nat, j: nat)
    requires pool.Valid() && i < |pool.dets| && IsPath(pool, seamIou, path, i, j)
    ensures j < |pool.dets| && pool.dets[i].hit.classId == pool.dets[j].hit.classId
    decreases |path|
  {
    hide Completes;
    if |path| > 1 {
      assert Joined(pool, seamIou, path[0], path[1]);
      ConnectedFacts(pool, seamIou, path[1..], path[1], j);
    }
  }

  /** A member of a larger group is cut by a seam and joins a member from another tile. */
  lemma GroupedIsTruncated(pool: Pool, seamIou: real, i: nat, j: nat) returns (partner: nat)
    requires pool.Valid() && i < |pool.dets| && j < |pool.dets| && i != j
    requires Roots(pool, seamIou)[i] == Roots(pool, seamIou)[j]
    ensures pool.seams[i] != {}
    ensures partner < |pool.dets| && pool.dets[partner].tileId != pool.dets[i].tileId
    ensures Roots(pool, seamIou)[partner] == Roots(pool, seamIou)[i]
  {
    GroupsAreComponents(pool, seamIou, i, j);
    var path :| IsPath(pool, seamIou, path, i, j);
    partner := path[1];
    assert Joined(pool, seamIou, path[0], path[1]);
    OneStep(pool, seamIou, i, partner);
    GroupsAreComponents(pool, seamIou, i, partner);
  }

  /** What a fused detection says about the inputs it replaces. */
  ghost predicate ComesFrom(pool: Pool, members: seq<nat>, det: Detection)
    requires pool.Valid() && Selects(members, |pool.dets|)
  {
    var dets := Pick(pool.dets, members);
    && members != []
    && (forall m :: m in members ==> pool.dets[m].hit.classId == det.hit.classId)
    && MinimalEnclosing(det.hit.box, Boxes(dets))
    && (forall m :: m in members ==> pool.dets[m].hit.score <= det.hit.score)
    && (exists m :: m in members && pool.dets[m].hit.score == det.hit.score && pool.dets[m].tileId == det.tileId)
    && (det.hit.truncated <==> |members| == 1 && pool.seams[members[0]] != {})
    && (|members| >= 2 ==> forall m :: m in members ==> pool.seams[m] != {})
    && (|members| >= 2 ==> exists m, m' :: m in members && m' in members && pool.dets[m].tileId != pool.dets[m'].tileId)
  }

  lemma SameClass(pool: Pool, seamIou: real, i: nat, j: nat)
    requires pool.Valid() && i < |pool.dets| && j < |pool.dets|
    requires Roots(pool, seamIou)[i] == Roots(pool, seamIou)[j]
    ensures pool.dets[i].hit.classId == pool.dets[j].hit.classId
  {
    GroupsAreComponents(pool, seamIou, i, j);
    var path :| IsPath(pool, seamIou, path, i, j);
    ConnectedFacts(pool, seamIou, path, i, j);
  }

  lemma BestMember(pool: Pool, members: seq<nat>) returns (m: nat)
    requires pool.Valid() && members != [] && Selects(members, |pool.dets|)
    ensures m in members
    ensures var det := Group(pool, members);
            && pool.dets[m].hit.score == det.hit.score && pool.dets[m].tileId == det.tileId
            && pool.dets[m].hit.classId == det.hit.classId
            && forall x :: x in members ==> pool.dets[x].hit.score <= det.hit.score
  {
    hide Enclosing;
    var dets := Pick(pool.dets, members);
    var best := ArgMax(Scores(dets));
    m := members[best];
    forall x | x in members ensures pool.dets[x].hit.score <= Greatest(Scores(dets)) {
      var q :| 0 <= q < |members| && members[q] == x;
      assert Scores(dets)[q] == pool.dets[x].hit.score;
    }
  }

  /** The group of a key, before anything is said about its members. */
  lemma FusedIsGroup(pool: Pool, seamIou: real, k: nat)
    requires pool.Valid() && k < |Fused(pool, seamIou)|
    ensures var members := Sources(pool, seamIou, k); members != [] && Fused(pool, seamIou)[k] == Group(pool, members)
    ensures forall m, m' :: m in Sources(pool, seamIou, k) && m' in Sources(pool, seamIou, k) ==>
              Roots(pool, seamIou)[m] == Roots(pool, seamIou)[m']
    ensures forall m, m' | m in Sources(pool, seamIou, k) && 0 <= m' < |pool.dets| ::
              Roots(pool, seamIou)[m] == Roots(pool, seamIou)[m'] ==> m' in Sources(pool, seamIou, k)
  {
    hide Group, Roots;
    assert Keys(Roots(pool, seamIou))[k] in Keys(Roots(pool, seamIou));
    assert Keys(Roots(pool, seamIou))[k] in Sources(pool, seamIou, k);
  }

  /** A group of two or more spans two tiles and holds only members cut by a seam. */
  lemma LargeGroup(pool: Pool, seamIou: real, k: nat)
    requires pool.Valid() && k < |Fused(pool, seamIou)| && |Sources(pool, seamIou, k)| >= 2
    ensures var members := Sources(pool, seamIou, k);
            && (forall m :: m in members ==> pool.seams[m] != {})
            && exists m, m' :: m in members && m' in members && pool.dets[m].tileId != pool.dets[m'].tileId
  {
    hide Fused, Roots, Sources;
    FusedIsGroup(pool, seamIou, k);
    var members := Sources(pool, seamIou, k);
    forall m | m in members ensures pool.seams[m] != {} {
      var other := if members[0] == m then members[1] else members[0];
      assert other in members && other != m;
      var partner := GroupedIsTruncated(pool, seamIou, m, other);
    }
    assert members[0] in members && members[1] in members;
    var partner := GroupedIsTruncated(pool, seamIou, members[0], members[1]);
    assert partner in members;
  }

  lemma GroupComesFrom(pool: Pool, seamIou: real, k: nat)
    requires pool.Valid() && k < |Fused(pool, seamIou)|
    ensures ComesFrom(pool, Sources(pool, seamIou, k), Fused(pool, seamIou)[k])
  {
    hide Fused, Roots, Sources, Enclosing, MinimalEnclosing;
    var det, members := Fused(pool, seamIou)[k], Sources(pool, seamIou, k);
    FusedIsGroup(pool, seamIou, k);
    var best := BestMember(pool, members);
    EnclosingIsMinimal(Boxes(Pick(pool.dets, members)));
    forall m | m in members ensures pool.dets[m].hit.classId == det.hit.classId {
      SameClass(pool, seamIou, m, best);
    }
    if |members| >= 2 {
      LargeGroup(pool, seamIou, k);
    }
  }

  /** Distinct fused detections replace disjoint sets of inputs. */
  lemma SourcesDisjoint(pool: Pool, seamIou: real, k: nat, k': nat, m: nat)
    requires pool.Valid() && k < |Fused(pool, seamIou)| && k' < |Fused(pool, seamIou)|
    requires m in Sources(pool, seamIou, k) && m in Sources(pool, seamIou, k')
    ensures k == k'
  {
    var keys := Keys(Roots(pool, seamIou));
    assert keys[k] == keys[k'];
  }

  /** Every input is replaced by some fused detection. */
  lemma SourcesCover(pool: Pool, seamIou: real, m: nat) returns (k: nat)
    requires pool.Valid() && m < |pool.dets|
    ensures k < |Fused(pool, seamIou)| && m in Sources(pool, seamIou, k)
  {
    var root := Roots(pool, seamIou);
    var keys := Keys(root);
    assert root[m] in keys;
    k :| 0 <= k < |keys| && keys[k] == root[m];
  }

  // ----- Fusion depends only on what the pool holds

  /** b holds the detections of a in another order and, possibly, under other tile numbers. */
  ghost predicate Rearranges(a: Pool, b: Pool, perm: seq<nat>) {
    && a.Valid() && b.Valid() && |a.dets| == |b.dets| && IsPermutation(perm, |a.dets|)
    && (forall i :: 0 <= i < |perm| ==> b.dets[perm[i]].hit == a.dets[i].hit && b.seams[perm[i]] == a.seams[i])
    && forall i, j :: 0 <= i < |perm| && 0 <= j < |perm| ==>
         (a.dets[i].tileId == a.dets[j].tileId <==> b.dets[perm[i]].tileId == b.dets[perm[j]].tileId)
  }

  ghost function Inverse(perm: seq<nat>): (inverse: seq<nat>)
    requires IsPermutation(perm, |perm|)
    ensures |inverse| == |perm|
    ensures forall j :: 0 <= j < |perm| ==> inverse[j] < |perm| && perm[inverse[j]] == j
    ensures forall i :: 0 <= i < |perm| ==> inverse[perm[i]] == i
    ensures IsPermutation(inverse, |perm|)
  {
    var inverse := seq(|perm|, j requires 0 <= j < |perm| => Position(perm, j));
    assert forall i: nat :: i < |perm| ==> i in inverse by {
      forall i: nat | i < |perm| ensures i in inverse {
        assert inverse[perm[i]] == i;
      }
    }
    inverse
  }

  lemma RearrangesBack(a: Pool, b: Pool, perm: seq<nat>)
    requires Rearranges(a, b, perm)
    ensures Rearranges(b, a, Inverse(perm))
  {
    var inverse := Inverse(perm);
    forall i | 0 <= i < |perm| ensures a.dets[inverse[i]].hit == b.dets[i].hit && a.seams[inverse[i]] == b.seams[i] {
      assert perm[inverse[i]] == i;
    }
    forall i, j | 0 <= i < |perm| && 0 <= j < |perm|
      ensures b.dets[i].tileId == b.dets[j].tileId <==> a.dets[inverse[i]].tileId == a.dets[inverse[j]].tileId
    {
      assert perm[inverse[i]] == i && perm[inverse[j]] == j;
    }
  }

  lemma JoinsRearranged(a: Pool, b: Pool, perm: seq<nat>, seamIou: real, i: nat, j: nat)
    requires Rearranges(a, b, perm) && i < |a.dets| && j < |a.dets|
    ensures Joins(a, seamIou, i, j) == Joins(b, seamIou, perm[i], perm[j])
  {
    hide FragmentsJoin;
  }

  lemma ConnectedRearranged(a: Pool, b: Pool, perm: seq<nat>, seamIou: real, i: nat, j: nat)
    requires Rearranges(a, b, perm) && i < |a.dets| && j < |a.dets| && Connected(a, seamIou, i, j)
    ensures Connected(b, seamIou, perm[i], perm[j])
  {
    hide Joins;
    var path :| IsPath(a, seamIou, path, i, j);
    PathInRange(a, seamIou, path, i, j);
    var image := seq(|path|, k requires 0 <= k < |path| => perm[path[k]]);
    forall k | 0 < k < |path| ensures Joined(b, seamIou, image[k - 1], image[k]) {
      assert Joined(a, seamIou, path[k - 1], path[k]);
      JoinsRearranged(a, b, perm, seamIou, path[k - 1], path[k]);
      PermInRange(a, b, perm, path[k - 1]);
      PermInRange(a, b, perm, path[k]);
    }
    assert IsPath(b, seamIou, image, perm[i], perm[j]);
  }

  lemma PermInRange(a: Pool, b: Pool, perm: seq<nat>, i: nat)
    requires Rearranges(a, b, perm) && i < |a.dets|
    ensures a.Valid() && b.Valid() && |perm| == |a.dets| == |b.dets| && perm[i] < |b.dets|
  {
  }

  lemma PathInRange(a: Pool, seamIou: real, path: seq<nat>, i: nat, j: nat)
    requires a.Valid() && i < |a.dets| && IsPath(a, seamIou, path, i, j)
    ensures forall k :: 0 <= k < |path| ==> path[k] < |a.dets|
  {
    forall k | 0 < k < |path| ensures path[k] < |a.dets| {
      assert Joined(a, seamIou, path[k - 1], path[k]);
    }
  }

  lemma RootsRearranged(a: Pool, b: Pool, perm: seq<nat>, seamIou: real, i: nat, j: nat)
    requires Rearranges(a, b, perm) && i < |a.dets| && j < |a.dets|
    ensures Roots(a, seamIou)[i] == Roots(a, seamIou)[j] <==> Roots(b, seamIou)[perm[i]] == Roots(b, seamIou)[perm[j]]
  {
    GroupsAreComponents(a, seamIou, i, j);
    GroupsAreComponents(b, seamIou, perm[i], perm[j]);
    if Connected(a, seamIou, i, j) {
      ConnectedRearranged(a, b, perm, seamIou, i, j);
    }
    if Connected(b, seamIou, perm[i], perm[j]) {
      RearrangesBack(a, b, perm);
      ConnectedRearranged(b, a, Inverse(perm), seamIou, perm[i], perm[j]);
    }
  }

  /** p and q select the same detections of the two pools. */
  ghost predicate Corresponds(perm: seq<nat>, p: seq<nat>, q: seq<nat>) {
    && IsPermutation(perm, |perm|)
    && Selects(p, |perm|) && Selects(q, |perm|) && Ascending(p) && Ascending(q)
    && forall i :: 0 <= i < |perm| ==> (i in p <==> perm[i] in q)
  }

  lemma SameBoxes(a: Pool, b: Pool, perm: seq<nat>, p: seq<nat>, q: seq<nat>)
    requires Rearranges(a, b, perm) && Corresponds(perm, p, q)
    ensures forall box :: box in Boxes(Pick(a.dets, p)) <==> box in Boxes(Pick(b.dets, q))
  {
    var boxes, boxes' := Boxes(Pick(a.dets, p)), Boxes(Pick(b.dets, q));
    forall k: nat | k < |p| ensures boxes[k] in boxes' {
      assert p[k] in p;
      assert perm[p[k]] in q;
      var k' :| 0 <= k' < |q| && q[k'] == perm[p[k]];
      assert boxes'[k'] == boxes[k];
    }
    forall k: nat | k < |q| ensures boxes'[k] in boxes {
      assert q[k] in q;
      var i := Position(perm, q[k]);
      assert i in p;
      var k' :| 0 <= k' < |p| && p[k'] == i;
      assert boxes[k'] == boxes'[k];
    }
  }

  lemma SameSingleton(perm: seq<nat>, p: seq<nat>, q: seq<nat>)
    requires Corresponds(perm, p, q) && |p| == 1
    ensures q == [perm[p[0]]]
  {
    var j := perm[p[0]];
    assert p[0] in p;
    forall k: nat ensures k in q <==> k in [j] {
      if k in q {
        var i := Position(perm, k);
        assert i in p;
      }
    }
    AscendingUnique(q, [j]);
  }

  lemma CorrespondsBack(perm: seq<nat>, p: seq<nat>, q: seq<nat>)
    requires Corresponds(perm, p, q)
    ensures Corresponds(Inverse(perm), q, p)
  {
    forall j | 0 <= j < |perm| ensures j in q <==> Inverse(perm)[j] in p {
      assert perm[Inverse(perm)[j]] == j;
    }
  }

  /** The hits two descriptions of the same group give are equal. */
  lemma SameGroupSameHit(a: Pool, b: Pool, perm: seq<nat>, p: seq<nat>, q: seq<nat>, x: Detection, y: Detection)
    requires Rearranges(a, b, perm) && Corresponds(perm, p, q)
    requires ComesFrom(a, p, x) && ComesFrom(b, q, y)
    ensures x.hit == y.hit
  {
    hide MinimalEnclosing;
    SameBoxes(a, b, perm, p, q);
    MinimalEnclosingUnique(x.hit.box, y.hit.box, Boxes(Pick(a.dets, p)), Boxes(Pick(b.dets, q)));
    SameScore(a, b, perm, p, q, x, y);
    CorrespondsBack(perm, p, q);
    if |p| == 1 {
      SameSingleton(perm, p, q);
    } else if |q| == 1 {
      SameSingleton(Inverse(perm), q, p);
    }
  }

  lemma SameScore(a: Pool, b: Pool, perm: seq<nat>, p: seq<nat>, q: seq<nat>, x: Detection, y: Detection)
    requires Rearranges(a, b, perm) && Corresponds(perm, p, q)
    requires ComesFrom(a, p, x) && ComesFrom(b, q, y)
    ensures x.hit.score == y.hit.score && x.hit.classId == y.hit.classId
  {
    var m :| m in p && a.dets[m].hit.score == x.hit.score;
    assert perm[m] in q;
    var m' :| m' in q && b.dets[m'].hit.score == y.hit.score;
    assert Position(perm, m') in p;
  }

  function Hits(dets: seq<Detection>): seq<Hit> {
    seq(|dets|, k requires 0 <= k < |dets| => dets[k].hit)
  }

  lemma FusedHitReappears(a: Pool, b: Pool, perm: seq<nat>, seamIou: real, k: nat)
    requires Rearranges(a, b, perm) && k < |Fused(a, seamIou)|
    ensures Fused(a, seamIou)[k].hit in HitSet(Hits(Fused(b, seamIou)))
  {
    hide ComesFrom, Roots;
    var p, key := Sources(a, seamIou, k), Keys(Roots(a, seamIou))[k];
    assert key in Keys(Roots(a, seamIou));
    var k' := SourcesCover(b, seamIou, perm[key]);
    var q := Sources(b, seamIou, k');
    forall i | 0 <= i < |perm| ensures i in p <==> perm[i] in q {
      RootsRearranged(a, b, perm, seamIou, i, key);
    }
    GroupComesFrom(a, seamIou, k);
    GroupComesFrom(b, seamIou, k');
    SameGroupSameHit(a, b, perm, p, q, Fused(a, seamIou)[k], Fused(b, seamIou)[k']);
    assert Hits(Fused(b, seamIou))[k'] == Fused(b, seamIou)[k'].hit;
  }

  /** Rearranging the pool, even with tiles renumbered, fuses to the same set of hits. */
  lemma FusionIgnoresOrder(a: Pool, b: Pool, perm: seq<nat>, seamIou: real)
    requires Rearranges(a, b, perm)
    ensures HitSet(Hits(Fused(a, seamIou))) == HitSet(Hits(Fused(b, seamIou)))
  {
    hide Fused;
    forall h | h in HitSet(Hits(Fused(a, seamIou))) ensures h in HitSet(Hits(Fused(b, seamIou))) {
      var k :| 0 <= k < |Fused(a, seamIou)| && Fused(a, seamIou)[k].hit == h;
      FusedHitReappears(a, b, perm, seamIou, k);
    }
    RearrangesBack(a, b, perm);
    forall h | h in HitSet(Hits(Fused(b, seamIou))) ensures h in HitSet(Hits(Fused(a, seamIou))) {
      var k :| 0 <= k < |Fused(b, seamIou)| && Fused(b, seamIou)[k].hit == h;
      FusedHitReappears(b, a, Inverse(perm), seamIou, k);
    }
  }

  /** Fusion keeps scores pairwise distinct. */
  lemma FusedScoresDistinct(pool: Pool, seamIou: real)
    requires pool.Valid() && DistinctScores(Hits(pool.dets))
    ensures DistinctScores(Hits(Fused(pool, seamIou)))
  {
    hide Fused;
    var fused := Fused(pool, seamIou);
    forall k, k' | 0 <= k < k' < |fused| ensures fused[k].hit.score != fused[k'].hit.score {
      GroupComesFrom(pool, seamIou, k);
      GroupComesFrom(pool, seamIou, k');
      var m :| m in Sources(pool, seamIou, k) && pool.dets[m].hit.score == fused[k].hit.score;
      var m' :| m' in Sources(pool, seamIou, k') && pool.dets[m'].hit.score == fused[k'].hit.score;
      if m == m' {
        SourcesDisjoint(pool, seamIou, k, k', m);
      }
      assert Hits(pool.dets)[m].score == pool.dets[m].hit.score && Hits(pool.dets)[m'].score == pool.dets[m'].hit.score;
    }
  }
}
