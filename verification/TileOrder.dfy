/** The merge does not depend on the order in which the tiles are listed, as long as the
    detection sets are listed in the same order. */
module TileOrder {
  import opened Wrappers
  import opened Cardinality
  import opened Geometry
  import opened Detections
  import opened Suppression
  import opened SuppressionLaws
  import opened Fusion
  import opened FusionProvenance
  import opened Merge
  import opened MergeTheorems

  // ----- Where a tile's detections sit in the pool

  function Start(perTile: seq<seq<Raw>>, t: nat): nat
    requires t <= |perTile|
  {
    if t == 0 then 0 else Start(perTile, t - 1) + |perTile[t - 1]|
  }

  lemma {:induction false} PooledAt(perTile: seq<seq<Raw>>, tiles: seq<Tile>, n: nat, frameSize: int, edgeEps: real,
      t: nat, k: nat)
    requires frameSize > 0 && t < n <= |tiles| == |perTile| && k < |perTile[t]|
    ensures var pool, i := Pooled(perTile, tiles, n, frameSize, edgeEps), Start(perTile, t) + k;
            && |pool.dets| == Start(perTile, n) && i < |pool.dets|
            && pool.dets[i] == Located(perTile[t][k], tiles[t], t, frameSize, edgeEps)
            && pool.seams[i] == Truncation(perTile[t][k].box, tiles[t], frameSize, edgeEps)
  {
    hide Located, Truncation;
    PooledLength(perTile, tiles, n - 1, frameSize, edgeEps);
    if t < n - 1 {
      PooledAt(perTile, tiles, n - 1, frameSize, edgeEps, t, k);
    }
  }

  lemma {:induction false} PooledLength(perTile: seq<seq<Raw>>, tiles: seq<Tile>, n: nat, frameSize: int, edgeEps: real)
    requires frameSize > 0 && n <= |tiles| == |perTile|
    ensures |Pooled(perTile, tiles, n, frameSize, edgeEps).dets| == Start(perTile, n)
  {
    if n > 0 {
      PooledLength(perTile, tiles, n - 1, frameSize, edgeEps);
    }
  }

  /** The tile and the position inside it that a pool index stands for. */
  lemma {:induction false} Locate(perTile: seq<seq<Raw>>, tiles: seq<Tile>, n: nat, frameSize: int, edgeEps: real,
      i: nat) returns (t: nat, k: nat)
    requires frameSize > 0 && n <= |tiles| == |perTile|
    requires i < |Pooled(perTile, tiles, n, frameSize, edgeEps).dets|
    ensures t < n && k < |perTile[t]| && i == Start(perTile, t) + k
    ensures Pooled(perTile, tiles, n, frameSize, edgeEps).dets[i].tileId == t
  {
    hide ToFrame, Truncation;
    PooledLength(perTile, tiles, n - 1, frameSize, edgeEps);
    if i < Start(perTile, n - 1) {
      t, k := Locate(perTile, tiles, n - 1, frameSize, edgeEps, i);
    } else {
      t, k := n - 1, i - Start(perTile, n - 1);
    }
  }

  // ----- The permutation of the pool that a permutation of the tiles induces

  /** The same tiles with the same detections, listed in another order. */
  ghost predicate Relists(perTile: seq<seq<Raw>>, tiles: seq<Tile>, perTile': seq<seq<Raw>>, tiles': seq<Tile>,
      sigma: seq<nat>) {
    && |perTile| == |tiles| == |perTile'| == |tiles'| && IsPermutation(sigma, |tiles|)
    && forall t :: 0 <= t < |sigma| ==> perTile'[sigma[t]] == perTile[t] && tiles'[sigma[t]] == tiles[t]
  }

  lemma RelistsBack(perTile: seq<seq<Raw>>, tiles: seq<Tile>, perTile': seq<seq<Raw>>, tiles': seq<Tile>,
      sigma: seq<nat>)
    requires Relists(perTile, tiles, perTile', tiles', sigma)
    ensures Relists(perTile', tiles', perTile, tiles, Inverse(sigma))
  {
    forall t | 0 <= t < |sigma|
        ensures perTile[Inverse(sigma)[t]] == perTile'[t] && tiles[Inverse(sigma)[t]] == tiles'[t] {
      assert sigma[Inverse(sigma)[t]] == t;
    }
  }

  /** b's index j stands for the same detection as a's index i. */
  ghost predicate Mates(a: Pool, b: Pool, sigma: seq<nat>, i: nat, j: nat)
    requires a.Valid() && b.Valid() && i < |a.dets| && j < |b.dets|
  {
    && a.dets[i].hit == b.dets[j].hit && a.seams[i] == b.seams[j]
    && a.dets[i].tileId < |sigma| && b.dets[j].tileId == sigma[a.dets[i].tileId]
  }

  lemma FindMate(perTile: seq<seq<Raw>>, tiles: seq<Tile>, perTile': seq<seq<Raw>>, tiles': seq<Tile>,
      sigma: seq<nat>, frameSize: int, edgeEps: real, i: nat) returns (j: nat)
    requires frameSize > 0 && Relists(perTile, tiles, perTile', tiles', sigma)
    requires i < |Pooled(perTile, tiles, |tiles|, frameSize, edgeEps).dets|
    ensures var a, b := Pooled(perTile, tiles, |tiles|, frameSize, edgeEps),
        Pooled(perTile', tiles', |tiles|, frameSize, edgeEps);
            && j < |b.dets| && Mates(a, b, sigma, i, j)
            && j - Start(perTile', b.dets[j].tileId) == i - Start(perTile, a.dets[i].tileId)
  {
    hide ToFrame, Truncation, Pooled;
    var t, k := Locate(perTile, tiles, |tiles|, frameSize, edgeEps, i);
    j := Start(perTile', sigma[t]) + k;
    PooledAt(perTile, tiles, |tiles|, frameSize, edgeEps, t, k);
    PooledAt(perTile', tiles', |tiles|, frameSize, edgeEps, sigma[t], k);
  }

  ghost function Mate(perTile: seq<seq<Raw>>, tiles: seq<Tile>, perTile': seq<seq<Raw>>, tiles': seq<Tile>,
      sigma: seq<nat>, frameSize: int, edgeEps: real, i: nat): (j: nat)
    requires frameSize > 0 && Relists(perTile, tiles, perTile', tiles', sigma)
    requires i < |Pooled(perTile, tiles, |tiles|, frameSize, edgeEps).dets|
    ensures var a, b := Pooled(perTile, tiles, |tiles|, frameSize, edgeEps),
        Pooled(perTile', tiles', |tiles|, frameSize, edgeEps);
            && j < |b.dets| && Mates(a, b, sigma, i, j)
            && j - Start(perTile', b.dets[j].tileId) == i - Start(perTile, a.dets[i].tileId)
  {
    var a, b := Pooled(perTile, tiles, |tiles|, frameSize, edgeEps),
        Pooled(perTile', tiles', |tiles|, frameSize, edgeEps);
    assert exists j: nat ::
        && j < |b.dets| && Mates(a, b, sigma, i, j)
        && j - Start(perTile', b.dets[j].tileId) == i - Start(perTile, a.dets[i].tileId)
    by {
      var j := FindMate(perTile, tiles, perTile', tiles', sigma, frameSize, edgeEps, i);
    }
    var j: nat :| j < |b.dets| && Mates(a, b, sigma, i, j)
        && j - Start(perTile', b.dets[j].tileId) == i - Start(perTile, a.dets[i].tileId);
    j
  }

  function Elements(s: seq<nat>): set<nat> {
    set x | x in s
  }

  lemma {:induction false} DistinctBounded(s: seq<nat>, n: nat)
    requires Distinct(s) && Selects(s, n)
    ensures |Elements(s)| == |s| <= n
  {
    if s != [] {
      var last := |s| - 1;
      DistinctBounded(s[..last], n);
      assert Elements(s) == Elements(s[..last]) + {s[last]};
    }
    BoundedSet(Elements(s), n);
  }

  ghost function Mating(perTile: seq<seq<Raw>>, tiles: seq<Tile>, perTile': seq<seq<Raw>>, tiles': seq<Tile>,
      sigma: seq<nat>, frameSize: int, edgeEps: real): seq<nat>
    requires frameSize > 0 && Relists(perTile, tiles, perTile', tiles', sigma)
  {
    var n := |Pooled(perTile, tiles, |tiles|, frameSize, edgeEps).dets|;
    seq(n, i requires 0 <= i < n => Mate(perTile, tiles, perTile', tiles', sigma, frameSize, edgeEps, i))
  }

  lemma MateInjective(perTile: seq<seq<Raw>>, tiles: seq<Tile>, perTile': seq<seq<Raw>>, tiles': seq<Tile>,
      sigma: seq<nat>, frameSize: int, edgeEps: real, i: nat, j: nat)
    requires frameSize > 0 && Relists(perTile, tiles, perTile', tiles', sigma)
    requires var perm := Mating(perTile, tiles, perTile', tiles', sigma, frameSize, edgeEps);
             i < |perm| && j < |perm| && perm[i] == perm[j]
    ensures i == j
  {
    hide Mate, Pooled;
    var a := Pooled(perTile, tiles, |tiles|, frameSize, edgeEps);
    var s, t := a.dets[i].tileId, a.dets[j].tileId;
    assert sigma[s] == sigma[t];
  }

  lemma MatingInjective(perTile: seq<seq<Raw>>, tiles: seq<Tile>, perTile': seq<seq<Raw>>, tiles': seq<Tile>,
      sigma: seq<nat>, frameSize: int, edgeEps: real)
    requires frameSize > 0 && Relists(perTile, tiles, perTile', tiles', sigma)
    ensures var perm := Mating(perTile, tiles, perTile', tiles', sigma, frameSize, edgeEps);
            Distinct(perm) && |perm| <= |Pooled(perTile', tiles', |tiles|, frameSize, edgeEps).dets|
  {
    hide Mate, Pooled;
    var perm := Mating(perTile, tiles, perTile', tiles', sigma, frameSize, edgeEps);
    var a, b := Pooled(perTile, tiles, |tiles|, frameSize, edgeEps),
        Pooled(perTile', tiles', |tiles|, frameSize, edgeEps);
    forall i, j | 0 <= i < j < |perm| ensures perm[i] != perm[j] {
      if perm[i] == perm[j] {
        MateInjective(perTile, tiles, perTile', tiles', sigma, frameSize, edgeEps, i, j);
      }
    }
    DistinctBounded(perm, |b.dets|);
  }

  lemma InjectionIsPermutation(perm: seq<nat>, n: nat)
    requires |perm| == n && Distinct(perm) && Selects(perm, n)
    ensures IsPermutation(perm, n)
  {
    DistinctBounded(perm, n);
    BoundedSet(Elements(perm), n);
    forall i: nat | i < n ensures i in perm {
      assert i in Elements(perm);
    }
  }

  lemma RelistingRearranges(perTile: seq<seq<Raw>>, tiles: seq<Tile>, perTile': seq<seq<Raw>>, tiles': seq<Tile>,
      sigma: seq<nat>, frameSize: int, edgeEps: real)
    requires frameSize > 0 && Relists(perTile, tiles, perTile', tiles', sigma)
    ensures Rearranges(Pooled(perTile, tiles, |tiles|, frameSize, edgeEps),
        Pooled(perTile', tiles', |tiles|, frameSize, edgeEps),
        Mating(perTile, tiles, perTile', tiles', sigma, frameSize, edgeEps))
  {
    hide Mate, Pooled;
    MatingInjective(perTile, tiles, perTile', tiles', sigma, frameSize, edgeEps);
    RelistsBack(perTile, tiles, perTile', tiles', sigma);
    MatingInjective(perTile', tiles', perTile, tiles, Inverse(sigma), frameSize, edgeEps);
    var perm := Mating(perTile, tiles, perTile', tiles', sigma, frameSize, edgeEps);
    InjectionIsPermutation(perm, |perm|);
  }

  // ----- From the pool to the report

  /** a and b hold the same hits, no two with one score. */
  ghost predicate SameHits(a: seq<Detection>, b: seq<Detection>) {
    DistinctScores(Hits(a)) && DistinctScores(Hits(b)) && HitSet(Hits(a)) == HitSet(Hits(b))
  }

  lemma RearrangedSameHits(a: Pool, b: Pool, perm: seq<nat>)
    requires Rearranges(a, b, perm) && DistinctScores(Hits(a.dets))
    ensures SameHits(a.dets, b.dets)
  {
    forall j, j' | 0 <= j < j' < |b.dets| ensures Hits(b.dets)[j].score != Hits(b.dets)[j'].score {
      var i, i' := Position(perm, j), Position(perm, j');
      assert Hits(a.dets)[i].score != Hits(a.dets)[i'].score;
    }
    forall j | 0 <= j < |b.dets| ensures Hits(b.dets)[j] in HitSet(Hits(a.dets)) {
      var i := Position(perm, j);
      assert Hits(a.dets)[i] == Hits(b.dets)[j];
    }
    forall i | 0 <= i < |a.dets| ensures Hits(a.dets)[i] in HitSet(Hits(b.dets)) {
      assert Hits(b.dets)[perm[i]] == Hits(a.dets)[i];
    }
  }

  lemma CandidatesSameHits(a: Pool, b: Pool, perm: seq<nat>, opts: Options)
    requires Rearranges(a, b, perm) && DistinctScores(Hits(a.dets))
    ensures SameHits(Candidates(a, opts), Candidates(b, opts))
  {
    hide Fused;
    RearrangedSameHits(a, b, perm);
    if opts.fuseSeams {
      FusionIgnoresOrder(a, b, perm, opts.seamIou);
      FusedScoresDistinct(a, opts.seamIou);
      FusedScoresDistinct(b, opts.seamIou);
    }
  }

  lemma SuppressedSameHits(a: seq<Detection>, b: seq<Detection>, rule: Rule)
    requires SameHits(a, b)
    ensures SameHits(Pick(a, Kept(Hits(a), rule)), Pick(b, Kept(Hits(b), rule)))
  {
    hide Kept;
    SuppressionIgnoresOrder(Hits(a), Hits(b), rule);
    assert Hits(Pick(a, Kept(Hits(a), rule))) == Suppressed(Hits(a), rule);
    assert Hits(Pick(b, Kept(Hits(b), rule))) == Suppressed(Hits(b), rule);
  }

  lemma SurvivorsSameHits(a: seq<Detection>, b: seq<Detection>, opts: Options)
    requires SameHits(a, b)
    ensures SameHits(Pick(a, Survivors(a, opts)), Pick(b, Survivors(b, opts)))
  {
    hide Kept, SameHits;
    if opts.iosThresh <= 1.0 {
      SuppressedSameHits(a, b, opts.Containment());
    }
    var a1, b1 := Pick(a, Uncontained(a, opts)), Pick(b, Uncontained(b, opts));
    assert opts.iosThresh > 1.0 ==> a1 == a && b1 == b;
    SuppressedSameHits(a1, b1, opts.Nms());
    assert Pick(a, Survivors(a, opts)) == Pick(a1, Kept(Hits(a1), opts.Nms()));
    assert Pick(b, Survivors(b, opts)) == Pick(b1, Kept(Hits(b1), opts.Nms()));
  }

  ghost function FinishHit(h: Hit, opts: Options): Hit {
    Finish(Detection(h, 0), opts).hit
  }

  predicate IsShown(h: Hit, opts: Options) {
    opts.clip ==> HasArea(ClipBox(h.box))
  }

  /** Where a visible hit is listed among the visible ones. */
  lemma ShownAt(survivors: seq<Detection>, opts: Options, h: Hit) returns (v: nat)
    requires h in HitSet(Hits(survivors)) && IsShown(h, opts)
    ensures v < |Visible(survivors, opts)| && survivors[Visible(survivors, opts)[v]].hit == h
  {
    hide HasArea, ClipBox;
    var i: nat :| i < |survivors| && Hits(survivors)[i] == h;
    assert i in Visible(survivors, opts);
    v :| 0 <= v < |Visible(survivors, opts)| && Visible(survivors, opts)[v] == i;
  }

  /** h is the finished form of a hit of the list that stays visible. */
  ghost predicate IsFinishOf(h: Hit, hits: seq<Hit>, opts: Options) {
    exists g :: g in HitSet(hits) && IsShown(g, opts) && h == FinishHit(g, opts)
  }

  lemma FinishedHits(survivors: seq<Detection>, opts: Options, h: Hit)
    ensures h in HitSet(Hits(Finished(Pick(survivors, Visible(survivors, opts)), opts))) <==>
        IsFinishOf(h, Hits(survivors), opts)
  {
    hide HasArea, ClipBox, Visible, FinishHit;
    var visible := Visible(survivors, opts);
    var finished := Finished(Pick(survivors, visible), opts);
    var hits := Hits(finished);
    forall v: nat | v < |finished| ensures hits[v] == FinishHit(survivors[visible[v]].hit, opts) {
      FinishKeepsHit(survivors[visible[v]], opts);
    }
    if h in hits {
      var v: nat :| v < |hits| && hits[v] == h;
      var i := visible[v];
      assert i in visible;
      var g := Hits(survivors)[i];
      assert g in HitSet(Hits(survivors)) && h == FinishHit(g, opts);
    }
    if IsFinishOf(h, Hits(survivors), opts) {
      var g :| g in HitSet(Hits(survivors)) && IsShown(g, opts) && h == FinishHit(g, opts);
      var v := ShownAt(survivors, opts, g);
      assert hits[v] == h;
    }
  }

  lemma FinishKeepsHit(det: Detection, opts: Options)
    ensures Finish(det, opts).hit == FinishHit(det.hit, opts)
  {
  }

  lemma RankedHits(dets: seq<Detection>, h: Hit)
    ensures h in HitSet(Hits(Ranked(dets, None))) <==> h in HitSet(Hits(dets))
  {
    hide VisitOrder;
    var order := VisitOrder(Hits(dets), false);
    var ranked := Ranked(dets, None);
    assert ranked == Pick(dets, order);
    if h in Hits(dets) {
      var v: nat :| v < |dets| && Hits(dets)[v] == h;
      assert Hits(ranked)[RankOf(Hits(dets), false, v)] == h;
    }
    if h in Hits(ranked) {
      var k: nat :| k < |ranked| && Hits(ranked)[k] == h;
      assert Hits(dets)[order[k]] == h;
    }
  }

  /** Without a cap, a report holds the finished form of every visible survivor. */
  lemma ReportedHits(candidates: seq<Detection>, opts: Options, h: Hit)
    requires opts.maxBoxes.None?
    ensures h in HitSet(Hits(Reported(candidates, opts))) <==>
            IsFinishOf(h, Hits(Pick(candidates, Survivors(candidates, opts))), opts)
  {
    hide Ranked, Finished, Visible, Survivors;
    var survivors := Pick(candidates, Survivors(candidates, opts));
    FinishedHits(survivors, opts, h);
    RankedHits(Finished(Pick(survivors, Visible(survivors, opts)), opts), h);
  }

  /** Listing the tiles and their detection sets in another order changes nothing: when no two
      input scores are equal and nothing is capped, the reported boxes, scores, classes and
      truncation flags are the same. */
  lemma MergeIgnoresTileOrder(perTile: seq<seq<Raw>>, tiles: seq<Tile>, perTile': seq<seq<Raw>>, tiles': seq<Tile>,
      sigma: seq<nat>, frameSize: int, opts: Options)
    requires frameSize > 0 && Relists(perTile, tiles, perTile', tiles', sigma) && opts.maxBoxes.None?
    requires DistinctScores(Hits(Pooled(perTile, tiles, |tiles|, frameSize, opts.edgeEps).dets))
    ensures HitSet(Hits(Merged(perTile, tiles, frameSize, opts)))
        == HitSet(Hits(Merged(perTile', tiles', frameSize, opts)))
  {
    hide Pooled, Candidates, Reported, Survivors, Mating, HasArea, ClipBox, Rearranges;
    var a, b := Pooled(perTile, tiles, |tiles|, frameSize, opts.edgeEps),
        Pooled(perTile', tiles', |tiles|, frameSize, opts.edgeEps);
    var perm := Mating(perTile, tiles, perTile', tiles', sigma, frameSize, opts.edgeEps);
    RelistingRearranges(perTile, tiles, perTile', tiles', sigma, frameSize, opts.edgeEps);
    CandidatesSameHits(a, b, perm, opts);
    var p, q := Candidates(a, opts), Candidates(b, opts);
    SurvivorsSameHits(p, q, opts);
    forall h ensures h in HitSet(Hits(Reported(p, opts))) <==> h in HitSet(Hits(Reported(q, opts))) {
      ReportedHits(p, opts, h);
      ReportedHits(q, opts, h);
    }
  }

  // ----- Equal reports

  /** No two visible hits of the list are finished to one score. */
  ghost predicate FinishesApart(hits: seq<Hit>, opts: Options) {
    forall g, h | g in HitSet(hits) && h in HitSet(hits) && g != h && IsShown(g, opts) && IsShown(h, opts) ::
      FinishHit(g, opts).score != FinishHit(h, opts).score
  }

  /** Ranking without a cap moves scores but neither adds nor drops any. */
  lemma RankedDistinct(dets: seq<Detection>)
    ensures DistinctScores(Hits(Ranked(dets, None))) <==> DistinctScores(Hits(dets))
  {
    hide VisitOrder;
    var order, hits := VisitOrder(Hits(dets), false), Hits(dets);
    var ranked := Hits(Ranked(dets, None));
    assert |order| == |dets| && forall k :: 0 <= k < |order| ==> ranked[k] == hits[order[k]];
    if DistinctScores(ranked) {
      forall i, j | 0 <= i < j < |hits| ensures hits[i].score != hits[j].score {
        var p, q := RankOf(hits, false, i), RankOf(hits, false, j);
        assert ranked[p].score != ranked[q].score;
      }
    }
    if DistinctScores(hits) {
      forall p, q | 0 <= p < q < |ranked| ensures ranked[p].score != ranked[q].score {
        assert order[p] != order[q];
      }
    }
  }

  lemma ShownDistinct(survivors: seq<Detection>, opts: Options)
    requires DistinctScores(Hits(survivors))
    ensures DistinctScores(Hits(Finished(Pick(survivors, Visible(survivors, opts)), opts)))
            <==> FinishesApart(Hits(survivors), opts)
  {
    hide HasArea, ClipBox, Visible, FinishHit;
    var visible, hits := Visible(survivors, opts), Hits(survivors);
    var finished := Hits(Finished(Pick(survivors, visible), opts));
    forall v: nat | v < |finished|
      ensures finished[v] == FinishHit(hits[visible[v]], opts) && IsShown(hits[visible[v]], opts)
      ensures hits[visible[v]] in HitSet(hits)
    {
      FinishKeepsHit(survivors[visible[v]], opts);
      assert visible[v] in visible;
    }
    if DistinctScores(finished) {
      forall g, h | g in HitSet(hits) && h in HitSet(hits) && g != h && IsShown(g, opts) && IsShown(h, opts)
        ensures FinishHit(g, opts).score != FinishHit(h, opts).score
      {
        var v := ShownAt(survivors, opts, g);
        var w := ShownAt(survivors, opts, h);
        assert finished[v].score != finished[w].score;
      }
    }
    if FinishesApart(hits, opts) {
      forall v, w | 0 <= v < w < |finished| ensures finished[v].score != finished[w].score {
        assert hits[visible[v]].score != hits[visible[w]].score;
      }
    }
  }

  lemma ReportedDistinct(candidates: seq<Detection>, opts: Options)
    requires opts.maxBoxes.None? && DistinctScores(Hits(Pick(candidates, Survivors(candidates, opts))))
    ensures DistinctScores(Hits(Reported(candidates, opts)))
            <==> FinishesApart(Hits(Pick(candidates, Survivors(candidates, opts))), opts)
  {
    hide Ranked, Finished, Visible, Survivors, FinishesApart, DistinctScores;
    var survivors := Pick(candidates, Survivors(candidates, opts));
    ShownDistinct(survivors, opts);
    RankedDistinct(Finished(Pick(survivors, Visible(survivors, opts)), opts));
  }

  lemma SameApart(a: seq<Detection>, b: seq<Detection>, opts: Options)
    requires SameHits(a, b)
    ensures FinishesApart(Hits(a), opts) <==> FinishesApart(Hits(b), opts)
  {
    hide IsShown, FinishHit;
  }

  /** Relisting the tiles does not make scores coincide in the report. */
  lemma RelistedDistinct(perTile: seq<seq<Raw>>, tiles: seq<Tile>, perTile': seq<seq<Raw>>, tiles': seq<Tile>,
      sigma: seq<nat>, frameSize: int, opts: Options)
    requires frameSize > 0 && Relists(perTile, tiles, perTile', tiles', sigma) && opts.maxBoxes.None?
    requires DistinctScores(Hits(Pooled(perTile, tiles, |tiles|, frameSize, opts.edgeEps).dets))
    ensures DistinctScores(Hits(Merged(perTile, tiles, frameSize, opts)))
        <==> DistinctScores(Hits(Merged(perTile', tiles', frameSize, opts)))
  {
    hide Pooled, Candidates, Reported, Survivors, Mating, Rearranges, FinishesApart;
    var a, b := Pooled(perTile, tiles, |tiles|, frameSize, opts.edgeEps),
        Pooled(perTile', tiles', |tiles|, frameSize, opts.edgeEps);
    var perm := Mating(perTile, tiles, perTile', tiles', sigma, frameSize, opts.edgeEps);
    RelistingRearranges(perTile, tiles, perTile', tiles', sigma, frameSize, opts.edgeEps);
    CandidatesSameHits(a, b, perm, opts);
    var p, q := Candidates(a, opts), Candidates(b, opts);
    SurvivorsSameHits(p, q, opts);
    ReportedDistinct(p, opts);
    ReportedDistinct(q, opts);
    SameApart(Pick(p, Survivors(p, opts)), Pick(q, Survivors(q, opts)), opts);
  }

  /** When moreover no two reported scores are equal, the two reports are the same sequence, under
      any cap. */
  lemma SameReport(perTile: seq<seq<Raw>>, tiles: seq<Tile>, perTile': seq<seq<Raw>>, tiles': seq<Tile>,
      sigma: seq<nat>, frameSize: int, opts: Options)
    requires frameSize > 0 && Relists(perTile, tiles, perTile', tiles', sigma)
    requires DistinctScores(Hits(Pooled(perTile, tiles, |tiles|, frameSize, opts.edgeEps).dets))
    requires DistinctScores(Hits(Merged(perTile, tiles, frameSize, opts.(maxBoxes := None))))
    ensures Hits(Merged(perTile, tiles, frameSize, opts)) == Hits(Merged(perTile', tiles', frameSize, opts))
  {
    hide Merged, Pooled, DistinctScores, Descending;
    var uncapped := opts.(maxBoxes := None);
    var a, b := Merged(perTile, tiles, frameSize, uncapped), Merged(perTile', tiles', frameSize, uncapped);
    MergeIgnoresTileOrder(perTile, tiles, perTile', tiles', sigma, frameSize, uncapped);
    RelistedDistinct(perTile, tiles, perTile', tiles', sigma, frameSize, uncapped);
    MergedIsCapped(perTile, tiles, frameSize, opts);
    MergedIsCapped(perTile', tiles', frameSize, opts);
    forall h ensures h in Hits(a) <==> h in Hits(b) {
      assert h in Hits(a) <==> h in HitSet(Hits(a));
      assert h in Hits(b) <==> h in HitSet(Hits(b));
    }
    DescendingDistinct(a);
    DescendingDistinct(b);
    StrictlySortedUnique(Hits(a), Hits(b), false);
    assert Hits(Capped(a, opts.maxBoxes)) == Capped(Hits(a), opts.maxBoxes);
    assert Hits(Capped(b, opts.maxBoxes)) == Capped(Hits(b), opts.maxBoxes);
  }

  lemma DescendingDistinct(dets: seq<Detection>)
    requires Descending(dets) && DistinctScores(Hits(dets))
    ensures StrictlySorted(Hits(dets), false)
  {
    forall j, k | 0 <= j < k < |dets| ensures Precedes(Hits(dets)[j], Hits(dets)[k], false) {
      assert dets[j].hit.score >= dets[k].hit.score && Hits(dets)[j].score != Hits(dets)[k].score;
    }
  }
}
