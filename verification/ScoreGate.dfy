/** When the stitch worker may gate the merge's report after the cap instead of before it. */
module ScoreGate {
  import opened Wrappers
  import opened Geometry
  import opened Detections
  import opened Suppression
  import opened SuppressionLaws
  import opened UnionFind
  import opened Fusion
  import opened FusionProvenance
  import opened Merge
  import opened MergeTheorems

  /** Gating the capped merge shows what capping the gated full merge would. */
  ghost predicate GateCommutes(perTile: seq<seq<Raw>>, tiles: seq<Tile>, frameSize: int, opts: Options,
      threshold: real)
    requires frameSize > 0 && |perTile| == |tiles|
  {
    Gate(Merged(perTile, tiles, frameSize, opts), threshold)
    == Capped(Gate(Merged(perTile, tiles, frameSize, opts.(maxBoxes := None)), threshold), opts.maxBoxes)
  }

  // ----- A frame on which a negative cap shows the difference, whatever the other options

  /** One tile, the whole frame: a certain detection and n without any confidence, of n + 1 classes. */
  function Report(n: nat): seq<Raw> {
    seq(n + 1, k requires 0 <= k < n + 1 => Raw(UNIT_BOX, if k == 0 then 1.0 else 0.0, k))
  }

  const WHOLE := Tile("whole", 0, 0, 1)

  ghost predicate IsReport(dets: seq<Detection>, n: nat) {
    && |dets| == n + 1
    && forall k :: 0 <= k < |dets| ==> dets[k] == Detection(Hit(UNIT_BOX, if k == 0 then 1.0 else 0.0, k, false), 0)
  }

  lemma PoolOfReport(n: nat, edgeEps: real)
    ensures var pool := Pooled([Report(n)], [WHOLE], 1, 1, edgeEps);
            IsReport(pool.dets, n) && pool.Valid() && forall k :: 0 <= k < |pool.seams| ==> pool.seams[k] == {}
  {
    var raws, pool := Report(n), Pooled([Report(n)], [WHOLE], 1, 1, edgeEps);
    assert Pooled([Report(n)], [WHOLE], 0, 1, edgeEps) == Pool([], []);
    var tilePool := TilePool(raws, WHOLE, 0, 1, edgeEps);
    assert pool.dets == tilePool.dets && pool.seams == tilePool.seams;
    forall k: nat | k < n + 1
      ensures Located(raws[k], WHOLE, 0, 1, edgeEps) == Detection(Hit(UNIT_BOX, raws[k].score, k, false), 0)
      ensures Truncation(raws[k].box, WHOLE, 1, edgeEps) == {}
    {
    }
  }

  /** Without seams fusion leaves the pool as it is. */
  lemma NothingToFuse(pool: Pool, n: nat, opts: Options)
    requires pool.Valid() && IsReport(pool.dets, n) && forall k :: 0 <= k < |pool.seams| ==> pool.seams[k] == {}
    ensures Candidates(pool, opts) == pool.dets
  {
    hide Fused, Roots;
    var root := Roots(pool, opts.seamIou);
    forall r: nat | r < |pool.dets| ensures root[r] == r {
      if root[r] != r {
        var partner := GroupedIsTruncated(pool, opts.seamIou, r, root[r]);
      }
    }
    NothingFused(pool, opts.seamIou);
    assert Flagged(pool) == pool.dets;
  }

  /** Detections of pairwise different classes never suppress each other. */
  lemma AllKept(hits: seq<Hit>, rule: Rule)
    requires forall i, j :: 0 <= i < j < |hits| ==> hits[i].classId != hits[j].classId
    ensures Kept(hits, rule) == Singletons(|hits|)
  {
    hide Kept, KeptSet, Precedes, Overlap;
    forall i: nat | i < |hits| ensures i in Kept(hits, rule) {
      KeptIff(hits, rule, i);
    }
    forall i: nat ensures i in Kept(hits, rule) <==> i in Singletons(|hits|) {
      if i < |hits| { assert Singletons(|hits|)[i] == i; }
    }
    AscendingUnique(Kept(hits, rule), Singletons(|hits|));
  }

  lemma AllSurvive(dets: seq<Detection>, n: nat, opts: Options)
    requires IsReport(dets, n)
    ensures Pick(dets, Survivors(dets, opts)) == dets
  {
    hide Kept;
    AllKept(Hits(dets), opts.Containment());
    assert Uncontained(dets, opts) == Singletons(|dets|);
    assert Pick(dets, Uncontained(dets, opts)) == dets;
    AllKept(Hits(dets), opts.Nms());
    assert Survivors(dets, opts) == Singletons(|dets|);
  }

  lemma AllShown(dets: seq<Detection>, n: nat, opts: Options)
    requires IsReport(dets, n)
    ensures Pick(dets, Visible(dets, opts)) == dets && Finished(dets, opts) == dets
  {
    assert ClipBox(UNIT_BOX) == UNIT_BOX && HasArea(UNIT_BOX);
    hide ClipBox, HasArea;
    forall i: nat ensures i in Visible(dets, opts) <==> i in Singletons(|dets|) {
      if i < |dets| { assert Singletons(|dets|)[i] == i; }
    }
    AscendingUnique(Visible(dets, opts), Singletons(|dets|));
    assert forall k :: 0 <= k < |dets| ==> Finish(dets[k], opts) == dets[k];
  }

  /** The merge of that frame is its detections, ranked and capped. */
  lemma MergeOfReport(n: nat, opts: Options) returns (dets: seq<Detection>)
    ensures IsReport(dets, n) && Merged([Report(n)], [WHOLE], 1, opts) == Ranked(dets, opts.maxBoxes)
  {
    hide Pooled, Candidates, Survivors, Visible, Finished, Ranked, IsReport;
    PoolOfReport(n, opts.edgeEps);
    var pool := Pooled([Report(n)], [WHOLE], 1, 1, opts.edgeEps);
    dets := pool.dets;
    NothingToFuse(pool, n, opts);
    AllSurvive(dets, n, opts);
    AllShown(dets, n, opts);
  }

  /** Ranked without a cap, only the certain detection passes a gate at one half. */
  lemma OnePasses(dets: seq<Detection>, n: nat)
    requires IsReport(dets, n)
    ensures |Ranked(dets, None)| == n + 1 && |Gate(Ranked(dets, None), 0.5)| == 1
  {
    hide VisitOrder;
    var ranked := Ranked(dets, None);
    var r := RankOf(Hits(dets), false, 0);
    assert ranked[r] == dets[0];
    ReportDescending(dets, None);
    GateIsPrefix(ranked, 0.5);
    var order := VisitOrder(Hits(dets), false);
    forall k | 0 <= k < |ranked| && k != r ensures ranked[k].hit.score == 0.0 {
      assert ranked[k] == dets[order[k]] && order[k] != order[r];
    }
  }

  lemma NegativeCapBreaksGate(opts: Options) returns (perTile: seq<seq<Raw>>, tiles: seq<Tile>)
    requires opts.maxBoxes.Some? && opts.maxBoxes.value < 0
    ensures |perTile| == |tiles| && !GateCommutes(perTile, tiles, 1, opts, 0.5)
  {
    hide Merged, Report, IsReport, Ranked;
    var n := -opts.maxBoxes.value;
    perTile, tiles := [Report(n)], [WHOLE];
    var dets := MergeOfReport(n, opts.(maxBoxes := None));
    var full := Ranked(dets, None);
    OnePasses(dets, n);
    MergedIsCapped(perTile, tiles, 1, opts);
    ReportDescending(dets, None);
    FirstPasses(full, opts.maxBoxes.value);
  }

  /** The cap leaves one detection, which passes; but of the one that passed it leaves none. */
  lemma FirstPasses(full: seq<Detection>, cap: int)
    requires cap < 0 && |full| == 1 - cap && Descending(full) && |Gate(full, 0.5)| == 1
    ensures |Gate(Capped(full, Some(cap)), 0.5)| == 1 && Capped(Gate(full, 0.5), Some(cap)) == []
  {
    GateIsPrefix(full, 0.5);
    var capped := Capped(full, Some(cap));
    assert capped == [full[0]];
    GateIsPrefix(capped, 0.5);
  }

  /** Whatever the other options: gate and cap commute for every frame and every threshold if and
      only if there is no cap or it is not negative. */
  lemma GateCommutesIff(opts: Options)
    ensures (forall perTile, tiles, frameSize, threshold :: frameSize > 0 && |perTile| == |tiles| ==>
              GateCommutes(perTile, tiles, frameSize, opts, threshold))
            <==> opts.maxBoxes.None? || opts.maxBoxes.value >= 0
  {
    hide Merged;
    if opts.maxBoxes.None? || opts.maxBoxes.value >= 0 {
      forall perTile, tiles, frameSize, threshold | frameSize > 0 && |perTile| == |tiles|
        ensures GateCommutes(perTile, tiles, frameSize, opts, threshold)
      {
        MergedIsCapped(perTile, tiles, frameSize, opts);
        GateCommutesWithCap(Merged(perTile, tiles, frameSize, opts.(maxBoxes := None)), threshold, opts.maxBoxes);
      }
    } else {
      hide GateCommutes;
      var perTile, tiles := NegativeCapBreaksGate(opts);
      assert !GateCommutes(perTile, tiles, 1, opts, 0.5);
    }
  }
}
