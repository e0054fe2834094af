/** End-to-end guarantees of the merge. */
module MergeTheorems {
  import opened Wrappers
  import opened Geometry
  import opened Detections
  import opened Suppression
  import opened SuppressionLaws
  import opened UnionFind
  import opened Fusion
  import opened FusionProvenance
  import opened Merge

  // ----- Provenance

  /** For each reported detection, the fused candidate it was made from. */
  ghost function Origins(candidates: seq<Detection>, opts: Options): (origins: seq<nat>)
    ensures Selects(origins, |candidates|)
  {
    var survivors := Survivors(candidates, opts);
    var visible := Visible(Pick(candidates, survivors), opts);
    var order := VisitOrder(Hits(Finished(Pick(Pick(candidates, survivors), visible), opts)), false);
    var ranked := Capped(order, opts.maxBoxes);
    seq(|ranked|, k requires 0 <= k < |ranked| => survivors[visible[ranked[k]]])
  }

  /** Every reported detection is a surviving candidate, clipped and demoted, and no candidate is
      reported twice. */
  lemma ReportedAreSurvivors(candidates: seq<Detection>, opts: Options)
    ensures var reported, origins := Reported(candidates, opts), Origins(candidates, opts);
            && |reported| == |origins| && Distinct(origins)
            && (forall k :: 0 <= k < |origins| ==> origins[k] in Survivors(candidates, opts))
            && (forall k :: 0 <= k < |origins| ==> reported[k] == Finish(candidates[origins[k]], opts))
            && (forall k :: 0 <= k < |origins| ==> opts.clip ==> HasArea(reported[k].hit.box))
  {
    hide VisitOrder, Survivors, HasArea, ClipBox;
    var survivors := Survivors(candidates, opts);
    var visible := Visible(Pick(candidates, survivors), opts);
    var order := VisitOrder(Hits(Finished(Pick(Pick(candidates, survivors), visible), opts)), false);
    var ranked := Capped(order, opts.maxBoxes);
    forall k | 0 <= k < |ranked| ensures visible[ranked[k]] in visible && survivors[visible[ranked[k]]] in survivors {
    }
    forall j, k | 0 <= j < k < |ranked| ensures survivors[visible[ranked[j]]] != survivors[visible[ranked[k]]] {
      assert order[j] != order[k];
    }
  }

  /** With fusion on, the inputs behind a reported detection.  They are a non-empty set of one
      class; two reported detections share none; the box is the clip of their smallest enclosing
      box; the score is their maximum, times the penalty exactly for a lone input that a seam cuts
      off; and a set of two or more spans two tiles and holds only inputs cut by a seam. */
  lemma MergeProvenance(pool: Pool, opts: Options)
    requires pool.Valid() && opts.fuseSeams
    ensures var candidates := Candidates(pool, opts);
            var reported, origins := Reported(candidates, opts), Origins(candidates, opts);
            && |origins| == |reported|
            && forall k :: 0 <= k < |reported| ==>
                 && origins[k] < |Fused(pool, opts.seamIou)|
                 && MadeFrom(pool, opts, Sources(pool, opts.seamIou, origins[k]), candidates[origins[k]], reported[k])
  {
    hide Fused, Reported, Origins, ClipBox, ComesFrom, HasArea, Survivors, Sources, Finish;
    var candidates := Candidates(pool, opts);
    var reported, origins := Reported(candidates, opts), Origins(candidates, opts);
    ReportedAreSurvivors(candidates, opts);
    forall k | 0 <= k < |reported|
      ensures MadeFrom(pool, opts, Sources(pool, opts.seamIou, origins[k]), candidates[origins[k]], reported[k])
    {
      GroupComesFrom(pool, opts.seamIou, origins[k]);
      FinishedFrom(pool, opts, Sources(pool, opts.seamIou, origins[k]), candidates[origins[k]]);
    }
  }

  /** A reported detection made from the given inputs through their fused candidate. */
  ghost predicate MadeFrom(pool: Pool, opts: Options, inputs: seq<nat>, fused: Detection, reported: Detection)
    requires pool.Valid() && Selects(inputs, |pool.dets|)
  {
    && ComesFrom(pool, inputs, fused)
    && reported.hit.classId == fused.hit.classId
    && reported.hit.box == (if opts.clip then ClipBox(fused.hit.box) else fused.hit.box)
    && reported.hit.score
        == (if |inputs| == 1 && pool.seams[inputs[0]] != {} then fused.hit.score * opts.truncatedPenalty
                              else fused.hit.score)
  }

  lemma FinishedFrom(pool: Pool, opts: Options, inputs: seq<nat>, fused: Detection)
    requires pool.Valid() && Selects(inputs, |pool.dets|) && ComesFrom(pool, inputs, fused)
    ensures MadeFrom(pool, opts, inputs, fused, Finish(fused, opts))
  {
    hide ClipBox, MinimalEnclosing;
  }

  lemma ReportedInputsDisjoint(pool: Pool, opts: Options)
    requires pool.Valid() && opts.fuseSeams
    ensures var origins := Origins(Candidates(pool, opts), opts);
            forall j, k :: 0 <= j < k < |origins| ==>
              forall m :: m in Sources(pool, opts.seamIou, origins[j]) ==> m !in Sources(pool, opts.seamIou, origins[k])
  {
    hide Fused, Reported, Origins, Sources;
    var origins := Origins(Candidates(pool, opts), opts);
    ReportedAreSurvivors(Candidates(pool, opts), opts);
    forall j, k, m | 0 <= j < k < |origins| && m in Sources(pool, opts.seamIou, origins[j])
      ensures m !in Sources(pool, opts.seamIou, origins[k])
    {
      if m in Sources(pool, opts.seamIou, origins[k]) {
        SourcesDisjoint(pool, opts.seamIou, origins[j], origins[k], m);
      }
    }
  }

  // ----- Separation and survival

  /** The first and second positions behind a surviving candidate. */
  lemma SurvivesBoth(dets: seq<Detection>, opts: Options, i: nat) returns (f: nat)
    requires i in Survivors(dets, opts)
    ensures var first := Uncontained(dets, opts);
            && f < |first| && first[f] == i && i in first && f in Kept(Hits(Pick(dets, first)), opts.Nms())
  {
    var first := Uncontained(dets, opts);
    var second := Kept(Hits(Pick(dets, first)), opts.Nms());
    var k :| 0 <= k < |second| && first[second[k]] == i;
    f := second[k];
  }

  lemma KeptSurvives(dets: seq<Detection>, opts: Options, f: nat)
    requires f in Kept(Hits(Pick(dets, Uncontained(dets, opts))), opts.Nms())
    ensures f < |Uncontained(dets, opts)| && Uncontained(dets, opts)[f] in Survivors(dets, opts)
  {
    var first := Uncontained(dets, opts);
    var second := Kept(Hits(Pick(dets, first)), opts.Nms());
    var t :| 0 <= t < |second| && second[t] == f;
    assert Survivors(dets, opts)[t] == first[f];
  }

  /** Before the clip, no two survivors of one class overlap by nms_iou or more. */
  lemma SurvivorsSeparated(dets: seq<Detection>, opts: Options, i: nat, j: nat)
    requires i in Survivors(dets, opts) && j in Survivors(dets, opts) && i != j
    requires dets[i].hit.classId == dets[j].hit.classId
    ensures Iou(dets[i].hit.box, dets[j].hit.box) < opts.nmsIou
  {
    hide Iou, Kept, Uncontained, Survivors;
    var first := Uncontained(dets, opts);
    var f := SurvivesBoth(dets, opts, i);
    var g := SurvivesBoth(dets, opts, j);
    var hits := Hits(Pick(dets, first));
    assert hits[f] == dets[i].hit && hits[g] == dets[j].hit;
    NmsSeparates(hits, opts.Nms(), f, g);
  }

  /** Containment restricted to truncated victims keeps every complete candidate. */
  lemma CompleteIsUncontained(dets: seq<Detection>, opts: Options, i: nat)
    requires opts.onlyTruncatedVictims && i < |dets| && !dets[i].hit.truncated
    ensures i in Uncontained(dets, opts)
  {
    hide Overlap, Kept, KeptSet, Before;
    if opts.iosThresh <= 1.0 {
      KeptIff(Hits(dets), opts.Containment(), i);
    } else {
      assert Singletons(|dets|)[i] == i;
    }
  }

  /** A surviving complete candidate of i's class, at least as confident, that overlaps i. */
  ghost predicate IsRival(dets: seq<Detection>, opts: Options, i: nat, k: nat)
    requires i < |dets|
  {
    && k != i && k in Survivors(dets, opts) && !dets[k].hit.truncated
    && dets[k].hit.classId == dets[i].hit.classId
    && dets[k].hit.score >= dets[i].hit.score
    && Iou(dets[k].hit.box, dets[i].hit.box) >= opts.nmsIou
  }

  lemma FindRival(dets: seq<Detection>, opts: Options, i: nat) returns (k: nat)
    requires opts.preferComplete && opts.onlyTruncatedVictims
    requires i < |dets| && !dets[i].hit.truncated && i !in Survivors(dets, opts)
    ensures IsRival(dets, opts, i, k)
  {
    hide Iou, Kept, KeptSet, Uncontained;
    var first := Uncontained(dets, opts);
    CompleteIsUncontained(dets, opts, i);
    var f: nat :| f < |first| && first[f] == i;
    var hits, rule := Hits(Pick(dets, first)), opts.Nms();
    if f in Kept(hits, rule) {
      KeptSurvives(dets, opts, f);
    }
    KeptIff(hits, rule, f);
    var keep := KeptSet(hits, rule, |hits|);
    var g :| g in keep && g < |hits| && Before(hits, true, g, f) && Suppresses(rule, hits[g], hits[f]);
    KeptIff(hits, rule, g);
    k := first[g];
    KeptSurvives(dets, opts, g);
  }

  /** With the default flags a complete candidate is lost exactly when it has such a rival: across
      both suppressions no truncated box and no containment ever costs a complete one. */
  lemma CompleteLostIff(dets: seq<Detection>, opts: Options, i: nat)
    requires opts.preferComplete && opts.onlyTruncatedVictims && i < |dets| && !dets[i].hit.truncated
    ensures i !in Survivors(dets, opts) <==> exists k :: IsRival(dets, opts, i, k)
  {
    hide Iou, Survivors;
    if i !in Survivors(dets, opts) {
      var k := FindRival(dets, opts, i);
    } else if k :| IsRival(dets, opts, i, k) {
      SurvivorsSeparated(dets, opts, k, i);
    }
  }

  // ----- Separation inside one tile reaches the frame

  /** Boxes a tile's own NMS separated are still separated after the map into the frame. */
  lemma PoolingKeepsTileSeparation(raws: seq<Raw>, tile: Tile, tileId: nat, frameSize: int, edgeEps: real, i: nat,
      j: nat, threshold: real)
    requires frameSize > 0 && tile.size > 0 && i < |raws| && j < |raws|
    ensures var dets := TilePool(raws, tile, tileId, frameSize, edgeEps).dets;
            Iou(raws[i].box, raws[j].box) < threshold <==> Iou(dets[i].hit.box, dets[j].hit.box) < threshold
  {
    hide Iou, ToFrame;
    FrameMapPreservesOverlap(raws[i].box, raws[j].box, tile, frameSize);
  }

  // ----- Ranking, the cap and the score gate

  predicate Descending(dets: seq<Detection>) {
    forall j, k :: 0 <= j < k < |dets| ==> dets[j].hit.score >= dets[k].hit.score
  }

  /** The report is in decreasing order of score. */
  lemma ReportDescending(dets: seq<Detection>, maxBoxes: Option<int>)
    ensures Descending(Ranked(dets, maxBoxes))
  {
    hide VisitOrder;
    var order := VisitOrder(Hits(dets), false);
    forall j, k | 0 <= j < k < |Ranked(dets, maxBoxes)|
      ensures Ranked(dets, maxBoxes)[j].hit.score >= Ranked(dets, maxBoxes)[k].hit.score
    {
      assert Before(Hits(dets), false, order[j], order[k]);
    }
  }

  /** Nothing the cap drops scores above anything it keeps. */
  lemma CapDropsTheWeakest(dets: seq<Detection>, maxBoxes: Option<int>, i: nat, k: nat)
    requires i < |dets| && i !in Capped(VisitOrder(Hits(dets), false), maxBoxes)
    requires k < |Ranked(dets, maxBoxes)|
    ensures dets[i].hit.score <= Ranked(dets, maxBoxes)[k].hit.score
  {
    hide VisitOrder;
    var order := VisitOrder(Hits(dets), false);
    var r := RankOf(Hits(dets), false, i);
    assert r >= |Capped(order, maxBoxes)|;
    assert Before(Hits(dets), false, order[k], order[r]);
  }

  /** The stitch worker's gate: scores >= post_thresh. */
  function Gate(dets: seq<Detection>, threshold: real): seq<Detection> {
    if dets == [] then []
    else if dets[0].hit.score >= threshold then [dets[0]] + Gate(dets[1..], threshold)
    else Gate(dets[1..], threshold)
  }

  lemma {:induction false} GateIsPrefix(dets: seq<Detection>, threshold: real)
    requires Descending(dets)
    ensures Gate(dets, threshold) <= dets
    ensures forall k :: 0 <= k < |dets| ==> (dets[k].hit.score >= threshold <==> k < |Gate(dets, threshold)|)
  {
    if dets != [] {
      GateIsPrefix(dets[1..], threshold);
      if dets[0].hit.score < threshold {
        assert forall k :: 0 <= k < |dets| ==> dets[k].hit.score <= dets[0].hit.score;
      } else {
        assert dets == [dets[0]] + dets[1..];
        forall k | 0 < k < |dets| ensures dets[k].hit.score >= threshold <==> k < |Gate(dets, threshold)| {
          assert dets[1..][k - 1] == dets[k];
        }
      }
    }
  }

  /** Gating the capped report equals capping the gated one, unless the cap is negative. */
  lemma GateCommutesWithCap(dets: seq<Detection>, threshold: real, maxBoxes: Option<int>)
    requires Descending(dets)
    requires maxBoxes.Some? ==> maxBoxes.value >= 0
    ensures Gate(Capped(dets, maxBoxes), threshold) == Capped(Gate(dets, threshold), maxBoxes)
  {
    var capped := Capped(dets, maxBoxes);
    GateIsPrefix(dets, threshold);
    GateIsPrefix(capped, threshold);
    var p, q := |Gate(dets, threshold)|, |Gate(capped, threshold)|;
    assert forall k :: 0 <= k < |capped| ==> capped[k] == dets[k];
    if q < |capped| { assert dets[q].hit.score < threshold; }
    if 0 < q { assert dets[q - 1].hit.score >= threshold; }
    assert q == if p < |capped| then p else |capped|;
  }

  /** So the worker may gate the capped report: it shows the same detections as capping the gated
      full report would. */
  lemma GateAfterMerge(dets: seq<Detection>, threshold: real, maxBoxes: Option<int>)
    requires maxBoxes.Some? ==> maxBoxes.value >= 0
    ensures Gate(Ranked(dets, maxBoxes), threshold) == Capped(Gate(Ranked(dets, None), threshold), maxBoxes)
  {
    ReportDescending(dets, None);
    RankedIsCapped(dets, maxBoxes);
    GateCommutesWithCap(Ranked(dets, None), threshold, maxBoxes);
  }

  /** The cap plays no part before the ranking. */
  lemma SameSurvivors(candidates: seq<Detection>, opts: Options, uncapped: Options)
    requires uncapped == opts.(maxBoxes := None)
    ensures Survivors(candidates, uncapped) == Survivors(candidates, opts)
  {
    hide Kept;
  }

  lemma SameFinish(survivors: seq<Detection>, opts: Options, uncapped: Options)
    requires uncapped == opts.(maxBoxes := None)
    ensures Visible(survivors, uncapped) == Visible(survivors, opts)
    ensures var shown := Pick(survivors, Visible(survivors, opts)); Finished(shown, uncapped) == Finished(shown, opts)
  {
    hide HasArea, ClipBox;
    AscendingUnique(Visible(survivors, uncapped), Visible(survivors, opts));
    var shown := Pick(survivors, Visible(survivors, opts));
    assert forall k :: 0 <= k < |shown| ==> Finished(shown, uncapped)[k] == Finished(shown, opts)[k];
  }

  /** A merge is the cap of the uncapped one. */
  lemma MergedIsCapped(perTile: seq<seq<Raw>>, tiles: seq<Tile>, frameSize: int, opts: Options)
    requires frameSize > 0 && |perTile| == |tiles|
    ensures var full := Merged(perTile, tiles, frameSize, opts.(maxBoxes := None));
            && Merged(perTile, tiles, frameSize, opts) == Capped(full, opts.maxBoxes)
            && Descending(full)
  {
    hide Pooled, Fused, Survivors, Ranked, Finished, Visible, Descending;
    var uncapped := opts.(maxBoxes := None);
    var candidates := Candidates(Pooled(perTile, tiles, |tiles|, frameSize, opts.edgeEps), opts);
    SameSurvivors(candidates, opts, uncapped);
    var survivors := Pick(candidates, Survivors(candidates, opts));
    SameFinish(survivors, opts, uncapped);
    var finished := Finished(Pick(survivors, Visible(survivors, opts)), opts);
    RankedIsCapped(finished, opts.maxBoxes);
    ReportDescending(finished, None);
  }

  lemma RankedIsCapped(dets: seq<Detection>, maxBoxes: Option<int>)
    ensures Ranked(dets, maxBoxes) == Capped(Ranked(dets, None), maxBoxes)
  {
    hide VisitOrder;
  }

  /** How many of n a cap keeps: a cap that is not negative keeps that many if there are as many, and a
      negative one drops that many from the end. */
  predicate IsKept(kept: nat, n: nat, maxBoxes: Option<int>) {
    match maxBoxes
    case None => kept == n
    case Some(m) =>
      if m >= 0 then kept == if m < n then m else n
      else kept == if n + m > 0 then n + m else 0
  }

  lemma CappedSize<T>(s: seq<T>, maxBoxes: Option<int>)
    ensures IsKept(|Capped(s, maxBoxes)|, |s|, maxBoxes)
  {
  }

  /** The cap keeps the first detections of the full report, exactly as many as it allows. */
  lemma MergedSize(perTile: seq<seq<Raw>>, tiles: seq<Tile>, frameSize: int, opts: Options)
    requires frameSize > 0 && |perTile| == |tiles|
    ensures var full := Merged(perTile, tiles, frameSize, opts.(maxBoxes := None));
            var merged := Merged(perTile, tiles, frameSize, opts);
            merged <= full && IsKept(|merged|, |full|, opts.maxBoxes)
  {
    hide Merged, Capped;
    MergedIsCapped(perTile, tiles, frameSize, opts);
    CappedSize(Merged(perTile, tiles, frameSize, opts.(maxBoxes := None)), opts.maxBoxes);
  }

  /** Without a cap every survivor that is still visible after the clip is reported. */
  lemma UncappedReportsAll(candidates: seq<Detection>, opts: Options, i: nat) returns (k: nat)
    requires opts.maxBoxes.None? && i in Survivors(candidates, opts)
    requires opts.clip ==> HasArea(ClipBox(candidates[i].hit.box))
    ensures k < |Origins(candidates, opts)| && Origins(candidates, opts)[k] == i
  {
    hide VisitOrder, Survivors, HasArea, ClipBox;
    var survivors := Survivors(candidates, opts);
    var picked := Pick(candidates, survivors);
    var visible := Visible(picked, opts);
    var t: nat :| t < |survivors| && survivors[t] == i;
    assert picked[t] == candidates[i];
    assert t in visible;
    var v: nat :| v < |visible| && visible[v] == t;
    k := RankOf(Hits(Finished(Pick(picked, visible), opts)), false, v);
  }
}
