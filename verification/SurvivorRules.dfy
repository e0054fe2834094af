/** The two suppressions of the merge, told from the options and the detections' own fields. */
module SurvivorRules {
  import opened Geometry
  import opened Detections
  import opened Suppression
  import opened SuppressionLaws
  import opened UnionFind
  import opened FusionProvenance
  import opened Merge
  import opened MergeTheorems

  /** Whether detection k is visited before detection i: complete ones first if they are preferred, then
      by score, and on a tie in the order listed. */
  predicate IsFirst(dets: seq<Detection>, preferComplete: bool, k: nat, i: nat)
    requires k < |dets| && i < |dets|
  {
    var a, b := dets[k].hit, dets[i].hit;
    if preferComplete && a.truncated != b.truncated then !a.truncated
    else a.score > b.score || (a.score == b.score && k < i)
  }

  /** Detection k, of i's class and visited before it, covers ios_thresh of it. */
  predicate Swallows(dets: seq<Detection>, opts: Options, k: nat, i: nat)
    requires i < |dets|
  {
    && k < |dets| && IsFirst(dets, opts.preferComplete, k, i) && dets[k].hit.classId == dets[i].hit.classId
    && Ios(dets[k].hit.box, dets[i].hit.box) >= opts.iosThresh
  }

  /** Detection k, of i's class and visited before it, overlaps it by nms_iou. */
  predicate Crowds(dets: seq<Detection>, opts: Options, k: nat, i: nat)
    requires i < |dets|
  {
    && k < |dets| && IsFirst(dets, opts.preferComplete, k, i) && dets[k].hit.classId == dets[i].hit.classId
    && Iou(dets[k].hit.box, dets[i].hit.box) >= opts.nmsIou
  }

  ghost predicate IsContained(dets: seq<Detection>, opts: Options, keep: seq<nat>, i: nat)
    requires i < |dets|
  {
    exists k :: k in keep && Swallows(dets, opts, k, i)
  }

  ghost predicate IsOverlapped(dets: seq<Detection>, opts: Options, keep: seq<nat>, i: nat)
    requires i < |dets|
  {
    exists k :: k in keep && Crowds(dets, opts, k, i)
  }

  lemma FirstIsBefore(dets: seq<Detection>, preferComplete: bool, k: nat, i: nat)
    requires k < |dets| && i < |dets|
    ensures Before(Hits(dets), preferComplete, k, i) <==> IsFirst(dets, preferComplete, k, i)
  {
  }

  /** Containment, for all options: switched off by a threshold above 1, and otherwise a detection is
      dropped exactly when one visited before it and not dropped covers enough of it, and it is
      truncated or others may be victims too. */
  lemma UncontainedIff(dets: seq<Detection>, opts: Options, i: nat)
    requires i < |dets|
    ensures i in Uncontained(dets, opts) <==>
        opts.iosThresh > 1.0 || (opts.onlyTruncatedVictims && !dets[i].hit.truncated)
        || !IsContained(dets, opts, Uncontained(dets, opts), i)
  {
    hide Ios, Iou, KeptSet, Before, IsFirst, Kept;
    var hits, rule, keep := Hits(dets), opts.Containment(), Uncontained(dets, opts);
    if opts.iosThresh > 1.0 {
      assert Singletons(|dets|)[i] == i;
    } else {
      KeptIff(hits, rule, i);
      forall k: nat | k < |dets|
        ensures k in keep <==> k in KeptSet(hits, rule, |hits|)
        ensures Before(hits, opts.preferComplete, k, i) <==> IsFirst(dets, opts.preferComplete, k, i)
      {
        KeptIff(hits, rule, k);
        FirstIsBefore(dets, opts.preferComplete, k, i);
      }
    }
  }

  /** Both suppressions, for all options: a detection survives exactly when containment leaves it and no
      survivor visited before it overlaps it too much.  These rules have one solution, since each
      detection's fate depends only on those visited before it. */
  lemma SurvivorsIff(dets: seq<Detection>, opts: Options, i: nat)
    requires i < |dets|
    ensures i in Survivors(dets, opts) <==>
        i in Uncontained(dets, opts) && !IsOverlapped(dets, opts, Survivors(dets, opts), i)
  {
    hide Iou, Kept, Uncontained, Survivors, KeptSet;
    var first, survivors := Uncontained(dets, opts), Survivors(dets, opts);
    if i in survivors {
      var f := SurvivesBoth(dets, opts, i);
    }
    if i in first {
      var f: nat :| f < |first| && first[f] == i;
      var hits, rule := Hits(Pick(dets, first)), opts.Nms();
      KeptIff(hits, rule, f);
      KeptIsSurvivor(dets, opts, f);
      OverlapCarries(dets, opts, f);
    }
  }

  /** Positions among the uncontained and indices into the list tell the same survivors. */
  lemma KeptIsSurvivor(dets: seq<Detection>, opts: Options, f: nat)
    requires f < |Uncontained(dets, opts)|
    ensures f in Kept(Hits(Pick(dets, Uncontained(dets, opts))), opts.Nms())
        <==> Uncontained(dets, opts)[f] in Survivors(dets, opts)
  {
    hide Kept, Uncontained, Survivors;
    var first := Uncontained(dets, opts);
    if f in Kept(Hits(Pick(dets, first)), opts.Nms()) {
      KeptSurvives(dets, opts, f);
    }
    if first[f] in Survivors(dets, opts) {
      var g := SurvivesBoth(dets, opts, first[f]);
      assert g == f;
    }
  }

  lemma OverlapCarries(dets: seq<Detection>, opts: Options, f: nat)
    requires f < |Uncontained(dets, opts)|
    ensures var first := Uncontained(dets, opts); var hits := Hits(Pick(dets, first));
            Beaten(hits, opts.Nms(), KeptSet(hits, opts.Nms(), |hits|), f)
            <==> IsOverlapped(dets, opts, Survivors(dets, opts), first[f])
  {
    hide Iou, Kept, Uncontained, Survivors, KeptSet, Before, IsFirst;
    var first, survivors := Uncontained(dets, opts), Survivors(dets, opts);
    var picked := Pick(dets, first);
    var hits, rule := Hits(picked), opts.Nms();
    var keep := KeptSet(hits, rule, |hits|);
    forall g: nat | g < |first|
      ensures g in keep <==> first[g] in survivors
      ensures Before(hits, opts.preferComplete, g, f) <==> IsFirst(dets, opts.preferComplete, first[g], first[f])
      ensures hits[g] == dets[first[g]].hit
    {
      KeptIff(hits, rule, g);
      KeptIsSurvivor(dets, opts, g);
      FirstIsBefore(picked, opts.preferComplete, g, f);
      FirstPicked(dets, first, opts.preferComplete, g, f);
    }
    if k :| k in survivors && Crowds(dets, opts, k, first[f]) {
      var g := SurvivesBoth(dets, opts, k);
      assert g in keep && Suppresses(rule, hits[g], hits[f]);
    }
  }

  lemma FirstPicked(dets: seq<Detection>, keep: seq<nat>, preferComplete: bool, g: nat, f: nat)
    requires Ascending(keep) && Selects(keep, |dets|) && g < |keep| && f < |keep|
    ensures IsFirst(Pick(dets, keep), preferComplete, g, f) <==> IsFirst(dets, preferComplete, keep[g], keep[f])
  {
    assert g < f <==> keep[g] < keep[f] by {
      if g < f { assert keep[g] < keep[f]; } else if f < g { assert keep[f] < keep[g]; }
    }
  }

  // ----- What the suppressions are given

  /** Every pooled detection is flagged exactly when a seam cuts it, and carries its tile's number. */
  lemma {:induction false} PoolIsFlagged(perTile: seq<seq<Raw>>, tiles: seq<Tile>, t: nat, frameSize: int,
      edgeEps: real, i: nat)
    requires frameSize > 0 && t <= |tiles| == |perTile|
    requires i < |Pooled(perTile, tiles, t, frameSize, edgeEps).dets|
    ensures var pool := Pooled(perTile, tiles, t, frameSize, edgeEps);
            && (pool.dets[i].hit.truncated <==> pool.seams[i] != {}) && pool.dets[i].tileId < t
            && exists raw :: raw in perTile[pool.dets[i].tileId]
                 && pool.dets[i].hit.box == ToFrame(raw.box, tiles[pool.dets[i].tileId], frameSize)
                 && pool.dets[i].hit.score == raw.score && pool.dets[i].hit.classId == raw.classId
                 && pool.seams[i] == Truncation(raw.box, tiles[pool.dets[i].tileId], frameSize, edgeEps)
  {
    hide ToFrame, Truncation;
    var before := |Pooled(perTile, tiles, t - 1, frameSize, edgeEps).dets|;
    if i < before {
      PoolIsFlagged(perTile, tiles, t - 1, frameSize, edgeEps, i);
    } else {
      var raw := perTile[t - 1][i - before];
      assert raw in perTile[t - 1];
    }
  }
}
