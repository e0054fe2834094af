/** Merging per-tile detections into one frame-level result (merge_tile_detections). */
module Merge {
  import opened Wrappers
  import opened Geometry
  import opened Detections
  import opened Suppression
  import opened UnionFind
  import opened Fusion
  import opened FusionProvenance

  /** A detection as a tile reports it, its box normalised to the tile. */
  datatype Raw = Raw(box: Box, score: real, classId: int)

  datatype Options = Options(
    nmsIou: real, iosThresh: real, seamIou: real, edgeEps: real,
    fuseSeams: bool, preferComplete: bool, onlyTruncatedVictims: bool, clip: bool,
    maxBoxes: Option<int>, truncatedPenalty: real)
  {
    function Containment(): Rule {
      Rule(UseIos, iosThresh, preferComplete, onlyTruncatedVictims)
    }

    function Nms(): Rule {
      Rule(UseIou, nmsIou, preferComplete, false)
    }
  }

  // ----- Stage 1: pooling the tiles

  function Located(raw: Raw, tile: Tile, tileId: nat, frameSize: int, edgeEps: real): Detection
    requires frameSize > 0
  {
    Detection(Hit(ToFrame(raw.box, tile, frameSize), raw.score, raw.classId,
        Truncation(raw.box, tile, frameSize, edgeEps) != {}),
              tileId)
  }

  function TilePool(raws: seq<Raw>, tile: Tile, tileId: nat, frameSize: int, edgeEps: real): (pool: Pool)
    requires frameSize > 0
    ensures |pool.dets| == |pool.seams| == |raws|
  {
    Pool(seq(|raws|, k requires 0 <= k < |raws| => Located(raws[k], tile, tileId, frameSize, edgeEps)),
         seq(|raws|, k requires 0 <= k < |raws| => Truncation(raws[k].box, tile, frameSize, edgeEps)))
  }

  /** The detections of the first t tiles, one tile after another. */
  function Pooled(perTile: seq<seq<Raw>>, tiles: seq<Tile>, t: nat, frameSize: int, edgeEps: real): (pool: Pool)
    requires frameSize > 0 && t <= |tiles| == |perTile|
    ensures |pool.dets| == |pool.seams|
  {
    if t == 0 then Pool([], [])
    else
      var before := Pooled(perTile, tiles, t - 1, frameSize, edgeEps);
      var last := TilePool(perTile[t - 1], tiles[t - 1], t - 1, frameSize, edgeEps);
      Pool(before.dets + last.dets, before.seams + last.seams)
  }

  // ----- Stages 2 to 4: fusion and the two suppressions, on indices into the fused candidates

  ghost function Candidates(pool: Pool, opts: Options): seq<Detection>
    requires pool.Valid()
  {
    if opts.fuseSeams then Fused(pool, opts.seamIou) else pool.dets
  }

  ghost function Uncontained(dets: seq<Detection>, opts: Options): (keep: seq<nat>)
    ensures Ascending(keep) && Selects(keep, |dets|)
  {
    if opts.iosThresh <= 1.0 then Kept(Hits(dets), opts.Containment()) else Singletons(|dets|)
  }

  /** The candidates that both suppressions keep. */
  ghost function Survivors(dets: seq<Detection>, opts: Options): (keep: seq<nat>)
    ensures Ascending(keep) && Selects(keep, |dets|)
  {
    var first := Uncontained(dets, opts);
    var second := Kept(Hits(Pick(dets, first)), opts.Nms());
    seq(|second|, k requires 0 <= k < |second| => first[second[k]])
  }

  // ----- Stage 5: clip, demote, rank, cap

  function Clamp(x: real): real {
    Min(Max(x, 0.0), 1.0)
  }

  function ClipBox(box: Box): Box {
    Box(Clamp(box.x1), Clamp(box.y1), Clamp(box.x2), Clamp(box.y2))
  }

  predicate HasArea(box: Box) {
    box.x2 - box.x1 > 0.0 && box.y2 - box.y1 > 0.0
  }

  /** A survivor as it is reported: clipped, and demoted if a seam still cuts it off. */
  function Finish(det: Detection, opts: Options): Detection {
    det.(hit := det.hit.(box := if opts.clip then ClipBox(det.hit.box) else det.hit.box,
                         score := if det.hit.truncated then det.hit.score * opts.truncatedPenalty else det.hit.score))
  }

  /** Positions of the survivors that are still inside the frame after the clip. */
  function Visible(dets: seq<Detection>, opts: Options): (keep: seq<nat>)
    ensures Ascending(keep) && Selects(keep, |dets|)
    ensures forall i :: i in keep <==> 0 <= i < |dets| && (opts.clip ==> HasArea(ClipBox(dets[i].hit.box)))
  {
    Sorted(set i | 0 <= i < |dets| && (opts.clip ==> HasArea(ClipBox(dets[i].hit.box))), |dets|)
  }

  function Finished(dets: seq<Detection>, opts: Options): (finished: seq<Detection>)
    ensures |finished| == |dets|
  {
    seq(|dets|, k requires 0 <= k < |dets| => Finish(dets[k], opts))
  }

  /** order[:max_boxes] as Python slices it: a negative bound counts from the end. */
  function Capped<T>(s: seq<T>, maxBoxes: Option<int>): (capped: seq<T>)
    ensures capped <= s
  {
    match maxBoxes
    case None => s
    case Some(m) =>
      var bound := if m >= 0 then m else |s| + m;
      s[..if bound < 0 then 0 else if bound > |s| then |s| else bound]
  }

  ghost function Ranked(dets: seq<Detection>, maxBoxes: Option<int>): seq<Detection> {
    Pick(dets, Capped(VisitOrder(Hits(dets), false), maxBoxes))
  }

  ghost function Reported(candidates: seq<Detection>, opts: Options): seq<Detection> {
    var survivors := Pick(candidates, Survivors(candidates, opts));
    Ranked(Finished(Pick(survivors, Visible(survivors, opts)), opts), opts.maxBoxes)
  }

  ghost function Merged(perTile: seq<seq<Raw>>, tiles: seq<Tile>, frameSize: int, opts: Options): seq<Detection>
    requires frameSize > 0 && |tiles| == |perTile|
  {
    Reported(Candidates(Pooled(perTile, tiles, |tiles|, frameSize, opts.edgeEps), opts), opts)
  }

  // ----- The algorithm

  method PoolTiles(perTile: seq<seq<Raw>>, tiles: seq<Tile>, frameSize: int, edgeEps: real) returns (pool: Pool)
    requires frameSize > 0 && |tiles| == |perTile|
    ensures pool == Pooled(perTile, tiles, |tiles|, frameSize, edgeEps)
  {
    hide ToFrame, Truncation;
    var dets: seq<Detection>, seams: seq<set<Cut>> := [], [];
    for t := 0 to |tiles|
      invariant Pool(dets, seams) == Pooled(perTile, tiles, t, frameSize, edgeEps)
    {
      var raws, tile := perTile[t], tiles[t];
      ghost var tilePool := TilePool(raws, tile, t, frameSize, edgeEps);
      if |raws| == 0 {
        assert dets + tilePool.dets == dets && seams + tilePool.seams == seams;
        continue;
      }
      var keys := SeamTruncations(seq(|raws|, k requires 0 <= k < |raws| => raws[k].box), tile, frameSize, edgeEps);
      assert keys == tilePool.seams;
      seams := seams + keys;
      dets := dets + seq(|raws|, k requires 0 <= k < |raws| => Located(raws[k], tile, t, frameSize, edgeEps));
    }
    pool := Pool(dets, seams);
  }

  lemma NothingToMerge(pool: Pool, opts: Options)
    requires pool.Valid() && pool.dets == []
    ensures Reported(Candidates(pool, opts), opts) == []
  {
    var none := Candidates(pool, opts);
    assert none == [];
    assert Pick(none, Survivors(none, opts)) == [];
  }

  /** Containment, unless its threshold switches it off, and then NMS. */
  method SuppressBoth(candidates: seq<Detection>, opts: Options) returns (dets: seq<Detection>)
    ensures dets == Pick(candidates, Survivors(candidates, opts))
  {
    hide Kept;
    dets := candidates;
    if opts.iosThresh <= 1.0 {
      var uncontained := GreedySuppress(Hits(dets), opts.Containment());
      dets := Pick(dets, uncontained);
    }
    assert dets == Pick(candidates, Uncontained(candidates, opts));
    var kept := GreedySuppress(Hits(dets), opts.Nms());
    dets := Pick(dets, kept);
  }

  /** Clip, demote, rank and cap what the suppressions left. */
  method RankShown(survivors: seq<Detection>, opts: Options) returns (dets: seq<Detection>)
    ensures dets == Ranked(Finished(Pick(survivors, Visible(survivors, opts)), opts), opts.maxBoxes)
  {
    hide VisitOrder, Capped, Finished, Visible;
    dets := Pick(survivors, Visible(survivors, opts));
    dets := Finished(dets, opts);
    dets := Pick(dets, Capped(VisitOrder(Hits(dets), false), opts.maxBoxes));
  }

  method MergeTileDetections(perTile: seq<seq<Raw>>, tiles: seq<Tile>, frameSize: int, opts: Options)
    returns (r: Result<seq<Detection>, string>)
    requires frameSize > 0
    ensures r.Failure? <==> |perTile| != |tiles|
    ensures r.Success? ==> r.value == Merged(perTile, tiles, frameSize, opts)
  {
    if |perTile| != |tiles| {
      return Failure("detection sets and tiles differ in number");
    }
    hide Survivors, Fused, Ranked, Finished, Visible, Pooled;
    var pool := PoolTiles(perTile, tiles, frameSize, opts.edgeEps);
    if |pool.dets| == 0 {
      NothingToMerge(pool, opts);
      return Success([]);
    }
    var dets := pool.dets;
    if opts.fuseSeams {
      dets := FuseSeamFragments(pool, opts.seamIou);
    }
    dets := SuppressBoth(dets, opts);
    dets := RankShown(dets, opts);
    return Success(dets);
  }
}
