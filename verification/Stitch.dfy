/** The stitch worker (stitch_worker.Stitcher): merge, gate on the penalised score, count classes. */
module Stitch {
  import opened Wrappers
  import opened Geometry
  import opened Detections
  import opened Fusion
  import opened FusionProvenance
  import opened Merge
  import opened MergeTheorems

  /** What one request reports: the shown detections and how many carry each class name. */
  datatype Report = Report(shown: seq<Detection>, histogram: map<string, nat>)

  predicate NamedClasses(dets: seq<Detection>, names: seq<string>) {
    forall k :: 0 <= k < |dets| ==> 0 <= dets[k].hit.classId < |names|
  }

  function CountOf(dets: seq<Detection>, names: seq<string>, name: string): nat
    requires NamedClasses(dets, names)
  {
    if dets == [] then 0
    else
      var n := |dets| - 1;
      CountOf(dets[..n], names, name) + (if names[dets[n].hit.classId] == name then 1 else 0)
  }

  /** The classes of a merge are classes of its inputs. */
  lemma MergedClassesAreInputs(pool: Pool, opts: Options)
    requires pool.Valid()
    ensures forall det :: det in Reported(Candidates(pool, opts), opts) ==>
              exists m :: 0 <= m < |pool.dets| && pool.dets[m].hit.classId == det.hit.classId
  {
    hide Reported, Origins, Fused, Sources;
    var candidates := Candidates(pool, opts);
    var reported, origins := Reported(candidates, opts), Origins(candidates, opts);
    ReportedAreSurvivors(candidates, opts);
    forall k | 0 <= k < |reported|
        ensures exists m :: 0 <= m < |pool.dets| && pool.dets[m].hit.classId == reported[k].hit.classId {
      var origin := origins[k];
      if opts.fuseSeams {
        GroupComesFrom(pool, opts.seamIou, origin);
        var inputs := Sources(pool, opts.seamIou, origin);
        assert inputs[0] in inputs;
        assert pool.dets[inputs[0]].hit.classId == reported[k].hit.classId;
      } else {
        assert pool.dets[origin].hit.classId == reported[k].hit.classId;
      }
    }
  }

  lemma GateKeepsClasses(dets: seq<Detection>, threshold: real, names: seq<string>)
    requires NamedClasses(dets, names)
    ensures NamedClasses(Gate(dets, threshold), names)
  {
    if dets != [] {
      GateKeepsClasses(dets[1..], threshold, names);
    }
  }

  method StitchFrame(perTile: seq<seq<Raw>>, tiles: seq<Tile>, frameSize: int, opts: Options, postThresh: real,
      names: seq<string>) returns (r: Result<Report, string>)
    requires frameSize > 0
    requires forall t, k :: 0 <= t < |perTile| && 0 <= k < |perTile[t]| ==> 0 <= perTile[t][k].classId < |names|
    ensures r.Failure? <==> |perTile| != |tiles|
    ensures r.Success? ==>
      && r.value.shown == Gate(Merged(perTile, tiles, frameSize, opts), postThresh)
      && NamedClasses(r.value.shown, names)
      && (forall name :: name in r.value.histogram <==> CountOf(r.value.shown, names, name) > 0)
      && (forall name :: name in r.value.histogram ==> r.value.histogram[name] == CountOf(r.value.shown, names, name))
  {
    hide Merged, Gate;
    var merged := MergeTileDetections(perTile, tiles, frameSize, opts);
    if merged.Failure? {
      return Failure(merged.error);
    }
    MergedNamed(perTile, tiles, frameSize, opts, names);
    GateKeepsClasses(merged.value, postThresh, names);
    var shown := Gate(merged.value, postThresh);
    var histogram: map<string, nat> := map[];
    for k := 0 to |shown|
      invariant forall name :: name in histogram <==> CountOf(shown[..k], names, name) > 0
      invariant forall name :: name in histogram ==> histogram[name] == CountOf(shown[..k], names, name)
    {
      var name := names[shown[k].hit.classId];
      assert shown[..k + 1][..k] == shown[..k];
      histogram := histogram[name := (if name in histogram then histogram[name] else 0) + 1];
    }
    assert shown[..|shown|] == shown;
    return Success(Report(shown, histogram));
  }

  /** What the worker merges before its gate holds as many detections as the cap allows, and for a cap
      that is not negative it shows that many of the detections that pass the gate, or all of them. */
  lemma ShownSize(perTile: seq<seq<Raw>>, tiles: seq<Tile>, frameSize: int, opts: Options, postThresh: real)
    requires frameSize > 0 && |perTile| == |tiles|
    ensures var full := Merged(perTile, tiles, frameSize, opts.(maxBoxes := None));
            var merged := Merged(perTile, tiles, frameSize, opts);
            && merged <= full && IsKept(|merged|, |full|, opts.maxBoxes)
            && (opts.maxBoxes.None? || opts.maxBoxes.value >= 0 ==>
                  IsKept(|Gate(merged, postThresh)|, |Gate(full, postThresh)|, opts.maxBoxes))
  {
    hide Merged, Gate, Capped;
    MergedSize(perTile, tiles, frameSize, opts);
    MergedIsCapped(perTile, tiles, frameSize, opts);
    var full := Merged(perTile, tiles, frameSize, opts.(maxBoxes := None));
    if opts.maxBoxes.None? || opts.maxBoxes.value >= 0 {
      GateCommutesWithCap(full, postThresh, opts.maxBoxes);
      CappedSize(Gate(full, postThresh), opts.maxBoxes);
    }
  }

  lemma {:induction false} PoolClasses(perTile: seq<seq<Raw>>, tiles: seq<Tile>, t: nat, frameSize: int,
      edgeEps: real, names: seq<string>)
    requires frameSize > 0 && t <= |tiles| == |perTile|
    requires forall q, k :: 0 <= q < |perTile| && 0 <= k < |perTile[q]| ==> 0 <= perTile[q][k].classId < |names|
    ensures NamedClasses(Pooled(perTile, tiles, t, frameSize, edgeEps).dets, names)
  {
    hide ToFrame, Truncation;
    if t > 0 {
      PoolClasses(perTile, tiles, t - 1, frameSize, edgeEps, names);
    }
  }

  lemma MergedNamed(perTile: seq<seq<Raw>>, tiles: seq<Tile>, frameSize: int, opts: Options, names: seq<string>)
    requires frameSize > 0 && |tiles| == |perTile|
    requires forall t, k :: 0 <= t < |perTile| && 0 <= k < |perTile[t]| ==> 0 <= perTile[t][k].classId < |names|
    ensures NamedClasses(Merged(perTile, tiles, frameSize, opts), names)
  {
    hide Reported, Candidates;
    var pool := Pooled(perTile, tiles, |tiles|, frameSize, opts.edgeEps);
    PoolClasses(perTile, tiles, |tiles|, frameSize, opts.edgeEps, names);
    var merged := Merged(perTile, tiles, frameSize, opts);
    MergedClassesAreInputs(pool, opts);
    forall k | 0 <= k < |merged| ensures 0 <= merged[k].hit.classId < |names| {
      assert merged[k] in merged;
    }
  }

  /** The histogram counts every shown detection once: over distinct names the counts add up. */
  lemma {:induction false} CountsAddUp(dets: seq<Detection>, names: seq<string>, distinct: seq<string>)
    requires NamedClasses(dets, names) && Distinct(distinct)
    requires forall k :: 0 <= k < |dets| ==> names[dets[k].hit.classId] in distinct
    ensures CountSum(dets, names, distinct) == |dets|
  {
    if dets == [] {
      NothingCounted(names, distinct);
    } else {
      var n := |dets| - 1;
      CountsAddUp(dets[..n], names, distinct);
      LastCountedOnce(dets, names, distinct);
    }
  }

  function CountSum(dets: seq<Detection>, names: seq<string>, distinct: seq<string>): nat
    requires NamedClasses(dets, names)
  {
    if distinct == [] then 0
    else CountSum(dets, names, distinct[..|distinct| - 1]) + CountOf(dets, names, distinct[|distinct| - 1])
  }

  lemma {:induction false} NothingCounted(names: seq<string>, distinct: seq<string>)
    ensures CountSum([], names, distinct) == 0
  {
    if distinct != [] {
      NothingCounted(names, distinct[..|distinct| - 1]);
    }
  }

  lemma {:induction false} LastCountedOnce(dets: seq<Detection>, names: seq<string>, distinct: seq<string>)
    requires dets != [] && NamedClasses(dets, names) && Distinct(distinct)
    ensures var n := |dets| - 1;
            CountSum(dets, names, distinct) == CountSum(dets[..n], names, distinct)
                                               + (if names[dets[n].hit.classId] in distinct then 1 else 0)
  {
    if distinct != [] {
      var m := |distinct| - 1;
      LastCountedOnce(dets, names, distinct[..m]);
      assert distinct == distinct[..m] + [distinct[m]];
    }
  }
}
