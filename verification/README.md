# Tiled detection on an Akida fleet: a verified model

The repository splits a square frame into overlapping tiles, runs a detector on every tile on its
own chip, and merges the per-tile detections into one result. This project models the parts where
the difficulty lies and proves what they guarantee, in Dafny 4.11 (`dafny verify dfyconfig.toml`).

- **The merge** (`src/common/tiled_shard.py`). Detections are mapped into the frame, fragments that
  seams cut apart are fused through a union-find, two greedy suppressions follow, and the result is
  clipped, demoted, ranked and capped. Files: `Geometry`, `OverlapMeaning`, `Detections`, `Kernel`,
  `Suppression`, `SuppressionLaws`, `Cardinality`, `Numeric`, `UnionFind`, `Fusion`, `FusionLaws`,
  `FusionProvenance`, `CutObjects`, `SeamJoin`, `Merge`, `MergeTheorems`, `SurvivorRules`, `TileOrder`, and `ScoreGate`
  and `Stitch` for the worker on top of it.
- **The per-tile decode** from the activated scores on (`Decode`), tile layouts, cutting and
  downscaling (`Frames`).
- **The AP scorer** (`src/common/detection_map.py`): `AveragePrecision`, `DiscreteAp`, `Matching`,
  `MeanAp`, `ApThreshold` (exactly when AP falls with the IoU threshold).
- **The streaming client** (`shard_client.py`), a state machine over atomic steps: `Pipeline`,
  `PipelineSafety` (arbitrary duplicated outputs), `PipelineCounters` (what the counters count),
  `PipelineExact`, `PipelineProgress` (no duplicates), `PipelineDuplicates` and `PipelineRest`
  (exactly when that matters).
- **The framed worker protocol** (`shard_wire.py`, `worker_io.py`): `Wire`, `WireExchange`,
  `WireMeaning`, and `WireCodec`, which shows that its assumption on JSON can be met.

## How the model is built

Coordinates, scores and thresholds are exact reals. A detection is one record instead of a row of
parallel arrays, so an index selection moves all its fields together. Loops that change state are
methods with invariants, proved equal to a specification function; the theorems are about those
functions. The union-find keeps its mutable parent array and is proved to refine a labelling that
stores every root outright. numpy's sorts appear in two ways: the stable ones are a function that
returns the one stable order, the unstable ones (`argsort` without `kind`) are an argument that may
be any order sorted the right way, so ties are covered in every order.

In the pipeline each action is one critical section, one queue call or one semaphore call.
`_finish` is three actions: mark done, remove the directory, release the permit. A fetch may leave
its task outstanding, which delivers its output again, possibly with another outcome. Every fetched
output carries the id of a submitted frame; the service containers ensure this even when the worker
raises. `in_flight` is positive in the client, where 0 selects an automatic value and the semaphore
refuses a negative one; conditions that name it cover 0 all the same. JSON is a pair of functions with
the assumption that one object is one line without surrounding white space and that parsing inverts
printing. A number with a fraction is a decimal of finitely many digits, so values are countable, and
`WireCodec.SomeCodecIsValid` exhibits such a pair.

Eight properties do not hold for every input of the code. Each is proved as an exact condition that can
be checked before the call:

- Average precision falls as the IoU threshold rises, for every ranking numpy may return and every
  overlap table, if and only if each image lists its detections by strictly decreasing score; for
  lists already sorted by score, if and only if no image holds two equal scores
  (`ApThreshold.ScoresDecide`, `ApThreshold.ApFallsIff`). For one given ranking the condition is that
  it keeps each image's list order (`ApThreshold.RankingDecides`).
- The score gate commutes with the cap on every frame, whatever the other options, if and only if
  there is no `max_boxes` or it is not negative: a negative one is sliced from the end
  (`ScoreGate.GateCommutesIff`).
- The decode's final filter removes exactly the suppressed boxes, for all cells and all orders of
  ties, if and only if `obj_threshold` is not negative, or `nms_threshold` exceeds 1, or there is no
  class (`Decode.FinalFilterExactIff`).
- A stitch follows a success of every tile in all runs if and only if no output is delivered twice,
  or there is at most one tile, or no frame is ever sent, because `got` counts replies
  (`PipelineDuplicates.StitchesCompleteIff`).
- When a directory is removed nothing naming its frame is outstanding, in all runs, if and only if no
  output is delivered twice or no frame is ever sent (`PipelineDuplicates.RemovalIsSafeIff`).
- Every run at rest without a stall has set the done event if and only if there is a frame to send and
  a permit for it, and no output is delivered twice or there is only one frame: a segment output
  delivered again uses up the fetch loop's count, and another frame is never split
  (`PipelineRest.EventIsSetIff`). With `--count 0` the client never ends, as the watchdog sees nothing
  pending either (`PipelineSafety.NoFramesNeverEnds`).
- mAP50 is at least mAP75, and at least mAP, for every ranking and overlap table, each if and only if
  every image lists its detections by strictly decreasing score (`ApThreshold.HeadlineIff`).
- A request reaches the worker's handler as sent if and only if it is not the shutdown message, has a
  length only with a payload, and does not leave a non-empty payload in a buffer the worker failed
  to map (`WireExchange.Exchange`). When both ends agree on the buffer every sequence of requests is
  delivered (`WireExchange.ExchangeAgreed`), and otherwise one byte is not
  (`WireExchange.ExchangeDisagreed`).

The comment at `shard_client.py:363` says that the inference loop has reached its target once all
frames are finished. A failed segment task submits no tiles, so it need not have; the model follows
the code. The module comment of `tiled_shard.py` says a permuted tile order disables fusion. That
holds when the detection sets are permuted without the tiles; `TileOrder.MergeIgnoresTileOrder`
shows that permuting both together changes nothing.

## Model

| member | source | states |
|---|---|---|
| Geometry.SeamTruncations | src/common/tiled_shard.py:197-231 | for each box, exactly the interior-seam sides of its tile that the box touches |
| Geometry.OverlapMeasures | src/common/tiled_shard.py:234-262 | IoU is symmetric, both measures lie in [0, 1], and IoU never exceeds IoS |
| OverlapMeaning.FullOverlap | src/common/tiled_shard.py:246-262 | for boxes of any kind, IoS is 1 iff the victim has an interior that the suppressor encloses, and IoU is 1 iff the boxes are equal and have an interior |
| OverlapMeaning.SomeOverlap | src/common/tiled_shard.py:246-262 | for boxes of any kind, IoU and IoS are positive iff the interiors meet |
| OverlapMeaning.IosAddsUp | src/common/tiled_shard.py:254-262 | cutting the victim in two anywhere, its IoS is the mean of the pieces' IoS weighted by their lengths |
| OverlapMeaning.IouFromIos | src/common/tiled_shard.py:246-251 | IoU follows from the two IoS: the product over the sum without the product |
| OverlapMeaning.ProjectionIsStripIou | src/common/tiled_shard.py:317-325 | the one-dimensional IoU is the IoU of the strips the projections stand for |
| Geometry.FrameMapPreservesOverlap | src/common/tiled_shard.py:189-194 | mapping two boxes of one tile into the frame changes neither their IoU nor their IoS |
| OverlapMeaning.FrameMapKeepsPixels | src/common/tiled_shard.py:189-194 | a box given in pixels and normalised to its tile maps to the same pixels normalised to the frame |
| OverlapMeaning.CutsInPixels | src/common/tiled_shard.py:52-62 | in frame pixels, a seam cuts a box at a side iff the side is inside the frame and the box reaches it up to edge_eps of the tile |
| OverlapMeaning.WholeFrameIsNeverCut | src/common/tiled_shard.py:52-62 | the whole-frame tile has no interior seam, so none of its boxes is truncated |
| OverlapMeaning.ClipIsIntersection | src/common/tiled_shard.py:505-506 | the clipped box holds exactly the box's points inside the frame |
| OverlapMeaning.VisibleIffMeetsFrame | src/common/tiled_shard.py:507-509 | a proper box survives the clip iff its interior meets the frame's |
| OverlapMeaning.ReportedInsideFrame | src/common/tiled_shard.py:505-509 | with the clip on, every reported box has an interior and lies inside the frame |
| OverlapMeaning.EnclosedFragmentIsDropped | src/common/tiled_shard.py:265-314 | with the default flags a truncated box wholly inside a complete one of its class never survives, whatever the scores |
| Detections.VisitOrder | src/common/tiled_shard.py:284-287 | the visiting order is a permutation sorted by the lexsort keys, earlier index first on ties |
| Detections.VisitedUnique | src/common/tiled_shard.py:284-287 | without equal scores the visiting sequence depends only on the set of detections |
| Kernel.KernelUnique | src/common/tiled_shard.py:293-301 | the greedy equation has exactly one solution for any kill relation, symmetric or not |
| Suppression.VisitDecides | src/common/tiled_shard.py:293-301 | a visited box is kept iff no box kept before it has raised its flag |
| Suppression.GreedySuppress | src/common/tiled_shard.py:265-302 | the in-place loop keeps exactly the greedy survivors, in the original order |
| SuppressionLaws.GreedySetUnique | src/common/tiled_shard.py:265-302 | the kept set is the only set in which an index is kept iff no kept index visited before it has its class, overlaps it by the threshold, and it is eligible |
| SuppressionLaws.SuppressionIdempotent | src/common/tiled_shard.py:265-302 | a second pass under the same rule removes nothing |
| SuppressionLaws.NmsSeparates | src/common/tiled_shard.py:305-307 | after NMS two boxes of one class have IoU below the threshold |
| SuppressionLaws.SuppressionIgnoresOrder | src/common/tiled_shard.py:265-314 | two lists of the same detections with distinct scores keep the same detections, for IoU and IoS |
| UnionFind.HalvingKeepsForest | src/common/tiled_shard.py:377-381 | pointing an item at its grandparent changes nobody's root and climbs strictly |
| UnionFind.LinkingKeepsForest | src/common/tiled_shard.py:383-386 | hanging one root under another merges exactly their two classes |
| UnionFind.DisjointSets.Find | src/common/tiled_shard.py:377-381 | terminates, returns the root, and leaves every root as it was |
| UnionFind.DisjointSets.Union | src/common/tiled_shard.py:383-386 | merges the two classes under the first one's root and nothing else |
| Fusion.JoinPair | src/common/tiled_shard.py:389-405 | one pair is merged iff it is in the pair relation, however many of its four tests hold |
| Fusion.JoinAll | src/common/tiled_shard.py:388-405 | the pair loops compute the reference labelling |
| Fusion.CollectGroups | src/common/tiled_shard.py:407-409 | the group dictionary has one ascending member list per root |
| Fusion.NothingFused | src/common/tiled_shard.py:372-373 | when every group is a singleton the early returns equal the general rebuild |
| Fusion.FuseSeamFragments | src/common/tiled_shard.py:347-432 | path halving, groups and both early returns together give the reference fusion |
| FusionLaws.GroupsAreComponents | src/common/tiled_shard.py:388-409 | two detections share a root iff a chain of joining pairs connects them |
| FusionProvenance.GroupComesFrom | src/common/tiled_shard.py:413-424 | a fused detection has one class, the smallest enclosing box, the best score, is truncated only as a lone cut fragment, and a larger group spans two tiles and holds only cut fragments |
| FusionProvenance.SourcesDisjoint | src/common/tiled_shard.py:407-414 | distinct fused detections replace disjoint inputs |
| FusionProvenance.SourcesCover | src/common/tiled_shard.py:407-414 | every input is replaced by some fused detection |
| FusionProvenance.FusionIgnoresOrder | src/common/tiled_shard.py:347-432 | rearranging the detections and renumbering the tiles fuses to the same set |
| CutObjects.PiecesJoin | src/common/tiled_shard.py:328-344 | two pieces of one object whose cuts overlap or miss by at most the tolerance pass the geometric test for every seam_iou up to 1 |
| SeamJoin.FragmentsJoinIff | src/common/tiled_shard.py:328-344 | two boxes pass the geometric test iff they are in order and meet along the cut up to the tolerance, and the strips they occupy across it have an IoU of at least seam_iou |
| SeamJoin.PartsJoinIff | src/common/tiled_shard.py:328-344 | two parts of one object join iff they are in order, meet up to the tolerance, and seam_iou is at most 1 |
| SeamJoin.GapJoinsIff | src/common/tiled_shard.py:328-344 | parts left by a cut with a gap after it join iff the gap is at most a millionth of the frame |
| SeamJoin.NeverJoins | src/common/tiled_shard.py:336-344 | boxes further apart than the tolerance, out of order, or (for a positive seam_iou) without overlap across the cut never join |
| SeamJoin.JoinedIff | src/common/tiled_shard.py:389-405 | a pair is joined iff it has one class, two tiles, and complementary cuts along an axis where the pieces meet in order and line up |
| SeamJoin.FusedThroughLinks | src/common/tiled_shard.py:354-405 | any two inputs of one fused detection are linked through inputs of it by such pairs only |
| CutObjects.FusedIffComponent | src/common/tiled_shard.py:347-432 | in any pool, some fused detection replaces exactly a given set of detections iff they are connected by joining pairs and no outsider joins one of them |
| CutObjects.PiecesAreRebuilt | src/common/tiled_shard.py:352-356 | in any pool, two or more connected pieces that no outsider joins come back as the box they span, with their class and best score and no longer truncated |
| CutObjects.SlicedObjectIsRebuilt | src/common/tiled_shard.py:354-356 | an object cut by seams into any number of slices in as many tiles, anywhere in a pool, fuses back to its own box unless another detection joins a slice |
| CutObjects.CutObjectIsRebuilt | src/common/tiled_shard.py:347-362 | the same for one seam and two tiles: the object's box, the better score, no longer truncated, and nothing else when the pool holds nothing else |
| Merge.PoolTiles | src/common/tiled_shard.py:465-496 | the accumulating loop, which skips empty tiles, pools every tile's mapped detections in order |
| Merge.MergeTileDetections | src/common/tiled_shard.py:435-518 | refuses a mismatch of tiles and detection sets, else returns the merge specification |
| MergeTheorems.ReportedAreSurvivors | src/common/tiled_shard.py:500-518 | every report is a distinct surviving candidate, clipped and demoted |
| MergeTheorems.MergeProvenance | src/common/tiled_shard.py:413-518 | every output comes from a non-empty set of inputs of one class: box, score and penalty follow from that set, and sets of two or more span two tiles of cut inputs |
| MergeTheorems.ReportedInputsDisjoint | src/common/tiled_shard.py:413-518 | no input stands behind two outputs |
| SurvivorRules.PoolIsFlagged | src/common/tiled_shard.py:467-496 | every pooled detection is some tile's detection mapped into the frame, flagged as truncated iff a seam cuts it |
| SurvivorRules.UncontainedIff | src/common/tiled_shard.py:265-301 | for all options, containment drops a detection iff it may be a victim and one of its class visited before it, and not dropped, covers ios_thresh of it |
| SurvivorRules.SurvivorsIff | src/common/tiled_shard.py:500-503 | for all options, a detection survives iff containment leaves it and no survivor of its class visited before it overlaps it by nms_iou |
| MergeTheorems.SurvivorsSeparated | src/common/tiled_shard.py:500-503 | before the clip no two survivors of one class overlap by nms_iou or more |
| MergeTheorems.CompleteIsUncontained | src/common/tiled_shard.py:290-291 | containment limited to truncated victims keeps every complete candidate |
| MergeTheorems.CompleteLostIff | src/common/tiled_shard.py:500-503 | with the default flags a complete candidate is lost iff a surviving complete one of its class scores at least as high and overlaps it by nms_iou |
| MergeTheorems.PoolingKeepsTileSeparation | src/common/tiled_shard.py:479-480 | separation below any threshold inside a tile holds in the frame iff it held in the tile |
| MergeTheorems.ReportDescending | src/common/tiled_shard.py:515 | the report is in decreasing order of score |
| MergeTheorems.CapDropsTheWeakest | src/common/tiled_shard.py:515-518 | nothing the cap drops scores above anything it keeps |
| MergeTheorems.MergedSize | src/common/tiled_shard.py:515-518 | the capped report is the start of the full one: of n detections a cap m keeps min(m, n), and a negative one max(0, n + m) |
| MergeTheorems.UncappedReportsAll | src/common/tiled_shard.py:505-518 | without a cap every survivor still visible after the clip is reported |
| MergeTheorems.GateAfterMerge | src/apps/image-shard-inference/service/stitch/stitch_worker.py:65-71 | gating the capped report equals capping the gated full report, for every threshold and non-negative cap |
| ScoreGate.GateCommutesIff | src/apps/image-shard-inference/service/stitch/stitch_worker.py:65-71 | whatever the other options, gating the capped merge equals capping the gated full merge for every frame and threshold iff the cap is absent or not negative |
| ScoreGate.NegativeCapBreaksGate | src/common/tiled_shard.py:516-517 | for every negative cap and any other options a frame with one whole-frame tile shows the difference |
| TileOrder.RelistingRearranges | src/common/tiled_shard.py:467-496 | permuting tiles and detection sets together permutes the pool |
| TileOrder.MergeIgnoresTileOrder | src/common/tiled_shard.py:435-518 | with distinct input scores and no cap, permuting tiles and detection sets together leaves the reported boxes, scores, classes and truncation flags unchanged |
| TileOrder.SameReport | src/common/tiled_shard.py:435-518 | if moreover no two scores reported for one listing are equal, the two reports are the same sequence under any cap |
| Stitch.StitchFrame | src/apps/image-shard-inference/service/stitch/stitch_worker.py:51-87 | reports the gated merge, with a histogram that counts each class name among the shown boxes |
| Stitch.MergedClassesAreInputs | src/apps/image-shard-inference/service/stitch/stitch_worker.py:73-77 | the merge invents no class, so every name lookup succeeds |
| Stitch.CountsAddUp | src/apps/image-shard-inference/service/stitch/stitch_worker.py:74-77 | over distinct names the counts add up to the shown boxes |
| Stitch.ShownSize | src/apps/image-shard-inference/service/stitch/stitch_worker.py:51-71 | the merge before the gate has the size the cap allows, and for a non-negative cap so has what the gate shows of the full report |
| Frames.LayoutFacts | src/common/tiled_shard.py:103-135 | a layout is refused exactly for an unknown name or a gap-leaving size; otherwise its tiles lie inside the frame and the client's table has their number |
| Frames.LayoutPlaces | src/common/tiled_shard.py:118-135 | the quadrants sit in the four corners in reading order, then the centre tile with margins differing by at most a pixel, then the whole frame |
| Frames.LayoutCovers | src/common/tiled_shard.py:125-129 | the quadrants, or the whole-frame tile, cover every pixel |
| Frames.SplitFrame | src/common/tiled_shard.py:160-176 | succeeds iff the frame is square and every tile is inside and divides evenly, and returns each tile's ready form |
| Frames.QuadrantsRebuildFrame | src/common/tiled_shard.py:160-176 | pasting the four quadrant crops over any canvas rebuilds the frame exactly |
| Frames.AveragingIsFaithful | src/common/tiled_shard.py:138-157 | each output is within half a unit of its block's mean and between the block's extremes |
| Frames.TotalCountsPixels | src/common/tiled_shard.py:153-154 | changing a pixel changes its own block's total by as much and no other's |
| Frames.ReadyIff | src/common/tiled_shard.py:147-151 | a tile can be made ready iff it is inside the frame and a multiple of the input size |
| Frames.ReadyPixels | src/common/tiled_shard.py:160-176 | each pixel of a ready tile is the rounded mean of its own block of the frame, and a tile of the input size is the frame's own pixels |
| Frames.AveragedIsBytes | src/common/tiled_shard.py:157 | the cast back to uint8 loses nothing |
| Frames.FactorOneIsIdentity | src/common/tiled_shard.py:152-153 | the early return for factor one equals the general formula |
| Decode.CellPassesIff | src/common/tiled_shard.py:567-594 | with a non-negative threshold a cell is a candidate iff some class score exceeds it, and its label is its strongest class |
| Decode.CandidatesValid | src/common/tiled_shard.py:566-594 | every candidate scores in its label's class and its objectness exceeds the threshold |
| Decode.ClassPass | src/common/tiled_shard.py:602-610 | one class's pass zeroes exactly the non-survivors of that class on the shared array |
| Decode.SuppressClasses | src/common/tiled_shard.py:599-610 | class by class on one array equals an independent greedy pass per class |
| Decode.AliveSeparated | src/common/tiled_shard.py:596-610 | survivors of one class have pairwise IoU below the threshold |
| Decode.ZeroedHasSuppressor | src/common/tiled_shard.py:596-610 | every zeroed box has a surviving suppressor of its class with a class score at least its own |
| Decode.FinalFilterExactIff | src/common/tiled_shard.py:612-613 | for all cells and orders of ties the final filter removes exactly the suppressed boxes iff the threshold is not negative, NMS cannot suppress, or there is no class |
| Decode.SuppressedIsReported | src/common/tiled_shard.py:596-613 | with a negative threshold and an NMS threshold up to 1, the second of two equal boxes with positive scores in every class is suppressed and still reported |
| Decode.DecodeTile | src/common/tiled_shard.py:566-613 | each detection is one cell, in grid order, with the cell's box, its first strongest class and its objectness as the score; every other cell with a class score above a non-negative threshold overlaps a reported one of its class that scores at least as high |
| Decode.DecodedStaySeparated | src/common/tiled_shard.py:189-194 | what one tile reports is separated within each class, and still is in the frame |
| AveragePrecision.FoldEnvelope | src/common/detection_map.py:24-25 | the backward loop leaves the suffix maximum at every position |
| AveragePrecision.ComputeAp | src/common/detection_map.py:20-27 | the in-place envelope and the recall-change filter give the full area: dropped terms are zero |
| DiscreteAp.ApIsDiscreteMaximum | src/common/detection_map.py:20-27 | on cumulative counts the area is 1/N times the sum, over m up to the number of true positives, of the best precision at any rank with at least m of them |
| DiscreteAp.ApMonotone | src/common/detection_map.py:89-94 | more true positives at every rank never lowers average precision |
| DiscreteAp.TrailingFalsePositivesAreFree | src/common/detection_map.py:89-94 | false positives ranked below everything else change nothing |
| Matching.MatchImage | src/common/detection_map.py:69-83 | with the detected set, exactly the first detection in list order to reach each annotation is a true positive |
| Matching.MatchDetections | src/common/detection_map.py:62-83 | the same over all images of a class, with the number of annotations |
| Matching.EvalOverlapIsIou | src/common/detection_map.py:30-41 | for boxes listed in either corner order the evaluator's overlap equals the merge's IoU iff the union reaches the guard or the boxes do not overlap |
| MeanAp.AveragePrecisionOf | src/common/detection_map.py:53-95 | one class's score equals the discrete maximum form of its matches |
| MeanAp.CumCountsMatched | src/common/detection_map.py:76-83 | true positives among the first k ranks count distinct annotations |
| MeanAp.ClassApInUnitInterval | src/common/detection_map.py:53-95 | average precision lies in [0, 1], whatever the overlaps and the order of ties |
| MeanAp.DistinctScoresKeepListOrder | src/common/detection_map.py:88 | without equal scores inside an image every descending sort keeps each image's list order |
| MeanAp.MatchedIsReached | src/common/detection_map.py:76-80 | in list order an annotation is matched by rank k iff some detection up to rank k reaches it |
| MeanAp.ApFallsWithThreshold | src/common/detection_map.py:53-95 | a higher IoU threshold never raises the average precision of a class whose ranking keeps each image's list order |
| ApThreshold.BrokenOrderRaisesAp | src/common/detection_map.py:76-88 | every ranking that visits a later detection of an image first has overlaps, on the same scores, for which AP at 0.5 is below AP at every higher threshold up to 1 |
| ApThreshold.RankingDecides | src/common/detection_map.py:53-95 | for one ranking, AP falls with the threshold whatever the annotations and overlaps iff the ranking keeps each image's list order |
| ApThreshold.ScoresDecide | src/common/detection_map.py:53-95 | AP falls with the threshold for every ranking, annotation set and overlap table iff each image lists its detections by strictly decreasing score |
| ApThreshold.ApFallsIff | src/common/detection_map.py:56-58 | on lists sorted by score, which is what the function asks for, that is iff no image holds two equal scores |
| MeanAp.Evaluate | src/common/detection_map.py:98-116 | the mean over classes at each of the ten thresholds, and each class's mean over the thresholds |
| MeanAp.MeansAgree | src/common/detection_map.py:111-116 | averaging either of the two results gives the same number |
| MeanAp.ThresholdsEvenlySpaced | src/common/detection_map.py:17 | the ten thresholds run from 0.50 in steps of 0.05 |
| MeanAp.SummaryReads | src/common/detection_map.py:119-124 | mAP50 and mAP75 are the class means at 0.50 and 0.75, and mAP the mean of all ten |
| MeanAp.HeadlineOrder | src/common/detection_map.py:119-124 | with strictly decreasing scores in each image, mAP50 is at least mAP75 and at least mAP |
| ApThreshold.HeadlineIff | src/common/detection_map.py:119-124 | mAP50 is at least mAP75, and at least mAP, for all annotations, overlaps and rankings, each iff every image lists strictly decreasing scores |
| PipelineSafety.SemaphoreConserved | src/apps/image-shard-inference/client/shard_client.py:199-234 | under arbitrary duplicates free permits and unreleased frames add up to in_flight, nothing is released or dispatched twice, and the counters agree |
| PipelineCounters.CountersCountAnswers | src/apps/image-shard-inference/client/shard_client.py:261-294 | in every run segment errors, tile replies, good tiles and tile errors are the numbers of such answers fetched |
| PipelineCounters.ErrorsCountMarks | src/apps/image-shard-inference/client/shard_client.py:221-230 | in every run the error counter is the number of frames marked done after a failure, the rest those marked after a success |
| PipelineCounters.ErrorsCountFailures | src/apps/image-shard-inference/client/shard_client.py:218-336 | without duplicates the error counter is the number of frames done with some failed segment, tile or stitch answer; a run without one ends with none |
| PipelineCounters.FailedFramesIff | src/apps/image-shard-inference/client/shard_client.py:258-330 | the frames so counted are those with a failed answer in the run |
| PipelineSafety.ReleaseNeverRaises | src/apps/image-shard-inference/client/shard_client.py:234 | the bounded semaphore is never released above its bound |
| PipelineSafety.DoneMeansAllFrames | src/apps/image-shard-inference/client/shard_client.py:227-232 | without a stall the done event means every frame is done |
| PipelineSafety.EventIff | src/apps/image-shard-inference/client/shard_client.py:227-232 | in every run the event is set iff the watchdog gave up or all frames are done, and the watchdog can give up iff frames are missing and it has not |
| PipelineSafety.NoFramesNeverEnds | src/apps/image-shard-inference/client/shard_client.py:341-360 | asked for no frames, no thread moves and the event is never set |
| PipelineProgress.RemovalIsSafe | src/apps/image-shard-inference/client/shard_client.py:218-234 | without duplicates, when a directory is removed nothing naming its frame is outstanding in any stage |
| PipelineDuplicates.RemovalIsSafeIff | src/apps/image-shard-inference/client/shard_client.py:218-234 | removal is safe in every run iff no output is delivered twice or no frame is ever sent |
| PipelineProgress.TasksHaveDirectory | src/apps/image-shard-inference/client/shard_client.py:251-336 | while a tile or stitch of a frame is outstanding its directory exists |
| PipelineProgress.StitchAfterAllTiles | src/apps/image-shard-inference/client/shard_client.py:295-314 | a stitch is sent only after a successful reply for each tile |
| PipelineCounters.RecordedAnswersIff | src/apps/image-shard-inference/client/shard_client.py:281-300 | in every run the replies and good replies recorded for a frame are exactly the tiles for which the run fetched an answer, or a good one |
| PipelineCounters.StitchHasAnswers | src/apps/image-shard-inference/client/shard_client.py:295-314 | without duplicates a stitch is outstanding only once the run has fetched a good answer for each tile of its frame |
| PipelineProgress.DirectoriesBounded | src/apps/image-shard-inference/client/shard_client.py:199-239 | at most in_flight frames hold a directory |
| PipelineProgress.MeasureFalls | src/apps/image-shard-inference/client/shard_client.py:237-336 | every action but a stall lowers the remaining work |
| PipelineProgress.OutputsCanBeFetched | src/apps/image-shard-inference/client/shard_client.py:251-336 | an idle thread can fetch every output outstanding for it, with either answer of the service |
| PipelineProgress.SomeThreadMoves | src/apps/image-shard-inference/client/shard_client.py:237-336 | while frames are missing some thread can move, and if the move is a fetch, whichever way the service answers |
| PipelineProgress.EveryRunFinishes | src/apps/image-shard-inference/client/shard_client.py:237-336 | runs without stalls and duplicates are bounded, and where none can go on every frame is done, failed ones included |
| PipelineRest.RepeatsLeaveFrameBehind | src/apps/image-shard-inference/client/shard_client.py:251-266 | with duplicates and two or more frames some stall-free run comes to rest with the event unset |
| PipelineRest.OneFrameRests | src/apps/image-shard-inference/client/shard_client.py:227-336 | with a single frame every run at rest has set the event, however often outputs are delivered |
| PipelineRest.EventIsSetIff | src/apps/image-shard-inference/client/shard_client.py:227-336 | every stall-free run at rest has set the event iff there is a frame and a permit, and no output is delivered twice or there is one frame only |
| PipelineDuplicates.StitchesCompleteIff | src/apps/image-shard-inference/client/shard_client.py:298-306 | stitches are complete in every run iff no output is delivered twice, or there is at most one tile, or no frame is ever sent |
| Wire.ReadExact | src/common/worker_io.py:24-32 | returns exactly the first n bytes however the pipe splits them, or fails when the pipe ends first |
| Wire.Client.Send | src/apps/image-shard-inference/service/shard_wire.py:101-113 | one header line, with the payload in the shared buffer when it fits and after the line otherwise |
| Wire.Client.Receive | src/apps/image-shard-inference/service/shard_wire.py:114-117 | takes one reply line and parses it, or reports that the worker died |
| Wire.Server.Payload | src/common/worker_io.py:68-72 | the payload a request names, from the pipe or the shared buffer, for every length that int() accepts, and a refusal for every other |
| Wire.Server.ServeOne | src/common/worker_io.py:57-77 | end of input, blank line, shutdown, handled or rejected; the reply line is the handler's object, or names what was raised |
| WireExchange.EncodedLine | src/common/worker_io.py:58-65 | reading, stripping and parsing a printed line gives the object back, whatever follows it |
| WireExchange.Exchange | src/apps/image-shard-inference/service/shard_wire.py:101-117 | the handler is given exactly what was sent, leaving an empty pipe, iff the request is deliverable; every header field arrives as sent; the reply is the handler's own object, or its exception under "error" |
| WireExchange.ExchangeAll | src/apps/image-shard-inference/service/shard_wire.py:101-117 | any number of deliverable requests with arbitrary bytes arrive in order with every header field, each with the handler's own reply or its exception |
| WireExchange.ExchangeAgreed | src/apps/image-shard-inference/service/shard_wire.py:101-117 | when both ends agree on the buffer, every sequence of requests with arbitrary bytes is delivered in order, each with its own reply |
| WireExchange.ExchangeDisagreed | src/common/worker_io.py:68-72 | when only the client has mapped it, a payload of one byte is not delivered |
| WireExchange.Connect | src/apps/image-shard-inference/service/shard_wire.py:57-99 | client and worker as started are connected, with empty pipes, for any codec that meets the assumption |
| WireCodec.SomeCodecIsValid | src/apps/image-shard-inference/service/shard_wire.py:111-117 | some codec meets the assumption on JSON, so what the exchanges require can be had |
| WireMeaning.StripIs | src/common/worker_io.py:61 | what is stripped from a line is white space at both ends, and all of it |
| WireMeaning.InlineIff | src/common/worker_io.py:71-72 | a payload counts as inline iff the field is there and not one of Python's false values |
| WireExchange.PrintedLength | src/common/worker_io.py:70 | a length sent as printed text counts as the number, with or without a sign |
| WireMeaning.PaddedLength | src/common/worker_io.py:70 | blanks around a length sent as text do not matter |
| WireMeaning.WholeNumbers | src/common/worker_io.py:70 | a length written with an exponent is multiplied out by powers of ten |
| WireMeaning.OtherLengths | src/common/worker_io.py:70 | flags count as 0 and 1; null, lists and objects are no lengths |
| WireMeaning.SliceSize | src/common/worker_io.py:71-72 | the shared buffer yields the first n bytes, or all but the last -n |
| Wire.TruncatedTowardZero | src/common/worker_io.py:70 | a length with a fraction is truncated toward zero |

## Left out

- Floating-point rounding, NaN and the float32 casts: all arithmetic is exact.
- The optional class-score array carried through the merge, and its maximum over a fused group.
- Sigmoid, softmax and the box regression of the decode: scores enter activated, boxes already decoded.
- The grid shape of the decode: cells are a list in grid order.
- Colour channels: `Frames` treats one channel, and each channel is cut and averaged alike.
- How numpy's unstable sorts order ties: `Decode` and `MeanAp` take any valid order as an argument.
- `group_by_label` and the assembly of the overlap matrices: `Matching` takes each image's matrix as given.
- Digits and blanks outside ASCII in a length sent as text, and JSON's NaN and infinities: no such length is modelled.
- A failed task whose output carries no id (`_reply` returns an empty dictionary): the pipeline theorems do not cover it.
- Wall-clock time: the watchdog is a step that may stop a run early, without its timeout.
- The JSONL dump, the box and class totals, and the per-host timing of the client.
- Worker start-up, buffer allocation and shutdown of `Py312Worker`; a reply that cannot be serialised; a worker that waits on an open pipe, which the model treats as an ended one.
- Reading detections and metadata from disk, and the stitch worker's cache.
- The Akida runtime, the batch and HTTP applications, dashboards and launch scripts.
