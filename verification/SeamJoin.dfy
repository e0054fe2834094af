/** Which fragments fusion must refuse to join, told from their boxes, and that no fused detection
    rests on such a pair. */
module SeamJoin {
  import opened Geometry
  import opened Fusion
  import opened FusionLaws
  import opened FusionProvenance
  import opened OverlapMeaning
  import opened CutObjects

  /** A box's low and high end along an axis. */
  function Span(box: Box, axis: Axis): (real, real) {
    (box.Low(axis), box.High(axis))
  }

  /** The geometric test in full: the second fragment starts and ends no earlier than the first and
      starts before the first has ended, up to the tolerance, and across the cut the strips they
      occupy have an IoU of at least seam_iou. */
  lemma FragmentsJoinIff(low: Box, high: Box, axis: Axis, seamIou: real)
    ensures FragmentsJoin(low, high, axis, seamIou) <==>
        Follows(Span(low, axis), Span(high, axis))
        && Iou(Strip(low, Other(axis)), Strip(high, Other(axis))) >= seamIou
  {
    hide ProjectionIou, Iou;
    ProjectionIsStripIou(low, high, Other(axis));
  }

  /** Two parts of one object join exactly when they are in order and meet, up to the tolerance, and
      seam_iou is at most 1. */
  lemma PartsJoinIff(whole: Box, axis: Axis, first: (real, real), second: (real, real), seamIou: real)
    requires Proper(whole)
    ensures FragmentsJoin(Slice(whole, axis, first.0, first.1), Slice(whole, axis, second.0, second.1), axis, seamIou)
        <==> Follows(first, second) && seamIou <= 1.0
  {
    var low, high := Slice(whole, axis, first.0, first.1), Slice(whole, axis, second.0, second.1);
    SliceSpans(whole, axis, first.0, first.1);
    SliceSpans(whole, axis, second.0, second.1);
    hide Slice, Iou, FragmentsJoin, Follows;
    FragmentsJoinIff(low, high, axis, seamIou);
    assert Proper(Strip(low, Other(axis))) && Strip(low, Other(axis)) == Strip(high, Other(axis));
    FullOverlap(Strip(low, Other(axis)), Strip(high, Other(axis)));
  }

  /** Two parts left by cutting an object at a place, with a gap after it, join exactly when the gap is
      at most a millionth of the frame. */
  lemma GapJoinsIff(whole: Box, axis: Axis, at: real, gap: real, seamIou: real)
    requires Proper(whole) && seamIou <= 1.0 && gap >= 0.0
    requires whole.Low(axis) <= at && at + gap <= whole.High(axis)
    ensures FragmentsJoin(Below(whole, axis, at), Above(whole, axis, at + gap), axis, seamIou) <==> gap <= 0.000001
  {
    hide FragmentsJoin;
    PartsJoinIff(whole, axis, (whole.Low(axis), at), (at + gap, whole.High(axis)), seamIou);
  }

  lemma SliceSpans(whole: Box, axis: Axis, from: real, to: real)
    ensures Span(Slice(whole, axis, from, to), axis) == (from, to)
    ensures Span(Slice(whole, axis, from, to), Other(axis)) == Span(whole, Other(axis))
  {
  }

  /** Boxes further apart along the cut than the tolerance, or out of order, or, for a positive
      seam_iou, without any overlap across the cut, never join. */
  lemma NeverJoins(low: Box, high: Box, axis: Axis, seamIou: real)
    requires || high.Low(axis) > low.High(axis) + SEAM_TOL
             || low.Low(axis) > high.Low(axis) + SEAM_TOL || low.High(axis) > high.High(axis) + SEAM_TOL
             || (seamIou > 0.0 && !Meets(Strip(low, Other(axis)), Strip(high, Other(axis))))
    ensures !FragmentsJoin(low, high, axis, seamIou)
  {
    FragmentsJoinIff(low, high, axis, seamIou);
    SomeOverlap(Strip(low, Other(axis)), Strip(high, Other(axis)));
    OverlapMeasures(Strip(low, Other(axis)), Strip(high, Other(axis)));
    hide Iou, Ios, FragmentsJoin, Meets;
  }

  /** Seams cut `low` at its high edge and `high` at its low edge, and the pieces meet in order and
      line up across the cut. */
  ghost predicate CutApart(pool: Pool, seamIou: real, axis: Axis, low: nat, high: nat)
    requires pool.Valid() && low < |pool.dets| && high < |pool.dets|
  {
    var first, second := pool.dets[low].hit.box, pool.dets[high].hit.box;
    && Cut(axis, HighEdge) in pool.seams[low] && Cut(axis, LowEdge) in pool.seams[high]
    && Follows(Span(first, axis), Span(second, axis))
    && Iou(Strip(first, Other(axis)), Strip(second, Other(axis))) >= seamIou
  }

  /** Two detections of one class from different tiles, cut apart along some axis, in either order. */
  ghost predicate IsLink(pool: Pool, seamIou: real, i: nat, j: nat) {
    && pool.Valid() && i < |pool.dets| && j < |pool.dets|
    && pool.dets[i].hit.classId == pool.dets[j].hit.classId && pool.dets[i].tileId != pool.dets[j].tileId
    && exists axis :: CutApart(pool, seamIou, axis, i, j) || CutApart(pool, seamIou, axis, j, i)
  }

  lemma CompletesIff(pool: Pool, seamIou: real, axis: Axis, low: nat, high: nat)
    requires pool.Valid() && low < |pool.dets| && high < |pool.dets|
    ensures Completes(pool, seamIou, axis, low, high) <==> CutApart(pool, seamIou, axis, low, high)
  {
    FragmentsJoinIff(pool.dets[low].hit.box, pool.dets[high].hit.box, axis, seamIou);
    hide FragmentsJoin, Follows, Iou;
  }

  /** The pair relation is exactly being such a link. */
  lemma JoinedIff(pool: Pool, seamIou: real, i: nat, j: nat)
    ensures Joined(pool, seamIou, i, j) <==> IsLink(pool, seamIou, i, j)
  {
    hide Completes, CutApart;
    if pool.Valid() && i < |pool.dets| && j < |pool.dets| {
      CompletesIff(pool, seamIou, AxisX, i, j);
      CompletesIff(pool, seamIou, AxisX, j, i);
      CompletesIff(pool, seamIou, AxisY, i, j);
      CompletesIff(pool, seamIou, AxisY, j, i);
      if axis :| CutApart(pool, seamIou, axis, i, j) || CutApart(pool, seamIou, axis, j, i) {
        CutApartIsCut(pool, seamIou, axis, i, j);
        assert axis == AxisX || axis == AxisY;
      }
    }
  }

  lemma CutApartIsCut(pool: Pool, seamIou: real, axis: Axis, i: nat, j: nat)
    requires pool.Valid() && i < |pool.dets| && j < |pool.dets|
    requires CutApart(pool, seamIou, axis, i, j) || CutApart(pool, seamIou, axis, j, i)
    ensures pool.seams[i] != {} && pool.seams[j] != {}
  {
    hide Follows, Iou;
  }

  lemma {:induction false} PathInside(pool: Pool, seamIou: real, s: seq<nat>, path: seq<nat>, i: nat, j: nat, t: nat)
    requires pool.Valid() && Closed(pool, seamIou, s) && i in s && IsPath(pool, seamIou, path, i, j) && t < |path|
    ensures path[t] in s
  {
    hide Joined, Closed;
    var part := path[..t + 1];
    assert forall k {:trigger part[k]} :: 0 < k < |part| ==> part[k] == path[k] && part[k - 1] == path[k - 1];
    assert IsPath(pool, seamIou, part, i, path[t]);
    PathStays(pool, seamIou, s, part, i, path[t]);
  }

  /** Any two detections behind one fused detection are connected through others behind it, and every
      step of the way is a link: no fused detection rests on fragments that do not meet at a seam. */
  lemma FusedThroughLinks(pool: Pool, seamIou: real, k: nat, i: nat, j: nat) returns (path: seq<nat>)
    requires pool.Valid() && k < |Fused(pool, seamIou)|
    requires i in Sources(pool, seamIou, k) && j in Sources(pool, seamIou, k)
    ensures path != [] && path[0] == i && path[|path| - 1] == j
    ensures forall t :: 0 <= t < |path| ==> path[t] in Sources(pool, seamIou, k)
    ensures forall t {:trigger path[t]} :: 0 < t < |path| ==> IsLink(pool, seamIou, path[t - 1], path[t])
  {
    hide Fused, Sources, Joined, IsLink, Closed;
    SourcesAreComponent(pool, seamIou, k);
    var s := Sources(pool, seamIou, k);
    assert Connected(pool, seamIou, i, j);
    path :| IsPath(pool, seamIou, path, i, j);
    forall t: nat | t < |path| ensures path[t] in s {
      PathInside(pool, seamIou, s, path, i, j, t);
    }
    forall t | 0 < t < |path| ensures IsLink(pool, seamIou, path[t - 1], path[t]) {
      JoinedIff(pool, seamIou, path[t - 1], path[t]);
    }
  }
}
