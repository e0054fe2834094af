/** Matching the detections of one class against its annotations, over all images, at one IoU
    threshold (average_precisions). */
module Matching {
  import opened Geometry
  import opened Detections
  import opened Numeric

  /** One image's detections of one class, in the order listed, with their overlaps with its annotations. */
  datatype Image = Image(scores: seq<real>, overlap: seq<seq<real>>, annotations: nat) {
    ghost predicate Valid() {
      |overlap| == |scores| && forall k :: 0 <= k < |overlap| ==> |overlap[k]| == annotations
    }
  }

  ghost predicate ValidImages(images: seq<Image>) {
    forall i :: 0 <= i < |images| ==> images[i].Valid()
  }

  /** A detection with the annotation it overlaps most, if its image has any. */
  datatype Item = Item(image: nat, score: real, annotation: nat, overlap: real, matchable: bool)

  function ItemOf(image: Image, i: nat, k: nat): (item: Item)
    requires k < |image.scores| == |image.overlap| && |image.overlap[k]| == image.annotations
    ensures item.image == i
  {
    if image.annotations == 0 then Item(i, image.scores[k], 0, 0.0, false)
    else
      var nearest := ArgMax(image.overlap[k]);
      Item(i, image.scores[k], nearest, image.overlap[k][nearest], true)
  }

  ghost function ImageItems(image: Image, i: nat): (items: seq<Item>)
    requires image.Valid()
    ensures |items| == |image.scores|
    ensures forall k :: 0 <= k < |items| ==> items[k].image == i
  {
    seq(|image.scores|, k requires 0 <= k < |image.scores| => ItemOf(image, i, k))
  }

  ghost function Items(images: seq<Image>, n: nat): seq<Item>
    requires ValidImages(images) && n <= |images|
  {
    if n == 0 then [] else Items(images, n - 1) + ImageItems(images[n - 1], n - 1)
  }

  function Total(images: seq<Image>, n: nat): nat
    requires n <= |images|
  {
    if n == 0 then 0 else Total(images, n - 1) + images[n - 1].annotations
  }

  predicate Claims(item: Item, threshold: real) {
    item.matchable && item.overlap >= threshold
  }

  predicate SameTarget(a: Item, b: Item) {
    a.image == b.image && a.annotation == b.annotation
  }

  /** True positive: reaches its annotation, and no earlier detection in the list does. */
  ghost predicate IsTrue(items: seq<Item>, threshold: real, g: nat)
    requires g < |items|
  {
    Claims(items[g], threshold) && forall e :: 0 <= e < g ==>
        !(Claims(items[e], threshold) && SameTarget(items[e], items[g]))
  }

  ghost function RankedFlags(items: seq<Item>, threshold: real, order: seq<nat>): (flags: seq<bool>)
    requires Selects(order, |items|)
    ensures |flags| == |order|
  {
    seq(|order|, r requires 0 <= r < |order| => IsTrue(items, threshold, order[r]))
  }

  // ----- The algorithm

  /** Entry g of the lists the matching loops build. */
  ghost predicate Recorded(items: seq<Item>, threshold: real, g: nat, score: real, truePositive: nat,
      falsePositive: nat)
    requires g < |items|
  {
    && score == items[g].score
    && truePositive == (if IsTrue(items, threshold, g) then 1 else 0)
    && falsePositive == 1 - truePositive
  }

  /** The loop over one image, whose items start at position `from` of the class's list. */
  method MatchImage(image: Image, threshold: real, ghost items: seq<Item>, ghost from: nat, ghost i: nat)
    returns (scores: seq<real>, truePositives: seq<nat>, falsePositives: seq<nat>)
    requires image.Valid() && |items| == from + |image.scores| && items[from..] == ImageItems(image, i)
    requires forall e :: 0 <= e < from ==> items[e].image < i
    ensures |scores| == |truePositives| == |falsePositives| == |image.scores|
    ensures forall k :: 0 <= k < |scores| ==>
        Recorded(items, threshold, from + k, scores[k], truePositives[k], falsePositives[k])
  {
    hide ItemOf, IsTrue, Claims;
    scores, truePositives, falsePositives := [], [], [];
    var detected: set<nat> := {};
    for k := 0 to |image.scores|
      invariant |scores| == |truePositives| == |falsePositives| == k
      invariant forall q :: 0 <= q < k ==>
          Recorded(items, threshold, from + q, scores[q], truePositives[q], falsePositives[q])
      invariant detected == Detected(items, threshold, from, from + k)
    {
      assert forall e :: from <= e < |items| ==> items[e] == items[from..][e - from];
      ItemFields(image, i, k);
      DetectedDecides(items, threshold, from, from + k, i);
      ClaimsMeans(items[from + k], threshold);
      scores := scores + [image.scores[k]];
      if image.annotations == 0 {
        falsePositives := falsePositives + [1];
        truePositives := truePositives + [0];
        continue;
      }
      var nearest := ArgMax(image.overlap[k]);
      if image.overlap[k][nearest] >= threshold && nearest !in detected {
        falsePositives := falsePositives + [0];
        truePositives := truePositives + [1];
        detected := detected + {nearest};
      } else {
        falsePositives := falsePositives + [1];
        truePositives := truePositives + [0];
      }
    }
  }

  lemma ClaimsMeans(item: Item, threshold: real)
    ensures Claims(item, threshold) <==> item.matchable && item.overlap >= threshold
  {
  }

  method MatchDetections(images: seq<Image>, threshold: real)
    returns (scores: seq<real>, truePositives: seq<nat>, falsePositives: seq<nat>, annotations: nat)
    requires ValidImages(images)
    ensures var items := Items(images, |images|);
            && |scores| == |truePositives| == |falsePositives| == |items|
            && forall g :: 0 <= g < |items| ==>
                Recorded(items, threshold, g, scores[g], truePositives[g], falsePositives[g])
    ensures annotations == Total(images, |images|)
  {
    hide ItemOf, IsTrue;
    scores, truePositives, falsePositives, annotations := [], [], [], 0;
    for i := 0 to |images|
      invariant |scores| == |truePositives| == |falsePositives| == |Items(images, i)|
      invariant forall g :: 0 <= g < |scores| ==>
          Recorded(Items(images, i), threshold, g, scores[g], truePositives[g], falsePositives[g])
      invariant annotations == Total(images, i)
    {
      ghost var before, items := Items(images, i), Items(images, i + 1);
      EarlierImages(images, i);
      assert items[|before|..] == ImageItems(images[i], i);
      forall g | 0 <= g < |before|
          ensures items[g] == before[g] && IsTrue(items, threshold, g) == IsTrue(before, threshold, g) {
        PrefixTrue(before, ImageItems(images[i], i), threshold, g);
      }
      annotations := annotations + images[i].annotations;
      var s, t, f := MatchImage(images[i], threshold, items, |before|, i);
      forall g | |before| <= g < |items|
          ensures Recorded(items, threshold, g, (scores + s)[g], (truePositives + t)[g], (falsePositives + f)[g]) {
        assert Recorded(items, threshold, |before| + (g - |before|), s[g - |before|], t[g - |before|], f[g - |before|]);
      }
      scores, truePositives, falsePositives := scores + s, truePositives + t, falsePositives + f;
    }
  }

  lemma ItemFields(image: Image, i: nat, k: nat)
    requires image.Valid() && k < |image.scores|
    ensures var item := ItemOf(image, i, k);
            && item.image == i && item.score == image.scores[k] && (item.matchable <==> image.annotations != 0)
            && (image.annotations != 0 ==>
                  item.annotation == ArgMax(image.overlap[k]) && item.overlap == image.overlap[k][item.annotation])
            && (image.annotations != 0 ==> item.annotation < image.annotations)
  {
  }

  /** The annotations reached by the items from `from` up to g. */
  ghost function Detected(items: seq<Item>, threshold: real, from: nat, g: nat): set<nat>
    requires from <= g <= |items|
  {
    set e | from <= e < g && Claims(items[e], threshold) :: items[e].annotation
  }

  lemma {:induction false} EarlierImages(images: seq<Image>, n: nat)
    requires ValidImages(images) && n <= |images|
    ensures forall g :: 0 <= g < |Items(images, n)| ==> Items(images, n)[g].image < n
  {
    if n > 0 {
      EarlierImages(images, n - 1);
    }
  }

  lemma PrefixTrue(items: seq<Item>, more: seq<Item>, threshold: real, g: nat)
    requires g < |items|
    ensures IsTrue(items + more, threshold, g) == IsTrue(items, threshold, g)
  {
    assert forall e :: 0 <= e <= g ==> (items + more)[e] == items[e];
  }

  /** Inside image i, the detected set tells whether an earlier item reached the same target. */
  lemma DetectedDecides(items: seq<Item>, threshold: real, from: nat, g: nat, i: nat)
    requires from <= g < |items| && items[g].image == i
    requires forall e :: 0 <= e < from ==> items[e].image < i
    requires forall e :: from <= e < g ==> items[e].image == i
    ensures IsTrue(items, threshold, g) <==>
        Claims(items[g], threshold) && items[g].annotation !in Detected(items, threshold, from, g)
    ensures Detected(items, threshold, from, g + 1) ==
            Detected(items, threshold, from, g) + (if Claims(items[g], threshold) then {items[g].annotation} else {})
  {
  }

  // ----- The evaluator's own overlap (compute_overlap)

  /** The spacing of double-precision numbers at 1, two to the -52. */
  const EPS: real := 1.0 / 4503599627370496.0

  /** Unclipped areas, with the union kept away from zero. */
  function EvalOverlap(a: Box, b: Box): real {
    var inter := Shared(a.x1, a.x2, b.x1, b.x2) * Shared(a.y1, a.y2, b.y1, b.y2);
    inter / Max((a.x2 - a.x1) * (a.y2 - a.y1) + (b.x2 - b.x1) * (b.y2 - b.y1) - inter, EPS)
  }

  /** Whichever corner a box lists first, the evaluator measures the merge's own IoU exactly when
      the union reaches the guard or the boxes do not overlap at all: boxes that overlap list the
      low corner first, and then their unclipped areas are their areas. */
  lemma EvalOverlapIsIou(a: Box, b: Box)
    ensures EvalOverlap(a, b) == Iou(a, b) <==>
        Area(a) + Area(b) - Intersection(a, b) >= EPS || Intersection(a, b) == 0.0
  {
    hide Area, Intersection, Iou, EvalOverlap;
    IntersectionBounds(a, b);
    if Intersection(a, b) == 0.0 {
      ApartMeasureZero(a, b);
    } else {
      OverlapListsLowFirst(a, b);
      LowFirstMeasure(a, b);
    }
  }

  lemma ApartMeasureZero(a: Box, b: Box)
    requires Intersection(a, b) == 0.0
    ensures EvalOverlap(a, b) == 0.0 && Iou(a, b) == 0.0
  {
    hide Area, Shared, Max, Intersection;
    IntersectionIsShared(a, b);
    EvalOfNothing(a, b);
    RatioOfNothing(Area(a) + Area(b) - Intersection(a, b));
  }

  lemma EvalOfNothing(a: Box, b: Box)
    requires Shared(a.x1, a.x2, b.x1, b.x2) * Shared(a.y1, a.y2, b.y1, b.y2) == 0.0
    ensures EvalOverlap(a, b) == 0.0
  {
    hide Shared;
    var inter := Shared(a.x1, a.x2, b.x1, b.x2) * Shared(a.y1, a.y2, b.y1, b.y2);
    var union := (a.x2 - a.x1) * (a.y2 - a.y1) + (b.x2 - b.x1) * (b.y2 - b.y1) - inter;
    GuardedZero(union);
    assert EvalOverlap(a, b) == inter / Max(union, EPS);
  }

  lemma RatioOfNothing(whole: real)
    ensures Ratio(0.0, whole) == 0.0
  {
    if whole > 0.0 {
      DivisionUnique(0.0, whole, 0.0);
    }
  }

  lemma LowFirstMeasure(a: Box, b: Box)
    requires a.x1 <= a.x2 && a.y1 <= a.y2 && b.x1 <= b.x2 && b.y1 <= b.y2
    ensures EvalOverlap(a, b) == Iou(a, b) <==>
        Area(a) + Area(b) - Intersection(a, b) >= EPS || Intersection(a, b) == 0.0
  {
    hide Area, Intersection, Shared;
    IntersectionBounds(a, b);
    IntersectionIsShared(a, b);
    AreaUnclipped(a);
    AreaUnclipped(b);
    GuardedRatio(Intersection(a, b), Area(a) + Area(b) - Intersection(a, b));
  }

  lemma OverlapListsLowFirst(a: Box, b: Box)
    requires Intersection(a, b) > 0.0
    ensures a.x1 <= a.x2 && a.y1 <= a.y2 && b.x1 <= b.x2 && b.y1 <= b.y2
  {
    var w, h := Shared(a.x1, a.x2, b.x1, b.x2), Shared(a.y1, a.y2, b.y1, b.y2);
    assert w != 0.0 && h != 0.0;
  }

  lemma GuardedZero(union: real)
    ensures 0.0 / Max(union, EPS) == 0.0
  {
    DivisionUnique(0.0, Max(union, EPS), 0.0);
  }

  lemma AreaUnclipped(a: Box)
    requires a.x1 <= a.x2 && a.y1 <= a.y2
    ensures Area(a) == (a.x2 - a.x1) * (a.y2 - a.y1)
  {
  }

  lemma IntersectionIsShared(a: Box, b: Box)
    ensures Intersection(a, b) == Shared(a.x1, a.x2, b.x1, b.x2) * Shared(a.y1, a.y2, b.y1, b.y2)
  {
    hide Shared;
  }

  lemma GuardedRatio(inter: real, union: real)
    requires 0.0 <= inter <= union
    ensures inter / Max(union, EPS) == Ratio(inter, union) <==> union >= EPS || inter == 0.0
  {
    if inter == 0.0 {
      DivisionUnique(0.0, Max(union, EPS), 0.0);
      if union > 0.0 { DivisionUnique(0.0, union, 0.0); }
    } else if union < EPS {
      LargerWholeSmallerRatio(inter, union, EPS);
    }
  }

  lemma LargerWholeSmallerRatio(part: real, small: real, large: real)
    requires 0.0 < part && 0.0 < small < large
    ensures part / large < part / small
  {
    var q, r := part / large, part / small;
    assert q * large == part && r * small == part;
    assert q > 0.0;
    assert q * (large - small) > 0.0;
    assert (r - q) * small == q * (large - small);
  }
}
