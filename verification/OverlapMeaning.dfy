/** What the overlap measures and coordinate maps mean, independently of how they are computed. */
module OverlapMeaning {
  import opened Geometry
  import opened Detections
  import opened Suppression
  import opened SuppressionLaws
  import opened Merge
  import opened MergeTheorems
  import opened FusionProvenance

  predicate Contains(box: Box, x: real, y: real) {
    box.x1 <= x <= box.x2 && box.y1 <= y <= box.y2
  }

  /** A box with an interior. */
  predicate Proper(box: Box) {
    box.x1 < box.x2 && box.y1 < box.y2
  }

  lemma ProductPositive(a: real, b: real)
    requires a >= 0.0 && b >= 0.0
    ensures a * b > 0.0 <==> a > 0.0 && b > 0.0
  {
  }

  lemma AreaPositive(a: Box)
    ensures Area(a) > 0.0 <==> Proper(a)
  {
    ProductPositive(Extent(a.x1, a.x2), Extent(a.y1, a.y2));
  }

  /** Shrinking a factor of a positive product shrinks the product. */
  lemma ProductEqual(w: real, h: real, w': real, h': real)
    requires 0.0 <= w <= w' && 0.0 <= h <= h' && 0.0 < w' && 0.0 < h' && w * h == w' * h'
    ensures w == w' && h == h'
  {
    ProductMonotone(w, h, w, h');
    ProductMonotone(w, h', w', h');
    assert (w' - w) * h' == w' * h' - w * h';
    FactorZero(w' - w, h');
    assert w' * (h' - h) == w' * h' - w' * h;
    FactorZero(h' - h, w');
  }

  lemma FactorZero(x: real, y: real)
    requires y > 0.0 && x * y == 0.0
    ensures x == 0.0
  {
  }

  lemma SharedWhole(aLow: real, aHigh: real, bLow: real, bHigh: real)
    requires bLow < bHigh
    ensures Shared(aLow, aHigh, bLow, bHigh) <= Extent(bLow, bHigh)
    ensures Shared(aLow, aHigh, bLow, bHigh) == Extent(bLow, bHigh) <==> aLow <= bLow && bHigh <= aHigh
  {
  }

  lemma RatioIsOne(part: real, whole: real)
    requires whole > 0.0
    ensures Ratio(part, whole) == 1.0 <==> part == whole
  {
    var r := part / whole;
    assert r * whole == part;
    if part == whole {
      DivisionUnique(part, whole, 1.0);
    }
  }

  /** The intersection is all of b exactly when a encloses b. */
  lemma IntersectionWhole(a: Box, b: Box)
    requires Proper(b)
    ensures Intersection(a, b) == Area(b) <==> Encloses(a, b)
  {
    hide Shared;
    SharedWhole(a.x1, a.x2, b.x1, b.x2);
    SharedWhole(a.y1, a.y2, b.y1, b.y2);
    SharedNonNegative(a, b);
    var w, h, w', h' := Shared(a.x1, a.x2, b.x1, b.x2), Shared(a.y1, a.y2, b.y1, b.y2), Extent(b.x1, b.x2),
        Extent(b.y1, b.y2);
    if w * h == w' * h' {
      ProductEqual(w, h, w', h');
    }
  }

  lemma SharedNonNegative(a: Box, b: Box)
    ensures Shared(a.x1, a.x2, b.x1, b.x2) >= 0.0 && Shared(a.y1, a.y2, b.y1, b.y2) >= 0.0
  {
  }

  /** For boxes of any kind: IoS is 1 exactly when the victim has an interior and the suppressor
      encloses it, and IoU is 1 exactly for equal boxes with an interior. */
  lemma FullOverlap(a: Box, b: Box)
    ensures Ios(a, b) == 1.0 <==> Proper(b) && Encloses(a, b)
    ensures Iou(a, b) == 1.0 <==> Proper(a) && a == b
  {
    AreaPositive(a);
    AreaPositive(b);
    IntersectionBounds(a, b);
    hide Area, Intersection, Proper, Encloses;
    if Area(b) > 0.0 {
      FullCover(a, b);
      if Area(a) > 0.0 {
        FullMatch(a, b);
      } else {
        RatioIsOne(Intersection(a, b), Area(a) + Area(b) - Intersection(a, b));
      }
    } else if Area(a) > 0.0 {
      RatioIsOne(Intersection(a, b), Area(a) + Area(b) - Intersection(a, b));
    }
  }

  lemma FullCover(a: Box, b: Box)
    requires Proper(b) && Area(b) > 0.0
    ensures Ios(a, b) == 1.0 <==> Encloses(a, b)
  {
    IntersectionWhole(a, b);
    hide Area, Intersection;
    RatioIsOne(Intersection(a, b), Area(b));
  }

  lemma FullMatch(a: Box, b: Box)
    requires Proper(a) && Proper(b) && Area(a) > 0.0 && Area(b) > 0.0
    ensures Iou(a, b) == 1.0 <==> a == b
  {
    IntersectionWhole(a, b);
    IntersectionWhole(b, a);
    IntersectionSymmetric(a, b);
    IntersectionBounds(a, b);
    hide Area, Intersection;
    var i := Intersection(a, b);
    RatioIsOne(i, Area(a) + Area(b) - i);
  }

  /** Both measures are positive exactly when the interiors meet, for boxes of any kind. */
  lemma SomeOverlap(a: Box, b: Box)
    ensures Iou(a, b) > 0.0 <==> Meets(a, b)
    ensures Ios(a, b) > 0.0 <==> Meets(a, b)
  {
    IntersectionBounds(a, b);
    IntersectionPositive(a, b);
    hide Area, Intersection, Meets;
    var i := Intersection(a, b);
    RatioPositive(i, Area(b));
    RatioPositive(i, Area(a) + Area(b) - i);
  }

  lemma RatioPositive(part: real, whole: real)
    requires 0.0 <= part <= whole
    ensures Ratio(part, whole) > 0.0 <==> part > 0.0
  {
    if whole > 0.0 {
      var r := part / whole;
      assert r * whole == part;
      FactorSign(r, whole);
    }
  }

  /** Some point lies strictly inside both boxes. */
  ghost predicate Meets(a: Box, b: Box) {
    exists x, y :: StrictlyInside(a, x, y) && StrictlyInside(b, x, y)
  }

  predicate StrictlyInside(box: Box, x: real, y: real) {
    box.x1 < x < box.x2 && box.y1 < y < box.y2
  }

  lemma SharedPositive(aLow: real, aHigh: real, bLow: real, bHigh: real)
    ensures Shared(aLow, aHigh, bLow, bHigh) > 0.0 <==> Max(aLow, bLow) < Min(aHigh, bHigh)
  {
  }

  lemma IntersectionPositive(a: Box, b: Box)
    ensures Intersection(a, b) > 0.0 <==> Meets(a, b)
  {
    hide Shared;
    SharedNonNegative(a, b);
    SharedPositive(a.x1, a.x2, b.x1, b.x2);
    SharedPositive(a.y1, a.y2, b.y1, b.y2);
    ProductPositive(Shared(a.x1, a.x2, b.x1, b.x2), Shared(a.y1, a.y2, b.y1, b.y2));
    var left, right, top, bottom := Max(a.x1, b.x1), Min(a.x2, b.x2), Max(a.y1, b.y1), Min(a.y2, b.y2);
    assert Intersection(a, b) > 0.0 <==> left < right && top < bottom;
    hide Intersection;
    if left < right && top < bottom {
      assert StrictlyInside(a, (left + right) / 2.0, (top + bottom) / 2.0);
      assert StrictlyInside(b, (left + right) / 2.0, (top + bottom) / 2.0);
    }
  }

  // ----- What the measures add up to

  /** The part of an object between two cuts across an axis. */
  function Slice(whole: Box, axis: Axis, from: real, to: real): Box {
    if axis.AxisX? then whole.(x1 := from, x2 := to) else whole.(y1 := from, y2 := to)
  }

  /** The part of an object that remains when it is cut off above `at` along an axis. */
  function Below(whole: Box, axis: Axis, at: real): Box {
    Slice(whole, axis, whole.Low(axis), at)
  }

  /** The part that remains when it is cut off below `at`. */
  function Above(whole: Box, axis: Axis, at: real): Box {
    Slice(whole, axis, at, whole.High(axis))
  }

  lemma SharedSplits(aLow: real, aHigh: real, low: real, at: real, high: real)
    requires low <= at <= high
    ensures Shared(aLow, aHigh, low, high) == Shared(aLow, aHigh, low, at) + Shared(aLow, aHigh, at, high)
  {
  }

  lemma IntersectionAlong(a: Box, v: Box, axis: Axis)
    ensures Intersection(a, v) == Shared(a.Low(axis), a.High(axis), v.Low(axis), v.High(axis))
        * Shared(a.Low(Other(axis)), a.High(Other(axis)), v.Low(Other(axis)), v.High(Other(axis)))
  {
    hide Shared;
  }

  lemma IntersectionSplits(a: Box, v: Box, axis: Axis, at: real)
    requires v.Low(axis) <= at <= v.High(axis)
    ensures Intersection(a, v) == Intersection(a, Below(v, axis, at)) + Intersection(a, Above(v, axis, at))
  {
    hide Shared, Intersection;
    SharedSplits(a.Low(axis), a.High(axis), v.Low(axis), at, v.High(axis));
    IntersectionAlong(a, v, axis);
    IntersectionAlong(a, Below(v, axis, at), axis);
    IntersectionAlong(a, Above(v, axis, at), axis);
    Distributes(Shared(a.Low(axis), a.High(axis), v.Low(axis), at),
        Shared(a.Low(axis), a.High(axis), at, v.High(axis)),
        Shared(a.Low(Other(axis)), a.High(Other(axis)), v.Low(Other(axis)), v.High(Other(axis))));
  }

  lemma Distributes(p: real, q: real, w: real)
    ensures (p + q) * w == p * w + q * w && w * (p + q) == w * p + w * q
  {
  }

  lemma AreaIsLengths(v: Box, axis: Axis)
    requires Proper(v)
    ensures Area(v) == (v.High(axis) - v.Low(axis)) * (v.High(Other(axis)) - v.Low(Other(axis)))
  {
  }

  lemma PieceAreas(v: Box, axis: Axis, at: real)
    requires Proper(v) && v.Low(axis) < at < v.High(axis)
    ensures var across := v.High(Other(axis)) - v.Low(Other(axis));
            && across > 0.0
            && Area(v) == (v.High(axis) - v.Low(axis)) * across
            && Area(Below(v, axis, at)) == (at - v.Low(axis)) * across
            && Area(Above(v, axis, at)) == (v.High(axis) - at) * across
  {
    AreaIsLengths(v, axis);
    AreaIsLengths(Below(v, axis, at), axis);
    AreaIsLengths(Above(v, axis, at), axis);
    hide Area;
  }

  /** Cutting a box with an interior in two, along either axis, at any place: the covered fraction of
      the whole is the mean of the pieces' covered fractions, weighted by their lengths. */
  lemma IosAddsUp(a: Box, v: Box, axis: Axis, at: real)
    requires Proper(v) && v.Low(axis) < at < v.High(axis)
    ensures Ios(a, v) * (v.High(axis) - v.Low(axis))
        == Ios(a, Below(v, axis, at)) * (at - v.Low(axis)) + Ios(a, Above(v, axis, at)) * (v.High(axis) - at)
  {
    hide Intersection, Area, Below, Above, Ratio;
    IntersectionSplits(a, v, axis, at);
    PieceAreas(v, axis, at);
    SplitFractions(Intersection(a, Below(v, axis, at)), at - v.Low(axis), Area(Below(v, axis, at)),
        Intersection(a, Above(v, axis, at)), v.High(axis) - at, Area(Above(v, axis, at)),
        Intersection(a, v), v.High(axis) - v.Low(axis), Area(v), v.High(Other(axis)) - v.Low(Other(axis)));
  }

  lemma SplitFractions(i: real, p: real, first: real, j: real, q: real, second: real, both: real, length: real,
      whole: real, h: real)
    requires p > 0.0 && q > 0.0 && h > 0.0 && length == p + q && both == i + j
    requires first == p * h && second == q * h && whole == length * h
    ensures Ratio(both, whole) * length == Ratio(i, first) * p + Ratio(j, second) * q
  {
    hide Ratio;
    WeightedRatios(i, p, j, q, length, h);
  }

  lemma WeightedRatios(i: real, p: real, j: real, q: real, length: real, h: real)
    requires p > 0.0 && q > 0.0 && h > 0.0 && length == p + q
    ensures Ratio(i + j, length * h) * length == Ratio(i, p * h) * p + Ratio(j, q * h) * q
  {
    RatioOfProduct(i, p, h);
    RatioOfProduct(j, q, h);
    RatioOfProduct(i + j, length, h);
    assert (i + j) / h == i / h + j / h;
  }

  lemma RatioOfProduct(part: real, p: real, h: real)
    requires p > 0.0 && h > 0.0
    ensures p * h > 0.0 && Ratio(part, p * h) * p == part / h
  {
    var whole := p * h;
    assert whole > 0.0;
    var r := part / whole;
    assert r * whole == part;
    assert (r * p) * h == r * whole;
    DivisionUnique(part, h, r * p);
  }

  /** IoU in terms of the two covered fractions, for boxes of any kind: of what either covers of the
      other, the product over the sum without the product. */
  lemma IouFromIos(a: Box, b: Box)
    ensures var p, q := Ios(a, b), Ios(b, a); Iou(a, b) * (p + q - p * q) == p * q
  {
    IntersectionBounds(a, b);
    IntersectionSymmetric(a, b);
    hide Area, Intersection;
    RatiosCombine(Intersection(a, b), Area(a), Area(b));
  }

  lemma RatiosCombine(i: real, a: real, b: real)
    requires 0.0 <= i <= a && i <= b
    ensures var p, q := Ratio(i, b), Ratio(i, a); Ratio(i, a + b - i) * (p + q - p * q) == p * q
  {
    if i == 0.0 {
      RatioOfZero(a);
      RatioOfZero(b);
    } else {
      var p, q, r, union := i / b, i / a, i / (a + b - i), a + b - i;
      assert p * b == i && q * a == i && r * union == i;
      assert (p * q) * union == p * (q * a) + q * (p * b) - (p * q) * i;
      assert (p * q) * union == i * (p + q - p * q);
      assert (r * (p + q - p * q)) * union == i * (p + q - p * q);
      FactorZero(r * (p + q - p * q) - p * q, union);
    }
  }

  lemma RatioOfZero(whole: real)
    ensures Ratio(0.0, whole) == 0.0
  {
    if whole > 0.0 {
      DivisionUnique(0.0, whole, 0.0);
    }
  }

  /** The box's extent along an axis, as a box of unit extent across it. */
  function Strip(box: Box, axis: Axis): Box {
    if axis.AxisX? then Box(box.x1, 0.0, box.x2, 1.0) else Box(0.0, box.y1, 1.0, box.y2)
  }

  /** The one-dimensional IoU of two projections is the IoU of the strips they stand for. */
  lemma ProjectionIsStripIou(a: Box, b: Box, axis: Axis)
    ensures ProjectionIou(a, b, axis) == Iou(Strip(a, axis), Strip(b, axis))
  {
    hide Ratio, Area, Intersection;
    StripArea(a, axis);
    StripArea(b, axis);
    StripIntersection(a, b, axis);
  }

  lemma StripArea(a: Box, axis: Axis)
    ensures Area(Strip(a, axis)) == Extent(a.Low(axis), a.High(axis))
  {
    assert Extent(0.0, 1.0) == 1.0;
    hide Extent;
    TimesOne(Extent(a.Low(axis), a.High(axis)));
  }

  lemma StripIntersection(a: Box, b: Box, axis: Axis)
    ensures Intersection(Strip(a, axis), Strip(b, axis)) == Shared(a.Low(axis), a.High(axis), b.Low(axis), b.High(axis))
  {
    assert Shared(0.0, 1.0, 0.0, 1.0) == 1.0;
    hide Shared;
    TimesOne(Shared(a.Low(axis), a.High(axis), b.Low(axis), b.High(axis)));
  }

  lemma TimesOne(x: real)
    ensures x * 1.0 == x && 1.0 * x == x
  {
  }

  // ----- Coordinates

  /** A box given in frame pixels, normalised to a tile. */
  function InTile(pixels: Box, tile: Tile): Box
    requires tile.size > 0
  {
    var n := tile.size as real;
    Box((pixels.x1 - tile.x0 as real) / n, (pixels.y1 - tile.y0 as real) / n,
        (pixels.x2 - tile.x0 as real) / n, (pixels.y2 - tile.y0 as real) / n)
  }

  function InFrame(pixels: Box, frameSize: int): Box
    requires frameSize > 0
  {
    var n := frameSize as real;
    Box(pixels.x1 / n, pixels.y1 / n, pixels.x2 / n, pixels.y2 / n)
  }

  lemma CoordinateMoves(p: real, origin: real, size: real, frame: real)
    requires size > 0.0 && frame > 0.0
    ensures (p - origin) / size * (size / frame) + origin / frame == p / frame
  {
    var q, s, o := (p - origin) / size, size / frame, origin / frame;
    assert q * size == p - origin && s * frame == size && o * frame == origin;
    assert (q * s + o) * frame == q * (s * frame) + o * frame;
    DivisionUnique(p, frame, q * s + o);
  }

  /** The map into the frame keeps every box on the pixels it was found on. */
  lemma FrameMapKeepsPixels(pixels: Box, tile: Tile, frameSize: int)
    requires tile.size > 0 && frameSize > 0
    ensures ToFrame(InTile(pixels, tile), tile, frameSize) == InFrame(pixels, frameSize)
  {
    var x0, y0, n, f := tile.x0 as real, tile.y0 as real, tile.size as real, frameSize as real;
    CoordinateMoves(pixels.x1, x0, n, f);
    CoordinateMoves(pixels.y1, y0, n, f);
    CoordinateMoves(pixels.x2, x0, n, f);
    CoordinateMoves(pixels.y2, y0, n, f);
  }

  lemma ScaledOrder(q: real, bound: real, size: real)
    requires size > 0.0
    ensures q <= bound <==> q * size <= bound * size
  {
    assert (bound - q) * size == bound * size - q * size;
    if q <= bound { ProductSign(bound - q, size); } else { ProductSign(q - bound, size); }
  }

  lemma ProductSign(a: real, b: real)
    requires a >= 0.0 && b > 0.0
    ensures a * b >= 0.0 && (a > 0.0 ==> a * b > 0.0)
  {
  }

  lemma AtSeam(p: real, origin: real, size: real, eps: real)
    requires size > 0.0
    ensures (p - origin) / size <= eps <==> p <= origin + eps * size
    ensures (p - origin) / size >= 1.0 - eps <==> p >= origin + size - eps * size
  {
    var q := (p - origin) / size;
    assert q * size == p - origin;
    ScaledOrder(q, eps, size);
    ScaledOrder(1.0 - eps, q, size);
    assert (1.0 - eps) * size == size - eps * size;
  }

  function Origin(tile: Tile, axis: Axis): int {
    if axis.AxisX? then tile.x0 else tile.y0
  }

  /** In frame pixels: a seam cuts a box at a side of its tile exactly when that side lies inside the
      frame and the box reaches it, up to edge_eps of the tile's size. */
  lemma CutsInPixels(pixels: Box, tile: Tile, frameSize: int, edgeEps: real, axis: Axis)
    requires tile.size > 0
    ensures var cuts := Truncation(InTile(pixels, tile), tile, frameSize, edgeEps);
            var start, end, slack := Origin(tile, axis), Origin(tile, axis) + tile.size, edgeEps * tile.size as real;
            && (Cut(axis, LowEdge) in cuts <==> 0 < start && pixels.Low(axis) <= start as real + slack)
            && (Cut(axis, HighEdge) in cuts <==> end < frameSize && pixels.High(axis) >= end as real - slack)
  {
    hide Truncation, InTile;
    var box := InTile(pixels, tile);
    CutIff(box, tile, frameSize, edgeEps, Cut(axis, LowEdge));
    CutIff(box, tile, frameSize, edgeEps, Cut(axis, HighEdge));
    EdgesInTile(pixels, tile, axis);
    AtSeam(pixels.Low(axis), Origin(tile, axis) as real, tile.size as real, edgeEps);
    AtSeam(pixels.High(axis), Origin(tile, axis) as real, tile.size as real, edgeEps);
  }

  lemma EdgesInTile(pixels: Box, tile: Tile, axis: Axis)
    requires tile.size > 0
    ensures InTile(pixels, tile).Low(axis) == (pixels.Low(axis) - Origin(tile, axis) as real) / tile.size as real
    ensures InTile(pixels, tile).High(axis) == (pixels.High(axis) - Origin(tile, axis) as real) / tile.size as real
  {
  }

  lemma CutIff(box: Box, tile: Tile, frameSize: int, edgeEps: real, side: Cut)
    ensures side in Truncation(box, tile, frameSize, edgeEps) <==>
              tile.IsSeam(side, frameSize) && Touches(box, side, edgeEps)
  {
    assert SIDES[0] == Cut(AxisX, LowEdge) && SIDES[1] == Cut(AxisX, HighEdge);
    assert SIDES[2] == Cut(AxisY, LowEdge) && SIDES[3] == Cut(AxisY, HighEdge);
  }

  /** A tile that is the whole frame has no interior seam, so nothing it reports is truncated. */
  lemma WholeFrameIsNeverCut(box: Box, tile: Tile, frameSize: int, edgeEps: real)
    requires tile.x0 == 0 && tile.y0 == 0 && tile.size == frameSize
    ensures Truncation(box, tile, frameSize, edgeEps) == {}
  {
  }

  /** The clip is the part of the box inside the frame. */
  lemma ClipIsIntersection(box: Box, x: real, y: real)
    requires HasArea(ClipBox(box))
    ensures Contains(ClipBox(box), x, y) <==> Contains(box, x, y) && 0.0 <= x <= 1.0 && 0.0 <= y <= 1.0
  {
  }

  /** A proper box survives the clip exactly when its interior meets the frame's. */
  lemma VisibleIffMeetsFrame(box: Box)
    requires Proper(box)
    ensures HasArea(ClipBox(box)) <==> Meets(box, UNIT_BOX)
  {
    if HasArea(ClipBox(box)) {
      var clipped := ClipBox(box);
      var x, y := (clipped.x1 + clipped.x2) / 2.0, (clipped.y1 + clipped.y2) / 2.0;
      assert StrictlyInside(box, x, y) && StrictlyInside(UNIT_BOX, x, y);
    }
  }

  /** With the default flags a fragment lying wholly inside a complete detection of its class never
      survives, however confident it is: the fraction that counts is the fragment's own. */
  lemma EnclosedFragmentIsDropped(dets: seq<Detection>, opts: Options, i: nat, k: nat)
    requires opts.preferComplete && opts.onlyTruncatedVictims && opts.iosThresh <= 1.0
    requires i < |dets| && k < |dets| && dets[i].hit.truncated && !dets[k].hit.truncated
    requires dets[i].hit.classId == dets[k].hit.classId
    requires Proper(dets[i].hit.box) && Encloses(dets[k].hit.box, dets[i].hit.box)
    ensures i !in Survivors(dets, opts)
  {
    hide Ios, Iou, Kept, KeptSet, Proper, Encloses, Survivors;
    FullOverlap(dets[k].hit.box, dets[i].hit.box);
    CompleteIsUncontained(dets, opts, k);
    var hits, rule := Hits(dets), opts.Containment();
    KeptIff(hits, rule, k);
    KeptIff(hits, rule, i);
    assert Suppresses(rule, hits[k], hits[i]);
    assert Beaten(hits, rule, KeptSet(hits, rule, |hits|), i);
    if i in Survivors(dets, opts) {
      var f := SurvivesBoth(dets, opts, i);
    }
  }

  /** Every reported box lies inside the frame and has an interior, when the clip is on. */
  lemma ReportedInsideFrame(candidates: seq<Detection>, opts: Options)
    requires opts.clip
    ensures forall det :: det in Reported(candidates, opts) ==>
              Proper(det.hit.box) && Encloses(UNIT_BOX, det.hit.box)
  {
    hide Reported, Origins, Survivors;
    ReportedAreSurvivors(candidates, opts);
  }
}
