/** Boxes, tiles and overlap measures (tiled_shard.py).  Coordinates are exact reals: a box is
    xyxy, normalised to its own tile before the merge and to the whole frame inside it. */
module Geometry {

  datatype Axis = AxisX | AxisY

  datatype Edge = LowEdge | HighEdge

  /** One edge of a box that an interior seam cuts off. */
  datatype Cut = Cut(axis: Axis, edge: Edge)

  datatype Box = Box(x1: real, y1: real, x2: real, y2: real) {
    function Low(axis: Axis): real {
      if axis.AxisX? then x1 else y1
    }

    function High(axis: Axis): real {
      if axis.AxisX? then x2 else y2
    }
  }

  datatype Tile = Tile(name: string, x0: int, y0: int, size: int) {
    function X1(): int { x0 + size }

    function Y1(): int { y0 + size }

    /** Whether the given side is an interior seam rather than a border of the frame. */
    predicate IsSeam(side: Cut, frameSize: int) {
      match side
      case Cut(AxisX, LowEdge) => x0 > 0
      case Cut(AxisX, HighEdge) => X1() < frameSize
      case Cut(AxisY, LowEdge) => y0 > 0
      case Cut(AxisY, HighEdge) => Y1() < frameSize
    }
  }

  const SEAM_TOL: real := 0.000001

  /** A whole tile or the whole frame in its own coordinates. */
  const UNIT_BOX := Box(0.0, 0.0, 1.0, 1.0)

  function Max(a: real, b: real): real { if a >= b then a else b }

  function Min(a: real, b: real): real { if a <= b then a else b }

  /** Length of the interval from low to high, zero when it is empty. */
  function Extent(low: real, high: real): real {
    Max(high - low, 0.0)
  }

  /** Length shared by two intervals. */
  function Shared(aLow: real, aHigh: real, bLow: real, bHigh: real): real {
    Extent(Max(aLow, bLow), Min(aHigh, bHigh))
  }

  function Intersection(a: Box, b: Box): real {
    Shared(a.x1, a.x2, b.x1, b.x2) * Shared(a.y1, a.y2, b.y1, b.y2)
  }

  function Area(a: Box): real {
    Extent(a.x1, a.x2) * Extent(a.y1, a.y2)
  }

  function Ratio(part: real, whole: real): real {
    if whole > 0.0 then part / whole else 0.0
  }

  /** Intersection over union. */
  function Iou(a: Box, b: Box): real {
    Ratio(Intersection(a, b), Area(a) + Area(b) - Intersection(a, b))
  }

  /** Fraction of b that lies inside a. */
  function Ios(a: Box, b: Box): real {
    Ratio(Intersection(a, b), Area(b))
  }

  function Other(axis: Axis): Axis {
    if axis.AxisX? then AxisY else AxisX
  }

  /** One-dimensional IoU of two boxes projected onto an axis. */
  function ProjectionIou(a: Box, b: Box, axis: Axis): real {
    var overlap := Shared(a.Low(axis), a.High(axis), b.Low(axis), b.High(axis));
    var union := Extent(a.Low(axis), a.High(axis)) + Extent(b.Low(axis), b.High(axis)) - overlap;
    Ratio(overlap, union)
  }

  /** Whether `low`, cut at its high edge along `axis`, and `high`, cut at its low edge, are two
      halves of one object: ordered along the axis, meeting, and lined up across it. */
  predicate FragmentsJoin(low: Box, high: Box, axis: Axis, seamIou: real) {
    && low.Low(axis) <= high.Low(axis) + SEAM_TOL
    && low.High(axis) <= high.High(axis) + SEAM_TOL
    && low.High(axis) >= high.Low(axis) - SEAM_TOL
    && ProjectionIou(low, high, Other(axis)) >= seamIou
  }

  /** Uniform scaling followed by a shift. */
  function Shifted(box: Box, s: real, dx: real, dy: real): Box {
    Box(box.x1 * s + dx, box.y1 * s + dy, box.x2 * s + dx, box.y2 * s + dy)
  }

  /** Maps a tile-normalised box into frame-normalised coordinates. */
  function ToFrame(box: Box, tile: Tile, frameSize: int): Box
    requires frameSize > 0
  {
    Shifted(box, tile.size as real / frameSize as real, tile.x0 as real / frameSize as real,
            tile.y0 as real / frameSize as real)
  }

  /** Whether the box edge sits within edgeEps of that side of its tile.  The high side is one
      sided because the decode lets high edges overshoot the tile. */
  predicate Touches(box: Box, side: Cut, edgeEps: real) {
    if side.edge.HighEdge? then box.High(side.axis) >= 1.0 - edgeEps else box.Low(side.axis) <= edgeEps
  }

  const SIDES: seq<Cut> := [Cut(AxisX, LowEdge), Cut(AxisX, HighEdge), Cut(AxisY, LowEdge), Cut(AxisY, HighEdge)]

  /** The edges at which an interior seam cuts the box off. */
  function Truncation(box: Box, tile: Tile, frameSize: int, edgeEps: real): set<Cut> {
    set side | side in SIDES && tile.IsSeam(side, frameSize) && Touches(box, side, edgeEps)
  }

  /** The seam test for every box of one tile, in the boxes' order. */
  method SeamTruncations(boxes: seq<Box>, tile: Tile, frameSize: int, edgeEps: real) returns (result: seq<set<Cut>>)
    ensures |result| == |boxes|
    ensures forall k :: 0 <= k < |boxes| ==> result[k] == Truncation(boxes[k], tile, frameSize, edgeEps)
  {
    var checks: seq<Cut> := [];
    for s := 0 to |SIDES|
      invariant forall c :: c in checks <==> c in SIDES[..s] && tile.IsSeam(c, frameSize)
    {
      if tile.IsSeam(SIDES[s], frameSize) {
        checks := checks + [SIDES[s]];
      }
    }
    result := [];
    for k := 0 to |boxes|
      invariant |result| == k
      invariant forall q :: 0 <= q < k ==> result[q] == Truncation(boxes[q], tile, frameSize, edgeEps)
    {
      var keys: set<Cut> := {};
      for c := 0 to |checks|
        invariant keys == set s | s in checks[..c] && Touches(boxes[k], s, edgeEps)
      {
        if Touches(boxes[k], checks[c], edgeEps) {
          keys := keys + {checks[c]};
        }
      }
      result := result + [keys];
    }
  }

  // ----- Properties of the overlap measures

  lemma ProductMonotone(a: real, b: real, c: real, d: real)
    requires 0.0 <= a <= c && 0.0 <= b <= d
    ensures 0.0 <= a * b <= c * d
  {
    assert a * b <= c * b <= c * d;
  }

  lemma FactorSign(x: real, w: real)
    requires w > 0.0 && x * w >= 0.0
    ensures x >= 0.0
  {
  }

  lemma DivisionUnique(part: real, whole: real, r: real)
    requires whole > 0.0 && r * whole == part
    ensures part / whole == r
  {
    var q := part / whole;
    assert q * whole == part;
    assert (q - r) * whole == 0.0;
  }

  /** The intersection never exceeds either box. */
  lemma IntersectionBounds(a: Box, b: Box)
    ensures 0.0 <= Intersection(a, b) <= Area(a)
    ensures Intersection(a, b) <= Area(b)
  {
    var w, h := Shared(a.x1, a.x2, b.x1, b.x2), Shared(a.y1, a.y2, b.y1, b.y2);
    ProductMonotone(w, h, Extent(a.x1, a.x2), Extent(a.y1, a.y2));
    ProductMonotone(w, h, Extent(b.x1, b.x2), Extent(b.y1, b.y2));
  }

  lemma RatioUnit(p: real, whole: real)
    requires 0.0 <= p <= whole
    ensures 0.0 <= Ratio(p, whole) <= 1.0
  {
    if whole > 0.0 {
      var q := p / whole;
      assert q * whole == p;
      FactorSign(q, whole);
      assert (1.0 - q) * whole == whole - p;
      FactorSign(1.0 - q, whole);
    }
  }

  /** Dividing the same part by a larger whole gives no more. */
  lemma RatioAntitone(p: real, small: real, large: real)
    requires 0.0 <= p <= small <= large
    ensures Ratio(p, large) <= Ratio(p, small)
  {
    if small > 0.0 {
      var q, r := p / large, p / small;
      assert q * large == p && r * small == p;
      FactorSign(q, large);
      ProductMonotone(q, small, q, large);
      assert (r - q) * small == p - q * small;
      FactorSign(r - q, small);
    } else if large > 0.0 {
      DivisionUnique(p, large, 0.0);
    }
  }

  lemma SharedSymmetric(aLow: real, aHigh: real, bLow: real, bHigh: real)
    ensures Shared(aLow, aHigh, bLow, bHigh) == Shared(bLow, bHigh, aLow, aHigh)
  {
  }

  lemma IntersectionSymmetric(a: Box, b: Box)
    ensures Intersection(a, b) == Intersection(b, a)
  {
    hide Shared;
    SharedSymmetric(a.x1, a.x2, b.x1, b.x2);
    SharedSymmetric(a.y1, a.y2, b.y1, b.y2);
  }

  /** IoU is symmetric; IoU and IoS lie in [0, 1]; IoU never exceeds IoS. */
  lemma OverlapMeasures(a: Box, b: Box)
    ensures Iou(a, b) == Iou(b, a)
    ensures 0.0 <= Iou(a, b) <= Ios(a, b) <= 1.0
  {
    hide Area, Intersection;
    IntersectionBounds(a, b);
    IntersectionSymmetric(a, b);
    RatioUnit(Intersection(a, b), Area(a) + Area(b) - Intersection(a, b));
    RatioUnit(Intersection(a, b), Area(b));
    RatioAntitone(Intersection(a, b), Area(b), Area(a) + Area(b) - Intersection(a, b));
  }

  lemma UnitBoxOverlap()
    ensures Iou(UNIT_BOX, UNIT_BOX) == 1.0
  {
    assert Shared(0.0, 1.0, 0.0, 1.0) == 1.0 && Extent(0.0, 1.0) == 1.0;
    hide Shared, Extent;
    assert 1.0 * 1.0 == 1.0;
    DivisionUnique(1.0, 1.0, 1.0);
  }

  // ----- The tile-to-frame map preserves overlap

  lemma ExtentScales(low: real, high: real, s: real, d: real, low': real, high': real)
    requires s > 0.0 && low' == low * s + d && high' == high * s + d
    ensures Extent(low', high') == Extent(low, high) * s
  {
    assert high' - low' == (high - low) * s;
    if high - low >= 0.0 { assert (high - low) * s >= 0.0; } else { assert (high - low) * s < 0.0; }
  }

  lemma BoundsScale(a: real, b: real, s: real, d: real, a': real, b': real)
    requires s > 0.0 && a' == a * s + d && b' == b * s + d
    ensures Max(a', b') == Max(a, b) * s + d
    ensures Min(a', b') == Min(a, b) * s + d
  {
    assert (a - b) * s == a' - b';
    if a > b { assert (a - b) * s > 0.0; } else if a < b { assert (a - b) * s < 0.0; }
  }

  lemma SharedScales(aLow: real, aHigh: real, bLow: real, bHigh: real, s: real, d: real, aLow': real, aHigh': real,
      bLow': real, bHigh': real)
    requires s > 0.0
    requires aLow' == aLow * s + d && aHigh' == aHigh * s + d && bLow' == bLow * s + d && bHigh' == bHigh * s + d
    ensures Shared(aLow', aHigh', bLow', bHigh') == Shared(aLow, aHigh, bLow, bHigh) * s
  {
    BoundsScale(aLow, bLow, s, d, aLow', bLow');
    BoundsScale(aHigh, bHigh, s, d, aHigh', bHigh');
    ExtentScales(Max(aLow, bLow), Min(aHigh, bHigh), s, d, Max(aLow', bLow'), Min(aHigh', bHigh'));
  }

  lemma SquarePositive(s: real)
    requires s > 0.0
    ensures s * s > 0.0
  {
  }

  lemma ProductScales(w: real, h: real, s: real, k: real, w': real, h': real)
    requires w' == w * s && h' == h * s && k == s * s
    ensures w' * h' == (w * h) * k
  {
    calc {
      (w * s) * (h * s);
      w * (s * (h * s));
      w * (h * (s * s));
    }
  }

  lemma SidesScale(a: Box, b: Box, s: real, dx: real, dy: real)
    requires s > 0.0
    ensures var a', b' := Shifted(a, s, dx, dy), Shifted(b, s, dx, dy);
            && Shared(a'.x1, a'.x2, b'.x1, b'.x2) == Shared(a.x1, a.x2, b.x1, b.x2) * s
            && Shared(a'.y1, a'.y2, b'.y1, b'.y2) == Shared(a.y1, a.y2, b.y1, b.y2) * s
  {
    hide Shared;
    var a', b' := Shifted(a, s, dx, dy), Shifted(b, s, dx, dy);
    SharedScales(a.x1, a.x2, b.x1, b.x2, s, dx, a'.x1, a'.x2, b'.x1, b'.x2);
    SharedScales(a.y1, a.y2, b.y1, b.y2, s, dy, a'.y1, a'.y2, b'.y1, b'.y2);
  }

  lemma IntersectionScales(a: Box, b: Box, s: real, dx: real, dy: real, k: real)
    requires s > 0.0 && k == s * s
    ensures Intersection(Shifted(a, s, dx, dy), Shifted(b, s, dx, dy)) == Intersection(a, b) * k
  {
    hide Shared, Shifted;
    var a', b' := Shifted(a, s, dx, dy), Shifted(b, s, dx, dy);
    SidesScale(a, b, s, dx, dy);
    ProductScales(Shared(a.x1, a.x2, b.x1, b.x2), Shared(a.y1, a.y2, b.y1, b.y2), s, k,
                  Shared(a'.x1, a'.x2, b'.x1, b'.x2), Shared(a'.y1, a'.y2, b'.y1, b'.y2));
  }

  lemma AreaScales(a: Box, s: real, dx: real, dy: real, k: real)
    requires s > 0.0 && k == s * s
    ensures Area(Shifted(a, s, dx, dy)) == Area(a) * k
  {
    var a' := Shifted(a, s, dx, dy);
    ExtentScales(a.x1, a.x2, s, dx, a'.x1, a'.x2);
    ExtentScales(a.y1, a.y2, s, dy, a'.y1, a'.y2);
    ProductScales(Extent(a.x1, a.x2), Extent(a.y1, a.y2), s, k, Extent(a'.x1, a'.x2), Extent(a'.y1, a'.y2));
  }

  lemma RatioScales(part: real, whole: real, k: real, part': real, whole': real)
    requires k > 0.0 && part' == part * k && whole' == whole * k
    ensures Ratio(part', whole') == Ratio(part, whole)
  {
    if whole > 0.0 {
      var r := part / whole;
      assert r * whole == part;
      assert r * (whole * k) == (r * whole) * k;
      DivisionUnique(part', whole', r);
    } else {
      assert whole * k <= 0.0;
    }
  }

  lemma UnionScales(i: real, p: real, q: real, k: real, i': real, p': real, q': real)
    requires i' == i * k && p' == p * k && q' == q * k
    ensures p' + q' - i' == (p + q - i) * k
  {
  }

  lemma ShiftPreservesOverlap(a: Box, b: Box, s: real, dx: real, dy: real, k: real)
    requires s > 0.0 && k == s * s && k > 0.0
    ensures Iou(Shifted(a, s, dx, dy), Shifted(b, s, dx, dy)) == Iou(a, b)
    ensures Ios(Shifted(a, s, dx, dy), Shifted(b, s, dx, dy)) == Ios(a, b)
  {
    hide Area, Intersection;
    var a', b' := Shifted(a, s, dx, dy), Shifted(b, s, dx, dy);
    AreaScales(a, s, dx, dy, k);
    AreaScales(b, s, dx, dy, k);
    IntersectionScales(a, b, s, dx, dy, k);
    var i, p, q, i', p', q' := Intersection(a, b), Area(a), Area(b), Intersection(a', b'), Area(a'), Area(b');
    UnionScales(i, p, q, k, i', p', q');
    RatioScales(i, q, k, i', q');
    RatioScales(i, p + q - i, k, i', p' + q' - i');
  }

  /** Mapping two boxes of one tile into the frame changes neither their IoU nor their IoS. */
  lemma FrameMapPreservesOverlap(a: Box, b: Box, tile: Tile, frameSize: int)
    requires frameSize > 0 && tile.size > 0
    ensures Iou(ToFrame(a, tile, frameSize), ToFrame(b, tile, frameSize)) == Iou(a, b)
    ensures Ios(ToFrame(a, tile, frameSize), ToFrame(b, tile, frameSize)) == Ios(a, b)
  {
    var n, d := tile.size as real, frameSize as real;
    var s := n / d;
    assert s * d == n;
    assert s > 0.0;
    SquarePositive(s);
    ShiftPreservesOverlap(a, b, s, tile.x0 as real / d, tile.y0 as real / d, s * s);
  }
}
