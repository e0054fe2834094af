/** Tile layouts, cutting a frame into tiles, and the box-averaging downscale (tiled_shard.py).
    An image is one channel: rows of bytes.  Every channel is treated alike. */
module Frames {
  import opened Wrappers
  import opened Geometry

  type Image = seq<seq<int>>

  predicate IsSquare(image: Image, size: nat) {
    |image| == size && forall y :: 0 <= y < size ==> |image[y]| == size
  }

  predicate IsBytes(image: Image) {
    forall y, x :: 0 <= y < |image| && 0 <= x < |image[y]| ==> 0 <= image[y][x] < 256
  }

  // ----- Layouts

  /** A layout name; Unknown stands for any name outside the list of layouts. */
  datatype Layout = QuadrantsCenter | QuadrantsGlobal | QuadrantsCenterGlobal | Whole | Unknown(name: string)

  function MakeTileLayout(layout: Layout, frameSize: int, tileSize: int): Result<seq<Tile>, string> {
    if layout.Unknown? then Failure("unknown layout")
    else if layout.Whole? then Success([Tile("whole", 0, 0, frameSize)])
    else if !(0 < tileSize <= frameSize) then Failure("tile_size outside the frame")
    else if 2 * tileSize < frameSize then Failure("tile_size too small to cover the frame")
    else
      var step := frameSize - tileSize;
      var quadrants := [Tile("top_left", 0, 0, tileSize), Tile("top_right", step, 0, tileSize),
                        Tile("bottom_left", 0, step, tileSize), Tile("bottom_right", step, step, tileSize)];
      var offset := (frameSize - tileSize) / 2;
      var center :=
        if layout.QuadrantsCenter? || layout.QuadrantsCenterGlobal? then [Tile("center", offset, offset, tileSize)]
        else [];
      var whole :=
        if layout.QuadrantsGlobal? || layout.QuadrantsCenterGlobal? then [Tile("global", 0, 0, frameSize)]
        else [];
      Success(quadrants + center + whole)
  }

  /** The client's table of tile counts; None stands for its KeyError. */
  function TileCount(layout: Layout): Option<nat> {
    match layout
    case Whole => Some(1)
    case QuadrantsCenter => Some(5)
    case QuadrantsGlobal => Some(5)
    case QuadrantsCenterGlobal => Some(6)
    case Unknown(_) => None
  }

  predicate Inside(tile: Tile, frameSize: int) {
    0 <= tile.x0 && 0 <= tile.y0 && tile.X1() <= frameSize && tile.Y1() <= frameSize
  }

  predicate Covers(tile: Tile, x: int, y: int) {
    tile.x0 <= x < tile.X1() && tile.y0 <= y < tile.Y1()
  }

  predicate CoveredBy(tiles: seq<Tile>, x: int, y: int) {
    exists i :: 0 <= i < |tiles| && Covers(tiles[i], x, y)
  }

  /** The tiles that cover the frame by themselves: the quadrants, or the whole frame. */
  function Ground(tiles: seq<Tile>): seq<Tile> {
    if |tiles| >= 4 then tiles[..4] else tiles
  }

  /** The layout is refused exactly for an unknown name or a tile size that leaves gaps; otherwise
      the client's table agrees with its length and every tile lies inside the frame. */
  lemma LayoutFacts(layout: Layout, frameSize: int, tileSize: int)
    requires frameSize > 0
    ensures var r := MakeTileLayout(layout, frameSize, tileSize);
            && (r.Failure? <==>
                  TileCount(layout).None? || (!layout.Whole? && !(0 < tileSize <= frameSize <= 2 * tileSize)))
            && (r.Success? ==>
                  && TileCount(layout) == Some(|r.value|)
                  && forall t :: 0 <= t < |r.value| ==> Inside(r.value[t], frameSize) && r.value[t].size > 0)
  {
  }

  /** The quadrants (or the whole-frame tile) cover every pixel of the frame. */
  lemma LayoutCovers(layout: Layout, frameSize: int, tileSize: int)
    requires frameSize > 0 && MakeTileLayout(layout, frameSize, tileSize).Success?
    ensures var ground := Ground(MakeTileLayout(layout, frameSize, tileSize).value);
            && (forall t :: 0 <= t < |ground| ==> ground[t].size == if layout.Whole? then frameSize else tileSize)
            && forall x, y :: 0 <= x < frameSize && 0 <= y < frameSize ==> CoveredBy(ground, x, y)
  {
    var ground := Ground(MakeTileLayout(layout, frameSize, tileSize).value);
    forall x, y | 0 <= x < frameSize && 0 <= y < frameSize ensures CoveredBy(ground, x, y) {
      var i := if layout.Whole? then 0 else (if x < tileSize then 0 else 1) + (if y < tileSize then 0 else 2);
      assert Covers(ground[i], x, y);
    }
  }

  predicate HasCenter(layout: Layout) {
    layout == QuadrantsCenter || layout == QuadrantsCenterGlobal
  }

  predicate HasGlobal(layout: Layout) {
    layout == QuadrantsGlobal || layout == QuadrantsCenterGlobal
  }

  /** Which tile is where: one quadrant in each corner, in reading order; then the centre tile, with
      margins that differ by at most one pixel, the smaller ones left and above; then the whole frame. */
  lemma LayoutPlaces(layout: Layout, frameSize: int, tileSize: int)
    requires frameSize > 0 && MakeTileLayout(layout, frameSize, tileSize).Success?
    ensures var tiles := MakeTileLayout(layout, frameSize, tileSize).value;
            if layout.Whole? then tiles == [Tile("whole", 0, 0, frameSize)]
            else
              && |tiles| >= 4 && (forall t :: 0 <= t < 4 ==> tiles[t].size == tileSize)
              && tiles[0].name == "top_left" && tiles[0].x0 == 0 && tiles[0].y0 == 0
              && tiles[1].name == "top_right" && tiles[1].X1() == frameSize && tiles[1].y0 == 0
              && tiles[2].name == "bottom_left" && tiles[2].x0 == 0 && tiles[2].Y1() == frameSize
              && tiles[3].name == "bottom_right" && tiles[3].X1() == frameSize && tiles[3].Y1() == frameSize
              && (HasCenter(layout) ==>
                    && |tiles| > 4 && tiles[4].name == "center" && tiles[4].size == tileSize
                    && 0 <= (frameSize - tiles[4].X1()) - tiles[4].x0 <= 1
                    && 0 <= (frameSize - tiles[4].Y1()) - tiles[4].y0 <= 1)
              && (HasGlobal(layout) ==> tiles[|tiles| - 1] == Tile("global", 0, 0, frameSize))
  {
  }

  // ----- Box averaging

  function RowSum(image: Image, y: nat, x: nat, n: nat): int
    requires y < |image| && x + n <= |image[y]|
  {
    if n == 0 then 0 else RowSum(image, y, x, n - 1) + image[y][x + n - 1]
  }

  /** Sum over the first n rows of the k-wide block whose corner is (x, y). */
  function BlockSum(image: Image, y: nat, x: nat, k: nat, n: nat): int
    requires y + n <= |image| && forall q :: y <= q < y + n ==> x + k <= |image[q]|
  {
    if n == 0 then 0 else BlockSum(image, y, x, k, n - 1) + RowSum(image, y + n - 1, x, k)
  }

  function Rounded(total: int, k: nat): int
    requires k > 0
  {
    (total + k * k / 2) / (k * k)
  }

  lemma BlockFits(index: nat, k: nat, outer: nat)
    requires index < outer
    ensures index * k + k <= outer * k
  {
    assert (outer - index - 1) * k >= 0;
    assert outer * k == (index + 1) * k + (outer - index - 1) * k;
  }

  function Averaged(image: Image, inputSize: nat, k: nat): (small: Image)
    requires k > 0 && IsSquare(image, inputSize * k)
    ensures IsSquare(small, inputSize)
  {
    seq(inputSize, y requires 0 <= y < inputSize =>
      seq(inputSize, x requires 0 <= x < inputSize => PixelAt(image, inputSize, k, y, x)))
  }

  function PixelAt(image: Image, inputSize: nat, k: nat, y: nat, x: nat): int
    requires k > 0 && IsSquare(image, inputSize * k) && y < inputSize && x < inputSize
  {
    Rounded(BlockTotal(image, inputSize, k, y, x), k)
  }

  function ResizeDown(crop: Image, inputSize: nat): Result<Image, string>
    requires inputSize > 0 && IsSquare(crop, |crop|) && crop != []
  {
    if |crop| % inputSize != 0 then Failure("not an integer factor")
    else
      var k := |crop| / inputSize;
      if k == 1 then Success(crop) else Success(Averaged(crop, inputSize, k))
  }

  lemma {:induction false} RowSumBounds(image: Image, y: nat, x: nat, n: nat, low: int, high: int)
    requires y < |image| && x + n <= |image[y]|
    requires forall q :: x <= q < x + n ==> low <= image[y][q] <= high
    ensures n * low <= RowSum(image, y, x, n) <= n * high
  {
    if n > 0 {
      RowSumBounds(image, y, x, n - 1, low, high);
      assert n * low == (n - 1) * low + low && n * high == (n - 1) * high + high;
    }
  }

  lemma {:induction false} BlockSumBounds(image: Image, y: nat, x: nat, k: nat, n: nat, low: int, high: int)
    requires y + n <= |image| && forall q :: y <= q < y + n ==> x + k <= |image[q]|
    requires forall q, p :: y <= q < y + n && x <= p < x + k ==> low <= image[q][p] <= high
    ensures n * (k * low) <= BlockSum(image, y, x, k, n) <= n * (k * high)
  {
    if n > 0 {
      BlockSumBounds(image, y, x, k, n - 1, low, high);
      RowSumBounds(image, y + n - 1, x, k, low, high);
      assert n * (k * low) == (n - 1) * (k * low) + k * low && n * (k * high) == (n - 1) * (k * high) + k * high;
    }
  }

  /** Rounding is off by at most half a block, and stays between any bounds of the block's pixels. */
  lemma RoundedBounds(total: int, k: nat, low: int, high: int)
    requires k > 0 && k * k * low <= total <= k * k * high
    ensures var out := Rounded(total, k); -(k * k / 2) <= out * (k * k) - total <= k * k / 2 && low <= out <= high
  {
    var area := k * k;
    assert area > 0;
    DivisionBounds(total, area, low, high);
  }

  lemma DivisionBounds(total: int, area: int, low: int, high: int)
    requires area > 0 && area * low <= total <= area * high
    ensures var out := (total + area / 2) / area; -(area / 2) <= out * area - total <= area / 2 && low <= out <= high
  {
    var half := area / 2;
    var out, rest := (total + half) / area, (total + half) % area;
    assert total + half == area * out + rest;
    QuotientBetween(area, out, rest - half, low, high);
  }

  lemma QuotientBetween(area: int, out: int, rest: int, low: int, high: int)
    requires area > 0 && -area < rest < area && area * low <= area * out + rest <= area * high
    requires -(area / 2) <= rest < area - area / 2
    ensures low <= out <= high
  {
    assert area * (high - out + 1) == area * high - area * out + area;
    PositiveFactor(area, high - out + 1);
    assert area * (out - low + 1) == area * out - area * low + area;
    PositiveFactor(area, out - low + 1);
  }

  lemma PositiveFactor(area: int, n: int)
    requires area > 0 && area * n > 0
    ensures n > 0
  {
  }

  /** Every output pixel is the mean of its block up to half a unit, lies between the block's
      smallest and largest pixel, and so is a byte; a factor of one changes nothing. */
  lemma AveragingIsFaithful(image: Image, inputSize: nat, k: nat, y: nat, x: nat, low: int, high: int)
    requires k > 0 && IsSquare(image, inputSize * k) && y < inputSize && x < inputSize
    requires InBlock(image, inputSize, k, y, x, low, high)
    ensures var out, total := Averaged(image, inputSize, k)[y][x], BlockTotal(image, inputSize, k, y, x);
            && -(k * k / 2) <= out * (k * k) - total <= k * k / 2
            && low <= out <= high
  {
    var total := BlockTotal(image, inputSize, k, y, x);
    BlockTotalBounds(image, inputSize, k, y, x, low, high);
    hide BlockTotal, Rounded;
    RoundedBounds(total, k, low, high);
  }

  function BlockTotal(image: Image, inputSize: nat, k: nat, y: nat, x: nat): int
    requires k > 0 && IsSquare(image, inputSize * k) && y < inputSize && x < inputSize
  {
    BlockFits(y, k, inputSize);
    BlockFits(x, k, inputSize);
    BlockSum(image, y * k, x * k, k, k)
  }

  /** Every pixel of block (y, x) lies between low and high. */
  ghost predicate InBlock(image: Image, inputSize: nat, k: nat, y: nat, x: nat, low: int, high: int)
    requires k > 0 && IsSquare(image, inputSize * k) && y < inputSize && x < inputSize
  {
    BlockFits(y, k, inputSize);
    BlockFits(x, k, inputSize);
    forall q, p :: y * k <= q < y * k + k && x * k <= p < x * k + k ==> low <= image[q][p] <= high
  }

  lemma BlockTotalBounds(image: Image, inputSize: nat, k: nat, y: nat, x: nat, low: int, high: int)
    requires k > 0 && IsSquare(image, inputSize * k) && y < inputSize && x < inputSize
    requires InBlock(image, inputSize, k, y, x, low, high)
    ensures k * k * low <= BlockTotal(image, inputSize, k, y, x) <= k * k * high
  {
    BlockFits(y, k, inputSize);
    BlockFits(x, k, inputSize);
    BlockSumBounds(image, y * k, x * k, k, k, low, high);
    Regroup(k, low);
    Regroup(k, high);
  }

  lemma Regroup(k: int, m: int)
    ensures k * (k * m) == k * k * m
  {
  }

  // ----- A block's total counts each of its pixels once

  /** The images are equal except, perhaps, at one pixel. */
  ghost predicate DifferAt(image: Image, image': Image, q: nat, p: nat) {
    && |image'| == |image| && (forall y :: 0 <= y < |image| ==> |image'[y]| == |image[y]|)
    && forall y, x :: 0 <= y < |image| && 0 <= x < |image[y]| && (y != q || x != p) ==> image'[y][x] == image[y][x]
  }

  lemma {:induction false} RowSumCounts(image: Image, image': Image, q: nat, p: nat, y: nat, x: nat, n: nat)
    requires DifferAt(image, image', q, p) && y < |image| && x + n <= |image[y]|
    ensures RowSum(image', y, x, n) - RowSum(image, y, x, n)
        == if y == q && x <= p < x + n then image'[q][p] - image[q][p] else 0
  {
    if n > 0 {
      RowSumCounts(image, image', q, p, y, x, n - 1);
    }
  }

  lemma {:induction false} BlockSumCounts(image: Image, image': Image, q: nat, p: nat, y: nat, x: nat, k: nat, n: nat)
    requires DifferAt(image, image', q, p)
    requires y + n <= |image| && forall r :: y <= r < y + n ==> x + k <= |image[r]|
    ensures BlockSum(image', y, x, k, n) - BlockSum(image, y, x, k, n)
        == if y <= q < y + n && x <= p < x + k then image'[q][p] - image[q][p] else 0
  {
    hide RowSum;
    if n > 0 {
      BlockSumCounts(image, image', q, p, y, x, k, n - 1);
      RowSumCounts(image, image', q, p, y + n - 1, x, k);
    }
  }

  /** Changing one pixel changes the total of its own block by as much and no other block's.  Together
      with the bounds above, by which a black block totals zero, this makes a total the sum. */
  lemma TotalCountsPixels(image: Image, image': Image, inputSize: nat, k: nat, y: nat, x: nat, q: nat, p: nat)
    requires k > 0 && IsSquare(image, inputSize * k) && IsSquare(image', inputSize * k)
    requires y < inputSize && x < inputSize && DifferAt(image, image', q, p)
    ensures var here := y * k <= q < y * k + k && x * k <= p < x * k + k;
            && (here ==> q < |image| && p < |image[q]|)
            && BlockTotal(image', inputSize, k, y, x) - BlockTotal(image, inputSize, k, y, x)
                == if here then image'[q][p] - image[q][p] else 0
  {
    BlockFits(y, k, inputSize);
    BlockFits(x, k, inputSize);
    BlockSumCounts(image, image', q, p, y * k, x * k, k, k);
  }

  /** So a downscaled byte image is a byte image: the cast back to uint8 loses nothing. */
  lemma AveragedIsBytes(image: Image, inputSize: nat, k: nat)
    requires k > 0 && IsSquare(image, inputSize * k) && IsBytes(image)
    ensures IsBytes(Averaged(image, inputSize, k))
  {
    forall y, x | 0 <= y < inputSize && 0 <= x < inputSize ensures 0 <= Averaged(image, inputSize, k)[y][x] < 256 {
      BlockFits(y, k, inputSize);
      BlockFits(x, k, inputSize);
      AveragingIsFaithful(image, inputSize, k, y, x, 0, 255);
    }
  }

  lemma FactorOneIsIdentity(image: Image, inputSize: nat)
    requires IsSquare(image, inputSize)
    ensures inputSize * 1 == inputSize && Averaged(image, inputSize, 1) == image
  {
    var same := Averaged(image, inputSize, 1);
    forall y | 0 <= y < inputSize ensures same[y] == image[y] {
      forall x | 0 <= x < inputSize ensures same[y][x] == image[y][x] {
        assert RowSum(image, y, x, 0) == 0;
        assert RowSum(image, y, x, 1) == image[y][x];
        assert BlockSum(image, y, x, 1, 0) == 0;
        assert BlockSum(image, y, x, 1, 1) == image[y][x];
      }
    }
  }

  // ----- Cutting a frame and pasting it back

  function Crop(frame: Image, tile: Tile): (crop: Image)
    requires IsSquare(frame, |frame|) && Inside(tile, |frame|) && tile.size >= 0
    ensures IsSquare(crop, tile.size)
  {
    seq(tile.size, r requires 0 <= r < tile.size => frame[tile.y0 + r][tile.x0..tile.X1()])
  }

  /** The model-ready form of one tile. */
  function Ready(frame: Image, tile: Tile, inputSize: nat): Result<Image, string>
    requires inputSize > 0 && IsSquare(frame, |frame|) && tile.size > 0
  {
    if !Inside(tile, |frame|) then Failure("tile falls outside the frame")
    else if tile.size != inputSize then ResizeDown(Crop(frame, tile), inputSize)
    else Success(Crop(frame, tile))
  }

  lemma CropPixel(frame: Image, tile: Tile, y: nat, x: nat)
    requires IsSquare(frame, |frame|) && Inside(tile, |frame|) && y < tile.size && x < tile.size
    ensures Crop(frame, tile)[y][x] == frame[tile.y0 + y][tile.x0 + x]
  {
  }

  /** A tile can be made ready exactly when it is inside the frame and a multiple of the input size. */
  lemma ReadyIff(frame: Image, tile: Tile, inputSize: nat)
    requires inputSize > 0 && IsSquare(frame, |frame|) && tile.size > 0
    ensures Ready(frame, tile, inputSize).Success? <==> Inside(tile, |frame|) && tile.size % inputSize == 0
  {
    if tile.size == inputSize {
      assert tile.size % inputSize == 0;
    }
  }

  /** Every pixel of frame block (y, x) of the tile lies between low and high. */
  ghost predicate InFrameBlock(frame: Image, tile: Tile, k: nat, y: nat, x: nat, low: int, high: int) {
    forall q, p | 0 <= q < |frame| && 0 <= p < |frame[q]| ::
      && tile.y0 + y * k <= q < tile.y0 + y * k + k && tile.x0 + x * k <= p < tile.x0 + x * k + k
      ==> low <= frame[q][p] <= high
  }

  /** A ready tile has the input size; each pixel is the mean, up to half a unit, of its own block of the
      cropped frame, and lies between that block's extremes in the frame; and a tile of the input size
      is the frame's own pixels. */
  lemma ReadyPixels(frame: Image, tile: Tile, inputSize: nat, y: nat, x: nat, low: int, high: int)
    requires inputSize > 0 && IsSquare(frame, |frame|) && tile.size > 0
    requires Ready(frame, tile, inputSize).Success? && y < inputSize && x < inputSize
    ensures var ready, k := Ready(frame, tile, inputSize).value, tile.size / inputSize;
            && k > 0 && k * inputSize == tile.size && Inside(tile, |frame|)
            && IsSquare(ready, inputSize) && IsSquare(Crop(frame, tile), inputSize * k)
            && -(k * k / 2) <= ready[y][x] * (k * k) - BlockTotal(Crop(frame, tile), inputSize, k, y, x) <= k * k / 2
            && (InFrameBlock(frame, tile, k, y, x, low, high) ==> low <= ready[y][x] <= high)
            && (tile.size == inputSize ==> ready[y][x] == frame[tile.y0 + y][tile.x0 + x])
  {
    ReadyIff(frame, tile, inputSize);
    var crop, k := Crop(frame, tile), tile.size / inputSize;
    FactorSplits(tile.size, inputSize, k);
    ReadyIsAveraged(frame, tile, inputSize, k);
    AnyBounds(crop, inputSize, k, y, x);
    if InFrameBlock(frame, tile, k, y, x, low, high) {
      FrameBlockIsCropBlock(frame, tile, inputSize, k, y, x, low, high);
      AveragingIsFaithful(crop, inputSize, k, y, x, low, high);
    }
    if tile.size == inputSize {
      CropPixel(frame, tile, y, x);
    }
  }

  lemma FactorSplits(size: int, inputSize: nat, k: int)
    requires size > 0 && inputSize > 0 && size % inputSize == 0 && k == size / inputSize
    ensures k > 0 && k * inputSize == size == inputSize * k && (k == 1 <==> size == inputSize)
  {
    assert size == inputSize * k;
    if k == 1 { assert size == inputSize; }
    if size == inputSize { assert inputSize * (k - 1) == 0; }
  }

  /** Whether or not the tile has the input size, its ready form is the averaged crop. */
  lemma ReadyIsAveraged(frame: Image, tile: Tile, inputSize: nat, k: nat)
    requires inputSize > 0 && IsSquare(frame, |frame|) && tile.size > 0 && Inside(tile, |frame|)
    requires k > 0 && inputSize * k == tile.size && (k == 1 <==> tile.size == inputSize)
    requires tile.size % inputSize == 0 && k == tile.size / inputSize
    ensures Ready(frame, tile, inputSize) == Success(Averaged(Crop(frame, tile), inputSize, k))
    ensures tile.size == inputSize ==> Ready(frame, tile, inputSize) == Success(Crop(frame, tile))
  {
    hide Averaged, Crop;
    if tile.size == inputSize {
      FactorOneIsIdentity(Crop(frame, tile), inputSize);
    }
  }

  /** The half-unit bound needs no bounds on the pixels. */
  lemma AnyBounds(image: Image, inputSize: nat, k: nat, y: nat, x: nat)
    requires k > 0 && IsSquare(image, inputSize * k) && y < inputSize && x < inputSize
    ensures var out, total := Averaged(image, inputSize, k)[y][x], BlockTotal(image, inputSize, k, y, x);
            -(k * k / 2) <= out * (k * k) - total <= k * k / 2
  {
    var total := BlockTotal(image, inputSize, k, y, x);
    hide BlockTotal;
    var area, half := k * k, k * k / 2;
    assert area > 0;
    var out, rest := (total + half) / area, (total + half) % area;
    assert total + half == area * out + rest;
  }

  lemma FrameBlockIsCropBlock(frame: Image, tile: Tile, inputSize: nat, k: nat, y: nat, x: nat, low: int, high: int)
    requires IsSquare(frame, |frame|) && Inside(tile, |frame|) && k > 0 && tile.size == inputSize * k
    requires y < inputSize && x < inputSize && InFrameBlock(frame, tile, k, y, x, low, high)
    ensures InBlock(Crop(frame, tile), inputSize, k, y, x, low, high)
  {
    BlockFits(y, k, inputSize);
    BlockFits(x, k, inputSize);
    hide Crop;
    assert y * k + k <= tile.size && x * k + k <= tile.size;
    forall q: nat, p: nat | y * k <= q < y * k + k && x * k <= p < x * k + k
      ensures low <= Crop(frame, tile)[q][p] <= high
    {
      CropPixel(frame, tile, q, p);
      assert low <= frame[tile.y0 + q][tile.x0 + p] <= high;
    }
  }

  method SplitFrame(frame: Image, width: nat, tiles: seq<Tile>, inputSize: nat) returns (r: Result<seq<Image>, string>)
    requires inputSize > 0 && forall y :: 0 <= y < |frame| ==> |frame[y]| == width
    requires forall t :: 0 <= t < |tiles| ==> tiles[t].size > 0
    ensures r.Success? <==> |frame| == width && forall t :: 0 <= t < |tiles| ==>
        Ready(frame, tiles[t], inputSize).Success?
    ensures r.Success? ==> |r.value| == |tiles| && forall t :: 0 <= t < |tiles| ==>
        r.value[t] == Ready(frame, tiles[t], inputSize).value
  {
    if |frame| != width {
      return Failure("expected a square frame");
    }
    var crops: seq<Image> := [];
    for t := 0 to |tiles|
      invariant |crops| == t
      invariant forall q :: 0 <= q < t ==> Ready(frame, tiles[q], inputSize) == Success(crops[q])
    {
      var tile := tiles[t];
      if tile.x0 < 0 || tile.y0 < 0 || tile.X1() > |frame| || tile.Y1() > |frame| {
        return Failure("tile falls outside the frame");
      }
      var crop := Crop(frame, tile);
      if tile.size != inputSize {
        var small := ResizeDown(crop, inputSize);
        if small.Failure? {
          return Failure(small.error);
        }
        crop := small.value;
      }
      crops := crops + [crop];
    }
    return Success(crops);
  }

  function Paste(canvas: Image, tile: Tile, crop: Image): (pasted: Image)
    requires IsSquare(canvas, |canvas|) && tile.size >= 0 && IsSquare(crop, tile.size)
    ensures IsSquare(pasted, |canvas|)
  {
    seq(|canvas|, y requires 0 <= y < |canvas| =>
      seq(|canvas|, x requires 0 <= x < |canvas| =>
        if Covers(tile, x, y) then crop[y - tile.y0][x - tile.x0] else canvas[y][x]))
  }

  /** Pastes every tile's own crop back at the tile's origin, one after another. */
  function PasteAll(canvas: Image, frame: Image, tiles: seq<Tile>): (pasted: Image)
    requires IsSquare(canvas, |canvas|) && IsSquare(frame, |frame|)
    requires forall t :: 0 <= t < |tiles| ==> tiles[t].size >= 0 && Inside(tiles[t], |frame|)
    ensures IsSquare(pasted, |canvas|)
  {
    if tiles == [] then canvas
    else
      var n := |tiles| - 1;
      Paste(PasteAll(canvas, frame, tiles[..n]), tiles[n], Crop(frame, tiles[n]))
  }

  lemma {:induction false} PastedPixel(canvas: Image, frame: Image, tiles: seq<Tile>, x: nat, y: nat)
    requires |canvas| == |frame| && IsSquare(canvas, |canvas|) && IsSquare(frame, |frame|) && x < |frame| && y < |frame|
    requires forall t :: 0 <= t < |tiles| ==> tiles[t].size >= 0 && Inside(tiles[t], |frame|)
    requires exists t :: 0 <= t < |tiles| && Covers(tiles[t], x, y)
    ensures PasteAll(canvas, frame, tiles)[y][x] == frame[y][x]
  {
    var n := |tiles| - 1;
    if Covers(tiles[n], x, y) {
      assert Crop(frame, tiles[n])[y - tiles[n].y0][x - tiles[n].x0] == frame[y][x];
    } else {
      var t :| 0 <= t < |tiles| && Covers(tiles[t], x, y);
      assert tiles[..n][t] == tiles[t];
      PastedPixel(canvas, frame, tiles[..n], x, y);
    }
  }

  /** Pasting the four quadrant crops over any canvas of the same size rebuilds the frame exactly. */
  lemma QuadrantsRebuildFrame(layout: Layout, tileSize: int, frame: Image, canvas: Image)
    requires IsSquare(frame, |frame|) && frame != [] && |canvas| == |frame| && IsSquare(canvas, |canvas|)
    requires !layout.Whole? && MakeTileLayout(layout, |frame|, tileSize).Success?
    ensures var tiles := MakeTileLayout(layout, |frame|, tileSize).value;
            && |tiles| >= 4
            && (forall t :: 0 <= t < 4 ==>
                  tiles[t].size == tileSize && Ready(frame, tiles[t], tileSize) == Success(Crop(frame, tiles[t])))
            && PasteAll(canvas, frame, tiles[..4]) == frame
  {
    hide MakeTileLayout, Crop, ResizeDown, PasteAll;
    LayoutFacts(layout, |frame|, tileSize);
    LayoutCovers(layout, |frame|, tileSize);
    assert MakeTileLayout(layout, |frame|, tileSize).value[..4]
        == Ground(MakeTileLayout(layout, |frame|, tileSize).value);
    var tiles := MakeTileLayout(layout, |frame|, tileSize).value;
    CoveringRebuilds(tiles[..4], frame, canvas);
  }

  lemma CoveringRebuilds(tiles: seq<Tile>, frame: Image, canvas: Image)
    requires IsSquare(frame, |frame|) && |canvas| == |frame| && IsSquare(canvas, |canvas|)
    requires forall t :: 0 <= t < |tiles| ==> tiles[t].size >= 0 && Inside(tiles[t], |frame|)
    requires forall x, y :: 0 <= x < |frame| && 0 <= y < |frame| ==> CoveredBy(tiles, x, y)
    ensures PasteAll(canvas, frame, tiles) == frame
  {
    var pasted := PasteAll(canvas, frame, tiles);
    hide PasteAll;
    forall y | 0 <= y < |frame| ensures pasted[y] == frame[y] {
      forall x | 0 <= x < |frame| ensures pasted[y][x] == frame[y][x] {
        assert CoveredBy(tiles, x, y);
        PastedPixel(canvas, frame, tiles, x, y);
      }
    }
  }
}
