/**
 * The pixel loops of the feature extractors (src/feature_calculate.cpp).
 * Decoding, colour conversion, the Sobel/normalise pipeline and the depth
 * network are outside the model: their results arrive as grids (`img` of
 * BGR pixels, `mag` of 8-bit gradient magnitudes, `grad` of gradients
 * normalised to [0, 1], `depth` of depth values). Each histogram loop is a
 * method that increments a buffer in place and is proved equal to a tally
 * of bin numbers in scan order; the normalisations divide the buffer in
 * place.
 */
module Features {
  import opened Sums
  import opened Pixels
  import opened DepthMask

  /* ---------------- The centre crop ---------------- */

  /** The three channel values of one pixel as floats, blue first. */
  function PixelValues(p: Pixel): seq<real>
  {
    [p.b as real, p.g as real, p.r as real]
  }

  /** The channel values of a run of pixels, pixel after pixel. */
  function ValuesOf(ps: seq<Pixel>): (r: seq<real>)
    ensures |r| == 3 * |ps|
  {
    if |ps| == 0 then [] else ValuesOf(ps[..|ps| - 1]) + PixelValues(ps[|ps| - 1])
  }

  lemma {:induction false} ValuesOfAppend(a: seq<Pixel>, b: seq<Pixel>)
    ensures ValuesOf(a + b) == ValuesOf(a) + ValuesOf(b)
    decreases |b|
  {
    if |b| == 0 {
      assert a + b == a;
    } else {
      var n := |b| - 1;
      assert (a + b)[..|a + b| - 1] == a + b[..n];
      ValuesOfAppend(a, b[..n]);
    }
  }

  /** Value `3 * k + c` of the run is channel `c` of pixel `k`. */
  lemma {:induction false} ValuesOfIndex(ps: seq<Pixel>, k: nat, c: nat)
    requires k < |ps| && c < 3
    ensures ValuesOf(ps)[3 * k + c] == Channel(ps[k], c) as real
  {
    var n := |ps| - 1;
    if k < n {
      ValuesOfIndex(ps[..n], k, c);
    }
  }

  /** The ROI `Rect(cols/2 - 3, rows/2 - 3, 3, 3)`: three rows of three pixels. */
  function CentreSquare(img: seq<seq<Pixel>>, cols: nat): (square: seq<seq<Pixel>>)
    requires IsGrid(img, cols) && 6 <= |img| && 6 <= cols
    ensures |square| == 3 && IsGrid(square, 3)
  {
    var x0, y0 := cols / 2 - 3, |img| / 2 - 3;
    seq(3, i requires 0 <= i < 3 => img[y0 + i][x0..x0 + 3])
  }

  /** What `get7x7square` appends: the crop's channel values in scan order. */
  function SquareValues(img: seq<seq<Pixel>>, cols: nat): seq<real>
    requires IsGrid(img, cols) && 6 <= |img| && 6 <= cols
  {
    ValuesOf(Flatten(CentreSquare(img, cols)))
  }

  /**
   * The appended feature holds 27 values: row-major over the 3x3 crop at
   * (cols/2 - 3, rows/2 - 3), channel-last.
   */
  lemma SquareLayout(img: seq<seq<Pixel>>, cols: nat, i: nat, j: nat, c: nat)
    requires IsGrid(img, cols) && 6 <= |img| && 6 <= cols
    requires i < 3 && j < 3 && c < 3
    ensures |SquareValues(img, cols)| == 27
    ensures SquareValues(img, cols)[9 * i + 3 * j + c] == Channel(img[|img| / 2 - 3 + i][cols / 2 - 3 + j], c) as real
  {
    var square := CentreSquare(img, cols);
    FlattenLength(square, 3);
    FlattenIndex(square, 3, i, j);
    ValuesOfIndex(Flatten(square), 3 * i + j, c);
  }

  /**
   * `get7x7square`: an empty image fails with -1 and leaves the vector
   * alone; otherwise the crop's 27 values are appended (the vector is not
   * cleared first). OpenCV refuses a region outside the image, so a
   * non-empty image must be at least 6 by 6.
   */
  method Get7x7Square(img: seq<seq<Pixel>>, cols: nat, imageData: seq<real>)
    returns (status: int, newData: seq<real>)
    requires IsGrid(img, cols)
    requires !Empty(img, cols) ==> 6 <= |img| && 6 <= cols
    ensures status == -1 <==> Empty(img, cols)
    ensures status == -1 ==> newData == imageData
    ensures status != -1 ==> status == 0 && newData == imageData + SquareValues(img, cols)
  {
    if Empty(img, cols) {
      return -1, imageData;
    }
    newData := AppendRows(imageData, CentreSquare(img, cols));
    status := 0;
  }

  /** The loop over the crop's rows. */
  method AppendRows(data: seq<real>, rows: seq<seq<Pixel>>) returns (newData: seq<real>)
    ensures newData == data + ValuesOf(Flatten(rows))
  {
    newData := data;
    var i := 0;
    assert rows[..0] == [];
    while i < |rows|
      invariant 0 <= i <= |rows|
      invariant newData == data + ValuesOf(Flatten(rows[..i]))
    {
      newData := AppendRow(newData, rows[i]);
      FlattenStep(rows, i);
      ValuesOfAppend(Flatten(rows[..i]), rows[i]);
      i := i + 1;
    }
    assert rows[..i] == rows;
  }

  /** The loop over one row of the crop. */
  method AppendRow(data: seq<real>, row: seq<Pixel>) returns (newData: seq<real>)
    ensures newData == data + ValuesOf(row)
  {
    newData := data;
    var j := 0;
    while j < |row|
      invariant 0 <= j <= |row|
      invariant newData == data + ValuesOf(row[..j])
    {
      newData := AppendPixel(newData, row[j]);
      assert row[..j + 1][..j] == row[..j];
      j := j + 1;
    }
    assert row[..j] == row;
  }

  /** The innermost loop of `get7x7square`: one `push_back` per channel. */
  method AppendPixel(data: seq<real>, pixel: Pixel) returns (newData: seq<real>)
    ensures newData == data + PixelValues(pixel)
  {
    newData := data;
    var c := 0;
    while c < 3
      invariant 0 <= c <= 3
      invariant newData == data + PixelValues(pixel)[..c]
    {
      newData := newData + [Channel(pixel, c) as real];
      c := c + 1;
    }
  }

  /* ---------------- Histogram buffers ---------------- */

  /**
   * The counting loop shared by the histogram extractors: a zeroed buffer
   * of `bins` cells gets one increment per grid cell, at the cell's bin.
   */
  method CountCells(g: seq<seq<int>>, cols: nat, bins: nat) returns (counts: array<real>)
    requires IsGrid(g, cols) && GridBelow(g, bins)
    ensures fresh(counts)
    ensures counts[..] == Tally(Flatten(g), bins)
  {
    counts := new real[bins](_ => 0.0);
    TallyOfEmpty(bins);
    assert counts[..] == Tally([], bins);
    assert g[..0] == [];
    var i := 0;
    while i < |g|
      invariant 0 <= i <= |g|
      invariant counts[..] == Tally(Flatten(g[..i]), bins)
    {
      var j := 0;
      assert Flatten(g[..i]) + g[i][..0] == Flatten(g[..i]);
      while j < cols
        invariant 0 <= j <= cols
        invariant counts[..] == Tally(Flatten(g[..i]) + g[i][..j], bins)
      {
        var binIndex := g[i][j];
        TallyAppend(Flatten(g[..i]) + g[i][..j], binIndex, bins);
        assert Flatten(g[..i]) + g[i][..j + 1] == (Flatten(g[..i]) + g[i][..j]) + [binIndex];
        counts[binIndex] := counts[binIndex] + 1.0;
        j := j + 1;
      }
      assert g[i][..cols] == g[i];
      FlattenStep(g, i);
      i := i + 1;
    }
    assert g[..i] == g;
  }

  /**
   * The masked counting loop: cells whose mask cell is 0 are skipped, the
   * others are counted in the buffer and in `valid`.
   */
  method CountSelectedCells(g: seq<seq<int>>, mask: seq<seq<byte>>, cols: nat, bins: nat)
    returns (counts: array<real>, valid: nat)
    requires IsGrid(g, cols) && IsGrid(mask, cols) && |mask| == |g| && GridBelow(g, bins)
    ensures fresh(counts)
    ensures counts[..] == Tally(MaskedFlatten(g, mask), bins)
    ensures valid == |MaskedFlatten(g, mask)|
  {
    counts := new real[bins](_ => 0.0);
    TallyOfEmpty(bins);
    assert counts[..] == Tally([], bins);
    assert g[..0] == [];
    valid := 0;
    var i := 0;
    while i < |g|
      invariant 0 <= i <= |g|
      invariant counts[..] == Tally(MaskedFlatten(g[..i], mask), bins)
      invariant valid == |MaskedFlatten(g[..i], mask)|
    {
      ghost var done := MaskedFlatten(g[..i], mask);
      valid := CountSelectedRow(g[i], mask[i], bins, counts, valid, done);
      MaskedFlattenStep(g, mask, i);
      i := i + 1;
    }
    assert g[..i] == g;
  }

  /** The inner loop of the masked counting over one row and its mask row. */
  method CountSelectedRow(row: seq<int>, maskRow: seq<byte>, bins: nat, counts: array<real>, valid: nat,
                          ghost done: seq<int>)
    returns (newValid: nat)
    requires |row| <= |maskRow| && forall j :: 0 <= j < |row| ==> 0 <= row[j] < bins
    requires counts[..] == Tally(done, bins) && valid == |done|
    modifies counts
    ensures counts[..] == Tally(done + Selected(row, maskRow), bins)
    ensures newValid == |done + Selected(row, maskRow)|
  {
    newValid := valid;
    var j := 0;
    assert done + Selected(row[..0], maskRow) == done;
    while j < |row|
      invariant 0 <= j <= |row|
      invariant counts[..] == Tally(done + Selected(row[..j], maskRow), bins)
      invariant newValid == |done + Selected(row[..j], maskRow)|
    {
      SelectedStep(row, maskRow, j);
      if maskRow[j] != 0 {
        var binIndex := row[j];
        TallyAppend(done + Selected(row[..j], maskRow), binIndex, bins);
        assert done + Selected(row[..j + 1], maskRow) == (done + Selected(row[..j], maskRow)) + [binIndex];
        counts[binIndex] := counts[binIndex] + 1.0;
        newValid := newValid + 1;
      } else {
        assert Selected(row[..j + 1], maskRow) == Selected(row[..j], maskRow);
      }
      j := j + 1;
    }
    assert row[..j] == row;
  }

  /* ---------------- Normalised histograms ---------------- */

  lemma PositiveArea(rows: nat, cols: nat)
    requires 0 < rows && 0 < cols
    ensures 0.0 < (rows * cols) as real
  {
    assert 0 < rows * cols;
  }

  /** The bin counts of a grid divided by its number of cells. */
  function Histogram(g: seq<seq<int>>, cols: nat, bins: nat): seq<real>
    requires !Empty(g, cols)
  {
    PositiveArea(|g|, cols);
    Scaled(Tally(Flatten(g), bins), (|g| * cols) as real)
  }

  /** When every cell has a bin, the normalised histogram has `bins` entries summing to 1. */
  lemma HistogramSumsToOne(g: seq<seq<int>>, cols: nat, bins: nat)
    requires IsGrid(g, cols) && !Empty(g, cols) && GridBelow(g, bins)
    ensures |Histogram(g, cols, bins)| == bins
    ensures Sum(Histogram(g, cols, bins)) == 1.0
  {
    PositiveArea(|g|, cols);
    var total := (|g| * cols) as real;
    var counts := Tally(Flatten(g), bins);
    FlattenLength(g, cols);
    FlattenBelow(g, bins);
    TallyCountsEverything(Flatten(g), bins);
    assert Sum(counts) == total;
    SumScaled(counts, total);
    assert Histogram(g, cols, bins) == Scaled(counts, total);
    DivSelf(total);
  }

  lemma DivSelf(x: real)
    requires x != 0.0
    ensures x / x == 1.0
  {
  }

  lemma {:induction false} FlattenConstant<T>(g: seq<seq<T>>, v: T)
    requires forall i, j :: 0 <= i < |g| && 0 <= j < |g[i]| ==> g[i][j] == v
    ensures forall k :: 0 <= k < |Flatten(g)| ==> Flatten(g)[k] == v
  {
    if |g| != 0 {
      FlattenConstant(g[..|g| - 1], v);
    }
  }

  /** A grid whose every cell has the same bin puts everything (1.0) in that bin. */
  lemma HistogramOfConstant(g: seq<seq<int>>, cols: nat, bins: nat, v: int)
    requires IsGrid(g, cols) && !Empty(g, cols) && 0 <= v < bins
    requires forall i, j :: 0 <= i < |g| && 0 <= j < |g[i]| ==> g[i][j] == v
    ensures |Histogram(g, cols, bins)| == bins
    ensures Histogram(g, cols, bins)[v] == 1.0
    ensures forall k :: 0 <= k < bins && k != v ==> Histogram(g, cols, bins)[k] == 0.0
  {
    PositiveArea(|g|, cols);
    var total := (|g| * cols) as real;
    var cells := Flatten(g);
    var counts := Tally(cells, bins);
    assert Histogram(g, cols, bins) == Scaled(counts, total);
    FlattenLength(g, cols);
    FlattenConstant(g, v);
    OccurrencesConstant(cells, v);
    assert counts[v] == total;
    DivSelf(total);
    forall k | 0 <= k < bins && k != v
      ensures Histogram(g, cols, bins)[k] == 0.0
    {
      OccurrencesAbsent(cells, k);
      assert counts[k] == 0.0;
    }
  }

  /** The normalised 3D colour histogram of a non-empty image. */
  function RgbHistogram(img: seq<seq<Pixel>>, cols: nat, bins: int): seq<real>
    requires !Empty(img, cols) && BinsFit(bins)
  {
    Histogram(RgbBinGrid(img, bins), cols, Cube(bins))
  }

  /** The colour histogram has `bins^3` entries (512 with 8 bins) summing to 1. */
  lemma RgbHistogramSumsToOne(img: seq<seq<Pixel>>, cols: nat, bins: int)
    requires IsGrid(img, cols) && !Empty(img, cols) && BinsFit(bins)
    ensures |RgbHistogram(img, cols, bins)| == Cube(bins)
    ensures Sum(RgbHistogram(img, cols, bins)) == 1.0
  {
    RgbBinGridBelow(img, bins);
    HistogramSumsToOne(RgbBinGrid(img, bins), cols, Cube(bins));
  }

  /** A solid-colour image has one colour bin equal to 1 and every other bin 0. */
  lemma RgbHistogramOfSolidColour(img: seq<seq<Pixel>>, cols: nat, bins: int, p: Pixel)
    requires IsGrid(img, cols) && !Empty(img, cols) && BinsFit(bins)
    requires forall i, j :: 0 <= i < |img| && 0 <= j < |img[i]| ==> img[i][j] == p
    ensures 0 <= RgbBin(p, bins) < Cube(bins) == |RgbHistogram(img, cols, bins)|
    ensures RgbHistogram(img, cols, bins)[RgbBin(p, bins)] == 1.0
    ensures forall k :: 0 <= k < Cube(bins) && k != RgbBin(p, bins) ==> RgbHistogram(img, cols, bins)[k] == 0.0
  {
    RgbBinInRange(p, bins);
    HistogramOfConstant(RgbBinGrid(img, bins), cols, Cube(bins), RgbBin(p, bins));
  }

  /**
   * `calculateRGBHistogram(filename, hist)`: 8 bins per channel. An empty
   * image fails with -1 before `hist` is touched; otherwise `hist` is
   * replaced by the 512-bin histogram divided by rows * cols.
   */
  method CalculateRgbHistogram(img: seq<seq<Pixel>>, cols: nat, hist: seq<real>)
    returns (status: int, newHist: seq<real>)
    requires IsGrid(img, cols)
    ensures status == -1 <==> Empty(img, cols)
    ensures status == -1 ==> newHist == hist
    ensures status != -1 ==> status == 0 && newHist == RgbHistogram(img, cols, 8)
  {
    var bins := 8;
    if Empty(img, cols) {
      return -1, hist;
    }
    assert BinsFit(bins);
    RgbBinGridBelow(img, bins);
    var counts := CountCells(RgbBinGrid(img, bins), cols, Cube(bins));
    PositiveArea(|img|, cols);
    NormalizeBy(counts, (|img| * cols) as real);
    return 0, counts[..];
  }

  /**
   * `calculateMultiHistogram(image, hist, bins)`: the same loop on a region
   * that is already decoded. It has no emptiness check of its own (an empty
   * region would divide by zero), so callers pass a non-empty region.
   */
  method CalculateMultiHistogram(img: seq<seq<Pixel>>, cols: nat, bins: int)
    returns (status: int, hist: seq<real>)
    requires IsGrid(img, cols) && !Empty(img, cols) && BinsFit(bins)
    ensures status == 0
    ensures hist == RgbHistogram(img, cols, bins)
  {
    RgbBinGridBelow(img, bins);
    var counts := CountCells(RgbBinGrid(img, bins), cols, Cube(bins));
    PositiveArea(|img|, cols);
    NormalizeBy(counts, (|img| * cols) as real);
    return 0, counts[..];
  }

  /* ---------------- The top/bottom multi-histogram ---------------- */

  /** Rows `[0, rows/2)`. */
  function TopHalf<T>(img: seq<seq<T>>): (top: seq<seq<T>>)
    ensures |top| == |img| / 2
  {
    img[..|img| / 2]
  }

  /** Rows `[rows/2, 2 * (rows/2))`: an odd last row belongs to neither half. */
  function BottomHalf<T>(img: seq<seq<T>>): (bottom: seq<seq<T>>)
    ensures |bottom| == |img| / 2
  {
    img[|img| / 2..2 * (|img| / 2)]
  }

  lemma HalvesAreGrids<T>(img: seq<seq<T>>, cols: nat)
    requires IsGrid(img, cols)
    ensures IsGrid(TopHalf(img), cols) && IsGrid(BottomHalf(img), cols)
  {
  }

  /** `getMultiHistogramFeature`'s vector: top histogram then bottom histogram. */
  function MultiHistogramFeature(img: seq<seq<Pixel>>, cols: nat): seq<real>
    requires 2 <= |img| && 0 < cols
  {
    assert BinsFit(8);
    RgbHistogram(TopHalf(img), cols, 8) + RgbHistogram(BottomHalf(img), cols, 8)
  }

  /** 1024 values, the first 512 and the last 512 each summing to 1. */
  lemma MultiHistogramLayout(img: seq<seq<Pixel>>, cols: nat)
    requires IsGrid(img, cols) && 2 <= |img| && 0 < cols
    ensures |MultiHistogramFeature(img, cols)| == 1024
    ensures Sum(MultiHistogramFeature(img, cols)[..512]) == 1.0
    ensures Sum(MultiHistogramFeature(img, cols)[512..]) == 1.0
  {
    assert BinsFit(8);
    HalvesAreGrids(img, cols);
    RgbHistogramSumsToOne(TopHalf(img), cols, 8);
    RgbHistogramSumsToOne(BottomHalf(img), cols, 8);
    var f := MultiHistogramFeature(img, cols);
    assert f[..512] == RgbHistogram(TopHalf(img), cols, 8);
    assert f[512..] == RgbHistogram(BottomHalf(img), cols, 8);
  }

  /** The last row of an image with an odd number of rows does not affect the feature. */
  lemma MultiHistogramIgnoresOddRow(img: seq<seq<Pixel>>, cols: nat)
    requires 3 <= |img| && |img| % 2 == 1 && 0 < cols
    ensures MultiHistogramFeature(img, cols) == MultiHistogramFeature(img[..|img| - 1], cols)
  {
    var shorter := img[..|img| - 1];
    assert |shorter| / 2 == |img| / 2;
    assert TopHalf(shorter) == TopHalf(img);
    assert BottomHalf(shorter) == BottomHalf(img);
  }

  /**
   * `getMultiHistogramFeature`: -1 on an empty image with the vector left
   * alone; otherwise the vector is replaced by the two half histograms. A
   * one-row image would give an empty top half and a division by zero, so
   * a non-empty image has at least two rows here.
   */
  method GetMultiHistogramFeature(img: seq<seq<Pixel>>, cols: nat, imageData: seq<real>)
    returns (status: int, newData: seq<real>)
    requires IsGrid(img, cols)
    requires !Empty(img, cols) ==> 2 <= |img|
    ensures status == -1 <==> Empty(img, cols)
    ensures status == -1 ==> newData == imageData
    ensures status != -1 ==> status == 0 && newData == MultiHistogramFeature(img, cols)
  {
    var bins := 8;
    if Empty(img, cols) {
      return -1, imageData;
    }
    assert BinsFit(bins);
    HalvesAreGrids(img, cols);
    var topHalf := TopHalf(img);
    var bottomHalf := BottomHalf(img);
    var _, topHist := CalculateMultiHistogram(topHalf, cols, bins);
    var _, bottomHist := CalculateMultiHistogram(bottomHalf, cols, bins);
    newData := [];
    newData := newData + topHist;
    newData := newData + bottomHist;
    status := 0;
  }

  /* ---------------- Texture and texture-colour ---------------- */

  /** The normalised histogram of an 8-bit gradient image, bin width `256 / bins`. */
  function TextureHistogram(mag: seq<seq<byte>>, cols: nat, bins: int): seq<real>
    requires !Empty(mag, cols) && BinsFit(bins)
  {
    Histogram(ByteBinGrid(mag, bins), cols, bins)
  }

  lemma TextureHistogramSumsToOne(mag: seq<seq<byte>>, cols: nat, bins: int)
    requires IsGrid(mag, cols) && !Empty(mag, cols) && BinsFit(bins)
    ensures |TextureHistogram(mag, cols, bins)| == bins
    ensures Sum(TextureHistogram(mag, cols, bins)) == 1.0
  {
    ByteBinGridBelow(mag, bins);
    HistogramSumsToOne(ByteBinGrid(mag, bins), cols, bins);
  }

  /**
   * The histogram loop of `computeTextureFeature(image, tex_hist, bins)`:
   * `mag` is the gradient magnitude after normalisation to [0, 255] and
   * conversion to 8 bits, the same size as the image.
   */
  method ComputeTextureFeature(mag: seq<seq<byte>>, cols: nat, bins: int) returns (status: int, texHist: seq<real>)
    requires IsGrid(mag, cols) && !Empty(mag, cols) && BinsFit(bins)
    ensures status == 0
    ensures texHist == TextureHistogram(mag, cols, bins)
  {
    ByteBinGridBelow(mag, bins);
    var counts := CountCells(ByteBinGrid(mag, bins), cols, bins);
    PositiveArea(|mag|, cols);
    NormalizeBy(counts, (|mag| * cols) as real);
    return 0, counts[..];
  }

  /** Colour first (512 values), texture second (16 values). */
  function TextureColorFeature(img: seq<seq<Pixel>>, mag: seq<seq<byte>>, cols: nat): seq<real>
    requires !Empty(img, cols) && !Empty(mag, cols)
  {
    assert BinsFit(8) && BinsFit(16);
    RgbHistogram(img, cols, 8) + TextureHistogram(mag, cols, 16)
  }

  /** 528 values: a colour part of 512 and a texture part of 16, each summing to 1. */
  lemma TextureColorLayout(img: seq<seq<Pixel>>, mag: seq<seq<byte>>, cols: nat)
    requires IsGrid(img, cols) && IsGrid(mag, cols) && !Empty(img, cols) && !Empty(mag, cols)
    ensures |TextureColorFeature(img, mag, cols)| == 528
    ensures Sum(TextureColorFeature(img, mag, cols)[..512]) == 1.0
    ensures Sum(TextureColorFeature(img, mag, cols)[512..]) == 1.0
  {
    assert BinsFit(8) && BinsFit(16);
    RgbHistogramSumsToOne(img, cols, 8);
    TextureHistogramSumsToOne(mag, cols, 16);
    var f := TextureColorFeature(img, mag, cols);
    assert f[..512] == RgbHistogram(img, cols, 8);
    assert f[512..] == TextureHistogram(mag, cols, 16);
  }

  /**
   * `getTextureColorFeature`: -1 on an empty image; otherwise the 8-bin
   * colour histogram (from a second read of the same file) followed by the
   * 16-bin texture histogram of the image's gradient magnitude `mag`.
   */
  method GetTextureColorFeature(img: seq<seq<Pixel>>, cols: nat, mag: seq<seq<byte>>, feature: seq<real>)
    returns (status: int, newFeature: seq<real>)
    requires IsGrid(img, cols) && IsGrid(mag, cols) && |mag| == |img|
    ensures status == -1 <==> Empty(img, cols)
    ensures status == -1 ==> newFeature == feature
    ensures status != -1 ==> status == 0 && newFeature == TextureColorFeature(img, mag, cols)
  {
    var bins := 16;
    if Empty(img, cols) {
      return -1, feature;
    }
    assert BinsFit(bins);
    var _, colorHist := CalculateRgbHistogram(img, cols, []);
    var _, texHist := ComputeTextureFeature(mag, cols, bins);
    newFeature := [];
    newFeature := newFeature + colorHist;
    newFeature := newFeature + texHist;
    status := 0;
  }

  /* ---------------- Masked histograms and the depth feature ---------------- */

  /**
   * The histogram of the selected cells, divided by their number when
   * there is at least one and left as raw (all-zero) counts otherwise.
   */
  function MaskedHistogram(g: seq<seq<int>>, mask: seq<seq<byte>>, bins: nat): seq<real>
    requires |g| <= |mask| && forall i :: 0 <= i < |g| ==> |g[i]| <= |mask[i]|
  {
    var kept := MaskedFlatten(g, mask);
    if |kept| > 0 then Scaled(Tally(kept, bins), |kept| as real) else Tally(kept, bins)
  }

  /** With at least one selected cell the masked histogram sums to 1. */
  lemma MaskedHistogramSumsToOne(g: seq<seq<int>>, mask: seq<seq<byte>>, bins: nat)
    requires |g| <= |mask| && forall i :: 0 <= i < |g| ==> |g[i]| <= |mask[i]|
    requires GridBelow(g, bins) && 0 < |MaskedFlatten(g, mask)|
    ensures |MaskedHistogram(g, mask, bins)| == bins
    ensures Sum(MaskedHistogram(g, mask, bins)) == 1.0
  {
    var kept := MaskedFlatten(g, mask);
    var total := |kept| as real;
    var counts := Tally(kept, bins);
    MaskedFlattenBelow(g, mask, bins);
    TallyCountsEverything(kept, bins);
    assert Sum(counts) == total;
    SumScaled(counts, total);
    assert MaskedHistogram(g, mask, bins) == Scaled(counts, total);
    DivSelf(total);
  }

  /** A mask with no non-zero cell leaves every bin at 0. */
  lemma MaskedHistogramOfEmptyMask(g: seq<seq<int>>, mask: seq<seq<byte>>, bins: nat)
    requires |g| <= |mask| && forall i :: 0 <= i < |g| ==> |g[i]| <= |mask[i]|
    requires forall i, j :: 0 <= i < |mask| && 0 <= j < |mask[i]| ==> mask[i][j] == 0
    ensures MaskedHistogram(g, mask, bins) == seq(bins, k => 0.0)
  {
    MaskedFlattenNothing(g, mask);
    TallyOfEmpty(bins);
  }

  /**
   * `calculateRGBHistogram(image, mask, hist, bins)`: only pixels whose
   * mask cell is non-zero are counted, and the buffer is divided by their
   * number only when there is at least one.
   */
  method CalculateMaskedRgbHistogram(img: seq<seq<Pixel>>, cols: nat, mask: seq<seq<byte>>, bins: int)
    returns (status: int, hist: seq<real>)
    requires IsGrid(img, cols) && IsGrid(mask, cols) && |mask| == |img| && BinsFit(bins)
    ensures status == 0
    ensures hist == MaskedHistogram(RgbBinGrid(img, bins), mask, Cube(bins))
  {
    RgbBinGridBelow(img, bins);
    var counts, validPixelCount := CountSelectedCells(RgbBinGrid(img, bins), mask, cols, Cube(bins));
    if validPixelCount > 0 {
      NormalizeBy(counts, validPixelCount as real);
    }
    return 0, counts[..];
  }

  /**
   * The histogram loop of `computeTextureFeature(image, mask, tex_hist,
   * bins)`: `grad` is the gradient magnitude normalised to [0, 1]; a
   * selected cell goes to bin `floor(g * (bins - 1))`.
   */
  method ComputeMaskedTextureFeature(grad: seq<seq<real>>, cols: nat, mask: seq<seq<byte>>, bins: int)
    returns (status: int, texHist: seq<real>)
    requires IsGrid(grad, cols) && IsGrid(mask, cols) && |mask| == |grad|
    requires InUnit(grad) && 0 < bins
    ensures status == 0
    ensures texHist == MaskedHistogram(LevelBinGrid(grad, bins), mask, bins)
  {
    LevelBinGridBelow(grad, bins);
    var counts, validPixelCount := CountSelectedCells(LevelBinGrid(grad, bins), mask, cols, bins);
    if validPixelCount > 0 {
      NormalizeBy(counts, validPixelCount as real);
    }
    return 0, counts[..];
  }

  /** The median-depth mask of a depth map. */
  function DepthMaskOf(depth: seq<seq<real>>, cols: nat): seq<seq<byte>>
    requires IsGrid(depth, cols) && !Empty(depth, cols)
  {
    FlattenLength(depth, cols);
    MaskOf(depth, Median(Flatten(depth)))
  }

  /** Colour (8 bins, 512 values) then texture (8 bins), both over the depth-masked pixels. */
  function DepthFeature(img: seq<seq<Pixel>>, grad: seq<seq<real>>, depth: seq<seq<real>>, cols: nat): seq<real>
    requires IsGrid(img, cols) && IsGrid(grad, cols) && IsGrid(depth, cols)
    requires |grad| == |img| && |depth| == |img| && !Empty(img, cols)
  {
    assert BinsFit(8);
    var mask := DepthMaskOf(depth, cols);
    MaskedHistogram(RgbBinGrid(img, 8), mask, 512) + MaskedHistogram(LevelBinGrid(grad, 8), mask, 8)
  }

  /**
   * 520 values. The median mask keeps at least one pixel, so the colour
   * part and the texture part each sum to 1.
   */
  lemma DepthFeatureLayout(img: seq<seq<Pixel>>, grad: seq<seq<real>>, depth: seq<seq<real>>, cols: nat)
    requires IsGrid(img, cols) && IsGrid(grad, cols) && IsGrid(depth, cols)
    requires |grad| == |img| && |depth| == |img| && !Empty(img, cols) && InUnit(grad)
    ensures |DepthFeature(img, grad, depth, cols)| == 520
    ensures Sum(DepthFeature(img, grad, depth, cols)[..512]) == 1.0
    ensures Sum(DepthFeature(img, grad, depth, cols)[512..]) == 1.0
  {
    assert BinsFit(8);
    var mask := DepthMaskOf(depth, cols);
    DepthMaskKeepsHalf(depth, cols);
    var colourBins := RgbBinGrid(img, 8);
    var levelBins := LevelBinGrid(grad, 8);
    MaskedFlattenLength(colourBins, depth, mask);
    MaskedFlattenLength(levelBins, depth, mask);
    RgbBinGridBelow(img, 8);
    LevelBinGridBelow(grad, 8);
    MaskedHistogramSumsToOne(colourBins, mask, 512);
    MaskedHistogramSumsToOne(levelBins, mask, 8);
    var f := DepthFeature(img, grad, depth, cols);
    assert f[..512] == MaskedHistogram(colourBins, mask, 512);
    assert f[512..] == MaskedHistogram(levelBins, mask, 8);
  }

  /** How many cells a mask selects depends only on the mask and the grid's shape. */
  lemma {:induction false} SelectedLength<S, T>(xs: seq<S>, ys: seq<T>, mask: seq<byte>)
    requires |xs| == |ys| <= |mask|
    ensures |Selected(xs, mask)| == |Selected(ys, mask)|
  {
    if |xs| != 0 {
      SelectedLength(xs[..|xs| - 1], ys[..|ys| - 1], mask);
    }
  }

  lemma {:induction false} MaskedFlattenLength<S, T>(g: seq<seq<S>>, h: seq<seq<T>>, mask: seq<seq<byte>>)
    requires |g| == |h| <= |mask|
    requires forall i :: 0 <= i < |g| ==> |g[i]| == |h[i]| <= |mask[i]|
    ensures |MaskedFlatten(g, mask)| == |MaskedFlatten(h, mask)|
  {
    if |g| != 0 {
      var n := |g| - 1;
      MaskedFlattenLength(g[..n], h[..n], mask);
      SelectedLength(g[n], h[n], mask[n]);
    }
  }

  /**
   * `getTextureColorFeatureWithDepth`: -1 on an empty image; otherwise the
   * depth map (same size as the image) is turned into the median mask and
   * the masked colour and texture histograms are concatenated.
   */
  method GetTextureColorFeatureWithDepth(img: seq<seq<Pixel>>, cols: nat, depth: seq<seq<real>>,
                                         grad: seq<seq<real>>, feature: seq<real>)
    returns (status: int, newFeature: seq<real>)
    requires IsGrid(img, cols) && IsGrid(grad, cols) && IsGrid(depth, cols)
    requires |grad| == |img| && |depth| == |img| && InUnit(grad)
    ensures status == -1 <==> Empty(img, cols)
    ensures status == -1 ==> newFeature == feature
    ensures status != -1 ==> status == 0 && newFeature == DepthFeature(img, grad, depth, cols)
  {
    if Empty(img, cols) {
      return -1, feature;
    }
    var median, mask := ComputeDepthMask(depth, cols);
    var bins := 8;
    assert BinsFit(bins);
    var _, colorHist := CalculateMaskedRgbHistogram(img, cols, mask, bins);
    var _, texHist := ComputeMaskedTextureFeature(grad, cols, mask, bins);
    newFeature := [];
    newFeature := newFeature + colorHist;
    newFeature := newFeature + texHist;
    status := 0;
  }
}
