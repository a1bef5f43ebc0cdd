/**
 * The binning half of `getBananaFeature` (src/feature_calculate.cpp:382-452).
 * The yellow mask and its connected components are computed by OpenCV and
 * arrive here as a label grid (one component number per pixel, 0 for the
 * background) and an area table indexed by component. Each component of
 * 2000 to 10000 pixels contributes one count per pixel to a 4 x 4 x 4
 * histogram over (column quarter, row quarter, size class); the histogram
 * is normalised by its total when that is positive and the total is
 * appended as a 65th value.
 */
module Blobs {
  import opened Sums
  import opened Pixels

  const MinArea := 2000
  const MaxArea := 10000
  const SpatialBins := 4
  const SizeBins := 4
  const TotalBins := 64

  /** A component is binned only when its area lies in [MIN_AREA, MAX_AREA]. */
  predicate KeptArea(area: int)
  {
    MinArea <= area <= MaxArea
  }

  /** `min((int)((area - MIN_AREA) / size_bin_width), SIZE_BINS - 1)`, width (10000 - 2000) / 4. */
  function SizeBin(area: int): int
  {
    var q := ((area - MinArea) as real / ((MaxArea - MinArea) as real / SizeBins as real)).Floor;
    if q < SizeBins - 1 then q else SizeBins - 1
  }

  /** `min((int)(x / x_bin_width), SPATIAL_BINS - 1)` with `x_bin_width = extent / 4`. */
  function SpatialBin(pos: int, extent: int): int
    requires 0 < extent
  {
    var q := (pos as real / (extent as real / SpatialBins as real)).Floor;
    if q < SpatialBins - 1 then q else SpatialBins - 1
  }

  /** `x_bin + y_bin * 4 + size_bin * 16`. */
  function FlatIndex(x: int, y: int, sizeBin: int, rows: int, cols: int): int
    requires 0 < rows && 0 < cols
  {
    SpatialBin(x, cols) + SpatialBin(y, rows) * SpatialBins + sizeBin * SpatialBins * SpatialBins
  }

  lemma QuotientNonNegative(a: real, b: real)
    requires 0.0 <= a && 0.0 < b
    ensures 0.0 <= a / b
  {
    assert a / b * b == a;
  }

  /** A kept component's size class is one of 0, 1, 2, 3; the size class is floor((area - 2000) / 2000) capped at 3. */
  lemma SizeBinInRange(area: int)
    requires KeptArea(area)
    ensures 0 <= SizeBin(area) < SizeBins
    ensures SizeBin(area) == if (area - MinArea) / 2000 < 3 then (area - MinArea) / 2000 else 3
  {
    var d := (area - MinArea) as real;
    assert (MaxArea - MinArea) as real / SizeBins as real == 2000.0;
    QuotientNonNegative(d, 2000.0);
    var k := (area - MinArea) / 2000;
    assert k as real <= d / 2000.0 < k as real + 1.0;
  }

  lemma SpatialBinInRange(pos: int, extent: int)
    requires 0 <= pos && 0 < extent
    ensures 0 <= SpatialBin(pos, extent) < SpatialBins
  {
    QuotientNonNegative(extent as real, SpatialBins as real);
    QuotientNonNegative(pos as real, extent as real / SpatialBins as real);
  }

  /** Every pixel of a kept component lands in one of the 64 cells. */
  lemma FlatIndexInRange(x: int, y: int, area: int, rows: int, cols: int)
    requires 0 <= x && 0 <= y && 0 < rows && 0 < cols && KeptArea(area)
    ensures 0 <= FlatIndex(x, y, SizeBin(area), rows, cols) < TotalBins
  {
    SpatialBinInRange(x, cols);
    SpatialBinInRange(y, rows);
    SizeBinInRange(area);
  }

  /** The cells of the pixels of one label row that belong to component `comp`, left to right. */
  function RowCells(row: seq<int>, y: nat, comp: int, sizeBin: int, rows: int, cols: int): (r: seq<int>)
    requires 0 < rows && 0 < cols
    ensures |r| == Occurrences(row, comp)
  {
    if |row| == 0 then []
    else
      RowCells(row[..|row| - 1], y, comp, sizeBin, rows, cols)
      + (if row[|row| - 1] == comp then [FlatIndex(|row| - 1, y, sizeBin, rows, cols)] else [])
  }

  /** The cells of all pixels of component `comp`, top to bottom. */
  function ComponentCells(labels: seq<seq<int>>, comp: int, sizeBin: int, rows: int, cols: int): (r: seq<int>)
    requires 0 < rows && 0 < cols
    ensures |r| == Occurrences(Flatten(labels), comp)
  {
    if |labels| == 0 then []
    else
      var n := |labels| - 1;
      OccurrencesAppend(Flatten(labels[..n]), labels[n], comp);
      ComponentCells(labels[..n], comp, sizeBin, rows, cols) + RowCells(labels[n], n, comp, sizeBin, rows, cols)
  }

  /** The cells of every kept component numbered from 1 to `k - 1`, component by component. */
  function BlobCells(labels: seq<seq<int>>, areas: seq<int>, k: int, rows: int, cols: int): seq<int>
    requires 0 < rows && 0 < cols && (k <= 1 || k <= |areas|)
    decreases k
  {
    if k <= 1 then []
    else
      BlobCells(labels, areas, k - 1, rows, cols)
      + (if KeptArea(areas[k - 1]) then ComponentCells(labels, k - 1, SizeBin(areas[k - 1]), rows, cols) else [])
  }

  /** Label `l` names a kept component among the first `k`. */
  predicate KeptLabel(l: int, areas: seq<int>, k: int)
    requires k <= |areas|
  {
    1 <= l < k && KeptArea(areas[l])
  }

  /** How many of the labels belong to a kept component among the first `k`. */
  function KeptPixels(xs: seq<int>, areas: seq<int>, k: int): nat
    requires k <= |areas|
  {
    if |xs| == 0 then 0
    else KeptPixels(xs[..|xs| - 1], areas, k) + (if KeptLabel(xs[|xs| - 1], areas, k) then 1 else 0)
  }

  /** Admitting component `k` adds its pixels to the kept count when its area is kept. */
  lemma {:induction false} KeptPixelsStep(xs: seq<int>, areas: seq<int>, k: int)
    requires 1 <= k < |areas|
    ensures KeptPixels(xs, areas, k + 1)
         == KeptPixels(xs, areas, k) + (if KeptArea(areas[k]) then Occurrences(xs, k) else 0)
  {
    if |xs| != 0 {
      KeptPixelsStep(xs[..|xs| - 1], areas, k);
    }
  }

  lemma {:induction false} KeptPixelsNone(xs: seq<int>, areas: seq<int>, k: int)
    requires k <= 1 && k <= |areas|
    ensures KeptPixels(xs, areas, k) == 0
  {
    if |xs| != 0 {
      KeptPixelsNone(xs[..|xs| - 1], areas, k);
    }
  }

  /** One cell per pixel of a kept component. */
  lemma {:induction false} BlobCellsCount(labels: seq<seq<int>>, areas: seq<int>, k: int, rows: int, cols: int)
    requires 0 < rows && 0 < cols && k <= |areas|
    ensures |BlobCells(labels, areas, k, rows, cols)| == KeptPixels(Flatten(labels), areas, k)
    decreases k
  {
    if k <= 1 {
      KeptPixelsNone(Flatten(labels), areas, k);
    } else {
      BlobCellsCount(labels, areas, k - 1, rows, cols);
      KeptPixelsStep(Flatten(labels), areas, k - 1);
      var added := if KeptArea(areas[k - 1]) then ComponentCells(labels, k - 1, SizeBin(areas[k - 1]), rows, cols) else [];
      assert BlobCells(labels, areas, k, rows, cols) == BlobCells(labels, areas, k - 1, rows, cols) + added;
      assert |added| == if KeptArea(areas[k - 1]) then Occurrences(Flatten(labels), k - 1) else 0;
    }
  }

  lemma {:induction false} RowCellsBelow(row: seq<int>, y: nat, comp: int, area: int, rows: int, cols: int)
    requires 0 < rows && 0 < cols && KeptArea(area)
    ensures AllBelow(RowCells(row, y, comp, SizeBin(area), rows, cols), TotalBins)
  {
    if |row| != 0 {
      RowCellsBelow(row[..|row| - 1], y, comp, area, rows, cols);
      FlatIndexInRange(|row| - 1, y, area, rows, cols);
    }
  }

  lemma {:induction false} ComponentCellsBelow(labels: seq<seq<int>>, comp: int, area: int, rows: int, cols: int)
    requires 0 < rows && 0 < cols && KeptArea(area)
    ensures AllBelow(ComponentCells(labels, comp, SizeBin(area), rows, cols), TotalBins)
  {
    if |labels| != 0 {
      var n := |labels| - 1;
      ComponentCellsBelow(labels[..n], comp, area, rows, cols);
      RowCellsBelow(labels[n], n, comp, area, rows, cols);
    }
  }

  lemma {:induction false} BlobCellsBelow(labels: seq<seq<int>>, areas: seq<int>, k: int, rows: int, cols: int)
    requires 0 < rows && 0 < cols && k <= |areas|
    ensures AllBelow(BlobCells(labels, areas, k, rows, cols), TotalBins)
    decreases k
  {
    if 1 < k {
      BlobCellsBelow(labels, areas, k - 1, rows, cols);
      if KeptArea(areas[k - 1]) {
        ComponentCellsBelow(labels, k - 1, areas[k - 1], rows, cols);
      }
    }
  }

  /** The counts, normalised when their total is positive, followed by the total. */
  function BananaFeature(labels: seq<seq<int>>, cols: nat, areas: seq<int>, nComponents: int): seq<real>
    requires !Empty(labels, cols) && nComponents <= |areas|
  {
    var counts := Tally(BlobCells(labels, areas, nComponents, |labels|, cols), TotalBins);
    var total := Sum(counts);
    (if total > 0.0 then Scaled(counts, total) else counts) + [total]
  }

  /**
   * 65 values; the last is the number of pixels that belong to kept
   * components, and when it is positive the first 64 sum to 1.
   */
  lemma BananaFeatureLayout(labels: seq<seq<int>>, cols: nat, areas: seq<int>, nComponents: int)
    requires !Empty(labels, cols) && nComponents <= |areas|
    ensures |BananaFeature(labels, cols, areas, nComponents)| == TotalBins + 1
    ensures BananaFeature(labels, cols, areas, nComponents)[TotalBins]
         == KeptPixels(Flatten(labels), areas, nComponents) as real
    ensures 0 < KeptPixels(Flatten(labels), areas, nComponents) ==>
      Sum(BananaFeature(labels, cols, areas, nComponents)[..TotalBins]) == 1.0
  {
    var cells := BlobCells(labels, areas, nComponents, |labels|, cols);
    var counts := Tally(cells, TotalBins);
    BlobCellsBelow(labels, areas, nComponents, |labels|, cols);
    TallyCountsEverything(cells, TotalBins);
    BlobCellsCount(labels, areas, nComponents, |labels|, cols);
    var total := Sum(counts);
    assert total == KeptPixels(Flatten(labels), areas, nComponents) as real;
    NormalizedCounts(counts, total);
  }

  /** Counts normalised by a positive sum sum to 1; the sum itself is appended last. */
  lemma NormalizedCounts(counts: seq<real>, total: real)
    requires |counts| == TotalBins && total == Sum(counts)
    ensures |(if total > 0.0 then Scaled(counts, total) else counts) + [total]| == TotalBins + 1
    ensures ((if total > 0.0 then Scaled(counts, total) else counts) + [total])[TotalBins] == total
    ensures 0.0 < total ==> Sum(((if total > 0.0 then Scaled(counts, total) else counts) + [total])[..TotalBins]) == 1.0
  {
    var f := (if total > 0.0 then Scaled(counts, total) else counts) + [total];
    if 0.0 < total {
      assert f[..TotalBins] == Scaled(counts, total);
      SumScaled(counts, total);
      assert total / total == 1.0;
    }
  }

  /** With no kept component in range every one of the 65 values is 0. */
  lemma BananaFeatureOfNothingKept(labels: seq<seq<int>>, cols: nat, areas: seq<int>, nComponents: int)
    requires !Empty(labels, cols) && nComponents <= |areas|
    requires forall l :: 1 <= l < nComponents ==> !KeptArea(areas[l])
    ensures BananaFeature(labels, cols, areas, nComponents) == seq(TotalBins + 1, k => 0.0)
  {
    NothingKeptNoCells(labels, areas, nComponents, |labels|, cols);
    TallyOfEmpty(TotalBins);
    SumOfZeros(TotalBins);
  }

  lemma {:induction false} NothingKeptNoCells(labels: seq<seq<int>>, areas: seq<int>, k: int, rows: int, cols: int)
    requires 0 < rows && 0 < cols && k <= |areas|
    requires forall l :: 1 <= l < k ==> !KeptArea(areas[l])
    ensures BlobCells(labels, areas, k, rows, cols) == []
    decreases k
  {
    if 1 < k {
      NothingKeptNoCells(labels, areas, k - 1, rows, cols);
    }
  }

  lemma {:induction false} SumOfZeros(n: nat)
    ensures Sum(seq(n, k => 0.0)) == 0.0
  {
    if n != 0 {
      assert seq(n, k => 0.0)[..n - 1] == seq(n - 1, k => 0.0);
      SumOfZeros(n - 1);
    }
  }

  /** The loop over one label row: one increment per pixel of component `comp`. */
  method CountRow(row: seq<int>, y: nat, comp: int, sizeBin: int, rows: int, cols: int,
                  counts: array<real>, ghost before: seq<int>)
    requires 0 < rows && 0 < cols && counts.Length == TotalBins
    requires counts[..] == Tally(before, TotalBins)
    requires exists area :: KeptArea(area) && sizeBin == SizeBin(area)
    modifies counts
    ensures counts[..] == Tally(before + RowCells(row, y, comp, sizeBin, rows, cols), TotalBins)
  {
    var area :| KeptArea(area) && sizeBin == SizeBin(area);
    var x := 0;
    assert before + RowCells(row[..0], y, comp, sizeBin, rows, cols) == before;
    while x < |row|
      invariant 0 <= x <= |row|
      invariant counts[..] == Tally(before + RowCells(row[..x], y, comp, sizeBin, rows, cols), TotalBins)
    {
      ghost var done := RowCells(row[..x], y, comp, sizeBin, rows, cols);
      assert row[..x + 1][..x] == row[..x];
      assert RowCells(row[..x + 1], y, comp, sizeBin, rows, cols)
          == done + (if row[x] == comp then [FlatIndex(x, y, sizeBin, rows, cols)] else []);
      if row[x] == comp {
        var xBin := SpatialBin(x, cols);
        var yBin := SpatialBin(y, rows);
        var flatIdx := xBin + yBin * SpatialBins + sizeBin * SpatialBins * SpatialBins;
        assert flatIdx == FlatIndex(x, y, sizeBin, rows, cols);
        FlatIndexInRange(x, y, area, rows, cols);
        TallyAppend(before + done, flatIdx, TotalBins);
        assert before + (done + [flatIdx]) == (before + done) + [flatIdx];
        counts[flatIdx] := counts[flatIdx] + 1.0;
      } else {
        assert done + [] == done;
      }
      x := x + 1;
    }
    assert row[..x] == row;
  }

  /** One more row of the grid adds that row's cells of component `comp` at the end. */
  lemma ComponentCellsStep(labels: seq<seq<int>>, y: nat, comp: int, sizeBin: int, rows: int, cols: int)
    requires y < |labels| && 0 < rows && 0 < cols
    ensures ComponentCells(labels[..y + 1], comp, sizeBin, rows, cols)
         == ComponentCells(labels[..y], comp, sizeBin, rows, cols) + RowCells(labels[y], y, comp, sizeBin, rows, cols)
  {
    assert labels[..y + 1][..y] == labels[..y];
  }

  /** The scan of the whole label grid for component `comp`. */
  method CountComponent(labels: seq<seq<int>>, comp: int, sizeBin: int, cols: int,
                        counts: array<real>, ghost before: seq<int>)
    requires 0 < |labels| && 0 < cols && counts.Length == TotalBins
    requires counts[..] == Tally(before, TotalBins)
    requires exists area :: KeptArea(area) && sizeBin == SizeBin(area)
    modifies counts
    ensures counts[..] == Tally(before + ComponentCells(labels, comp, sizeBin, |labels|, cols), TotalBins)
  {
    var y := 0;
    assert labels[..0] == [];
    assert before + ComponentCells(labels[..0], comp, sizeBin, |labels|, cols) == before;
    while y < |labels|
      invariant 0 <= y <= |labels|
      invariant counts[..] == Tally(before + ComponentCells(labels[..y], comp, sizeBin, |labels|, cols), TotalBins)
    {
      ghost var done := before + ComponentCells(labels[..y], comp, sizeBin, |labels|, cols);
      CountRow(labels[y], y, comp, sizeBin, |labels|, cols, counts, done);
      ComponentCellsStep(labels, y, comp, sizeBin, |labels|, cols);
      assert before + ComponentCells(labels[..y + 1], comp, sizeBin, |labels|, cols)
          == done + RowCells(labels[y], y, comp, sizeBin, |labels|, cols);
      y := y + 1;
    }
    assert labels[..y] == labels;
  }

  /**
   * `getBananaFeature` from the label grid on: -1 on an empty image with
   * `hist` left alone; otherwise components 1 to nComponents - 1 are
   * scanned, the counts are summed, normalised when the sum is positive,
   * and the sum is appended.
   */
  method GetBananaFeature(labels: seq<seq<int>>, cols: nat, areas: seq<int>, nComponents: int, hist: seq<real>)
    returns (status: int, newHist: seq<real>)
    requires IsGrid(labels, cols) && nComponents <= |areas|
    ensures status == -1 <==> Empty(labels, cols)
    ensures status == -1 ==> newHist == hist
    ensures status != -1 ==> status == 0 && newHist == BananaFeature(labels, cols, areas, nComponents)
  {
    if Empty(labels, cols) {
      return -1, hist;
    }
    var counts := new real[TotalBins](_ => 0.0);
    TallyOfEmpty(TotalBins);
    assert counts[..] == Tally([], TotalBins);
    CountBlobs(labels, cols, areas, nComponents, counts);
    var total := SumCounts(counts);
    if total > 0.0 {
      NormalizeBy(counts, total);
    }
    newHist := counts[..] + [total];
    status := 0;
  }

  /** The loop over components 1 to nComponents - 1: the kept ones are scanned into `counts`. */
  method CountBlobs(labels: seq<seq<int>>, cols: nat, areas: seq<int>, nComponents: int, counts: array<real>)
    requires 0 < |labels| && 0 < cols && nComponents <= |areas| && counts.Length == TotalBins
    requires counts[..] == Tally([], TotalBins)
    modifies counts
    ensures counts[..] == Tally(BlobCells(labels, areas, nComponents, |labels|, cols), TotalBins)
  {
    var rows := |labels|;
    assert counts[..] == Tally(BlobCells(labels, areas, 1, rows, cols), TotalBins);
    var i := 1;
    while i < nComponents
      invariant 1 <= i && (i <= nComponents || i == 1)
      invariant counts[..] == Tally(BlobCells(labels, areas, i, rows, cols), TotalBins)
    {
      var area := areas[i];
      if MinArea <= area && area <= MaxArea {
        var sizeBin := SizeBin(area);
        assert KeptArea(area) && sizeBin == SizeBin(area);
        CountComponent(labels, i, sizeBin, cols, counts, BlobCells(labels, areas, i, rows, cols));
        assert BlobCells(labels, areas, i + 1, rows, cols)
            == BlobCells(labels, areas, i, rows, cols) + ComponentCells(labels, i, sizeBin, rows, cols);
      } else {
        ghost var cells := BlobCells(labels, areas, i, rows, cols);
        assert BlobCells(labels, areas, i + 1, rows, cols) == cells + [];
        assert cells + [] == cells;
      }
      i := i + 1;
    }
    if nComponents < 1 {
      assert BlobCells(labels, areas, 1, rows, cols) == BlobCells(labels, areas, nComponents, rows, cols);
    }
  }

  /** The summing loop of `getBananaFeature`. */
  method SumCounts(counts: array<real>) returns (total: real)
    ensures total == Sum(counts[..])
  {
    total := 0.0;
    var k := 0;
    while k < counts.Length
      invariant 0 <= k <= counts.Length
      invariant total == Sum(counts[..k])
    {
      assert counts[..k + 1][..k] == counts[..k];
      total := total + counts[k];
      k := k + 1;
    }
    assert counts[..k] == counts[..];
  }
}
