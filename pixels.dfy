/**
 * Decoded images as the feature extractors see them: grids of 8-bit BGR
 * pixels, 8-bit masks and per-pixel bin numbers, together with the
 * row-major flattening the pixel loops walk in and the channel binning
 * that every colour histogram shares.
 */
module Pixels {
  import opened Sums

  /** `uchar`: one 8-bit channel or mask cell. */
  newtype byte = x: int | 0 <= x < 256

  /** One `Vec3b`, channels in OpenCV's order: blue, green, red. */
  datatype Pixel = Pixel(b: byte, g: byte, r: byte)

  /** `pixel[c]`. */
  function Channel(p: Pixel, c: int): byte
    requires 0 <= c < 3
  {
    if c == 0 then p.b else if c == 1 then p.g else p.r
  }

  /** A grid with `|g|` rows of exactly `cols` cells each. */
  ghost predicate IsGrid<T>(g: seq<seq<T>>, cols: nat)
  {
    forall i :: 0 <= i < |g| ==> |g[i]| == cols
  }

  /** `Mat::empty()`: no rows or no columns. */
  predicate Empty<T>(g: seq<seq<T>>, cols: nat)
  {
    |g| == 0 || cols == 0
  }

  /** The cells of a grid in the order of a row-by-row, column-by-column scan. */
  function Flatten<T>(g: seq<seq<T>>): seq<T>
  {
    if |g| == 0 then [] else Flatten(g[..|g| - 1]) + g[|g| - 1]
  }

  /** Scanning one more row appends that row. */
  lemma FlattenStep<T>(g: seq<seq<T>>, i: nat)
    requires i < |g|
    ensures Flatten(g[..i + 1]) == Flatten(g[..i]) + g[i]
  {
    assert g[..i + 1][..i] == g[..i];
  }

  lemma {:induction false} FlattenLength<T>(g: seq<seq<T>>, cols: nat)
    requires IsGrid(g, cols)
    ensures |Flatten(g)| == |g| * cols
  {
    if |g| != 0 {
      FlattenLength(g[..|g| - 1], cols);
    }
  }

  /** Cell `(i, j)` of a grid of width `cols` sits at position `i * cols + j` of the scan. */
  lemma {:induction false} FlattenIndex<T>(g: seq<seq<T>>, cols: nat, i: nat, j: nat)
    requires IsGrid(g, cols) && i < |g| && j < cols
    ensures i * cols + j < |Flatten(g)|
    ensures Flatten(g)[i * cols + j] == g[i][j]
  {
    var n := |g| - 1;
    FlattenLength(g[..n], cols);
    FlattenLength(g, cols);
    if i < n {
      FlattenIndex(g[..n], cols, i, j);
      assert i * cols + j < n * cols;
    } else {
      assert i * cols == n * cols;
    }
  }

  /** Every cell of an integer grid lies in `[0, bins)`. */
  ghost predicate GridBelow(g: seq<seq<int>>, bins: nat)
  {
    forall i, j :: 0 <= i < |g| && 0 <= j < |g[i]| ==> 0 <= g[i][j] < bins
  }

  lemma {:induction false} FlattenBelow(g: seq<seq<int>>, bins: nat)
    requires GridBelow(g, bins)
    ensures AllBelow(Flatten(g), bins)
  {
    if |g| != 0 {
      FlattenBelow(g[..|g| - 1], bins);
    }
  }

  /** The cells of `xs` whose mask cell is non-zero, in order. */
  function Selected<T>(xs: seq<T>, mask: seq<byte>): (r: seq<T>)
    requires |xs| <= |mask|
    ensures |r| <= |xs|
  {
    if |xs| == 0 then []
    else Selected(xs[..|xs| - 1], mask) + (if mask[|xs| - 1] != 0 then [xs[|xs| - 1]] else [])
  }

  /** The cells of a grid whose mask cell is non-zero, in scan order. */
  function MaskedFlatten<T>(g: seq<seq<T>>, mask: seq<seq<byte>>): seq<T>
    requires |g| <= |mask|
    requires forall i :: 0 <= i < |g| ==> |g[i]| <= |mask[i]|
  {
    if |g| == 0 then [] else MaskedFlatten(g[..|g| - 1], mask) + Selected(g[|g| - 1], mask[|g| - 1])
  }

  lemma MaskedFlattenStep<T>(g: seq<seq<T>>, mask: seq<seq<byte>>, i: nat)
    requires i < |g| <= |mask|
    requires forall k :: 0 <= k < |g| ==> |g[k]| <= |mask[k]|
    ensures MaskedFlatten(g[..i + 1], mask) == MaskedFlatten(g[..i], mask) + Selected(g[i], mask[i])
  {
    assert g[..i + 1][..i] == g[..i];
  }

  lemma SelectedStep<T>(xs: seq<T>, mask: seq<byte>, j: nat)
    requires j < |xs| <= |mask|
    ensures Selected(xs[..j + 1], mask) == Selected(xs[..j], mask) + (if mask[j] != 0 then [xs[j]] else [])
  {
    assert xs[..j + 1][..j] == xs[..j];
  }

  lemma {:induction false} SelectedBelow(xs: seq<int>, mask: seq<byte>, bins: nat)
    requires |xs| <= |mask| && AllBelow(xs, bins)
    ensures AllBelow(Selected(xs, mask), bins)
  {
    if |xs| != 0 {
      SelectedBelow(xs[..|xs| - 1], mask, bins);
    }
  }

  lemma {:induction false} MaskedFlattenBelow(g: seq<seq<int>>, mask: seq<seq<byte>>, bins: nat)
    requires |g| <= |mask| && forall i :: 0 <= i < |g| ==> |g[i]| <= |mask[i]|
    requires GridBelow(g, bins)
    ensures AllBelow(MaskedFlatten(g, mask), bins)
  {
    if |g| != 0 {
      var n := |g| - 1;
      MaskedFlattenBelow(g[..n], mask, bins);
      assert AllBelow(g[n], bins);
      SelectedBelow(g[n], mask[n], bins);
    }
  }

  /** A mask with no non-zero cell selects nothing. */
  lemma {:induction false} SelectedNothing<T>(xs: seq<T>, mask: seq<byte>)
    requires |xs| <= |mask|
    requires forall j :: 0 <= j < |mask| ==> mask[j] == 0
    ensures Selected(xs, mask) == []
  {
    if |xs| != 0 {
      SelectedNothing(xs[..|xs| - 1], mask);
    }
  }

  lemma {:induction false} MaskedFlattenNothing<T>(g: seq<seq<T>>, mask: seq<seq<byte>>)
    requires |g| <= |mask| && forall i :: 0 <= i < |g| ==> |g[i]| <= |mask[i]|
    requires forall i, j :: 0 <= i < |mask| && 0 <= j < |mask[i]| ==> mask[i][j] == 0
    ensures MaskedFlatten(g, mask) == []
  {
    if |g| != 0 {
      var n := |g| - 1;
      MaskedFlattenNothing(g[..n], mask);
      SelectedNothing(g[n], mask[n]);
    }
  }

  /* ---------------- Channel binning ---------------- */

  /**
   * A bin count for which `256 / bins` is a usable bin width and the
   * brightest value 255 still lands in the last bin.
   */
  predicate BinsFit(bins: int)
  {
    0 < bins <= 256 && 255 / (256 / bins) < bins
  }

  function Cube(bins: int): int
  {
    bins * bins * bins
  }

  /** `v / BIN_SIZE` with `BIN_SIZE = 256 / bins`. */
  function ChannelBin(v: byte, bins: int): int
    requires 0 < bins <= 256
  {
    v as int / (256 / bins)
  }

  lemma DivMonotone(a: int, b: int, w: int)
    requires 0 <= a <= b && 0 < w
    ensures 0 <= a / w <= b / w
  {
    var qa, qb := a / w, b / w;
    assert a == w * qa + a % w && 0 <= a % w < w;
    assert b == w * qb + b % w && 0 <= b % w < w;
    assert 0 <= qa by {
      if qa < 0 {
        MulLeqInt(w, qa, 0);
      }
    }
    assert qa <= qb by {
      if qb < qa {
        MulLeqInt(w, qb + 1, qa);
      }
    }
  }

  /** Multiplying by a positive number keeps the order of the factors. */
  lemma MulLeqInt(w: int, x: int, y: int)
    requires 0 < w && x <= y
    ensures w * x <= w * y
  {
    assert w * y - w * x == w * (y - x);
  }

  lemma ChannelBinInRange(v: byte, bins: int)
    requires BinsFit(bins)
    ensures 0 <= ChannelBin(v, bins) < bins
  {
    DivMonotone(v as int, 255, 256 / bins);
  }

  /** `binR * bins * bins + binG * bins + binB`: the flattened 3D colour bin. */
  function RgbBin(p: Pixel, bins: int): int
    requires 0 < bins <= 256
  {
    ChannelBin(p.r, bins) * bins * bins + ChannelBin(p.g, bins) * bins + ChannelBin(p.b, bins)
  }

  /** Three digits below `bins` in base `bins` make a number below `bins^3`. */
  lemma DigitsBound(r: int, g: int, b: int, bins: int)
    requires 0 <= r < bins && 0 <= g < bins && 0 <= b < bins
    ensures 0 <= r * bins * bins + g * bins + b < Cube(bins)
  {
    var sq := bins * bins;
    MulLeqInt(bins, 0, g);
    MulLeqInt(bins, g, bins - 1);
    assert g * bins + b < sq by {
      assert bins * (bins - 1) == sq - bins;
    }
    MulLeqInt(sq, 0, r);
    MulLeqInt(sq, r, bins - 1);
    assert r * bins * bins == sq * r;
    assert sq * (bins - 1) == Cube(bins) - sq;
  }

  lemma RgbBinInRange(p: Pixel, bins: int)
    requires BinsFit(bins)
    ensures 0 <= RgbBin(p, bins) < Cube(bins)
  {
    ChannelBinInRange(p.r, bins);
    ChannelBinInRange(p.g, bins);
    ChannelBinInRange(p.b, bins);
    DigitsBound(ChannelBin(p.r, bins), ChannelBin(p.g, bins), ChannelBin(p.b, bins), bins);
  }

  /** With 8 bins per channel, pixel (B, G, R) goes to bin (R/32)*64 + (G/32)*8 + B/32 of 512. */
  lemma RgbBinOfEight(p: Pixel)
    ensures RgbBin(p, 8) == (p.r as int / 32) * 64 + (p.g as int / 32) * 8 + p.b as int / 32
    ensures 0 <= RgbBin(p, 8) < 512
  {
    assert BinsFit(8);
    RgbBinInRange(p, 8);
  }

  /** The colour bin of every pixel, laid out like the image. */
  function RgbBinGrid(img: seq<seq<Pixel>>, bins: int): (g: seq<seq<int>>)
    requires 0 < bins <= 256
    ensures |g| == |img|
    ensures forall i :: 0 <= i < |img| ==> |g[i]| == |img[i]|
  {
    seq(|img|, i requires 0 <= i < |img| =>
      seq(|img[i]|, j requires 0 <= j < |img[i]| => RgbBin(img[i][j], bins)))
  }

  lemma RgbBinGridBelow(img: seq<seq<Pixel>>, bins: int)
    requires BinsFit(bins)
    ensures GridBelow(RgbBinGrid(img, bins), Cube(bins))
  {
    forall i, j | 0 <= i < |img| && 0 <= j < |img[i]|
      ensures 0 <= RgbBinGrid(img, bins)[i][j] < Cube(bins)
    {
      RgbBinInRange(img[i][j], bins);
    }
  }

  /** The texture bin `v / bin_size` of every cell of an 8-bit gradient image. */
  function ByteBinGrid(mag: seq<seq<byte>>, bins: int): (g: seq<seq<int>>)
    requires 0 < bins <= 256
    ensures |g| == |mag|
    ensures forall i :: 0 <= i < |mag| ==> |g[i]| == |mag[i]|
  {
    seq(|mag|, i requires 0 <= i < |mag| =>
      seq(|mag[i]|, j requires 0 <= j < |mag[i]| => ChannelBin(mag[i][j], bins)))
  }

  lemma ByteBinGridBelow(mag: seq<seq<byte>>, bins: int)
    requires BinsFit(bins)
    ensures GridBelow(ByteBinGrid(mag, bins), bins)
  {
    forall i, j | 0 <= i < |mag| && 0 <= j < |mag[i]|
      ensures 0 <= ByteBinGrid(mag, bins)[i][j] < bins
    {
      ChannelBinInRange(mag[i][j], bins);
    }
  }

  /** `static_cast<int>(g * (bins - 1))`: the bin of a gradient normalised to [0, 1]. */
  function LevelBin(g: real, bins: int): int
  {
    (g * (bins - 1) as real).Floor
  }

  lemma LevelBinInRange(g: real, bins: int)
    requires 0.0 <= g <= 1.0 && 0 < bins
    ensures 0 <= LevelBin(g, bins) < bins
  {
    var w := (bins - 1) as real;
    assert 0.0 <= g * w by {
      if 0.0 < g && 0.0 < w {
        assert 0.0 < g * w;
      }
    }
    assert g * w <= w by {
      assert w - g * w == (1.0 - g) * w;
      if 0.0 < 1.0 - g && 0.0 < w {
        assert 0.0 < (1.0 - g) * w;
      }
    }
  }

  /** Every cell of a grid of reals lies in [0, 1]. */
  ghost predicate InUnit(g: seq<seq<real>>)
  {
    forall i, j :: 0 <= i < |g| && 0 <= j < |g[i]| ==> 0.0 <= g[i][j] <= 1.0
  }

  function LevelBinGrid(grad: seq<seq<real>>, bins: int): (g: seq<seq<int>>)
    ensures |g| == |grad|
    ensures forall i :: 0 <= i < |grad| ==> |g[i]| == |grad[i]|
  {
    seq(|grad|, i requires 0 <= i < |grad| =>
      seq(|grad[i]|, j requires 0 <= j < |grad[i]| => LevelBin(grad[i][j], bins)))
  }

  lemma LevelBinGridBelow(grad: seq<seq<real>>, bins: int)
    requires InUnit(grad) && 0 < bins
    ensures GridBelow(LevelBinGrid(grad, bins), bins)
  {
    forall i, j | 0 <= i < |grad| && 0 <= j < |grad[i]|
      ensures 0 <= LevelBinGrid(grad, bins)[i][j] < bins
    {
      LevelBinInRange(grad[i][j], bins);
    }
  }
}
