/**
 * The threshold half of `computeDepthMaskFromDA2`
 * (src/feature_calculate.cpp:247-271): the depth map produced by the
 * depth network is an input here. Its values are collected row by row,
 * sorted in place, the element at index `n * 0.50` is taken as the median,
 * and the mask keeps (255) exactly the pixels whose depth is at most that
 * median.
 */
module DepthMask {
  import opened Sorting
  import opened Pixels

  predicate RealLe(x: real, y: real)
  {
    x <= y
  }

  lemma RealLeIsLinear()
    ensures TotalPreorder(RealLe) && Antisymmetric(RealLe)
  {
  }

  /** `int median_index = n * 0.50`: the truncation of n / 2. */
  function MedianIndex(n: nat): (k: nat)
    requires 0 < n
    ensures k < n && n <= 2 * k + 1
  {
    n / 2
  }

  /** The value at the median index of the sorted values. */
  function Median(values: seq<real>): real
    requires 0 < |values|
  {
    RealLeIsLinear();
    SortSeqSortsAndPermutes(values, RealLe);
    SortSeq(values, RealLe)[MedianIndex(|values|)]
  }

  /** `mask = (depth <= median_value)`: 255 where the depth is at most the median, else 0. */
  function MaskOf(depth: seq<seq<real>>, median: real): (mask: seq<seq<byte>>)
    ensures |mask| == |depth|
    ensures forall i :: 0 <= i < |depth| ==> |mask[i]| == |depth[i]|
  {
    seq(|depth|, i requires 0 <= i < |depth| =>
      seq(|depth[i]|, j requires 0 <= j < |depth[i]| => if depth[i][j] <= median then 255 as byte else 0))
  }

  /** How many of `values` are at most `m`. */
  function CountAtMost(values: seq<real>, m: real): nat
  {
    if |values| == 0 then 0
    else CountAtMost(values[..|values| - 1], m) + (if values[|values| - 1] <= m then 1 else 0)
  }

  lemma {:induction false} CountAtMostAppend(a: seq<real>, b: seq<real>, m: real)
    ensures CountAtMost(a + b, m) == CountAtMost(a, m) + CountAtMost(b, m)
    decreases |b|
  {
    if |b| != 0 {
      var n := |b| - 1;
      assert (a + b)[..|a + b| - 1] == a + b[..n];
      CountAtMostAppend(a, b[..n], m);
    } else {
      assert a + b == a;
    }
  }

  lemma {:induction false} CountAtMostAll(values: seq<real>, m: real)
    requires forall k :: 0 <= k < |values| ==> values[k] <= m
    ensures CountAtMost(values, m) == |values|
  {
    if |values| != 0 {
      CountAtMostAll(values[..|values| - 1], m);
    }
  }

  /** Taking one value out of the sequence takes it out of the count. */
  lemma CountAtMostRemove(t: seq<real>, k: nat, m: real)
    requires k < |t|
    ensures CountAtMost(t, m) == CountAtMost(t[..k] + t[k + 1..], m) + (if t[k] <= m then 1 else 0)
  {
    assert t == (t[..k] + [t[k]]) + t[k + 1..];
    CountAtMostAppend(t[..k] + [t[k]], t[k + 1..], m);
    CountAtMostAppend(t[..k], [t[k]], m);
    CountAtMostAppend(t[..k], t[k + 1..], m);
    assert [t[k]][..0] == [];
  }

  /** Reordering the values does not change how many are at most `m`. */
  lemma {:induction false} CountAtMostPermutation(s: seq<real>, t: seq<real>, m: real)
    requires multiset(s) == multiset(t)
    ensures CountAtMost(s, m) == CountAtMost(t, m)
    decreases |s|
  {
    if |s| == 0 {
      assert |t| == |multiset(t)| == 0;
    } else {
      var x := s[|s| - 1];
      var rest := s[..|s| - 1];
      assert s == rest + [x];
      assert x in multiset(t);
      var k :| 0 <= k < |t| && t[k] == x;
      var others := t[..k] + t[k + 1..];
      assert multiset(others) == multiset(t) - multiset{x} by {
        assert t == t[..k] + [x] + t[k + 1..];
      }
      CountAtMostPermutation(rest, others, m);
      CountAtMostRemove(t, k, m);
    }
  }

  /** At least `n / 2 + 1` of the values are at most their median. */
  lemma MedianBound(values: seq<real>)
    requires 0 < |values|
    ensures CountAtMost(values, Median(values)) >= |values| / 2 + 1
  {
    RealLeIsLinear();
    SortSeqSortsAndPermutes(values, RealLe);
    var sorted := SortSeq(values, RealLe);
    var k := MedianIndex(|values|);
    CountAtMostPermutation(values, sorted, sorted[k]);
    SortedCountAtMost(sorted, k);
  }

  /** In a sorted sequence the first `k + 1` values are at most the one at `k`. */
  lemma SortedCountAtMost(sorted: seq<real>, k: nat)
    requires k < |sorted| && SortedBy(sorted, RealLe)
    ensures CountAtMost(sorted, sorted[k]) >= k + 1
  {
    var prefix := sorted[..k + 1];
    forall q | 0 <= q < |prefix|
      ensures prefix[q] <= sorted[k]
    {
      if q < k {
        assert RealLe(sorted[q], sorted[k]);
      }
    }
    CountAtMostAll(prefix, sorted[k]);
    assert sorted == prefix + sorted[k + 1..];
    CountAtMostAppend(prefix, sorted[k + 1..], sorted[k]);
  }

  /** The cells a mask built from `m` keeps are exactly the depths at most `m`. */
  lemma {:induction false} SelectedByMask(row: seq<real>, m: real)
    ensures |Selected(row, MaskOf([row], m)[0])| == CountAtMost(row, m)
  {
    var mask := MaskOf([row], m)[0];
    if |row| != 0 {
      var n := |row| - 1;
      SelectedByMask(row[..n], m);
      assert MaskOf([row[..n]], m)[0] == mask[..n];
      SelectedPrefixMask(row[..n], mask);
    }
  }

  /** Selection only looks at the mask cells of the positions it scans. */
  lemma {:induction false} SelectedPrefixMask(xs: seq<real>, mask: seq<byte>)
    requires |xs| <= |mask|
    ensures Selected(xs, mask) == Selected(xs, mask[..|xs|])
  {
    if |xs| != 0 {
      var n := |xs| - 1;
      SelectedPrefixMask(xs[..n], mask);
      SelectedPrefixMask(xs[..n], mask[..|xs|]);
      assert mask[..|xs|][..n] == mask[..n];
    }
  }

  lemma {:induction false} MaskKeepsAtMost(depth: seq<seq<real>>, m: real)
    ensures |MaskedFlatten(depth, MaskOf(depth, m))| == CountAtMost(Flatten(depth), m)
  {
    if |depth| != 0 {
      var n := |depth| - 1;
      var mask := MaskOf(depth, m);
      assert MaskOf(depth[..n], m) == mask[..n];
      MaskedFlattenPrefixMask(depth[..n], mask);
      MaskKeepsAtMost(depth[..n], m);
      assert mask[n] == MaskOf([depth[n]], m)[0];
      SelectedByMask(depth[n], m);
      CountAtMostAppend(Flatten(depth[..n]), depth[n], m);
    }
  }

  /** Masked scanning only looks at the mask rows of the rows it scans. */
  lemma {:induction false} MaskedFlattenPrefixMask(g: seq<seq<real>>, mask: seq<seq<byte>>)
    requires |g| <= |mask| && forall i :: 0 <= i < |g| ==> |g[i]| <= |mask[i]|
    ensures MaskedFlatten(g, mask) == MaskedFlatten(g, mask[..|g|])
  {
    if |g| != 0 {
      var n := |g| - 1;
      MaskedFlattenPrefixMask(g[..n], mask);
      MaskedFlattenPrefixMask(g[..n], mask[..|g|]);
      assert mask[..|g|][..n] == mask[..n];
    }
  }

  /** On a non-empty depth map the median mask keeps at least half the pixels, plus one. */
  lemma DepthMaskKeepsHalf(depth: seq<seq<real>>, cols: nat)
    requires IsGrid(depth, cols) && !Empty(depth, cols)
    ensures |Flatten(depth)| == |depth| * cols
    ensures |MaskedFlatten(depth, MaskOf(depth, Median(Flatten(depth))))| >= |depth| * cols / 2 + 1
  {
    FlattenLength(depth, cols);
    MedianBound(Flatten(depth));
    MaskKeepsAtMost(depth, Median(Flatten(depth)));
  }

  /**
   * The median and mask of a depth map. The values are gathered in scan
   * order, sorted in place and read at the median index; the caller has
   * already refused an empty image, so there is at least one value.
   */
  method ComputeDepthMask(depth: seq<seq<real>>, cols: nat) returns (median: real, mask: seq<seq<byte>>)
    requires IsGrid(depth, cols) && !Empty(depth, cols)
    ensures median == Median(Flatten(depth))
    ensures mask == MaskOf(depth, median)
  {
    var values: seq<real> := [];
    var i := 0;
    assert depth[..0] == [];
    while i < |depth|
      invariant 0 <= i <= |depth|
      invariant values == Flatten(depth[..i])
    {
      var j := 0;
      while j < cols
        invariant 0 <= j <= cols
        invariant values == Flatten(depth[..i]) + depth[i][..j]
      {
        values := values + [depth[i][j]];
        assert depth[i][..j + 1] == depth[i][..j] + [depth[i][j]];
        j := j + 1;
      }
      assert depth[i][..cols] == depth[i];
      FlattenStep(depth, i);
      i := i + 1;
    }
    assert depth[..i] == depth;
    FlattenLength(depth, cols);
    var a := new real[|values|](k requires 0 <= k < |values| => values[k]);
    assert a[..] == values;
    RealLeIsLinear();
    InsertionSort(a, RealLe);
    SortSeqSortsAndPermutes(values, RealLe);
    SortedUnique(a[..], SortSeq(values, RealLe), RealLe);
    median := a[MedianIndex(a.Length)];
    mask := MaskOf(depth, median);
  }
}
