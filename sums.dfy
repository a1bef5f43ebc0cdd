/**
 * Sums and tallies over finite sequences: the arithmetic that the distance
 * metrics and the histogram extractors are built from. Every function here
 * is defined by recursion on the LAST element, so that a loop that walks a
 * sequence from index 0 upwards keeps `acc == F(s[..i])` as its invariant.
 */
module Sums {

  /** Sum of a sequence of reals. */
  function Sum(s: seq<real>): real
  {
    if |s| == 0 then 0.0 else Sum(s[..|s| - 1]) + s[|s| - 1]
  }

  function Min(x: real, y: real): real
  {
    if x <= y then x else y
  }

  ghost predicate NonNegative(s: seq<real>)
  {
    forall i :: 0 <= i < |s| ==> 0.0 <= s[i]
  }

  lemma {:induction false} SumAppend(a: seq<real>, b: seq<real>)
    ensures Sum(a + b) == Sum(a) + Sum(b)
    decreases |b|
  {
    if |b| == 0 {
      assert a + b == a;
    } else {
      assert (a + b)[..|a + b| - 1] == a + b[..|b| - 1];
      SumAppend(a, b[..|b| - 1]);
    }
  }

  lemma {:induction false} SumNonNegative(s: seq<real>)
    requires NonNegative(s)
    ensures 0.0 <= Sum(s)
  {
    if |s| > 0 {
      SumNonNegative(s[..|s| - 1]);
    }
  }

  /** Number of positions of `xs` that hold the value `k`. */
  function Occurrences(xs: seq<int>, k: int): nat
  {
    if |xs| == 0 then 0
    else Occurrences(xs[..|xs| - 1], k) + (if xs[|xs| - 1] == k then 1 else 0)
  }

  lemma {:induction false} OccurrencesAppend(a: seq<int>, b: seq<int>, k: int)
    ensures Occurrences(a + b, k) == Occurrences(a, k) + Occurrences(b, k)
    decreases |b|
  {
    if |b| == 0 {
      assert a + b == a;
    } else {
      assert (a + b)[..|a + b| - 1] == a + b[..|b| - 1];
      OccurrencesAppend(a, b[..|b| - 1], k);
    }
  }

  ghost predicate AllBelow(xs: seq<int>, bins: nat)
  {
    forall p :: 0 <= p < |xs| ==> 0 <= xs[p] < bins
  }

  /**
   * The histogram of a sequence of bin indices: entry k holds how many
   * times k occurs, as a float count.
   */
  function Tally(xs: seq<int>, bins: nat): (h: seq<real>)
    ensures |h| == bins
  {
    seq(bins, k => Occurrences(xs, k) as real)
  }

  /** Each entry divided by `total`, as the extractors' normalisation loops do. */
  function Scaled(h: seq<real>, total: real): (r: seq<real>)
    requires total != 0.0
    ensures |r| == |h|
  {
    seq(|h|, k requires 0 <= k < |h| => h[k] / total)
  }

  lemma {:induction false} SumScaled(h: seq<real>, total: real)
    requires total != 0.0
    ensures Sum(Scaled(h, total)) == Sum(h) / total
    decreases |h|
  {
    if |h| > 0 {
      assert Scaled(h, total)[..|h| - 1] == Scaled(h[..|h| - 1], total);
      SumScaled(h[..|h| - 1], total);
    }
  }

  /** Sum over bins [0, bins) of the number of times each bin occurs. */
  function TallySum(xs: seq<int>, bins: nat): nat
  {
    if bins == 0 then 0 else TallySum(xs, bins - 1) + Occurrences(xs, bins - 1)
  }

  lemma {:induction false} TallySumIsSum(xs: seq<int>, bins: nat)
    ensures Sum(Tally(xs, bins)) == TallySum(xs, bins) as real
    decreases bins
  {
    if bins > 0 {
      assert Tally(xs, bins)[..bins - 1] == Tally(xs, bins - 1);
      TallySumIsSum(xs, bins - 1);
    }
  }

  lemma {:induction false} TallySumAppendOne(xs: seq<int>, x: int, bins: nat)
    ensures TallySum(xs + [x], bins) == TallySum(xs, bins) + (if 0 <= x < bins then 1 else 0)
    decreases bins
  {
    if bins > 0 {
      TallySumAppendOne(xs, x, bins - 1);
      OccurrencesAppend(xs, [x], bins - 1);
    }
  }

  /**
   * Every value of `xs` falls in exactly one of the bins, so the counts of
   * all bins add up to the number of values.
   */
  lemma {:induction false} TallyCountsEverything(xs: seq<int>, bins: nat)
    requires AllBelow(xs, bins)
    ensures Sum(Tally(xs, bins)) == |xs| as real
    decreases |xs|
  {
    TallySumIsSum(xs, bins);
    TallySumMatchesLength(xs, bins);
  }

  lemma {:induction false} TallySumMatchesLength(xs: seq<int>, bins: nat)
    requires AllBelow(xs, bins)
    ensures TallySum(xs, bins) == |xs|
    decreases |xs|
  {
    if |xs| == 0 {
      TallySumOfEmpty(bins);
    } else {
      var init := xs[..|xs| - 1];
      assert xs == init + [xs[|xs| - 1]];
      TallySumMatchesLength(init, bins);
      TallySumAppendOne(init, xs[|xs| - 1], bins);
    }
  }

  lemma {:induction false} TallySumOfEmpty(bins: nat)
    ensures TallySum([], bins) == 0
    decreases bins
  {
    if bins > 0 {
      TallySumOfEmpty(bins - 1);
    }
  }

  /** A value that never occurs has count zero; an empty sequence tallies to all zeros. */
  lemma {:induction false} OccurrencesAbsent(xs: seq<int>, k: int)
    requires forall p :: 0 <= p < |xs| ==> xs[p] != k
    ensures Occurrences(xs, k) == 0
    decreases |xs|
  {
    if |xs| > 0 {
      OccurrencesAbsent(xs[..|xs| - 1], k);
    }
  }

  /** A sequence made of one value repeated: that value's count is the length. */
  lemma {:induction false} OccurrencesConstant(xs: seq<int>, k: int)
    requires forall p :: 0 <= p < |xs| ==> xs[p] == k
    ensures Occurrences(xs, k) == |xs|
    decreases |xs|
  {
    if |xs| > 0 {
      OccurrencesConstant(xs[..|xs| - 1], k);
    }
  }

  /** The tally of nothing: every bin is zero. */
  lemma TallyOfEmpty(bins: nat)
    ensures Tally([], bins) == seq(bins, k => 0.0)
  {
  }

  /** Counting one more value adds one to its bin and changes no other bin. */
  lemma TallyAppend(xs: seq<int>, x: int, bins: nat)
    requires 0 <= x < bins
    ensures Tally(xs + [x], bins) == Tally(xs, bins)[x := Tally(xs, bins)[x] + 1.0]
  {
    forall k | 0 <= k < bins
      ensures Tally(xs + [x], bins)[k] == Tally(xs, bins)[x := Tally(xs, bins)[x] + 1.0][k]
    {
      OccurrencesAppend(xs, [x], k);
      assert [x][..0] == [];
    }
  }

  /** `for (float& bin : hist) bin /= total`. */
  method NormalizeBy(hist: array<real>, total: real)
    requires total != 0.0
    modifies hist
    ensures hist[..] == Scaled(old(hist[..]), total)
  {
    var i := 0;
    while i < hist.Length
      invariant 0 <= i <= hist.Length
      invariant forall k :: 0 <= k < i ==> hist[k] == old(hist[k]) / total
      invariant forall k :: i <= k < hist.Length ==> hist[k] == old(hist[k])
    {
      hist[i] := hist[i] / total;
      i := i + 1;
    }
  }
}
