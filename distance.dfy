/**
 * The distance library (src/distance_calculate.cpp). Feature vectors are
 * `seq<real>`; floating-point rounding is not modelled.
 *
 * The three accumulating loops (SSD, histogram intersection, cosine) are
 * methods proved against specification functions; the two split distances
 * are plain functions over those specifications, as in the source they are
 * slicing plus calls.
 *
 * `std::sqrt` has no definition here: every member that takes a square
 * root receives it as a parameter `root` and, where a property depends on
 * it, requires `IsSqrt(root)`.
 */
module Distance {
  import opened Sums
  import opened Arith

  /** `root` returns the non-negative square root of every non-negative real. */
  ghost predicate IsSqrt(root: real -> real)
  {
    forall x :: 0.0 <= x ==> 0.0 <= root(x) && Sq(root(x)) == x
  }

  lemma RootOfZero(root: real -> real)
    requires IsSqrt(root)
    ensures root(0.0) == 0.0
  {
    SqZero(root(0.0));
  }

  /** The root of a positive number is positive. */
  lemma RootPositive(root: real -> real, x: real)
    requires IsSqrt(root)
    requires 0.0 < x
    ensures 0.0 < root(x)
  {
    SqZero(root(x));
  }

  /** The square root is strictly increasing, so ranking by it is ranking by its argument. */
  lemma RootMonotone(root: real -> real, x: real, y: real)
    requires IsSqrt(root)
    requires 0.0 <= x && 0.0 <= y
    ensures x < y <==> root(x) < root(y)
    ensures x == y <==> root(x) == root(y)
  {
    if root(x) < root(y) {
      SqStrictlyIncreasing(root(x), root(y));
    } else if root(y) < root(x) {
      SqStrictlyIncreasing(root(y), root(x));
    }
  }

  // ---------------------------------------------------------------------
  // SSD (src/distance_calculate.cpp:21-28)
  // ---------------------------------------------------------------------

  /**
   * Sum of squared differences over the indices of `v1`. The loop reads
   * `v2` at the same indices, so `v2` must be at least as long.
   */
  function SquaredDistance(v1: seq<real>, v2: seq<real>): real
    requires |v1| <= |v2|
  {
    if |v1| == 0 then 0.0
    else SquaredDistance(v1[..|v1| - 1], v2) + Sq(v1[|v1| - 1] - v2[|v1| - 1])
  }

  function Ssd(v1: seq<real>, v2: seq<real>, root: real -> real): real
    requires |v1| <= |v2|
  {
    root(SquaredDistance(v1, v2))
  }

  method CalculateSsd(v1: seq<real>, v2: seq<real>, root: real -> real) returns (distance: real)
    requires |v1| <= |v2|
    ensures distance == Ssd(v1, v2, root)
  {
    var sum := 0.0;
    var i := 0;
    while i < |v1|
      invariant 0 <= i <= |v1|
      invariant sum == SquaredDistance(v1[..i], v2)
    {
      var diff := v1[i] - v2[i];
      sum := sum + diff * diff;
      i := i + 1;
      assert v1[..i][..i - 1] == v1[..i - 1];
    }
    assert v1[..i] == v1;
    distance := root(sum);
  }

  lemma {:induction false} SquaredDistanceNonNegative(v1: seq<real>, v2: seq<real>)
    requires |v1| <= |v2|
    ensures 0.0 <= SquaredDistance(v1, v2)
  {
    if |v1| > 0 {
      SquaredDistanceNonNegative(v1[..|v1| - 1], v2);
      SqNonNegative(v1[|v1| - 1] - v2[|v1| - 1]);
    }
  }

  /** The squared distance vanishes exactly when `v1` is a prefix of `v2`. */
  lemma {:induction false} SquaredDistanceZero(v1: seq<real>, v2: seq<real>)
    requires |v1| <= |v2|
    ensures SquaredDistance(v1, v2) == 0.0 <==> v1 == v2[..|v1|]
  {
    if |v1| > 0 {
      var n := |v1| - 1;
      var d := v1[n] - v2[n];
      SquaredDistanceZero(v1[..n], v2);
      SquaredDistanceNonNegative(v1[..n], v2);
      SqNonNegative(d);
      SqZero(d);
      if SquaredDistance(v1, v2) == 0.0 {
        assert v1 == v1[..n] + [v1[n]];
        assert v2[..|v1|] == v2[..n] + [v2[n]];
      }
      if v1 == v2[..|v1|] {
        assert v1[..n] == v2[..n];
      }
    }
  }

  lemma {:induction false} SquaredDistanceSymmetricPrefix(v1: seq<real>, v2: seq<real>, k: nat)
    requires |v1| == |v2| && k <= |v1|
    ensures SquaredDistance(v1[..k], v2) == SquaredDistance(v2[..k], v1)
  {
    if k > 0 {
      SquaredDistanceSymmetricPrefix(v1, v2, k - 1);
      assert v1[..k][..k - 1] == v1[..k - 1];
      assert v2[..k][..k - 1] == v2[..k - 1];
      assert Sq(v2[k - 1] - v1[k - 1]) == Sq(v1[k - 1] - v2[k - 1]);
    }
  }

  /**
   * SSD is a distance: never negative, zero exactly when `v1` agrees with
   * the start of `v2` (so SSD(v, v) = 0), and symmetric on equal lengths.
   */
  lemma SsdIsDistance(v1: seq<real>, v2: seq<real>, root: real -> real)
    requires IsSqrt(root)
    requires |v1| <= |v2|
    ensures 0.0 <= Ssd(v1, v2, root)
    ensures Ssd(v1, v2, root) == 0.0 <==> v1 == v2[..|v1|]
    ensures |v1| == |v2| ==> Ssd(v1, v2, root) == Ssd(v2, v1, root)
  {
    SquaredDistanceNonNegative(v1, v2);
    SquaredDistanceZero(v1, v2);
    RootOfZero(root);
    RootMonotone(root, 0.0, SquaredDistance(v1, v2));
    if |v1| == |v2| {
      SquaredDistanceSymmetricPrefix(v1, v2, |v1|);
      assert v1[..|v1|] == v1 && v2[..|v2|] == v2;
    }
  }

  /**
   * Ranking by SSD is ranking by the sum of squares: the root changes no
   * comparison between two candidates.
   */
  lemma SsdOrder(v: seq<real>, w1: seq<real>, w2: seq<real>, root: real -> real)
    requires IsSqrt(root)
    requires |v| <= |w1| && |v| <= |w2|
    ensures Ssd(v, w1, root) < Ssd(v, w2, root) <==> SquaredDistance(v, w1) < SquaredDistance(v, w2)
  {
    SquaredDistanceNonNegative(v, w1);
    SquaredDistanceNonNegative(v, w2);
    RootMonotone(root, SquaredDistance(v, w1), SquaredDistance(v, w2));
  }

  // ---------------------------------------------------------------------
  // Histogram intersection (src/distance_calculate.cpp:36-52)
  // ---------------------------------------------------------------------

  /** Sum of the per-bin minima of two histograms of one length. */
  function SumMin(h1: seq<real>, h2: seq<real>): real
    requires |h1| == |h2|
  {
    if |h1| == 0 then 0.0
    else SumMin(h1[..|h1| - 1], h2[..|h2| - 1]) + Min(h1[|h1| - 1], h2[|h2| - 1])
  }

  /** Histogram intersection; 0 is the sentinel for histograms of different lengths. */
  function Intersection(h1: seq<real>, h2: seq<real>): real
  {
    if |h1| != |h2| then 0.0 else SumMin(h1, h2)
  }

  method CalculateHistogramIntersection(h1: seq<real>, h2: seq<real>) returns (intersection: real)
    ensures intersection == Intersection(h1, h2)
  {
    intersection := 0.0;
    if |h1| != |h2| {
      return 0.0;
    }
    var i := 0;
    while i < |h1|
      invariant 0 <= i <= |h1|
      invariant intersection == SumMin(h1[..i], h2[..i])
    {
      intersection := intersection + Min(h1[i], h2[i]);
      i := i + 1;
      assert h1[..i][..i - 1] == h1[..i - 1];
      assert h2[..i][..i - 1] == h2[..i - 1];
    }
    assert h1[..i] == h1 && h2[..i] == h2;
  }

  lemma {:induction false} SumMinAppend(a1: seq<real>, a2: seq<real>, b1: seq<real>, b2: seq<real>)
    requires |a1| == |a2| && |b1| == |b2|
    ensures SumMin(a1 + b1, a2 + b2) == SumMin(a1, a2) + SumMin(b1, b2)
    decreases |b1|
  {
    if |b1| == 0 {
      assert a1 + b1 == a1 && a2 + b2 == a2;
    } else {
      var n := |b1| - 1;
      assert (a1 + b1)[..|a1 + b1| - 1] == a1 + b1[..n];
      assert (a2 + b2)[..|a2 + b2| - 1] == a2 + b2[..n];
      SumMinAppend(a1, a2, b1[..n], b2[..n]);
    }
  }

  lemma {:induction false} SumMinSymmetric(h1: seq<real>, h2: seq<real>)
    requires |h1| == |h2|
    ensures SumMin(h1, h2) == SumMin(h2, h1)
  {
    if |h1| > 0 {
      SumMinSymmetric(h1[..|h1| - 1], h2[..|h2| - 1]);
    }
  }

  lemma IntersectionSymmetric(h1: seq<real>, h2: seq<real>)
    ensures Intersection(h1, h2) == Intersection(h2, h1)
  {
    if |h1| == |h2| {
      SumMinSymmetric(h1, h2);
    }
  }

  lemma {:induction false} IntersectionSelf(h: seq<real>)
    ensures Intersection(h, h) == Sum(h)
  {
    if |h| > 0 {
      IntersectionSelf(h[..|h| - 1]);
    }
  }

  /** Sum(h1) - SumMin(h1, h2) collects the excess of h1 over h2, bin by bin. */
  lemma {:induction false} SumMinGap(h1: seq<real>, h2: seq<real>)
    requires |h1| == |h2|
    ensures SumMin(h1, h2) <= Sum(h1)
    ensures forall i :: 0 <= i < |h1| ==> h1[i] - Min(h1[i], h2[i]) <= Sum(h1) - SumMin(h1, h2)
  {
    if |h1| > 0 {
      var n := |h1| - 1;
      SumMinGap(h1[..n], h2[..n]);
      forall i | 0 <= i < |h1|
        ensures h1[i] - Min(h1[i], h2[i]) <= Sum(h1) - SumMin(h1, h2)
      {
        if i < n {
          assert h1[..n][i] == h1[i] && h2[..n][i] == h2[i];
        }
      }
    }
  }

  lemma {:induction false} SumMinOfDominated(h1: seq<real>, h2: seq<real>)
    requires |h1| == |h2|
    requires forall i :: 0 <= i < |h1| ==> h1[i] <= h2[i]
    ensures SumMin(h1, h2) == Sum(h1)
  {
    if |h1| > 0 {
      SumMinOfDominated(h1[..|h1| - 1], h2[..|h2| - 1]);
    }
  }

  /**
   * For equal lengths the intersection is at most either histogram's mass,
   * and it reaches Sum(h1) exactly when h1 lies under h2 in every bin.
   */
  lemma IntersectionBounds(h1: seq<real>, h2: seq<real>)
    requires |h1| == |h2|
    ensures Intersection(h1, h2) <= Sum(h1) && Intersection(h1, h2) <= Sum(h2)
    ensures Intersection(h1, h2) == Sum(h1) <==> forall i :: 0 <= i < |h1| ==> h1[i] <= h2[i]
  {
    SumMinGap(h1, h2);
    SumMinGap(h2, h1);
    SumMinSymmetric(h1, h2);
    if forall i :: 0 <= i < |h1| ==> h1[i] <= h2[i] {
      SumMinOfDominated(h1, h2);
    }
  }

  lemma {:induction false} SumMinNonNegative(h1: seq<real>, h2: seq<real>)
    requires |h1| == |h2|
    requires NonNegative(h1) && NonNegative(h2)
    ensures 0.0 <= SumMin(h1, h2)
  {
    if |h1| > 0 {
      SumMinNonNegative(h1[..|h1| - 1], h2[..|h2| - 1]);
    }
  }

  /** Two normalised histograms (non-negative, summing to 1) intersect in [0, 1]. */
  lemma IntersectionOfNormalized(h1: seq<real>, h2: seq<real>)
    requires NonNegative(h1) && NonNegative(h2)
    requires Sum(h1) == 1.0
    ensures 0.0 <= Intersection(h1, h2) <= 1.0
    ensures h1 == h2 ==> Intersection(h1, h2) == 1.0
  {
    if |h1| == |h2| {
      SumMinNonNegative(h1, h2);
      IntersectionBounds(h1, h2);
    }
    IntersectionSelf(h1);
  }


  // ---------------------------------------------------------------------
  // Cosine distance (src/distance_calculate.cpp:62-89)
  // ---------------------------------------------------------------------

  /** The dot product a.b. */
  function Dot(a: seq<real>, b: seq<real>): real
    requires |a| == |b|
  {
    if |a| == 0 then 0.0 else Dot(a[..|a| - 1], b[..|b| - 1]) + a[|a| - 1] * b[|b| - 1]
  }

  /** The squared norm a.a, accumulated separately by the source. */
  function NormSq(a: seq<real>): real
  {
    if |a| == 0 then 0.0 else NormSq(a[..|a| - 1]) + Sq(a[|a| - 1])
  }

  /**
   * Cosine distance 1 - a.b / (|a| |b|); 1 is the sentinel for different
   * lengths, empty vectors and vectors whose squared norm is 0.
   */
  function CosineDistance(a: seq<real>, b: seq<real>, root: real -> real): real
  {
    if |a| != |b| || |a| == 0 then 1.0
    else
      var norm1 := NormSq(a);
      var norm2 := NormSq(b);
      if norm1 == 0.0 || norm2 == 0.0 then 1.0
      else
        var denominator := CosineDenominator(a, b, root);
        // Never 0 for a true square root (CosineDistanceUnfold); the guard
        // only keeps the quotient defined for an arbitrary `root`.
        if denominator == 0.0 then 1.0 else 1.0 - Dot(a, b) / denominator
  }

  /** The product of the two norms, root(a.a) root(b.b). */
  function CosineDenominator(a: seq<real>, b: seq<real>, root: real -> real): real
  {
    root(NormSq(a)) * root(NormSq(b))
  }

  method CalculateCosineDistance(a: seq<real>, b: seq<real>, root: real -> real) returns (distance: real)
    requires IsSqrt(root)
    ensures distance == CosineDistance(a, b, root)
  {
    if |a| != |b| || |a| == 0 {
      return 1.0;
    }
    var dotProduct, norm1, norm2 := DotAndNorms(a, b);
    if norm1 == 0.0 || norm2 == 0.0 {
      assert CosineDistance(a, b, root) == 1.0;
      return 1.0;
    }
    CosineDistanceUnfold(a, b, root);
    var denominator := root(norm1) * root(norm2);
    assert denominator == CosineDenominator(a, b, root);
    var cosineSimilarity := dotProduct / denominator;
    distance := 1.0 - cosineSimilarity;
  }

  /** The accumulation loop of `calculate_cosine_distance`: a.b, a.a and b.b in one pass. */
  method DotAndNorms(a: seq<real>, b: seq<real>) returns (dotProduct: real, norm1: real, norm2: real)
    requires |a| == |b|
    ensures dotProduct == Dot(a, b) && norm1 == NormSq(a) && norm2 == NormSq(b)
  {
    dotProduct, norm1, norm2 := 0.0, 0.0, 0.0;
    var i := 0;
    while i < |a|
      invariant 0 <= i <= |a|
      invariant dotProduct == Dot(a[..i], b[..i])
      invariant norm1 == NormSq(a[..i])
      invariant norm2 == NormSq(b[..i])
    {
      dotProduct := dotProduct + a[i] * b[i];
      norm1 := norm1 + a[i] * a[i];
      norm2 := norm2 + b[i] * b[i];
      i := i + 1;
      assert a[..i][..i - 1] == a[..i - 1];
      assert b[..i][..i - 1] == b[..i - 1];
    }
    assert a[..i] == a && b[..i] == b;
  }

  lemma {:induction false} NormSqNonNegative(a: seq<real>)
    ensures 0.0 <= NormSq(a)
  {
    if |a| > 0 {
      NormSqNonNegative(a[..|a| - 1]);
      SqNonNegative(a[|a| - 1]);
    }
  }

  /** A squared norm is 0 exactly for the all-zero vector. */
  lemma {:induction false} NormSqZero(a: seq<real>)
    ensures NormSq(a) == 0.0 <==> forall i :: 0 <= i < |a| ==> a[i] == 0.0
  {
    if |a| > 0 {
      var n := |a| - 1;
      NormSqZero(a[..n]);
      NormSqNonNegative(a[..n]);
      SqNonNegative(a[n]);
      SqZero(a[n]);
      if forall i :: 0 <= i < |a| ==> a[i] == 0.0 {
        assert forall i :: 0 <= i < n ==> a[..n][i] == 0.0;
      }
      if NormSq(a) == 0.0 {
        forall i | 0 <= i < |a|
          ensures a[i] == 0.0
        {
          if i < n {
            assert a[..n][i] == a[i];
          }
        }
      }
    }
  }

  lemma {:induction false} DotSelf(a: seq<real>)
    ensures Dot(a, a) == NormSq(a)
  {
    if |a| > 0 {
      DotSelf(a[..|a| - 1]);
    }
  }

  lemma {:induction false} DotSymmetric(a: seq<real>, b: seq<real>)
    requires |a| == |b|
    ensures Dot(a, b) == Dot(b, a)
  {
    if |a| > 0 {
      DotSymmetric(a[..|a| - 1], b[..|b| - 1]);
    }
  }

  lemma {:induction false} DotNonNegative(a: seq<real>, b: seq<real>)
    requires |a| == |b|
    requires NonNegative(a) && NonNegative(b)
    ensures 0.0 <= Dot(a, b)
  {
    if |a| > 0 {
      DotNonNegative(a[..|a| - 1], b[..|b| - 1]);
      MulLeq(a[|a| - 1], 0.0, b[|b| - 1]);
    }
  }

  /** Sum over i of (x b[i] - y a[i])^2: the cross terms of Lagrange's identity. */
  function CrossSquares(a: seq<real>, b: seq<real>, x: real, y: real): real
    requires |a| == |b|
  {
    if |a| == 0 then 0.0
    else CrossSquares(a[..|a| - 1], b[..|b| - 1], x, y) + Sq(x * b[|b| - 1] - y * a[|a| - 1])
  }

  /** One step of the expansion of CrossSquares, on plain reals. */
  lemma CrossStep(x: real, y: real, p: real, q: real, a0: real, b0: real, d0: real)
    ensures Sq(x * q - y * p) + (Sq(x) * b0 + Sq(y) * a0 - 2.0 * x * y * d0)
         == Sq(x) * (b0 + Sq(q)) + Sq(y) * (a0 + Sq(p)) - 2.0 * x * y * (d0 + p * q)
  {
    assert Sq(x * q - y * p) == Sq(x) * Sq(q) - 2.0 * x * y * (p * q) + Sq(y) * Sq(p);
  }

  lemma {:induction false} CrossSquaresExpand(a: seq<real>, b: seq<real>, x: real, y: real)
    requires |a| == |b|
    ensures CrossSquares(a, b, x, y) == Sq(x) * NormSq(b) + Sq(y) * NormSq(a) - 2.0 * x * y * Dot(a, b)
  {
    if |a| > 0 {
      var n := |a| - 1;
      CrossSquaresExpand(a[..n], b[..n], x, y);
      CrossStep(x, y, a[n], b[n], NormSq(a[..n]), NormSq(b[..n]), Dot(a[..n], b[..n]));
    }
  }

  lemma {:induction false} CrossSquaresNonNegative(a: seq<real>, b: seq<real>, x: real, y: real)
    requires |a| == |b|
    ensures 0.0 <= CrossSquares(a, b, x, y)
  {
    if |a| > 0 {
      CrossSquaresNonNegative(a[..|a| - 1], b[..|b| - 1], x, y);
      SqNonNegative(x * b[|b| - 1] - y * a[|a| - 1]);
    }
  }

  /** The inductive step of Cauchy-Schwarz, on plain reals. */
  lemma CauchySchwarzStep(A: real, B: real, D: real, x: real, y: real)
    requires Sq(D) <= A * B
    requires 0.0 <= Sq(x) * B + Sq(y) * A - 2.0 * x * y * D
    ensures Sq(D + x * y) <= (A + Sq(x)) * (B + Sq(y))
  {
    SqOfProduct(x, y);
    assert (A + Sq(x)) * (B + Sq(y)) == A * B + Sq(x) * B + Sq(y) * A + Sq(x) * Sq(y);
    assert Sq(D + x * y) == Sq(D) + 2.0 * x * y * D + Sq(x * y);
  }

  /** Cauchy-Schwarz: (a.b)^2 <= (a.a)(b.b), by induction with Lagrange's identity. */
  lemma {:induction false} CauchySchwarz(a: seq<real>, b: seq<real>)
    requires |a| == |b|
    ensures Sq(Dot(a, b)) <= NormSq(a) * NormSq(b)
  {
    if |a| > 0 {
      var n := |a| - 1;
      var a0, b0 := a[..n], b[..n];
      CauchySchwarz(a0, b0);
      CrossSquaresExpand(a0, b0, a[n], b[n]);
      CrossSquaresNonNegative(a0, b0, a[n], b[n]);
      CauchySchwarzStep(NormSq(a0), NormSq(b0), Dot(a0, b0), a[n], b[n]);
    }
  }

  /** |a.b| <= root(a.a) root(b.b): the cosine similarity lies in [-1, 1]. */
  lemma DotWithinNorms(a: seq<real>, b: seq<real>, root: real -> real)
    requires IsSqrt(root)
    requires |a| == |b|
    ensures -CosineDenominator(a, b, root) <= Dot(a, b) <= CosineDenominator(a, b, root)
  {
    CauchySchwarz(a, b);
    NormSqNonNegative(a);
    NormSqNonNegative(b);
    var A, B := NormSq(a), NormSq(b);
    RootFacts(root, A);
    RootFacts(root, B);
    NormsBound(A, B, Dot(a, b), root(A), root(B), CosineDenominator(a, b, root));
  }

  lemma RootFacts(root: real -> real, x: real)
    requires IsSqrt(root) && 0.0 <= x
    ensures 0.0 <= root(x) && Sq(root(x)) == x
  {
  }

  /** If ra, rb are the roots of A, B and D^2 <= A B then |D| <= ra rb = p. */
  lemma NormsBound(A: real, B: real, D: real, ra: real, rb: real, p: real)
    requires 0.0 <= ra && 0.0 <= rb && Sq(ra) == A && Sq(rb) == B
    requires Sq(D) <= A * B
    requires p == ra * rb
    ensures -p <= D <= p
  {
    SqOfProduct(ra, rb);
    MulLeq(ra, 0.0, rb);
    SqBound(D, ra * rb);
  }

  /** For non-zero vectors the norm product is positive and bounds |a.b|. */
  lemma NormRootsBoundDot(a: seq<real>, b: seq<real>, root: real -> real)
    requires IsSqrt(root)
    requires |a| == |b| && 0.0 < NormSq(a) && 0.0 < NormSq(b)
    ensures 0.0 < CosineDenominator(a, b, root)
    ensures -CosineDenominator(a, b, root) <= Dot(a, b) <= CosineDenominator(a, b, root)
  {
    RootPositive(root, NormSq(a));
    RootPositive(root, NormSq(b));
    MulPos(root(NormSq(a)), root(NormSq(b)));
    DotWithinNorms(a, b, root);
  }

  /**
   * The documented range: the cosine distance lies in [0, 2] for any
   * vectors, and in [0, 1] when no entry is negative.
   */
  lemma CosineDistanceRange(a: seq<real>, b: seq<real>, root: real -> real)
    requires IsSqrt(root)
    ensures 0.0 <= CosineDistance(a, b, root) <= 2.0
    ensures NonNegative(a) && NonNegative(b) ==> CosineDistance(a, b, root) <= 1.0
  {
    if |a| == |b| && |a| != 0 && NormSq(a) != 0.0 && NormSq(b) != 0.0 {
      NormSqNonNegative(a);
      NormSqNonNegative(b);
      NormRootsBoundDot(a, b, root);
      if NonNegative(a) && NonNegative(b) {
        DotNonNegative(a, b);
      }
      SimilarityBound(Dot(a, b), CosineDenominator(a, b, root));
      CosineDistanceUnfold(a, b, root);
    }
  }

  /** Away from the sentinel cases the cosine distance is 1 - a.b / (root(a.a) root(b.b)). */
  lemma CosineDistanceUnfold(a: seq<real>, b: seq<real>, root: real -> real)
    requires IsSqrt(root)
    requires |a| == |b| && |a| != 0 && NormSq(a) != 0.0 && NormSq(b) != 0.0
    ensures 0.0 < CosineDenominator(a, b, root)
    ensures CosineDistance(a, b, root) == 1.0 - Dot(a, b) / CosineDenominator(a, b, root)
  {
    NormSqNonNegative(a);
    NormSqNonNegative(b);
    RootPositive(root, NormSq(a));
    RootPositive(root, NormSq(b));
    MulPos(root(NormSq(a)), root(NormSq(b)));
  }

  lemma CosineDistanceSymmetric(a: seq<real>, b: seq<real>, root: real -> real)
    requires IsSqrt(root)
    ensures CosineDistance(a, b, root) == CosineDistance(b, a, root)
  {
    if |a| == |b| && |a| != 0 && NormSq(a) != 0.0 && NormSq(b) != 0.0 {
      DotSymmetric(a, b);
      assert CosineDenominator(a, b, root) == CosineDenominator(b, a, root);
    }
  }

  /** 1 - d/p lies in [0, 2] when |d| <= p, and in [0, 1] when moreover d >= 0. */
  lemma SimilarityBound(d: real, p: real)
    requires 0.0 < p && -p <= d <= p
    ensures 0.0 <= 1.0 - d / p <= 2.0
    ensures 0.0 <= d ==> 1.0 - d / p <= 1.0
  {
    QuotientBound(d, p);
  }

  /** A vector with a non-zero entry is at distance 0 from itself. */
  lemma CosineDistanceSelf(a: seq<real>, root: real -> real)
    requires IsSqrt(root)
    requires exists i :: 0 <= i < |a| && a[i] != 0.0
    ensures CosineDistance(a, a, root) == 0.0
  {
    NormSqZero(a);
    NormSqNonNegative(a);
    DotSelf(a);
    var n := NormSq(a);
    RootFacts(root, n);
    assert CosineDenominator(a, a, root) == n;
    CosineDistanceUnfold(a, a, root);
  }

  /** A vector with every entry 0 is at the sentinel distance 1 from anything. */
  lemma CosineDistanceOfZeroVector(a: seq<real>, b: seq<real>, root: real -> real)
    requires IsSqrt(root)
    requires forall i :: 0 <= i < |a| ==> a[i] == 0.0
    ensures CosineDistance(a, b, root) == 1.0
    ensures CosineDistance(b, a, root) == 1.0
  {
    NormSqZero(a);
  }

  // ---------------------------------------------------------------------
  // Split distances (src/distance_calculate.cpp:92-130)
  // ---------------------------------------------------------------------

  /**
   * Multi-histogram distance: both inputs are cut at |hist1|/2 and the two
   * halves' `1 - intersection` are averaged. `hist2` is sliced at the same
   * point, so it must be at least |hist1|/2 long.
   */
  function MultiHistDistance(hist1: seq<real>, hist2: seq<real>): real
    requires |hist1| / 2 <= |hist2|
  {
    var mid := |hist1| / 2;
    var dTop := 1.0 - Intersection(hist1[..mid], hist2[..mid]);
    var dBottom := 1.0 - Intersection(hist1[mid..], hist2[mid..]);
    0.5 * dTop + 0.5 * dBottom
  }

  /** Texture-colour distance: the same midpoint split and equal weighting. */
  function TextureColorDistance(hist1: seq<real>, hist2: seq<real>): real
    requires |hist1| / 2 <= |hist2|
  {
    var splitIndex := |hist1| / 2;
    var dColor := 1.0 - Intersection(hist1[..splitIndex], hist2[..splitIndex]);
    var dTex := 1.0 - Intersection(hist1[splitIndex..], hist2[splitIndex..]);
    0.5 * dColor + 0.5 * dTex
  }

  /** The same split-and-average pattern cut at an arbitrary index k. */
  function SplitDistance(hist1: seq<real>, hist2: seq<real>, k: nat): real
    requires k <= |hist1| && k <= |hist2|
  {
    0.5 * (1.0 - Intersection(hist1[..k], hist2[..k])) + 0.5 * (1.0 - Intersection(hist1[k..], hist2[k..]))
  }

  lemma TextureColorAgreesWithMultiHist(hist1: seq<real>, hist2: seq<real>)
    requires |hist1| / 2 <= |hist2|
    ensures TextureColorDistance(hist1, hist2) == MultiHistDistance(hist1, hist2)
  {
  }

  /**
   * On two histograms of one length the cut point does not matter: every
   * split distance equals 1 - SumMin/2.
   */
  lemma SplitPointIrrelevant(hist1: seq<real>, hist2: seq<real>, k: nat)
    requires |hist1| == |hist2| && k <= |hist1|
    ensures SplitDistance(hist1, hist2, k) == 1.0 - 0.5 * SumMin(hist1, hist2)
  {
    assert hist1 == hist1[..k] + hist1[k..];
    assert hist2 == hist2[..k] + hist2[k..];
    SumMinAppend(hist1[..k], hist2[..k], hist1[k..], hist2[k..]);
  }

  lemma MultiHistEqualLengths(hist1: seq<real>, hist2: seq<real>)
    requires |hist1| == |hist2|
    ensures MultiHistDistance(hist1, hist2) == 1.0 - 0.5 * SumMin(hist1, hist2)
  {
    SplitPointIrrelevant(hist1, hist2, |hist1| / 2);
  }

  /**
   * The texture-colour feature is 512 colour bins followed by texture bins,
   * but the distance cuts at the midpoint. For equal lengths the result is
   * nevertheless the distance cut at the colour/texture boundary.
   */
  lemma TextureColorMidpointMatchesLayoutSplit(hist1: seq<real>, hist2: seq<real>)
    requires |hist1| == |hist2| == 512 + 16
    ensures |hist1| / 2 == 264
    ensures TextureColorDistance(hist1, hist2) == SplitDistance(hist1, hist2, 512)
  {
    SplitPointIrrelevant(hist1, hist2, 264);
    SplitPointIrrelevant(hist1, hist2, 512);
  }

  /**
   * With non-negative entries and halves of hist1 each of mass at most 1,
   * the multi-histogram distance lies in [0, 1].
   */
  lemma MultiHistRange(hist1: seq<real>, hist2: seq<real>)
    requires |hist1| / 2 <= |hist2|
    requires NonNegative(hist1) && NonNegative(hist2)
    requires Sum(hist1[..|hist1| / 2]) <= 1.0 && Sum(hist1[|hist1| / 2..]) <= 1.0
    ensures 0.0 <= MultiHistDistance(hist1, hist2) <= 1.0
  {
    var mid := |hist1| / 2;
    HalfIntersectionInUnit(hist1[..mid], hist2[..mid]);
    HalfIntersectionInUnit(hist1[mid..], hist2[mid..]);
  }

  lemma HalfIntersectionInUnit(h1: seq<real>, h2: seq<real>)
    requires NonNegative(h1) && NonNegative(h2)
    requires Sum(h1) <= 1.0
    ensures 0.0 <= Intersection(h1, h2) <= 1.0
  {
    if |h1| == |h2| {
      SumMinNonNegative(h1, h2);
      IntersectionBounds(h1, h2);
    }
  }

  /** Identical inputs whose halves each sum to 1 are at distance 0. */
  lemma MultiHistSelf(h: seq<real>)
    requires Sum(h[..|h| / 2]) == 1.0 && Sum(h[|h| / 2..]) == 1.0
    ensures MultiHistDistance(h, h) == 0.0
  {
    IntersectionSelf(h[..|h| / 2]);
    IntersectionSelf(h[|h| / 2..]);
  }

  /**
   * Inputs of different lengths have bottom halves of different lengths, so
   * the bottom half sits at the sentinel distance 1 and the result is at
   * least 0.5.
   */
  lemma MultiHistLengthMismatch(hist1: seq<real>, hist2: seq<real>)
    requires |hist1| / 2 <= |hist2| && |hist1| != |hist2|
    requires Sum(hist1[..|hist1| / 2]) <= 1.0
    ensures 1.0 - 0.5 * Intersection(hist1[..|hist1| / 2], hist2[..|hist1| / 2]) == MultiHistDistance(hist1, hist2)
    ensures 0.5 <= MultiHistDistance(hist1, hist2)
  {
    var mid := |hist1| / 2;
    IntersectionBounds(hist1[..mid], hist2[..mid]);
  }
}
