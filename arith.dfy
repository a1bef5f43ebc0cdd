/**
 * Facts about products and squares of reals that the distance proofs are
 * built from. Squares are written `Sq(x)` throughout the model, and every
 * inequality about them is derived here from the sign rule for products.
 */
module Arith {

  function Sq(x: real): real
  {
    x * x
  }

  lemma MulPos(a: real, b: real)
    requires 0.0 < a && 0.0 < b
    ensures 0.0 < a * b
  {
  }

  lemma MulLess(c: real, a: real, b: real)
    requires 0.0 < c && a < b
    ensures c * a < c * b
  {
    MulPos(c, b - a);
  }

  lemma MulLeq(c: real, a: real, b: real)
    requires 0.0 <= c && a <= b
    ensures c * a <= c * b
  {
    if 0.0 < c && a < b {
      MulLess(c, a, b);
    }
  }

  lemma SqPositive(x: real)
    requires x != 0.0
    ensures 0.0 < Sq(x)
  {
    if 0.0 < x {
      calc {
        Sq(x);
        x * x;
      >
        0.0;
      }
    } else {
      calc {
        Sq(x);
        (-x) * (-x);
      >
        0.0;
      }
    }
  }

  lemma SqNonNegative(x: real)
    ensures 0.0 <= Sq(x)
  {
    if x != 0.0 {
      SqPositive(x);
    }
  }

  lemma SqZero(x: real)
    ensures Sq(x) == 0.0 <==> x == 0.0
  {
    if x != 0.0 {
      SqPositive(x);
    }
  }

  lemma SqStrictlyIncreasing(u: real, v: real)
    requires 0.0 <= u < v
    ensures Sq(u) < Sq(v)
  {
    MulLess(v, u, v);
    MulLeq(u, u, v);
    calc {
      Sq(u);
      u * u;
    <=
      u * v;
    ==
      v * u;
    <
      v * v;
      Sq(v);
    }
  }

  /** From d^2 <= p^2 with p >= 0 follows -p <= d <= p. */
  lemma SqBound(d: real, p: real)
    requires 0.0 <= p && Sq(d) <= Sq(p)
    ensures -p <= d <= p
  {
    if p < d {
      SqStrictlyIncreasing(p, d);
    } else if d < -p {
      SqStrictlyIncreasing(p, -d);
    }
  }

  lemma SqOfProduct(x: real, y: real)
    ensures Sq(x * y) == Sq(x) * Sq(y)
  {
  }

  /** A quotient by a positive p of something in [-p, p] lies in [-1, 1]. */
  lemma QuotientBound(d: real, p: real)
    requires 0.0 < p && -p <= d <= p
    ensures -1.0 <= d / p <= 1.0
    ensures 0.0 <= d ==> 0.0 <= d / p
  {
    assert d / p * p == d;
  }
}
