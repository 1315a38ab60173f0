/**
 * Coordinates and distances. Points are rows of real coordinates; squared
 * Euclidean distances are computed exactly, and a Euclidean distance (a
 * square root) is kept symbolically as `Root(sq)`, the non-negative root of
 * `sq`, so that no floating-point square root is needed.
 */
module Geometry {

  /** The non-negative square root of `sq`: what `lpNorm<2>()` and `sqrt` return. */
  datatype Dist = Root(sq: real)

  /** Every row of `coords` has `dim` coordinates (an n x dim matrix). */
  predicate Rows(coords: seq<seq<real>>, dim: nat) {
    forall r :: 0 <= r < |coords| ==> |coords[r]| == dim
  }

  /** `coords(i, Eigen::all).sum()`: the sum of a point's coordinates. */
  function Sum(x: seq<real>): real {
    if x == [] then 0.0 else Sum(x[..|x| - 1]) + x[|x| - 1]
  }

  /** `(x - y).squaredNorm()`: the exact squared Euclidean distance. */
  function SqDist(x: seq<real>, y: seq<real>): real
    requires |x| == |y|
  {
    if x == [] then 0.0
    else SqDist(x[..|x| - 1], y[..|y| - 1]) + (x[|x| - 1] - y[|y| - 1]) * (x[|x| - 1] - y[|y| - 1])
  }

  /** `(x - y).lpNorm<2>()`: the Euclidean distance. */
  function Norm(x: seq<real>, y: seq<real>): Dist
    requires |x| == |y|
  {
    Root(SqDist(x, y))
  }

  lemma {:induction false} SqDistNonNegative(x: seq<real>, y: seq<real>)
    requires |x| == |y|
    ensures SqDist(x, y) >= 0.0
  {
    if x != [] {
      var d := x[|x| - 1] - y[|y| - 1];
      SqDistNonNegative(x[..|x| - 1], y[..|y| - 1]);
      assert d * d >= 0.0;
    }
  }

  lemma {:induction false} SqDistSymmetric(x: seq<real>, y: seq<real>)
    requires |x| == |y|
    ensures SqDist(x, y) == SqDist(y, x)
  {
    if x != [] {
      SqDistSymmetric(x[..|x| - 1], y[..|y| - 1]);
      assert (x[|x| - 1] - y[|y| - 1]) * (x[|x| - 1] - y[|y| - 1])
          == (y[|y| - 1] - x[|x| - 1]) * (y[|y| - 1] - x[|x| - 1]);
    }
  }

  lemma {:induction false} SqDistSelf(x: seq<real>)
    ensures SqDist(x, x) == 0.0
  {
    if x != [] {
      SqDistSelf(x[..|x| - 1]);
    }
  }

  /**
   * Cauchy-Schwarz for coordinate sums: the squared gap between the sums of
   * two points' coordinates is at most the dimension times their squared
   * distance. This is what makes a pruning test on sum gaps sound.
   */
  lemma {:induction false} SumGapBound(x: seq<real>, y: seq<real>)
    requires |x| == |y|
    ensures (Sum(x) - Sum(y)) * (Sum(x) - Sum(y)) <= |x| as real * SqDist(x, y)
  {
    if x != [] {
      var x', y' := x[..|x| - 1], y[..|y| - 1];
      var g, q, n := Sum(x') - Sum(y'), SqDist(x', y'), |x'| as real;
      var d := x[|x| - 1] - y[|y| - 1];
      SumGapBound(x', y');
      SqDistNonNegative(x', y');
      assert Sum(x) - Sum(y) == g + d;
      assert SqDist(x, y) == q + d * d;
      var slack := q + n * d * d - 2.0 * g * d;
      if n == 0.0 {
        assert g * g <= 0.0;
        assert g == 0.0;
      } else {
        SquareNonNegative(g - n * d);
        assert n * slack == (n * q - g * g) + (g - n * d) * (g - n * d);
        PositiveFactor(n, slack);
      }
      assert (g + d) * (g + d) == g * g + 2.0 * g * d + d * d;
      assert (n + 1.0) * (q + d * d) == n * q + slack + 2.0 * g * d + d * d;
    }
  }

  lemma SquareNonNegative(a: real)
    ensures a * a >= 0.0
  {
    if a < 0.0 {
      assert a * a == (-a) * (-a);
    }
  }

  lemma PositiveFactor(a: real, b: real)
    requires a > 0.0 && a * b >= 0.0
    ensures b >= 0.0
  {
  }

  /** The distance is symmetric and a point is at distance zero from itself. */
  lemma NormFacts(x: seq<real>, y: seq<real>)
    requires |x| == |y|
    ensures Norm(x, y) == Norm(y, x)
    ensures Norm(x, x) == Root(0.0)
    ensures Norm(x, y).sq >= 0.0
  {
    SqDistSymmetric(x, y);
    SqDistSelf(x);
    SqDistNonNegative(x, y);
  }
}
