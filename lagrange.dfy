/**
 * Lagrange interpolation over exact reals, in the shape the reconstruction
 * loops compute it: a weight is a running product over k = 0, 1, ... that
 * skips k == j, and the interpolant is a running sum over j = 0, 1, ...
 *
 * The exactness proof works on division-free companions of the weights:
 * the numerator prod (z - xs[k]), as a number and as a polynomial in z,
 * whose value at xs[j] is the denominator prod (xs[j] - xs[k]).
 */
module Lagrange {
  import opened RealPolynomial

  /** No point among the first K other than j coincides with point j. */
  predicate SeparatedFrom(xs: seq<real>, j: nat, K: nat)
    requires j < |xs| && K <= |xs|
  {
    forall k :: 0 <= k < K && k != j ==> xs[k] != xs[j]
  }

  /** Points 0..J-1 each differ from every other point. */
  predicate SeparatedUpTo(xs: seq<real>, J: nat)
    requires J <= |xs|
  {
    forall j, k :: 0 <= j < J && 0 <= k < |xs| && j != k ==> xs[j] != xs[k]
  }

  /** One factor (z - xs[k]) / (xs[j] - xs[k]) of the weight of point j. */
  function Factor(xs: seq<real>, j: nat, k: nat, z: real): real
    requires j < |xs| && k < |xs| && xs[k] != xs[j]
  {
    (z - xs[k]) / (xs[j] - xs[k])
  }

  /** The product, over k < K with k != j, of the factors of point j, multiplied in order of k. */
  function Weight(xs: seq<real>, j: nat, K: nat, z: real): real
    requires j < |xs| && K <= |xs| && SeparatedFrom(xs, j, K)
  {
    if K == 0 then 1.0
    else if K - 1 == j then Weight(xs, j, K - 1, z)
    else Weight(xs, j, K - 1, z) * Factor(xs, j, K - 1, z)
  }

  /** The sum, over j < J in order, of ys[j] times the full weight of point j at z. */
  function Interpolate(xs: seq<real>, ys: seq<real>, J: nat, z: real): real
    requires |ys| == |xs| && J <= |xs| && SeparatedUpTo(xs, J)
  {
    if J == 0 then 0.0
    else Interpolate(xs, ys, J - 1, z) + ys[J - 1] * Weight(xs, J - 1, |xs|, z)
  }

  /** The number prod over k < K, k != j, of (z - xs[k]); at z == xs[j] it is the denominator of the weight. */
  ghost function NumeratorValue(xs: seq<real>, j: nat, K: nat, z: real): real
    requires j < |xs| && K <= |xs|
  {
    if K == 0 then 1.0
    else if K - 1 == j then NumeratorValue(xs, j, K - 1, z)
    else NumeratorValue(xs, j, K - 1, z) * (z - xs[K - 1])
  }

  /** The sum over j < J of cs[j] times the numerator of point j at z. */
  ghost function ScaledSum(xs: seq<real>, cs: seq<real>, J: nat, z: real): real
    requires |cs| == |xs| && J <= |xs|
  {
    if J == 0 then 0.0
    else ScaledSum(xs, cs, J - 1, z) + cs[J - 1] * NumeratorValue(xs, J - 1, |xs|, z)
  }

  /** NumeratorValue is a polynomial in z with one coefficient per factor, plus one. */
  lemma {:induction false} NumeratorPolynomial(xs: seq<real>, j: nat, K: nat) returns (n: seq<real>)
    requires j < |xs| && K <= |xs|
    ensures |n| == if j < K then K else K + 1
    ensures forall z :: Ev(n, z) == NumeratorValue(xs, j, K, z)
  {
    if K == 0 {
      n := [1.0];
      forall z
        ensures Ev(n, z) == NumeratorValue(xs, j, K, z)
      {
        assert n[1..] == [];
      }
    } else if K - 1 == j {
      n := NumeratorPolynomial(xs, j, K - 1);
    } else {
      var b := NumeratorPolynomial(xs, j, K - 1);
      n := MulLinear(b, xs[K - 1]);
      forall z
        ensures Ev(n, z) == NumeratorValue(xs, j, K, z)
      {
        EvMulLinear(b, xs[K - 1], z);
        NumeratorFactorSwap(NumeratorValue(xs, j, K, z), NumeratorValue(xs, j, K - 1, z), z - xs[K - 1], Ev(b, z));
      }
    }
  }

  /** The arithmetic behind one numerator step: `(prod) * (z - x_k)` read as `(z - x_k) * Ev(b, z)`. */
  lemma NumeratorFactorSwap(r: real, a: real, b: real, e: real)
    requires r == a * b && e == a
    ensures r == b * e
  {
  }

  /** One unfolding of ScaledSum. */
  lemma ScaledSumUnfold(xs: seq<real>, cs: seq<real>, J: nat, z: real)
    requires |cs| == |xs| && 0 < J <= |xs|
    ensures ScaledSum(xs, cs, J, z) == ScaledSum(xs, cs, J - 1, z) + cs[J - 1] * NumeratorValue(xs, J - 1, |xs|, z)
  {
  }

  /** ScaledSum is a polynomial in z with at most |xs| coefficients. */
  lemma {:induction false} InterpolantPolynomial(xs: seq<real>, cs: seq<real>, J: nat) returns (l: seq<real>)
    requires |cs| == |xs| && J <= |xs|
    ensures |l| <= |xs|
    ensures forall z :: Ev(l, z) == ScaledSum(xs, cs, J, z)
  {
    if J == 0 {
      l := [];
    } else {
      var prev := InterpolantPolynomial(xs, cs, J - 1);
      var n := NumeratorPolynomial(xs, J - 1, |xs|);
      l := Add(prev, Scale(cs[J - 1], n));
      forall z
        ensures Ev(l, z) == ScaledSum(xs, cs, J, z)
      {
        ScaledSumUnfold(xs, cs, J, z);
        EvAddScaleFrom(prev, cs[J - 1], n, z, ScaledSum(xs, cs, J - 1, z), NumeratorValue(xs, J - 1, |xs|, z), ScaledSum(xs, cs, J, z));
      }
    }
  }

  /** The numerator of point j vanishes at every other point among the first K. */
  lemma {:induction false} NumeratorAtOtherPoint(xs: seq<real>, j: nat, K: nat, i: nat)
    requires j < |xs| && K <= |xs| && i < K && i != j
    ensures NumeratorValue(xs, j, K, xs[i]) == 0.0
  {
    if i < K - 1 {
      NumeratorAtOtherPoint(xs, j, K - 1, i);
    }
  }

  lemma {:induction false} DenominatorNonZero(xs: seq<real>, j: nat, K: nat)
    requires j < |xs| && K <= |xs| && SeparatedFrom(xs, j, K)
    ensures NumeratorValue(xs, j, K, xs[j]) != 0.0
  {
    if K > 0 {
      DenominatorNonZero(xs, j, K - 1);
    }
  }

  /** At an interpolation point only the term of that point survives. */
  lemma {:induction false} ScaledSumAtPoint(xs: seq<real>, cs: seq<real>, J: nat, i: nat)
    requires |cs| == |xs| && J <= |xs| && i < |xs|
    ensures ScaledSum(xs, cs, J, xs[i]) == if i < J then cs[i] * NumeratorValue(xs, i, |xs|, xs[i]) else 0.0
  {
    if J > 0 {
      ScaledSumAtPoint(xs, cs, J - 1, i);
      if J - 1 != i {
        NumeratorAtOtherPoint(xs, J - 1, |xs|, i);
      }
    }
  }

  /** A factor times its denominator is its numerator. */
  lemma FactorTimesGap(xs: seq<real>, j: nat, k: nat, z: real)
    requires j < |xs| && k < |xs| && xs[k] != xs[j]
    ensures Factor(xs, j, k, z) * (xs[j] - xs[k]) == z - xs[k]
  {
  }

  /** The arithmetic behind one weight step: regrouping weight, factor, denominator and gap. */
  lemma WeightProductRegroup(w: real, f: real, d: real, g: real, e: real, h: real)
    requires w * d == e && f * g == h
    ensures (w * f) * (d * g) == e * h
  {
  }

  /** One step of WeightTimesDenominator, for a position k - 1 other than j. */
  lemma WeightStep(xs: seq<real>, j: nat, K: nat, z: real)
    requires j < |xs| && 0 < K <= |xs| && K - 1 != j && SeparatedFrom(xs, j, K)
    requires Weight(xs, j, K - 1, z) * NumeratorValue(xs, j, K - 1, xs[j]) == NumeratorValue(xs, j, K - 1, z)
    ensures Weight(xs, j, K, z) * NumeratorValue(xs, j, K, xs[j]) == NumeratorValue(xs, j, K, z)
  {
    FactorTimesGap(xs, j, K - 1, z);
    WeightProductRegroup(Weight(xs, j, K - 1, z), Factor(xs, j, K - 1, z), NumeratorValue(xs, j, K - 1, xs[j]), xs[j] - xs[K - 1],
            NumeratorValue(xs, j, K - 1, z), z - xs[K - 1]);
  }

  /** A weight times its denominator is its numerator. */
  lemma {:induction false} WeightTimesDenominator(xs: seq<real>, j: nat, K: nat, z: real)
    requires j < |xs| && K <= |xs| && SeparatedFrom(xs, j, K)
    ensures Weight(xs, j, K, z) * NumeratorValue(xs, j, K, xs[j]) == NumeratorValue(xs, j, K, z)
  {
    if K > 0 {
      WeightTimesDenominator(xs, j, K - 1, z);
      if K - 1 != j {
        WeightStep(xs, j, K, z);
      }
    }
  }

  /** The arithmetic behind one interpolation term: `ys[j] * weight == cs[j] * numerator`. */
  lemma TermAsScaledNumerator(y: real, w: real, c: real, d: real, e: real)
    requires c * d == y && w * d == e
    ensures y * w == c * e
  {
  }

  /** One step of InterpolateAsScaledSum. */
  lemma InterpolateStep(xs: seq<real>, ys: seq<real>, cs: seq<real>, J: nat, z: real)
    requires |ys| == |xs| && |cs| == |xs| && 0 < J <= |xs| && SeparatedUpTo(xs, J)
    requires cs[J - 1] * NumeratorValue(xs, J - 1, |xs|, xs[J - 1]) == ys[J - 1]
    requires Interpolate(xs, ys, J - 1, z) == ScaledSum(xs, cs, J - 1, z)
    ensures Interpolate(xs, ys, J, z) == ScaledSum(xs, cs, J, z)
  {
    var j := J - 1;
    WeightTimesDenominator(xs, j, |xs|, z);
    TermAsScaledNumerator(ys[j], Weight(xs, j, |xs|, z), cs[j], NumeratorValue(xs, j, |xs|, xs[j]), NumeratorValue(xs, j, |xs|, z));
  }

  /** Given cs[j] * denominator == ys[j], the interpolant is the scaled numerator sum. */
  lemma {:induction false} InterpolateAsScaledSum(xs: seq<real>, ys: seq<real>, cs: seq<real>, J: nat, z: real)
    requires |ys| == |xs| && |cs| == |xs| && J <= |xs| && SeparatedUpTo(xs, J)
    requires forall j {:trigger NumeratorValue(xs, j, |xs|, xs[j])} :: 0 <= j < J ==> cs[j] * NumeratorValue(xs, j, |xs|, xs[j]) == ys[j]
    ensures Interpolate(xs, ys, J, z) == ScaledSum(xs, cs, J, z)
  {
    if J > 0 {
      InterpolateAsScaledSum(xs, ys, cs, J - 1, z);
      InterpolateStep(xs, ys, cs, J, z);
    }
  }

  /** The coefficients ys[j] / denominator of point j. */
  lemma ScaleFactors(xs: seq<real>, ys: seq<real>) returns (cs: seq<real>)
    requires |ys| == |xs| && Distinct(xs)
    ensures |cs| == |xs|
    ensures forall j {:trigger NumeratorValue(xs, j, |xs|, xs[j])} :: 0 <= j < |xs| ==> cs[j] * NumeratorValue(xs, j, |xs|, xs[j]) == ys[j]
  {
    forall j {:trigger NumeratorValue(xs, j, |xs|, xs[j])} | 0 <= j < |xs|
      ensures NumeratorValue(xs, j, |xs|, xs[j]) != 0.0
    {
      DenominatorNonZero(xs, j, |xs|);
    }
    cs := seq(|xs|, j requires 0 <= j < |xs| => ys[j] / NumeratorValue(xs, j, |xs|, xs[j]));
  }

  /** At one point the polynomial for the scaled numerator sum takes the value of `p` there. */
  lemma ScaledSumMatchesAtPoint(p: seq<real>, l: seq<real>, xs: seq<real>, ys: seq<real>, cs: seq<real>, i: nat)
    requires |ys| == |xs| && |cs| == |xs| && i < |xs|
    requires ys[i] == Ev(p, xs[i])
    requires cs[i] * NumeratorValue(xs, i, |xs|, xs[i]) == ys[i]
    requires Ev(l, xs[i]) == ScaledSum(xs, cs, |xs|, xs[i])
    ensures Ev(p, xs[i]) == Ev(l, xs[i])
  {
    calc {
      Ev(p, xs[i]);
      ys[i];
      cs[i] * NumeratorValue(xs, i, |xs|, xs[i]);
      { ScaledSumAtPoint(xs, cs, |xs|, i); }
      ScaledSum(xs, cs, |xs|, xs[i]);
      Ev(l, xs[i]);
    }
  }

  /** A polynomial for the scaled numerator sum agrees with `p` on every point. */
  lemma ScaledSumMatchesAtPoints(p: seq<real>, l: seq<real>, xs: seq<real>, ys: seq<real>, cs: seq<real>)
    requires |ys| == |xs| && |cs| == |xs|
    requires forall i {:trigger Ev(p, xs[i])} :: 0 <= i < |xs| ==> ys[i] == Ev(p, xs[i])
    requires forall j {:trigger NumeratorValue(xs, j, |xs|, xs[j])} :: 0 <= j < |xs| ==> cs[j] * NumeratorValue(xs, j, |xs|, xs[j]) == ys[j]
    requires forall z :: Ev(l, z) == ScaledSum(xs, cs, |xs|, z)
    ensures forall i {:trigger Ev(p, xs[i])} {:trigger Ev(l, xs[i])} :: 0 <= i < |xs| ==> Ev(p, xs[i]) == Ev(l, xs[i])
  {
    forall i {:trigger Ev(p, xs[i])} | 0 <= i < |xs|
      ensures Ev(p, xs[i]) == Ev(l, xs[i])
    {
      ScaledSumMatchesAtPoint(p, l, xs, ys, cs, i);
    }
  }

  /** The scaled numerator sum through the points of `p` is `p` itself. */
  lemma ScaledSumExact(p: seq<real>, xs: seq<real>, ys: seq<real>, cs: seq<real>, z: real)
    requires Distinct(xs) && |ys| == |xs| && |cs| == |xs| && |p| <= |xs|
    requires forall i {:trigger Ev(p, xs[i])} :: 0 <= i < |xs| ==> ys[i] == Ev(p, xs[i])
    requires forall j {:trigger NumeratorValue(xs, j, |xs|, xs[j])} :: 0 <= j < |xs| ==> cs[j] * NumeratorValue(xs, j, |xs|, xs[j]) == ys[j]
    ensures ScaledSum(xs, cs, |xs|, z) == Ev(p, z)
  {
    var l := InterpolantPolynomial(xs, cs, |xs|);
    ScaledSumMatchesAtPoints(p, l, xs, ys, cs);
    AgreeOnPoints(p, l, xs, z);
  }

  /**
   * Exactness of Lagrange interpolation: given the values at distinct
   * points of a polynomial with no more coefficients than points, the
   * interpolant equals the polynomial everywhere.
   */
  lemma InterpolationExact(p: seq<real>, xs: seq<real>, ys: seq<real>, z: real)
    requires Distinct(xs) && |ys| == |xs| && |p| <= |xs|
    requires forall i {:trigger Ev(p, xs[i])} :: 0 <= i < |xs| ==> ys[i] == Ev(p, xs[i])
    ensures Interpolate(xs, ys, |xs|, z) == Ev(p, z)
  {
    var cs := ScaleFactors(xs, ys);
    ScaledSumExact(p, xs, ys, cs, z);
    InterpolateAsScaledSum(xs, ys, cs, |xs|, z);
  }
}
