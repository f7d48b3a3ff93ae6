/**
 * Shamir (t, n) threshold sharing of each value in a list: the value is
 * the constant term of a random polynomial of degree t - 1, the n shares
 * are its points at x = 1..n, t of them are sampled, and Lagrange
 * interpolation at x = 0 recovers the value. The driver averages the
 * recovered values.
 *
 * The two random draws are parameters: the blinding coefficients of each
 * polynomial (`random.randint(0, 100)`) and the positions that
 * `random.sample` picks.
 */
module Shamir {
  import opened Outcomes
  import opened RealPolynomial
  import opened Lagrange
  import opened Polynomial

  /** A share `(x, f(x))`. */
  datatype Share = Share(x: int, y: int)

  /**
   * The threshold for n parties: half of n rounded down, but at least 2.
   * Dafny's `/` by 2 rounds toward negative infinity, like `math.floor(n/2)`.
   */
  function Threshold(n: int): (t: int)
    ensures t >= 2
    ensures t <= n <==> n >= 2
    ensures n >= 4 ==> t + t <= n < t + t + 2
    ensures n < 4 ==> t == 2
  {
    var half := n / 2;
    if 2 >= half then 2 else half
  }

  /** The x-coordinates are pairwise distinct. */
  predicate DistinctXs(s: seq<Share>)
  {
    forall i, k :: 0 <= i < |s| && 0 <= k < |s| && i != k ==> s[i].x != s[k].x
  }

  /** The shares of the polynomial `coeffs` for parties 1..n; none when n <= 0. */
  function SharesOf(coeffs: seq<int>, n: int): (s: seq<Share>)
    ensures |s| == if n > 0 then n else 0
    ensures forall i :: 0 <= i < |s| ==> s[i].x == i + 1 && s[i].y == Eval(coeffs, s[i].x)
    ensures forall i, k :: 0 <= i < k < |s| ==> s[i].x < s[k].x
    ensures DistinctXs(s)
  {
    seq(if n > 0 then n else 0, i requires 0 <= i => Share(i + 1, Eval(coeffs, i + 1)))
  }

  /** The loop that evaluates the polynomial at 1..n and appends each share. */
  method GenerateShares(coeffs: seq<int>, n: int) returns (shares: seq<Share>)
    ensures shares == SharesOf(coeffs, n)
  {
    shares := [];
    var i := 1;
    while i <= n
      invariant 1 <= i <= (if n > 0 then n + 1 else 1)
      invariant shares == SharesOf(coeffs, i - 1)
    {
      var result := ComputingPolynomial(coeffs, i);
      shares := shares + [Share(i, result)];
      i := i + 1;
    }
  }

  /** `picks` names `t` distinct positions of a list of length `size`. */
  predicate IsSample(picks: seq<int>, t: int, size: int)
  {
    && |picks| == t
    && (forall i :: 0 <= i < |picks| ==> 0 <= picks[i] < size)
    && (forall i, k :: 0 <= i < k < |picks| ==> picks[i] != picks[k])
  }

  /**
   * `random.sample(shares, t)`: the shares at the sampled positions, in the
   * order sampled; a ValueError when t is negative or exceeds the population.
   */
  function TShares(shares: seq<Share>, t: int, picks: seq<int>): (r: Result<seq<Share>>)
    requires 0 <= t <= |shares| ==> IsSample(picks, t, |shares|)
    ensures r.Ok? <==> 0 <= t <= |shares|
    ensures r.Err? ==> r.error == SampleLargerThanPopulation
    ensures r.Ok? ==> |r.value| == t && forall i :: 0 <= i < t ==> r.value[i] == shares[picks[i]]
    ensures r.Ok? && DistinctXs(shares) ==> DistinctXs(r.value)
  {
    if 0 <= t <= |shares| then
      Ok(seq(t, i requires 0 <= i < t => shares[picks[i]]))
    else
      Err(SampleLargerThanPopulation)
  }

  /** Python's `round` to an integer: the nearest integer, ties to the even one. */
  function RoundHalfEven(v: real): (k: int)
    ensures -0.5 <= k as real - v <= 0.5
    ensures (k as real - v == 0.5 || k as real - v == -0.5) ==> k % 2 == 0
  {
    var f := v.Floor;
    var d := v - f as real;
    if d < 0.5 then f
    else if d > 0.5 then f + 1
    else if f % 2 == 0 then f
    else f + 1
  }

  /** Rounding an integral value gives it back. */
  lemma RoundIntegral(k: int)
    ensures RoundHalfEven(k as real) == k
  {
  }

  /** The x-coordinates as reals. */
  function Xs(s: seq<Share>): (r: seq<real>)
    ensures |r| == |s| && forall i :: 0 <= i < |s| ==> r[i] == s[i].x as real
  {
    seq(|s|, i requires 0 <= i < |s| => s[i].x as real)
  }

  /** The y-coordinates as reals. */
  function Ys(s: seq<Share>): (r: seq<real>)
    ensures |r| == |s| && forall i :: 0 <= i < |s| ==> r[i] == s[i].y as real
  {
    seq(|s|, i requires 0 <= i < |s| => s[i].y as real)
  }

  /** Distinct integer x-coordinates stay distinct as reals. */
  lemma DistinctXsAsReal(s: seq<Share>)
    ensures DistinctXs(s) <==> Distinct(Xs(s))
  {
  }

  /**
   * What reconstruction computes: the Lagrange interpolant of the shares
   * at 0, rounded; ZeroDivisionError exactly when two x-coordinates coincide.
   */
  function Reconstruct(selected: seq<Share>): (r: Result<int>)
    ensures r.Ok? <==> DistinctXs(selected)
    ensures r.Err? ==> r.error == DivisionByZero
  {
    if DistinctXs(selected) then
      DistinctXsAsReal(selected);
      Ok(RoundHalfEven(Interpolate(Xs(selected), Ys(selected), |selected|, 0.0)))
    else
      Err(DivisionByZero)
  }

  /** `lj` is the product of the factors of point j over the positions k visited so far. */
  ghost predicate WeightSoFar(rxs: seq<real>, j: nat, k: nat, lj: real)
  {
    j < |rxs| && k <= |rxs| && SeparatedFrom(rxs, j, k) && lj == Weight(rxs, j, k, 0.0)
  }

  /** `secret` is the interpolation sum over the points visited so far. */
  ghost predicate SumSoFar(rxs: seq<real>, rys: seq<real>, j: nat, secret: real)
  {
    |rys| == |rxs| && j <= |rxs| && SeparatedUpTo(rxs, j) && secret == Interpolate(rxs, rys, j, 0.0)
  }

  /** The nested loops of reconstruction: weights `lj` by running products, the secret by a running sum. */
  method Reconstruction(selected: seq<Share>) returns (r: Result<int>)
    ensures r == Reconstruct(selected)
  {
    var xs := seq(|selected|, i requires 0 <= i < |selected| => selected[i].x);
    var ys := seq(|selected|, i requires 0 <= i < |selected| => selected[i].y);
    ghost var rxs, rys := Xs(selected), Ys(selected);
    var secret := 0.0;
    for j := 0 to |xs|
      invariant SumSoFar(rxs, rys, j, secret)
    {
      var xj := xs[j];
      var fj := ys[j];
      var lj := 1.0;
      for k := 0 to |xs|
        invariant WeightSoFar(rxs, j, k, lj)
      {
        if k != j {
          var xk := xs[k];
          if xj - xk == 0 {
            assert selected[j].x == selected[k].x;
            return Err(DivisionByZero);
          }
          WeightNext(rxs, j, k, xj, xk, lj);
          lj := lj * ((0 - xk) as real / (xj - xk) as real);
        } else {
          WeightSkip(rxs, j, k, lj);
        }
      }
      InterpolateNext(rxs, rys, j, fj, lj, secret);
      secret := secret + fj as real * lj;
    }
    DistinctXsAsReal(selected);
    r := Ok(RoundHalfEven(secret));
  }

  /** The weight grows by one factor when k differs from j. */
  lemma WeightNext(rxs: seq<real>, j: nat, k: nat, xj: int, xk: int, lj: real)
    requires WeightSoFar(rxs, j, k, lj) && k < |rxs| && k != j
    requires rxs[j] == xj as real && rxs[k] == xk as real && xj - xk != 0
    ensures WeightSoFar(rxs, j, k + 1, lj * ((0 - xk) as real / (xj - xk) as real))
  {
  }

  /** The weight of point j skips k == j. */
  lemma WeightSkip(rxs: seq<real>, j: nat, k: nat, lj: real)
    requires WeightSoFar(rxs, j, k, lj) && k == j
    ensures WeightSoFar(rxs, j, k + 1, lj)
  {
  }

  /** Adding the term of point j to the running sum. */
  lemma InterpolateNext(rxs: seq<real>, rys: seq<real>, j: nat, fj: int, lj: real, secret: real)
    requires SumSoFar(rxs, rys, j, secret) && WeightSoFar(rxs, j, |rxs|, lj) && rys[j] == fj as real
    ensures SumSoFar(rxs, rys, j + 1, secret + fj as real * lj)
  {
  }

  /**
   * The central claim: from shares with distinct x-coordinates of a
   * polynomial with no more coefficients than shares, reconstruction
   * returns the polynomial's value at 0.
   */
  lemma ReconstructRecoversSecret(coeffs: seq<int>, selected: seq<Share>)
    requires |coeffs| <= |selected| && DistinctXs(selected)
    requires forall i :: 0 <= i < |selected| ==> selected[i].y == Eval(coeffs, selected[i].x)
    ensures Reconstruct(selected) == Ok(Eval(coeffs, 0))
  {
    var p := Lift(coeffs);
    var xs, ys := Xs(selected), Ys(selected);
    DistinctXsAsReal(selected);
    forall i {:trigger Ev(p, xs[i])} | 0 <= i < |xs|
      ensures ys[i] == Ev(p, xs[i])
    {
      EvalAsReal(coeffs, selected[i].x);
    }
    InterpolationExact(p, xs, ys, 0.0);
    EvalAsReal(coeffs, 0);
    RoundIntegral(Eval(coeffs, 0));
  }

  /**
   * Whichever t of the n shares of `value` are sampled, and in whichever
   * order, reconstruction returns `value`.
   */
  lemma AnySampleRecovers(value: int, t: int, blinding: seq<int>, n: int, picks: seq<int>)
    requires 1 <= t <= n && Blinding(blinding, t) && IsSample(picks, t, n)
    ensures TShares(SharesOf(GeneratePolynomial(value, t, blinding), n), t, picks).Ok?
    ensures Reconstruct(TShares(SharesOf(GeneratePolynomial(value, t, blinding), n), t, picks).value) == Ok(value)
  {
    var coeffs := GeneratePolynomial(value, t, blinding);
    var selected := TShares(SharesOf(coeffs, n), t, picks).value;
    ReconstructRecoversSecret(coeffs, selected);
  }

  /** Two different samples of the same shares reconstruct the same value. */
  lemma SelectionInvariance(value: int, t: int, blinding: seq<int>, n: int, picks: seq<int>, picks': seq<int>)
    requires 1 <= t <= n && Blinding(blinding, t) && IsSample(picks, t, n) && IsSample(picks', t, n)
    ensures Reconstruct(TShares(SharesOf(GeneratePolynomial(value, t, blinding), n), t, picks).value)
         == Reconstruct(TShares(SharesOf(GeneratePolynomial(value, t, blinding), n), t, picks').value)
  {
    AnySampleRecovers(value, t, blinding, n, picks);
    AnySampleRecovers(value, t, blinding, n, picks');
  }

  /**
   * One round of the driver's loop for `value`: polynomial, shares,
   * sample, reconstruction. It gives back `value` whenever there are
   * at least two parties; otherwise random.sample raises.
   */
  method ShareAndReconstruct(value: int, n: int, t: int, blinding: seq<int>, picks: seq<int>) returns (r: Result<int>)
    requires t == Threshold(n) && Blinding(blinding, t)
    requires n >= 2 ==> IsSample(picks, t, n)
    ensures r == if n >= 2 then Ok(value) else Err(SampleLargerThanPopulation)
  {
    var coeffs := GeneratePolynomial(value, t, blinding);
    var shares := GenerateShares(coeffs, n);
    var selected := TShares(shares, t, picks);
    if selected.Err? {
      return Err(selected.error);
    }
    r := Reconstruction(selected.value);
    AnySampleRecovers(value, t, blinding, n, picks);
  }

  /** The integer sum of a list, added left to right. */
  function Sum(values: seq<int>): int
  {
    if |values| == 0 then 0 else Sum(values[..|values| - 1]) + values[|values| - 1]
  }

  /** Python's `round(v, 3)`: the nearest multiple of 0.001, ties to an even number of thousandths. */
  function Round3(v: real): (r: real)
    ensures -0.0005 <= r - v <= 0.0005
    ensures (r * 1000.0).Floor as real == r * 1000.0
    ensures (r - v == 0.0005 || r - v == -0.0005) ==> (r * 1000.0).Floor % 2 == 0
  {
    RoundHalfEven(v * 1000.0) as real / 1000.0
  }

  /**
   * The driver: shares and reconstructs every value with threshold
   * `Threshold(n)`, then returns the mean of the recovered values rounded
   * to three decimals. `blindings[i]` and `picks[i]` are the random draws
   * of round i. With no values the mean divides by zero; with fewer than
   * two parties the first sample raises.
   */
  method ShamirSecretSharing(values: seq<int>, n: int, blindings: seq<seq<int>>, picks: seq<seq<int>>) returns (r: Result<real>)
    requires |blindings| == |values| && |picks| == |values|
    requires forall i :: 0 <= i < |values| ==> Blinding(blindings[i], Threshold(n))
    requires n >= 2 ==> forall i :: 0 <= i < |values| ==> IsSample(picks[i], Threshold(n), n)
    ensures |values| == 0 ==> r == Err(DivisionByZero)
    ensures |values| > 0 && n < 2 ==> r == Err(SampleLargerThanPopulation)
    ensures |values| > 0 && n >= 2 ==> r == Ok(Round3(Sum(values) as real / |values| as real))
  {
    var t := Threshold(n);
    var recovered: seq<int> := [];
    for i := 0 to |values|
      invariant recovered == values[..i]
      invariant i > 0 ==> n >= 2
    {
      var value := ShareAndReconstruct(values[i], n, t, blindings[i], picks[i]);
      if value.Err? {
        return Err(value.error);
      }
      recovered := recovered + [value.value];
    }
    if |recovered| == 0 {
      return Err(DivisionByZero);
    }
    assert recovered == values;
    r := Ok(Round3(Sum(recovered) as real / |recovered| as real));
  }
}
