/**
 * The secret-bearing polynomial of one value: integer coefficients
 * `[c0, c1, ..., c(t-1)]` with the secret as `c0`, evaluated as the sum
 * of `c[i] * x^i` over the indices in order.
 */
module Polynomial {
  import opened RealPolynomial

  /** `x` raised to the natural power `i` (Python's `x ** i` on ints). */
  function Pow(x: int, i: nat): int
  {
    if i == 0 then 1 else x * Pow(x, i - 1)
  }

  /** The sum of `c[i] * x^i` for i = 0, 1, ..., |c| - 1, added in that order. */
  function Eval(c: seq<int>, x: int): int
  {
    if |c| == 0 then 0 else Eval(c[..|c| - 1], x) + c[|c| - 1] * Pow(x, |c| - 1)
  }

  /** The accumulating loop that evaluates a polynomial at an integer point. */
  method ComputingPolynomial(coeffs: seq<int>, x: int) returns (result: int)
    ensures result == Eval(coeffs, x)
  {
    result := 0;
    for i := 0 to |coeffs|
      invariant result == Eval(coeffs[..i], x)
    {
      assert coeffs[..i + 1][..i] == coeffs[..i];
      result := result + coeffs[i] * Pow(x, i);
    }
    assert coeffs[..|coeffs|] == coeffs;
  }

  /** Every term but the constant one vanishes at zero. */
  lemma {:induction false} EvalAtZero(c: seq<int>)
    ensures Eval(c, 0) == if |c| == 0 then 0 else c[0]
  {
    if |c| > 1 {
      EvalAtZero(c[..|c| - 1]);
    }
  }

  /** The arithmetic behind one Horner step: shifting the last term inside `x * (...)`. */
  lemma HornerShiftAlgebra(c0: int, x: int, e: int, last: int, p: int, tail: int)
    requires tail == e + last * p
    ensures c0 + x * e + last * (x * p) == c0 + x * tail
  {
  }

  /** The index-order sum equals Horner's rule: `c0 + x * (c1 + x * (...))`. */
  lemma {:induction false} EvalHorner(c: seq<int>, x: int)
    requires |c| > 0
    ensures Eval(c, x) == c[0] + x * Eval(c[1..], x)
  {
    var m := |c|;
    if m == 1 {
      assert c[..0] == [] && c[1..] == [];
    } else {
      var init := c[..m - 1];
      EvalHorner(init, x);
      assert init[1..] == c[1..][..m - 2];
      assert c[1..][m - 2] == c[m - 1];
      HornerShiftAlgebra(c[0], x, Eval(init[1..], x), c[m - 1], Pow(x, m - 2), Eval(c[1..], x));
    }
  }

  /** The integer sum agrees with real Horner evaluation of the same coefficients. */
  lemma {:induction false} EvalAsReal(c: seq<int>, x: int)
    ensures Eval(c, x) as real == Ev(Lift(c), x as real)
  {
    if |c| > 0 {
      EvalAsReal(c[1..], x);
      EvalAsRealStep(c, x);
    }
  }

  /** One step of EvalAsReal: from the tail to the whole list. */
  lemma EvalAsRealStep(c: seq<int>, x: int)
    requires |c| > 0
    requires Eval(c[1..], x) as real == Ev(Lift(c[1..]), x as real)
    ensures Eval(c, x) as real == Ev(Lift(c), x as real)
  {
    EvalHorner(c, x);
    EvLiftFirst(c, x as real);
    CastHornerTerm(c[0], x, Eval(c[1..], x), Ev(Lift(c[1..]), x as real), Eval(c, x), Ev(Lift(c), x as real));
  }

  /** Horner evaluation of lifted coefficients peels off the first one. */
  lemma EvLiftFirst(c: seq<int>, z: real)
    requires |c| > 0
    ensures Ev(Lift(c), z) == c[0] as real + z * Ev(Lift(c[1..]), z)
  {
    assert Lift(c)[1..] == Lift(c[1..]);
  }

  /** Casting one Horner step `c0 + x * e` to reals, term by term. */
  lemma CastHornerTerm(c0: int, x: int, e: int, E: real, whole: int, W: real)
    requires E == e as real && whole == c0 + x * e && W == c0 as real + x as real * E
    ensures whole as real == W
  {
    assert (x * e) as real == x as real * e as real;
  }

  /** The random coefficients drawn by `random.randint(0, 100)`, one per degree. */
  predicate Blinding(b: seq<int>, t: int)
  {
    |b| == (if t > 1 then t - 1 else 0) && forall i :: 0 <= i < |b| ==> 0 <= b[i] <= 100
  }

  /**
   * The polynomial of `value` for threshold `t`: the value as constant
   * term, then the blinding coefficients. Degree `t - 1` when `t >= 1`.
   */
  function GeneratePolynomial(value: int, t: int, blinding: seq<int>): (coeffs: seq<int>)
    requires Blinding(blinding, t)
    ensures |coeffs| == if t > 1 then t else 1
    ensures coeffs[0] == value
    ensures forall i :: 1 <= i < |coeffs| ==> 0 <= coeffs[i] <= 100
    ensures Eval(coeffs, 0) == value
  {
    var coeffs := [value] + blinding;
    EvalAtZero(coeffs);
    coeffs
  }
}
