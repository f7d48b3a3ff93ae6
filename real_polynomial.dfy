/**
 * Polynomials with exact real coefficients, as coefficient lists
 * `[p0, p1, ..., p(m-1)]` read as `p0 + p1*z + ... + p(m-1)*z^(m-1)`.
 * This is the algebra behind Lagrange interpolation: sums, scaling,
 * multiplication by a linear factor, synthetic division, and the fact
 * that a polynomial with fewer coefficients than roots is zero.
 */
module RealPolynomial {

  /** Horner evaluation of `p` at `z`. */
  function Ev(p: seq<real>, z: real): real
  {
    if |p| == 0 then 0.0 else p[0] + z * Ev(p[1..], z)
  }

  /** Integer coefficients read as reals. */
  function Lift(c: seq<int>): (r: seq<real>)
    ensures |r| == |c|
    ensures forall i :: 0 <= i < |c| ==> r[i] == c[i] as real
  {
    seq(|c|, i requires 0 <= i < |c| => c[i] as real)
  }

  /** Pairwise distinct points. */
  predicate Distinct(xs: seq<real>)
  {
    forall i, k :: 0 <= i < |xs| && 0 <= k < |xs| && i != k ==> xs[i] != xs[k]
  }

  /** Coefficient-wise sum; the shorter list is padded with zeros. */
  function Add(p: seq<real>, q: seq<real>): (r: seq<real>)
    ensures |r| == if |p| < |q| then |q| else |p|
  {
    if |p| == 0 then q
    else if |q| == 0 then p
    else [p[0] + q[0]] + Add(p[1..], q[1..])
  }

  /** Every coefficient multiplied by `a`. */
  function Scale(a: real, p: seq<real>): (r: seq<real>)
    ensures |r| == |p|
  {
    if |p| == 0 then [] else [a * p[0]] + Scale(a, p[1..])
  }

  /** The product `p(z) * (z - a)`. */
  function MulLinear(p: seq<real>, a: real): (r: seq<real>)
    ensures |r| == |p| + 1
  {
    Add(Scale(-a, p), [0.0] + p)
  }

  /** Evaluation distributes over Add. */
  lemma {:induction false} EvAdd(p: seq<real>, q: seq<real>, z: real)
    ensures Ev(Add(p, q), z) == Ev(p, z) + Ev(q, z)
  {
    var r := Add(p, q);
    if |p| != 0 && |q| != 0 {
      assert r[1..] == Add(p[1..], q[1..]);
      EvAdd(p[1..], q[1..], z);
      var u, v := Ev(p[1..], z), Ev(q[1..], z);
      assert z * (u + v) == z * u + z * v;
    }
  }

  /** Evaluation commutes with Scale. */
  lemma {:induction false} EvScale(a: real, p: seq<real>, z: real)
    ensures Ev(Scale(a, p), z) == a * Ev(p, z)
  {
    if |p| != 0 {
      var r := Scale(a, p);
      assert r[1..] == Scale(a, p[1..]);
      EvScale(a, p[1..], z);
      var u := Ev(p[1..], z);
      assert z * (a * u) == a * (z * u);
    }
  }

  /** MulLinear multiplies the value by `z - a`. */
  lemma EvMulLinear(p: seq<real>, a: real, z: real)
    ensures Ev(MulLinear(p, a), z) == (z - a) * Ev(p, z)
  {
    EvAdd(Scale(-a, p), [0.0] + p, z);
    EvScale(-a, p, z);
    assert ([0.0] + p)[1..] == p;
  }

  /** Evaluation of a list with a new constant coefficient in front. */
  lemma EvCons(c: real, r: seq<real>, z: real)
    ensures Ev([c] + r, z) == c + z * Ev(r, z)
  {
    assert ([c] + r)[1..] == r;
  }

  /** The arithmetic behind one synthetic-division step. */
  lemma SyntheticDivisionAlgebra(c: real, u: real, w: real, a: real, z: real, t: real, q: real)
    requires t == u + (z - a) * w && q == u + z * w
    ensures c + z * t == (c + a * u) + (z - a) * q
  {
  }

  /** Horner evaluation peels off the constant coefficient. */
  lemma EvFirst(p: seq<real>, z: real)
    requires |p| > 0
    ensures Ev(p, z) == p[0] + z * Ev(p[1..], z)
  {
  }

  /** One step of synthetic division: prepend `p[1..](a)` to the quotient of `p[1..]`. */
  lemma DivideStep(p: seq<real>, a: real, rest: seq<real>, z: real)
    requires |p| > 1
    requires Ev(p[1..], z) == Ev(p[1..], a) + (z - a) * Ev(rest, z)
    ensures Ev(p, z) == Ev(p, a) + (z - a) * Ev([Ev(p[1..], a)] + rest, z)
  {
    EvCons(Ev(p[1..], a), rest, z);
    EvFirst(p, z);
    EvFirst(p, a);
    SyntheticDivisionAlgebra(p[0], Ev(p[1..], a), Ev(rest, z), a, z, Ev(p[1..], z), Ev([Ev(p[1..], a)] + rest, z));
  }

  /**
   * Synthetic division by `(z - a)`: a quotient with one coefficient
   * fewer such that `p(z) == p(a) + (z - a) * q(z)` for every `z`.
   */
  lemma {:induction false} Divide(p: seq<real>, a: real) returns (q: seq<real>)
    requires |p| > 0
    ensures |q| == |p| - 1
    ensures forall z :: Ev(p, z) == Ev(p, a) + (z - a) * Ev(q, z)
  {
    if |p| == 1 {
      q := [];
      assert p[1..] == [];
    } else {
      var rest := Divide(p[1..], a);
      q := [Ev(p[1..], a)] + rest;
      forall z
        ensures Ev(p, z) == Ev(p, a) + (z - a) * Ev(q, z)
      {
        DivideStep(p, a, rest, z);
      }
    }
  }

  /**
   * A polynomial with at most m coefficients that vanishes at m
   * distinct points vanishes everywhere.
   */
  lemma {:induction false} VanishingPolynomial(p: seq<real>, xs: seq<real>, z: real)
    requires |p| <= |xs|
    requires Distinct(xs)
    requires forall i {:trigger Ev(p, xs[i])} :: 0 <= i < |xs| ==> Ev(p, xs[i]) == 0.0
    ensures Ev(p, z) == 0.0
    decreases |xs|
  {
    if |p| > 0 {
      var a := xs[0];
      var q := Divide(p, a);
      var rest := xs[1..];
      forall i {:trigger Ev(q, rest[i])} | 0 <= i < |rest|
        ensures Ev(q, rest[i]) == 0.0
      {
        assert rest[i] - a != 0.0;
      }
      VanishingPolynomial(q, rest, z);
    }
  }

  /** Evaluation of `a + c*b`. */
  lemma EvAddScale(a: seq<real>, c: real, b: seq<real>, z: real)
    ensures Ev(Add(a, Scale(c, b)), z) == Ev(a, z) + c * Ev(b, z)
  {
    EvAdd(a, Scale(c, b), z);
    EvScale(c, b, z);
  }

  /** Evaluation of `a + c*b` from the values of `a` and `b`. */
  lemma EvAddScaleFrom(a: seq<real>, c: real, b: seq<real>, z: real, u: real, v: real, r: real)
    requires Ev(a, z) == u && Ev(b, z) == v && r == u + c * v
    ensures Ev(Add(a, Scale(c, b)), z) == r
  {
    EvAddScale(a, c, b, z);
    ScaledSumsAgree(Ev(Add(a, Scale(c, b)), z), Ev(a, z), r, u, c, Ev(b, z), v);
  }

  /** Two values of the form `e + c * v` with equal parts are equal. */
  lemma ScaledSumsAgree(E: real, e: real, S: real, s: real, c: real, v: real, V: real)
    requires E == e + c * v && S == s + c * V && e == s && v == V
    ensures E == S
  {
  }

  /** `p - q` vanishes at `x` exactly when `p` and `q` agree there. */
  lemma EvDifference(p: seq<real>, q: seq<real>, x: real)
    ensures Ev(Add(p, Scale(-1.0, q)), x) == 0.0 <==> Ev(p, x) == Ev(q, x)
  {
    EvAddScale(p, -1.0, q, x);
  }

  /**
   * Two polynomials with at most m coefficients each that agree on m
   * distinct points agree everywhere.
   */
  lemma AgreeOnPoints(p: seq<real>, q: seq<real>, xs: seq<real>, z: real)
    requires |p| <= |xs| && |q| <= |xs| && Distinct(xs)
    requires forall i {:trigger Ev(p, xs[i])} {:trigger Ev(q, xs[i])} :: 0 <= i < |xs| ==> Ev(p, xs[i]) == Ev(q, xs[i])
    ensures Ev(p, z) == Ev(q, z)
  {
    forall i {:trigger Ev(Add(p, Scale(-1.0, q)), xs[i])} | 0 <= i < |xs|
      ensures Ev(Add(p, Scale(-1.0, q)), xs[i]) == 0.0
    {
      EvDifference(p, q, xs[i]);
    }
    VanishingPolynomial(Add(p, Scale(-1.0, q)), xs, z);
    EvDifference(p, q, z);
  }
}
