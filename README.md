# Shamir threshold averaging, in Dafny

This project models the threshold secret-sharing strategy of `project3.py`.
For each private value, the strategy:

- builds a polynomial of degree `t - 1` whose constant term is the value, where `t = max(2, floor(n/2))`;
- hands out its points `(1, f(1)) .. (n, f(n))` as shares;
- lets `random.sample` pick `t` of them;
- recovers the value by Lagrange interpolation at `x = 0`.

The driver collects the recovered values and returns their mean, rounded to three decimals.

Modules:

- `Outcomes` (`outcomes.dfy`): the two Python exceptions the model represents, as a `Result` value. `ZeroDivisionError` is `DivisionByZero`. The `ValueError` from `random.sample` is `SampleLargerThanPopulation`.
- `Polynomial` (`polynomial.dfy`): the integer polynomial of a value.
  - `Eval` is the index-order sum of `c[i] * x^i`.
  - `ComputingPolynomial` is the accumulating loop.
  - `GeneratePolynomial` builds the coefficient list.
- `RealPolynomial` (`real_polynomial.dfy`): polynomials over exact reals. It proves that a polynomial with at most `m` coefficients that agrees with another such polynomial on `m` distinct points agrees with it everywhere. The proof goes through synthetic division.
- `Lagrange` (`lagrange.dfy`): the weights and the interpolation sum, defined in the order the reconstruction loops compute them. It proves that interpolation through the points of a polynomial of low enough degree gives that polynomial.
- `Shamir` (`shamir.dfy`):
  - the threshold, share generation, sampling, reconstruction and the driver;
  - the end-to-end lemma: whichever `t` shares are sampled, and in whichever order, reconstruction returns the secret.

The two random draws become parameters:

- `blinding`: the `t - 1` coefficients from `random.randint(0, 100)`, each in `[0, 100]`.
- `picks`: the positions `random.sample` chooses, as an injective sequence of `t` indices into the share list.

The interpolation runs over Dafny's exact `real`, not Python floats.

Errors follow the code:

- With fewer than two parties, `t = 2` exceeds the number of shares and `random.sample` raises `ValueError`.
- Coinciding x-coordinates raise `ZeroDivisionError`, and an empty value list raises `ZeroDivisionError` when the mean is computed.
- `reconstruction` accepts any number of shares. On no shares it returns 0.

## Model

| member | source | states |
|---|---|---|
| `Shamir.Threshold` | project3.py:47 | `t >= 2` always; `t <= n` exactly when `n >= 2`; for `n >= 4`, `t` is `n` halved and rounded down (`2t <= n < 2t + 2`); otherwise `t = 2` |
| `Polynomial.GeneratePolynomial` | project3.py:74-77 | the list has `t` coefficients (one when `t < 1`); the first is the value; every later one lies in `[0, 100]`; the polynomial's value at 0 is the secret |
| `Polynomial.ComputingPolynomial` | project3.py:79-83 | the loop returns the sum of `coeffs[i] * x^i`; its invariant keeps `result` equal to the partial sum over the indices seen |
| `Polynomial.EvalAtZero` | project3.py:79-83 | at `x = 0` the sum is the constant coefficient (0 for no coefficients) |
| `Polynomial.EvalHorner` | project3.py:79-83 | the index-order sum equals Horner's rule `c0 + x * (c1 + x * (...))` |
| `Polynomial.EvalAsReal` | project3.py:79-83 | the integer sum equals real Horner evaluation of the same coefficients, which links shares to the interpolation theory |
| `Shamir.SharesOf` | project3.py:85-90 | `n` shares (none when `n <= 0`); share `k` is `(k + 1, f(k + 1))`; x-coordinates strictly ascending and pairwise distinct |
| `Shamir.GenerateShares` | project3.py:85-90 | the appending loop builds exactly the shares of `SharesOf` |
| `Shamir.TShares` | project3.py:92-93 | succeeds exactly when `0 <= t <= len(shares)`, and otherwise raises `ValueError`; gives `t` shares taken at the sampled distinct positions; distinct x-coordinates stay distinct |
| `Shamir.RoundHalfEven` | project3.py:116 | the result is within 1/2 of the input, and on a tie it is even (Python's `round`) |
| `Shamir.Reconstruct` | project3.py:95-116 | fails with `ZeroDivisionError` exactly when two x-coordinates coincide; otherwise the rounded Lagrange interpolant at 0 |
| `Shamir.WeightNext` | project3.py:110-113 | after the factor for `k != j`, `lj` is the product of the factors `(0 - x_k) / (x_j - x_k)` over the visited `k` |
| `Shamir.WeightSkip` | project3.py:110-111 | position `k == j` leaves `lj` unchanged |
| `Shamir.InterpolateNext` | project3.py:114 | adding `f_j * l_j` extends the interpolation sum by point `j` |
| `Shamir.Reconstruction` | project3.py:95-116 | the nested loops compute `Reconstruct`; they stop with `ZeroDivisionError` at the first zero denominator |
| `Lagrange.WeightTimesDenominator` | project3.py:108-113 | the weight of point `j` times the product of `x_j - x_k` is the product of `z - x_k` |
| `Lagrange.InterpolationExact` | project3.py:103-114 | take the values at distinct points of a polynomial that has no more coefficients than points; the interpolation sum through them equals that polynomial at every `z` |
| `RealPolynomial.Divide` | project3.py:103-114 | polynomial algebra behind `InterpolationExact`, not a model of these lines: synthetic division: `p(z) = p(a) + (z - a) * q(z)`, with one coefficient fewer in `q` |
| `RealPolynomial.VanishingPolynomial` | project3.py:103-114 | polynomial algebra behind `InterpolationExact`, not a model of these lines: a polynomial with at most `m` coefficients that vanishes at `m` distinct points vanishes everywhere |
| `RealPolynomial.AgreeOnPoints` | project3.py:103-114 | polynomial algebra behind `InterpolationExact`, not a model of these lines: two polynomials with at most `m` coefficients each that agree on `m` distinct points agree everywhere |
| `Shamir.ReconstructRecoversSecret` | project3.py:95-116 | shares with distinct x-coordinates of a polynomial with no more coefficients than shares reconstruct to the polynomial's value at 0 |
| `Shamir.AnySampleRecovers` | project3.py:52-63 | for `1 <= t <= n`, every sample of `t` of the `n` shares of a value succeeds and reconstructs that value |
| `Shamir.SelectionInvariance` | project3.py:59-63 | two different samples, as a subset or as an order, reconstruct the same value |
| `Shamir.ShareAndReconstruct` | project3.py:51-65 | one round of the driver gives back the value when `n >= 2`, and otherwise raises `ValueError` from the sample |
| `Shamir.Round3` | project3.py:68 | `round(v, 3)`: within 0.0005 of `v`, a whole number of thousandths, and on a tie an even number of thousandths |
| `Shamir.ShamirSecretSharing` | project3.py:44-72 | no values: `ZeroDivisionError`; `n < 2`: `ValueError`; otherwise every value is recovered exactly, so the result is `round(sum(values) / len(values), 3)` |

## Left out

- `paillier_average` (project3.py:24-42) is not modelled. It is a wrapper around the external Paillier library (key generation, encryption, ciphertext addition, decryption), whose code is not part of this model.
- `non_private` (project3.py:15-21) is not modelled. It is the plaintext `numpy.mean` baseline.
- `generate_value` and `main` (project3.py:7-8, 118-134) are not modelled: they generate random test input and run an interactive print loop. The values are a parameter of the driver.
- `computing_time` and every `time.time()` call are not modelled: they read the wall clock. `ShamirSecretSharing` returns the mean only, not the elapsed time.
- The randomness is not modelled as a distribution. Only the range and shape of the draws are modelled: blinding coefficients in `[0, 100]`, and `t` distinct sample positions.
- `ShamirSecretSharing`: `blindings[i]` and `picks[i]` are the draws of round `i`. The model does not say that they are uniform or independent.
- `ShamirSecretSharing`: the float-conversion exceptions are not modelled. At project3.py:114, `fj * lj` converts the share value to a float and raises `OverflowError` once it exceeds about 1.8e308, which can happen for a few hundred parties. `round` at project3.py:116 raises on an infinite or NaN sum. The division at project3.py:68 can overflow for a huge sum. So `Ok(mean)` for every `n >= 2` holds of the exact model only.
- Floating point is not modelled. Reconstruction is computed over exact reals. Python floats can accumulate rounding error in the weights, which can make `int(round(...))` differ from the secret for large values or many shares. The model does not capture this.
- `Round3`: models `round(v, 3)` on the exact mean. Python rounds the nearest binary float instead, so a value whose decimal expansion ends exactly in 5 at the fourth decimal may round differently. The final `float(...)` conversion is taken as the identity.
