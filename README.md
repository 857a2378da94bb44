# byo-cas polynomial core, modelled in Dafny

byo-cas is a small polynomial calculator. This project models the three parts of it that are exact arithmetic, or become exact once `f64` is read as a mathematical real.

- **The low-to-high floating-point polynomial** (`src/polynomial.rs`), in `polynomial.dfy` (module `Polynomials`). Coefficient `i` multiplies x^i. The model covers:
  - complex evaluation of P and P′ (`eval_at`, `deriv_at`);
  - the Aberth separation sum and correction (`offset_number_sum`, `offset_number`);
  - the symbolic `derivative` and `integral`;
  - the `pretty` renderer;
  - the rendering loop of `pretty_factored`, taking the root list as input.
- **The parser's data** (`src/parser/mod.rs`), in `parser.dfy` (module `Parser`). It covers `Term::new`, and `Polynomial::new`, which builds the dense coefficient vector from the parsed terms, highest power first.
- **The exact evaluator** (`src/factorize.rs`), in `factorize.dfy` (module `Factorize`). It works over complex rationals on the parser's polynomial. The model covers:
  - `eval_at` and `deriv_at`, which count down from the leading coefficient, each proved equal to the low-to-high evaluator on the reversed coefficients;
  - the Aberth correction `offset_number`;
  - the in-place sweep and the ten rounds of `factors`, including the constant result [1, 2];
  - `pretty_factored`.

Three modules are shared:
- `complex.dfy` (`ComplexNumbers`): a complex number as a pair of reals, with the component formulas of num-complex.
- `aberth.dfy` (`Aberth`): the separation sum Σ_{j≠k} 1/(z_k − z_j), which both evaluators use.
- `text.dfy` (`Text`): decimal rendering of exponents and string counting.

The loops of the source are methods with loop invariants:
- `eval_at` and `deriv_at` of both files;
- the `t2` loop of `offset_number`;
- the sweep, which works in place on an `array`;
- the slot-filling loop of `Polynomial::new`, over an `array`;
- the string-building loops of the renderers.

Each method is proved equal to a specification function. The properties the source promises are lemmas about those functions.

Modelling choices:
- **Numbers.** `f64` and `Rational` are both `real`, so every value is the exact one.
- **Division.** `Div` requires `Invertible(b)`, meaning the squared modulus of `b` is nonzero. Over the reals this is the same as `b ≠ 0`. `InvertibleIsNonzero` proves only one direction of that: an invertible `b` is nonzero. A divisor that is not invertible is exactly the case in which num-complex's `Rational` division would divide by zero.
- **Panics in `src/factorize.rs`.** A division by a zero rational panics in the source. In the model (`Correction`, `Sweep`, `Factors`, `PrettyFactored`) it is a `Failure` naming the divisor that vanished.
- **Panics from indexing, `usize` underflow, a failed `try_into`, or `unwrap` of an empty iterator** become preconditions, each stated where the source panics:
  - in `Polynomial::new`: an empty term list (indexing `terms[0]`), an exponent above the first (`usize` underflow in `degree - exponent`), or a negative exponent (`try_into().unwrap()` at `src/parser/mod.rs:30,34`);
  - degree 0 in `deriv_at` of `src/factorize.rs`;
  - a degree above 2 in the sweep, whose vector has two slots;
  - `Option::unwrap` on an all-zero polynomial in `pretty` (`src/polynomial.rs:147`).
- **`deriv_at`'s term.** The loop of `Polynomials.DerivAt` adds the slope term (c[exp]·exp)·z^(exp−1) through one function, `SlopeTerm`. The source first binds the product c[exp]·exp to a local.
- **`pretty`'s string.** `Polynomials.Pretty` accumulates the later terms in a separate string and appends it after the first term. The first term's exponent comes from the method `FirstTerm`. The source appends everything to one `String`; the text is the same.
- **Rendering magnitudes.** `Rational32::approximate_float` followed by `Display`, and `Display` of a `Rational`, are passed in as a function `show: real -> string`. Most rendering properties that need it assume only that `show` writes digits and possibly a fraction bar (`Text.Numeral`). `Factorize.StubRendering` assumes in addition that `show(1.0)` is "1" and `show(2.0)` is "2".

Points where the model follows the code as written, including the places where the two evaluators differ:
- **The zero root.** `src/polynomial.rs:125-126` writes "x" for a zero root. `src/factorize.rs:84-85` writes "(x + 0)".
- **Sign of the correction.** Aberth's method subtracts the correction, as `src/polynomial.rs:79` does. `src/factorize.rs:69` adds it.
- **Updates within a pass.** The sweep updates each slot in place, so step j reads slots 0..j−1 already corrected (`src/factorize.rs:67-70`).
- **Number of rounds.** `factors` of `src/factorize.rs` performs 10 sweeps (`src/factorize.rs:66`). The one of `src/polynomial.rs` performs 100 (`src/polynomial.rs:76`).
- **Divisor of the correction.** `src/factorize.rs:56` divides t1 by (1 − t1)·t2. `src/polynomial.rs:64` divides by 1 − t1·t2. Both are modelled as written. `Factorize.LoneApproximationHasZeroDivisor` and `Polynomials.SingleApproximationIsNewton` show where the two differ.
- **Degree after derivative or integral.** `derivative` and `integral` copy `degree` unchanged, although the coefficient vector becomes one shorter or one longer.
- **The test polynomial.** The test helper of `src/polynomial.rs:200-205` gives no value for `unspecified`. The model uses `false`.
- **`src/factorize.rs` is not compiled.** `src/main.rs:3-4` does not declare `src/factorize.rs` as a module. Its `Polynomial` is the parser's type, so that file is modelled over `Parser.Polynomial`.

## Model

| member | source | states |
|---|---|---|
| ComplexNumbers.DivIsZeroIff | src/factorize.rs:56 | a quotient of complex numbers is zero exactly when its numerator is, for every invertible divisor |
| Aberth.OffsetNumberSumSkipsOwnIndex | src/polynomial.rs:18-31 | the fold over the approximation vector equals Σ 1/(z_k − z_j) over the vector with index k removed; every other index is counted once, and every divisor is nonzero when the others are apart from z_k |
| Aberth.PrefixIsReciprocalSum | src/polynomial.rs:21-30 | after the first n elements, the fold's accumulator is the reciprocal sum over those elements, index k excluded |
| Text.NatToString | src/polynomial.rs:164 | the exponent is written as a nonempty string of decimal digits with no leading zero |
| Text.DigitsValueOfNatToString | src/polynomial.rs:184 | reading the written exponent back as a decimal number gives the exponent |
| Text.NatToStringInjective | src/polynomial.rs:184 | different exponents are written differently |
| Polynomials.EvalAt | src/polynomial.rs:34-44 | `eval_at` returns Σ_{i=0..degree} c[i]·z^i, and needs more than `degree` coefficients |
| Polynomials.DerivAt | src/polynomial.rs:46-57 | `deriv_at` returns Σ_{i=1..degree} (c[i]·i)·z^(i−1), and returns 0 for degree 0 |
| Polynomials.DerivSumIgnoresConstant | src/polynomial.rs:47-50 | the constant coefficient never affects `deriv_at` |
| Polynomials.DerivativeCoefficients | src/polynomial.rs:92-98 | the new vector is one shorter (empty for an empty one), and entry i is (i+1)·c[i+1] |
| Polynomials.Derivative | src/polynomial.rs:89-101 | `derivative` applies that map to the coefficients and copies `degree` and `unspecified` unchanged |
| Polynomials.IntegralCoefficients | src/polynomial.rs:107-113 | the new vector is one longer, entry 0 is 0, and entry i+1 times (i+1) is c[i], i.e. entry i+1 is c[i]/(i+1) |
| Polynomials.Integral | src/polynomial.rs:103-116 | `integral` applies that map, sets `unspecified`, and keeps `degree` |
| Polynomials.DerivativeOfIntegral | src/polynomial.rs:92-113 | the derivative of the integral has exactly the original coefficients |
| Polynomials.DerivSumIsPowerSumOfDerivative | src/polynomial.rs:46-98 | the derivative sum `deriv_at` computes is the value of the polynomial `derivative` produces |
| Polynomials.DerivSumOfIntegral | src/polynomial.rs:46-116 | the derivative sum of the integral's coefficients is the value of the original polynomial |
| Polynomials.OffsetNumber | src/polynomial.rs:60-65 | t1/(1 − t1·S_k), with t1 = P(z_k)/P′(z_k), is defined when P′(z_k) ≠ 0, the others are apart from z_k and 1 − t1·S_k ≠ 0; then it is zero exactly when z_k is a root |
| Polynomials.SingleApproximationIsNewton | src/polynomial.rs:60-65 | with a single approximation the separation sum is 0 and the correction is Newton's P(z)/P′(z) |
| Polynomials.TestPolynomialAtReal | src/polynomial.rs:200-223 | the test polynomial [2, 3, 1] has value 2 + 3x + x² and slope 3 + 2x at every real x |
| Polynomials.TestPolynomialValues | src/polynomial.rs:211-214 | `eval_at` of the test polynomial gives 6, 2, 0 and 0 at 1, 0, −1 and −2 |
| Polynomials.TestPolynomialSlopes | src/polynomial.rs:221-223 | `deriv_at` of the test polynomial gives 5, 7 and 9 at 1, 2 and 3 |
| Polynomials.HighestNonzero | src/polynomial.rs:140-147 | the first term is the nonzero coefficient of highest exponent, and every coefficient above it is zero |
| Polynomials.FirstTerm | src/polynomial.rs:140-147 | scanning down from the top finds that exponent, and needs some nonzero coefficient (the `unwrap`) |
| Polynomials.NonzeroExponents | src/polynomial.rs:140-145 | the exponents the filtered, reversed iterator visits lie in the requested range |
| Polynomials.NonzeroExponentsExact | src/polynomial.rs:140-145 | those are exactly the exponents of the nonzero coefficients, in strictly decreasing order |
| Polynomials.TermsBetweenFollowsNonzeroExponents | src/polynomial.rs:167-186 | the later terms written are one term per nonzero coefficient below the first, highest exponent first |
| Polynomials.Pretty | src/polynomial.rs:137-193 | `pretty` writes the first term, then every later nonzero term in decreasing exponent with its sign and magnitude, then " + c" when the constant is unspecified |
| Polynomials.LeadTextStart | src/polynomial.rs:148-165 | the first term starts with "-" exactly for a negative coefficient, and with "x" exactly when its magnitude is omitted (coefficient 1.0, exponent above 0) |
| Polynomials.PrettyStart | src/polynomial.rs:147-165 | the same holds for the whole rendering |
| Polynomials.PrettyEndsWithConstantIff | src/polynomial.rs:188-190 | the rendering ends with " + c" if and only if `unspecified` is set |
| Polynomials.PrettyOfTestPolynomial | src/polynomial.rs:137-193 | the test polynomial renders as "x^2 + 3x + 2", with the magnitudes as `show` writes them |
| Polynomials.PrettyFactored | src/polynomial.rs:121-133 | the loop writes the factors of the roots one after another |
| Polynomials.FactoredTextConcat | src/polynomial.rs:123-131 | rendering a concatenation of root lists concatenates their renderings |
| Polynomials.FactorTextSign | src/polynomial.rs:124-130 | a factor is "x" exactly for the root 0; otherwise it opens with "(x " and then "-" exactly for a positive root |
| Polynomials.FactorTextHasOneX | src/polynomial.rs:125-130 | with a numeral magnitude a factor contains exactly one x |
| Polynomials.FactoredTextCountsRoots | src/polynomial.rs:123-131 | with numeral magnitudes the rendering contains one x per root |
| Parser.NewTerm | src/parser/mod.rs:20-25 | `Term::new(c, e)` stores the coefficient c/1 and the exponent e |
| Parser.NewTermInjective | src/parser/mod.rs:20-25 | terms built from different arguments are different |
| Parser.New | src/parser/mod.rs:29-42 | the degree is the first term's exponent, there are degree + 1 slots, and the slot of exponent e is at index degree − e and holds the coefficient of the last term with exponent e (0 without one); the terms must be nonempty with exponents in 0..=degree |
| Parser.CoefficientOfAbsent | src/parser/mod.rs:31 | an exponent that no term carries keeps the coefficient 0 |
| Parser.CoefficientOfLastWins | src/parser/mod.rs:33-36 | when several terms share an exponent, the last of them gives the coefficient |
| Parser.NewExample | src/parser/mod.rs:29-42 | 3x^2 + 5 + 2x^2 gives 2 for x^2, 0 for x and 5 for the constant |
| Factorize.EvalAt | src/factorize.rs:8-21 | `eval_at` returns Σ_{i=0..degree} c[i]·x^(degree−i), index 0 holding the leading coefficient |
| Factorize.DerivAt | src/factorize.rs:23-42 | `deriv_at` returns Σ_{i=0..degree−1} (c[i]·(degree−i))·x^(degree−1−i), and needs degree ≥ 1 |
| Factorize.ValueAtAgrees | src/factorize.rs:8-21 | that value is the low-to-high evaluator's value of the reversed coefficients |
| Factorize.SlopeIsFormalDerivative | src/factorize.rs:23-42 | `deriv_at` evaluates the formal derivative of the polynomial `eval_at` evaluates |
| Factorize.SlopeAtAgrees | src/factorize.rs:23-42 | `deriv_at` equals the low-to-high `deriv_at` of the reversed coefficients |
| Factorize.TestPolynomialReversed | src/factorize.rs:98-105 | the test polynomial [1, 3, 2], read lowest power first, is the other file's test polynomial |
| Factorize.TestPolynomialValues | src/factorize.rs:107-127 | `eval_at` gives 6 and `deriv_at` gives 5 at 1 |
| Factorize.Correction | src/factorize.rs:44-57 | t1/((1 − t1)·t2) fails exactly when P′(z_k), some z_k − z_j or (1 − t1)·t2 is zero, and the fault names the first of them in that order; otherwise it is zero exactly when z_k is a root |
| Factorize.OffsetNumber | src/factorize.rs:44-57 | the t2 loop accumulates the separation sum, and the method returns that correction or that fault |
| Factorize.LoneApproximationHasZeroDivisor | src/factorize.rs:48-56 | with a single approximation t2 is 0, so the final division always fails |
| Factorize.SweepSteps | src/factorize.rs:67-70 | after n steps the vector keeps its length and every slot from n on is unchanged |
| Factorize.Sweep | src/factorize.rs:67-70 | in place, step j adds the correction of slot j, computed from the vector as the earlier steps left it; the sweep stops at the first fault |
| Factorize.FailureIsFinal | src/factorize.rs:67-70 | once a step fails, the sweep fails with that fault |
| Factorize.Sweeps | src/factorize.rs:66-71 | repeated sweeps keep the vector's length |
| Factorize.SweepsFailureIsFinal | src/factorize.rs:66-71 | once a sweep fails, all later rounds fail with the same fault |
| Factorize.FactorsResult | src/factorize.rs:59-76 | `factors` returns [1, 2] exactly when all ten sweeps from 1 + i and 2 + i complete |
| Factorize.Factors | src/factorize.rs:59-76 | the method computes that result over a two-slot array, and needs degree ≤ 2 |
| Factorize.ConstantNeverFails | src/factorize.rs:67 | for degree 0 no slot is corrected and no sweep fails |
| Factorize.RootsAreFixed | src/factorize.rs:67-70 | a sweep that completes over approximations that are all roots leaves them unchanged |
| Factorize.FactoredTextConcat | src/factorize.rs:83-86 | rendering a concatenation of root lists concatenates their renderings |
| Factorize.FactorTextHasOneX | src/factorize.rs:84-85 | with a numeral magnitude a chunk contains exactly one x |
| Factorize.FactoredTextCountsRoots | src/factorize.rs:83-86 | with numeral magnitudes the output contains one x per root |
| Factorize.PrettyFactored | src/factorize.rs:78-89 | `pretty_factored` renders the roots of `factors`, or fails with its fault |
| Factorize.FactorTextSign | src/factorize.rs:84-85 | a chunk opens with "(x " and then "-" exactly for a positive root, so 0 gives "(x + 0)" |
| Factorize.StubRendering | src/factorize.rs:75-86 | with the constant roots and integer magnitudes the output is "(x - 1)(x - 2)" |

## Left out

- The REPL in `src/main.rs`: reading standard input, dispatching and printing are I/O.
- The grammar that `lalrpop_mod!` generates (`src/parser/mod.rs:5`): it is generated code, and it is not part of this model.
- `Polynomial::factors` of `src/polynomial.rs`. It needs random initial approximations from `thread_rng`, a floating-point loop with no statable guarantee, and `Ratio::approximate_float`. `pretty_factored` of that file is modelled from the point where it has the roots.
- Floating-point rounding in `src/polynomial.rs`: every value is the exact real. The unit-test equalities are proved under exact arithmetic.
- Overflow of the `isize` numerators and denominators of `Rational`: they are unbounded here.
- The `usize` to `i32` conversions of the exponents passed to `powi`: exponents are unbounded naturals.
  - In `src/factorize.rs:14,35` the conversion is `try_into().unwrap()`, which panics for exponents of 2^31 and above. That panic is not modelled.
  - In `src/polynomial.rs:39,52` it is `exp as i32`. This does not panic: it truncates to the low 32 bits, which can be negative. That truncation is not modelled.
- `Rational32::approximate_float`, and `Display` for rationals: both are the parameter `show`. Its failure (the `unwrap` on `approximate_float`) is not modelled.
- The `println!` of the approximations at `src/factorize.rs:73`.
- Convergence of the root search: the model states what the sweeps compute, not that they approach the roots.
- Polynomials.OffsetNumber, Aberth.OffsetNumberSum and Aberth.OffsetNumberSumSkipsOwnIndex: `f64` division by zero gives infinities or NaN rather than a panic. The model requires every divisor to be nonzero instead (`Separated` for the separation sum).
