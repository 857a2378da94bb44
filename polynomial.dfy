/** The calculator's floating-point polynomial, coefficients stored lowest
    power first: evaluation of the polynomial and of its derivative, the
    Aberth correction, the symbolic derivative and integral, and the two
    renderers.  `f64` is modelled by `real`. */
module Polynomials {
  import opened ComplexNumbers
  import opened Aberth
  import opened Text

  /** `coefficients[i]` multiplies x^i; `unspecified` marks an integral's
      unknown constant "+ c".  Only the first `degree + 1` coefficients are
      read by the evaluators. */
  datatype Polynomial = Polynomial(degree: nat, coefficients: seq<real>, unspecified: bool)

  // ---------------------------------------------------------------------
  // Evaluation

  /** Σ c[i]·z^i over every index of c. */
  function PowerSum(c: seq<real>, z: Complex): Complex {
    if c == [] then Zero else Add(PowerSum(c[..|c| - 1], z), Scale(c[|c| - 1], Pow(z, |c| - 1)))
  }

  /** Σ i·c[i]·z^(i-1) over the indices i >= 1 of c: the value of the
      derivative of the polynomial c. */
  function DerivSum(c: seq<real>, z: Complex): Complex {
    if |c| <= 1 then Zero
    else Add(DerivSum(c[..|c| - 1], z), SlopeTerm(c[|c| - 1], |c| - 1, z))
  }

  /** The derivative of a·z^i: (a·i)·z^(i-1), in the order `deriv_at` multiplies. */
  function SlopeTerm(a: real, i: nat, z: Complex): Complex
    requires i >= 1
  {
    Scale(a * i as real, Pow(z, i - 1))
  }

  /** P(z): the terms of exponent 0 to `degree`. */
  function ValueAt(p: Polynomial, z: Complex): Complex
    requires p.degree < |p.coefficients|
  {
    PowerSum(p.coefficients[..p.degree + 1], z)
  }

  /** P'(z): the derivative's terms of exponent 0 to `degree - 1`; 0 for degree 0. */
  function SlopeAt(p: Polynomial, z: Complex): Complex
    requires p.degree == 0 || p.degree < |p.coefficients|
  {
    if p.degree == 0 then Zero else DerivSum(p.coefficients[..p.degree + 1], z)
  }

  /** `eval_at`: accumulates c[exp]·z^exp for exp = 0, 1, ..., degree. */
  method EvalAt(p: Polynomial, z: Complex) returns (r: Complex)
    requires p.degree < |p.coefficients|
    ensures r == ValueAt(p, z)
  {
    var exp := 0;
    r := Zero;
    while exp <= p.degree
      invariant exp <= p.degree + 1
      invariant r == PowerSum(p.coefficients[..exp], z)
    {
      PowerSumStep(p.coefficients, exp, z);
      r := Add(r, Scale(p.coefficients[exp], Pow(z, exp)));
      exp := exp + 1;
    }
  }

  /** `deriv_at`: accumulates the slope term (c[exp]·exp)·z^(exp-1) for
      exp = 1, ..., degree; the constant coefficient is never read. */
  method DerivAt(p: Polynomial, z: Complex) returns (r: Complex)
    requires p.degree == 0 || p.degree < |p.coefficients|
    ensures r == SlopeAt(p, z)
  {
    var exp: nat := 1;
    r := Zero;
    while exp <= p.degree
      invariant 1 <= exp <= p.degree + 1 || (p.degree == 0 && exp == 1)
      invariant p.degree == 0 ==> r == Zero
      invariant p.degree > 0 ==> r == DerivSum(p.coefficients[..exp], z)
    {
      DerivSumStep(p.coefficients, exp, z);
      r := Add(r, SlopeTerm(p.coefficients[exp], exp, z));
      exp := exp + 1;
    }
  }

  /** One more coefficient adds its term to the value. */
  lemma PowerSumStep(c: seq<real>, n: nat, z: Complex)
    requires n < |c|
    ensures PowerSum(c[..n + 1], z) == Add(PowerSum(c[..n], z), Scale(c[n], Pow(z, n)))
  {
    assert c[..n + 1][..n] == c[..n];
  }

  /** One more coefficient, of exponent n >= 1, adds its term to the slope. */
  lemma DerivSumStep(c: seq<real>, n: nat, z: Complex)
    requires 1 <= n < |c|
    ensures DerivSum(c[..n + 1], z) == Add(DerivSum(c[..n], z), SlopeTerm(c[n], n, z))
  {
    assert c[..n + 1][..n] == c[..n];
  }

  /** The constant coefficient does not contribute to the derivative's value. */
  lemma {:induction false} DerivSumIgnoresConstant(c: seq<real>, a: real, z: Complex)
    requires |c| > 0
    ensures DerivSum(c, z) == DerivSum([a] + c[1..], z)
    decreases |c|
  {
    var d := [a] + c[1..];
    if |c| > 1 {
      DerivSumIgnoresConstant(c[..|c| - 1], a, z);
      assert d[..|d| - 1] == [a] + c[..|c| - 1][1..];
      assert d[|d| - 1] == c[|c| - 1];
    }
  }

  // ---------------------------------------------------------------------
  // Symbolic derivative and integral

  /** The coefficient map of `derivative`: multiply each coefficient by its
      power, then drop the first. */
  function DerivativeCoefficients(c: seq<real>): (d: seq<real>)
    ensures |d| == if c == [] then 0 else |c| - 1
    ensures forall i :: 0 <= i < |d| ==> d[i] == (i + 1) as real * c[i + 1]
  {
    var scaled := seq(|c|, power requires 0 <= power < |c| => power as real * c[power]);
    if scaled == [] then [] else scaled[1..]
  }

  /** `derivative`: the coefficients become those of P'; `degree` and
      `unspecified` are copied from the original. */
  function Derivative(p: Polynomial): (q: Polynomial)
    ensures q.degree == p.degree && q.unspecified == p.unspecified
    ensures q.coefficients == DerivativeCoefficients(p.coefficients)
  {
    Polynomial(p.degree, DerivativeCoefficients(p.coefficients), p.unspecified)
  }

  /** The coefficient map of `integral`: divide each coefficient by its power
      plus one, then insert the constant 0 in front. */
  function IntegralCoefficients(c: seq<real>): (d: seq<real>)
    ensures |d| == |c| + 1 && d[0] == 0.0
    ensures forall i :: 0 <= i < |c| ==> (i + 1) as real * d[i + 1] == c[i]
  {
    var scaled := seq(|c|, power requires 0 <= power < |c| => (1.0 / (power as real + 1.0)) * c[power]);
    forall i | 0 <= i < |c| ensures (i + 1) as real * scaled[i] == c[i] {
      CancelReciprocal(i as real + 1.0, c[i]);
    }
    [0.0] + scaled
  }

  lemma CancelReciprocal(k: real, a: real)
    requires k > 0.0
    ensures k * ((1.0 / k) * a) == a
  {
    assert k * (1.0 / k) == 1.0;
    assert k * ((1.0 / k) * a) == (k * (1.0 / k)) * a;
  }

  /** `integral`: the coefficients become those of an antiderivative with
      constant 0, the constant is marked unspecified, `degree` is copied. */
  function Integral(p: Polynomial): (q: Polynomial)
    ensures q.degree == p.degree && q.unspecified
    ensures q.coefficients == IntegralCoefficients(p.coefficients)
  {
    Polynomial(p.degree, IntegralCoefficients(p.coefficients), true)
  }

  /** Differentiating an integral gives back the original coefficients. */
  lemma DerivativeOfIntegral(p: Polynomial)
    ensures Derivative(Integral(p)).coefficients == p.coefficients
  {
    var c := p.coefficients;
    var d := Derivative(Integral(p)).coefficients;
    var e := IntegralCoefficients(c);
    assert |d| == |c|;
    forall i | 0 <= i < |c| ensures d[i] == c[i] {
      assert d[i] == (i + 1) as real * e[i + 1];
    }
  }

  /** `deriv_at` evaluates the polynomial `derivative` produces. */
  lemma {:induction false} DerivSumIsPowerSumOfDerivative(c: seq<real>, z: Complex)
    ensures DerivSum(c, z) == PowerSum(DerivativeCoefficients(c), z)
    decreases |c|
  {
    if |c| > 1 {
      var n := |c| - 1;
      DerivSumIsPowerSumOfDerivative(c[..n], z);
      DerivativeCoefficientsPrefix(c);
      DerivativeLastTerm(c, z);
    }
  }

  /** The last slope term of c is the last term of the derivative's power sum. */
  lemma DerivativeLastTerm(c: seq<real>, z: Complex)
    requires |c| > 1
    ensures SlopeTerm(c[|c| - 1], |c| - 1, z)
            == Scale(DerivativeCoefficients(c)[|c| - 2], Pow(z, |c| - 2))
  {
    var i := |c| - 2;
    assert DerivativeCoefficients(c)[i] == (i + 1) as real * c[i + 1];
    SlopeTermIsScaled(c[i + 1], i + 1, z);
  }

  /** The slope term is the coefficient the derivative map computes, times z^(i-1). */
  lemma SlopeTermIsScaled(a: real, i: nat, z: Complex)
    requires i >= 1
    ensures SlopeTerm(a, i, z) == Scale(i as real * a, Pow(z, i - 1))
  {
    Commute(a, i as real);
  }

  lemma DerivativeCoefficientsPrefix(c: seq<real>)
    requires |c| > 1
    ensures DerivativeCoefficients(c)[..|c| - 2] == DerivativeCoefficients(c[..|c| - 1])
  {
    var d := DerivativeCoefficients(c);
    var d' := DerivativeCoefficients(c[..|c| - 1]);
    forall i | 0 <= i < |d'| ensures d'[i] == d[i] {
      assert c[..|c| - 1][i + 1] == c[i + 1];
    }
  }

  lemma Commute(a: real, b: real)
    ensures a * b == b * a
  {
  }

  /** The derivative of the integral, evaluated, is the original polynomial evaluated. */
  lemma DerivSumOfIntegral(c: seq<real>, z: Complex)
    ensures DerivSum(IntegralCoefficients(c), z) == PowerSum(c, z)
  {
    DerivSumIsPowerSumOfDerivative(IntegralCoefficients(c), z);
    DerivativeOfIntegral(Polynomial(0, c, false));
  }

  // ---------------------------------------------------------------------
  // The Aberth correction

  /** t1 = P(z_k) / P'(z_k), Newton's correction at z_k. */
  function NewtonRatio(p: Polynomial, z: Complex): Complex
    requires p.degree < |p.coefficients| && Invertible(SlopeAt(p, z))
  {
    Div(ValueAt(p, z), SlopeAt(p, z))
  }

  /** Every division of `offset_number` has a nonzero divisor: P'(z_k) is not
      0, no other approximation coincides with z_k, and 1 - t1·S_k is not 0. */
  ghost predicate OffsetDefined(p: Polynomial, v: seq<Complex>, k: nat) {
    && k < |v| && p.degree < |p.coefficients|
    && Separated(v, k)
    && Invertible(SlopeAt(p, v[k]))
    && Invertible(Sub(One, Mul(NewtonRatio(p, v[k]), OffsetNumberSum(v, k))))
  }

  /** `offset_number`: t1 / (1 - t1·S_k), where S_k is the separation sum of z_k. */
  function OffsetNumber(p: Polynomial, v: seq<Complex>, k: nat): (w: Complex)
    requires OffsetDefined(p, v, k)
    ensures w == Zero <==> ValueAt(p, v[k]) == Zero
  {
    var t1 := NewtonRatio(p, v[k]);
    var den := Sub(One, Mul(t1, OffsetNumberSum(v, k)));
    DivIsZeroIff(t1, den);
    DivIsZeroIff(ValueAt(p, v[k]), SlopeAt(p, v[k]));
    Div(t1, den)
  }

  /** With a single approximation there is nothing to separate from, and the
      Aberth correction is Newton's. */
  lemma SingleApproximationIsNewton(p: Polynomial, z: Complex)
    requires p.degree < |p.coefficients| && Invertible(SlopeAt(p, z))
    ensures Separated([z], 0) && OffsetNumberSum([z], 0) == Zero
    ensures OffsetDefined(p, [z], 0) && OffsetNumber(p, [z], 0) == NewtonRatio(p, z)
  {
    assert SeparationPrefix([z], 0, 0) == Zero;
    InvertibleIsNonzero(One);
  }

  // ---------------------------------------------------------------------
  // The polynomial of the unit tests: 2 + 3x + x^2 = (x + 1)(x + 2)

  const TestPolynomial := Polynomial(2, [2.0, 3.0, 1.0], false)

  /** x^n over the reals. */
  function RealPow(x: real, n: nat): real {
    if n == 0 then 1.0 else x * RealPow(x, n - 1)
  }

  /** Σ c[i]·x^i over the reals. */
  function RealPowerSum(c: seq<real>, x: real): real {
    if c == [] then 0.0 else RealPowerSum(c[..|c| - 1], x) + c[|c| - 1] * RealPow(x, |c| - 1)
  }

  /** Σ i·c[i]·x^(i-1) over the reals. */
  function RealDerivSum(c: seq<real>, x: real): real {
    if |c| <= 1 then 0.0
    else RealDerivSum(c[..|c| - 1], x) + RealSlopeTerm(c[|c| - 1], |c| - 1, x)
  }

  /** (a·i)·x^(i-1) over the reals. */
  function RealSlopeTerm(a: real, i: nat, x: real): real
    requires i >= 1
  {
    (a * i as real) * RealPow(x, i - 1)
  }

  lemma {:induction false} PowOfReal(x: real, n: nat)
    ensures Pow(FromReal(x), n) == FromReal(RealPow(x, n))
  {
    if n > 0 {
      PowOfReal(x, n - 1);
    }
  }

  lemma ScaleReal(k: real, y: real)
    ensures Scale(k, FromReal(y)) == FromReal(k * y)
  {
  }

  lemma AddReal(a: real, b: real)
    ensures Add(FromReal(a), FromReal(b)) == FromReal(a + b)
  {
  }

  /** At a real point a real polynomial takes a real value. */
  lemma {:induction false} PowerSumOfReal(c: seq<real>, x: real)
    ensures PowerSum(c, FromReal(x)) == FromReal(RealPowerSum(c, x))
  {
    if c != [] {
      PowerSumOfReal(c[..|c| - 1], x);
      PowOfReal(x, |c| - 1);
      var y := RealPow(x, |c| - 1);
      ScaleReal(c[|c| - 1], y);
      AddReal(RealPowerSum(c[..|c| - 1], x), c[|c| - 1] * y);
    }
  }

  /** At a real point a slope term takes a real value. */
  lemma SlopeTermOfReal(a: real, i: nat, x: real)
    requires i >= 1
    ensures SlopeTerm(a, i, FromReal(x)) == FromReal(RealSlopeTerm(a, i, x))
  {
    PowOfReal(x, i - 1);
    ScaleReal(a * i as real, RealPow(x, i - 1));
  }

  /** At a real point the derivative of a real polynomial takes a real value. */
  lemma {:induction false} DerivSumOfReal(c: seq<real>, x: real)
    ensures DerivSum(c, FromReal(x)) == FromReal(RealDerivSum(c, x))
  {
    if |c| > 1 {
      var n := |c| - 1;
      DerivSumOfReal(c[..n], x);
      SlopeTermOfReal(c[n], n, x);
      AddReal(RealDerivSum(c[..n], x), RealSlopeTerm(c[n], n, x));
    }
  }

  function TestValue(x: real): real {
    2.0 + 3.0 * x + x * x
  }

  function TestSlope(x: real): real {
    3.0 + 2.0 * x
  }

  /** The test polynomial at a real point x is 2 + 3x + x^2, its derivative 3 + 2x. */
  lemma TestPolynomialAtReal(x: real)
    ensures ValueAt(TestPolynomial, FromReal(x)) == FromReal(TestValue(x))
    ensures SlopeAt(TestPolynomial, FromReal(x)) == FromReal(TestSlope(x))
  {
    var c := TestPolynomial.coefficients;
    assert c[..3] == c && c[..2] == [2.0, 3.0] && c[..2][..1] == [2.0] && c[..2][..1][..0] == [];
    PowerSumOfReal(c, x);
    DerivSumOfReal(c, x);
    assert RealPow(x, 0) == 1.0;
    assert RealPow(x, 1) == x;
    assert RealPow(x, 2) == x * x;
    assert RealPowerSum([2.0], x) == 2.0;
    assert RealPowerSum([2.0, 3.0], x) == 2.0 + 3.0 * x;
    assert RealDerivSum([2.0, 3.0], x) == 3.0;
  }

  /** The values the unit test of `eval_at` expects: 6, 2, 0 and 0 at 1, 0, -1 and -2. */
  lemma TestPolynomialValues()
    ensures ValueAt(TestPolynomial, FromReal(1.0)) == FromReal(6.0)
    ensures ValueAt(TestPolynomial, FromReal(0.0)) == FromReal(2.0)
    ensures ValueAt(TestPolynomial, FromReal(-1.0)) == FromReal(0.0)
    ensures ValueAt(TestPolynomial, FromReal(-2.0)) == FromReal(0.0)
  {
    TestPolynomialAtReal(1.0);
    assert TestValue(1.0) == 6.0;
    TestPolynomialAtReal(0.0);
    assert TestValue(0.0) == 2.0;
    TestPolynomialAtReal(-1.0);
    assert TestValue(-1.0) == 0.0;
    TestPolynomialAtReal(-2.0);
    assert TestValue(-2.0) == 0.0;
  }

  /** The values the unit test of `deriv_at` expects: 5, 7 and 9 at 1, 2 and 3. */
  lemma TestPolynomialSlopes()
    ensures SlopeAt(TestPolynomial, FromReal(1.0)) == FromReal(5.0)
    ensures SlopeAt(TestPolynomial, FromReal(2.0)) == FromReal(7.0)
    ensures SlopeAt(TestPolynomial, FromReal(3.0)) == FromReal(9.0)
  {
    TestPolynomialAtReal(1.0);
    TestPolynomialAtReal(2.0);
    TestPolynomialAtReal(3.0);
  }

  // ---------------------------------------------------------------------
  // Rendering

  function Abs(x: real): real {
    if x < 0.0 then -x else x
  }

  /** Some coefficient is nonzero: the filtered, reversed term iterator of
      `pretty` has a first element. */
  predicate HasNonzero(c: seq<real>) {
    exists i :: 0 <= i < |c| && c[i] != 0.0
  }

  /** The highest index below n whose coefficient is nonzero. */
  function HighestNonzero(c: seq<real>, n: nat): (e: nat)
    requires n <= |c| && exists i :: 0 <= i < n && c[i] != 0.0
    ensures e < n && c[e] != 0.0
    ensures forall j :: e < j < n ==> c[j] == 0.0
  {
    if c[n - 1] != 0.0 then n - 1 else HighestNonzero(c, n - 1)
  }

  /** The exponents of the nonzero coefficients with index in [lo, hi),
      highest first: the order in which `pretty` visits them. */
  function NonzeroExponents(c: seq<real>, lo: nat, hi: nat): (es: seq<nat>)
    requires hi <= |c|
    ensures forall i :: 0 <= i < |es| ==> lo <= es[i] < hi
    decreases hi - lo
  {
    if lo >= hi then [] else NonzeroExponents(c, lo + 1, hi) + (if c[lo] != 0.0 then [lo] else [])
  }

  predicate StrictlyDecreasing(es: seq<nat>) {
    forall i, j :: 0 <= i < j < |es| ==> es[i] > es[j]
  }

  /** The list holds exactly the exponents of the nonzero coefficients in
      [lo, hi), each once, in strictly decreasing order. */
  lemma {:induction false} NonzeroExponentsExact(c: seq<real>, lo: nat, hi: nat)
    requires hi <= |c|
    ensures forall e :: e in NonzeroExponents(c, lo, hi) <==> lo <= e < hi && c[e] != 0.0
    ensures StrictlyDecreasing(NonzeroExponents(c, lo, hi))
    decreases hi - lo
  {
    if lo < hi {
      NonzeroExponentsExact(c, lo + 1, hi);
      var rest := NonzeroExponents(c, lo + 1, hi);
      var es := NonzeroExponents(c, lo, hi);
      assert es == rest + (if c[lo] != 0.0 then [lo] else []);
      forall i, j | 0 <= i < j < |es| ensures es[i] > es[j] {
        if j < |rest| {
          assert es[i] == rest[i] && es[j] == rest[j];
        } else {
          assert i < |rest| && es[i] == rest[i] && es[j] == lo;
          assert lo + 1 <= rest[i];
        }
      }
    }
  }

  /** The power of x after a coefficient: nothing, "x", or "x^e". */
  function PowerText(e: nat): string {
    if e == 0 then "" else if e == 1 then "x" else "x^" + NatToString(e)
  }

  /** The first (highest) term: a leading "-" for a negative coefficient, the
      magnitude unless it is 1 with a positive exponent, then the power. */
  function LeadText(e: nat, a: real, show: real -> string): string {
    (if a < 0.0 then "-" else "")
    + (if a != 1.0 || (a == 1.0 && e == 0) then show(Abs(a)) else "")
    + PowerText(e)
  }

  /** A later term: " - " or " + ", the magnitude, then the power. */
  function TermText(e: nat, a: real, show: real -> string): string {
    (if a < 0.0 then " - " else " + ") + show(Abs(a))
    + (if e > 0 then "x" else "") + (if e > 1 then "^" + NatToString(e) else "")
  }

  /** The later terms for the exponents es, in the order given. */
  function TermsText(c: seq<real>, es: seq<nat>, show: real -> string): string
    requires forall i :: 0 <= i < |es| ==> es[i] < |c|
  {
    if es == [] then ""
    else TermsText(c, es[..|es| - 1], show) + TermText(es[|es| - 1], c[es[|es| - 1]], show)
  }

  /** The later terms for the nonzero coefficients with exponent in
      [lo, hi), written highest exponent first. */
  function TermsBetween(c: seq<real>, lo: nat, hi: nat, show: real -> string): string
    requires hi <= |c|
    decreases hi - lo
  {
    if lo >= hi then ""
    else TermsBetween(c, lo + 1, hi, show) + (if c[lo] != 0.0 then TermText(lo, c[lo], show) else "")
  }

  /** The terms written are exactly those of the nonzero coefficients,
      in strictly decreasing exponent. */
  lemma {:induction false} TermsBetweenFollowsNonzeroExponents(c: seq<real>, lo: nat, hi: nat, show: real -> string)
    requires hi <= |c|
    ensures TermsBetween(c, lo, hi, show) == TermsText(c, NonzeroExponents(c, lo, hi), show)
    decreases hi - lo
  {
    if lo < hi {
      TermsBetweenFollowsNonzeroExponents(c, lo + 1, hi, show);
      var rest := NonzeroExponents(c, lo + 1, hi);
      var before := TermsBetween(c, lo + 1, hi, show);
      if c[lo] != 0.0 {
        assert NonzeroExponents(c, lo, hi) == rest + [lo];
        assert TermsBetween(c, lo, hi, show) == before + TermText(lo, c[lo], show);
        TermsTextSnoc(c, rest, lo, show);
      } else {
        assert NonzeroExponents(c, lo, hi) == rest;
        assert TermsBetween(c, lo, hi, show) == before + "" == before;
      }
    }
  }

  /** Writing one more exponent appends its term. */
  lemma TermsTextSnoc(c: seq<real>, es: seq<nat>, e: nat, show: real -> string)
    requires e < |c| && forall i :: 0 <= i < |es| ==> es[i] < |c|
    ensures TermsText(c, es + [e], show) == TermsText(c, es, show) + TermText(e, c[e], show)
  {
    assert (es + [e])[..|es|] == es;
  }

  /** What `pretty` writes: the highest nonzero term, the other nonzero terms
      in decreasing exponent, and " + c" for an unspecified constant. */
  function PrettyText(p: Polynomial, show: real -> string): string
    requires HasNonzero(p.coefficients)
  {
    var c := p.coefficients;
    var lead := HighestNonzero(c, |c|);
    LeadText(lead, c[lead], show) + TermsBetween(c, 0, lead, show)
    + (if p.unspecified then " + c" else "")
  }

  /** The first item of `pretty`'s reversed, zero-filtered term iterator:
      scanning down from the top for a nonzero coefficient. */
  method FirstTerm(c: seq<real>) returns (lead: nat)
    requires HasNonzero(c)
    ensures lead == HighestNonzero(c, |c|)
  {
    lead := |c| - 1;
    ghost var h := HighestNonzero(c, |c|);
    while c[lead] == 0.0
      invariant h <= lead < |c|
      decreases lead
    {
      lead := lead - 1;
    }
  }

  /** `pretty`.  The magnitude of a coefficient is rendered by `show` (the
      source's `Rational32::approximate_float` followed by `Display`). */
  method Pretty(p: Polynomial, show: real -> string) returns (s: string)
    requires HasNonzero(p.coefficients)
    ensures s == PrettyText(p, show)
  {
    var c := p.coefficients;
    var lead := FirstTerm(c);
    // the remaining terms, appended one by one below the first
    var terms := "";
    var exp: nat := lead;
    while exp > 0
      invariant exp <= lead
      invariant terms == TermsBetween(c, exp, lead, show)
    {
      exp := exp - 1;
      if c[exp] != 0.0 {
        terms := terms + TermText(exp, c[exp], show);
      }
    }
    s := LeadText(lead, c[lead], show) + terms;
    if p.unspecified {
      s := s + " + c";
    }
  }

  /** One factor of `pretty_factored`: "x" for the root 0, otherwise
      "(x - r)" for a positive root r and "(x + |r|)" for a negative one. */
  function FactorText(r: real, show: real -> string): string {
    var sign := if r > 0.0 then "-" else "+";
    if r == 0.0 then "x" else "(x " + sign + " " + show(Abs(r)) + ")"
  }

  /** The factors of the roots, one per root, in the order of the roots. */
  function Factors(roots: seq<real>, show: real -> string): seq<string> {
    seq(|roots|, i requires 0 <= i < |roots| => FactorText(roots[i], show))
  }

  /** What `pretty_factored` writes for the roots. */
  function FactoredText(roots: seq<real>, show: real -> string): string {
    Join(Factors(roots, show))
  }

  /** The rendering loop of `pretty_factored`, over the roots it is given. */
  method PrettyFactored(roots: seq<real>, show: real -> string) returns (s: string)
    ensures s == FactoredText(roots, show)
  {
    s := "";
    for i := 0 to |roots|
      invariant s == Join(Factors(roots, show)[..i])
    {
      var factor := roots[i];
      var sign := if factor > 0.0 then "-" else "+";
      if factor == 0.0 {
        s := s + "x";
      } else {
        s := s + ("(x " + sign + " " + show(Abs(factor)) + ")");
      }
      assert Factors(roots, show)[..i + 1][..i] == Factors(roots, show)[..i];
    }
    assert Factors(roots, show)[..|roots|] == Factors(roots, show);
  }

  /** Rendering is a concatenation, one factor per root: the factors of a
      list of roots are those of its parts, in order. */
  lemma FactoredTextConcat(a: seq<real>, b: seq<real>, show: real -> string)
    ensures FactoredText(a + b, show) == FactoredText(a, show) + FactoredText(b, show)
  {
    assert Factors(a + b, show) == Factors(a, show) + Factors(b, show);
    JoinConcat(Factors(a, show), Factors(b, show));
  }

  /** A factor shows the sign of its root: "x" for 0, otherwise it opens with
      "(x " followed by "-" for a positive root and "+" for a negative one. */
  lemma FactorTextSign(r: real, show: real -> string)
    ensures FactorText(r, show) == "x" <==> r == 0.0
    ensures r != 0.0 ==> |FactorText(r, show)| > 4 && FactorText(r, show)[..3] == "(x "
                         && (FactorText(r, show)[3] == '-' <==> r > 0.0)
  {
    if r != 0.0 {
      var sign := if r > 0.0 then "-" else "+";
      assert FactorText(r, show) == "(x " + sign + (" " + show(Abs(r)) + ")");
    }
  }

  /** With a numeral magnitude a factor contains exactly one x. */
  lemma FactorTextHasOneX(r: real, show: real -> string)
    requires Numeral(show(Abs(r)))
    ensures Count(FactorText(r, show), 'x') == 1
  {
    if r != 0.0 {
      var sign := if r > 0.0 then "-" else "+";
      var m := show(Abs(r));
      NumeralHasNoLetter(m, 'x');
      var t := "(x " + sign + " ";
      assert FactorText(r, show) == t + m + ")";
      CountConcat(t, m, 'x');
      CountConcat(t + m, ")", 'x');
      OpeningHasOneX(sign);
    }
  }

  /** The opening "(x s " of a factor holds one x for either sign s. */
  lemma OpeningHasOneX(sign: string)
    requires sign == "-" || sign == "+"
    ensures Count("(x " + sign + " ", 'x') == 1
  {
    var t := "(x " + sign + " ";
    assert t[..4][..3] == "(x " && t[..4][3] != 'x' && t[4] != 'x';
    assert "(x "[..2] == "(x" && "(x"[..1] == "(";
    assert Count("(", 'x') == 0;
    assert Count("(x ", 'x') == 1;
    assert t[..|t| - 1] == t[..4];
  }

  // Properties of the rendering, for a magnitude renderer whose every output
  // is a numeral (digits, possibly with a fraction bar).

  ghost predicate NumeralRenderer(show: real -> string) {
    forall x :: Numeral(show(x))
  }

  predicate EndsWith(s: string, t: string) {
    |t| <= |s| && s[|s| - |t|..] == t
  }

  /** s is nonempty and does not end in the letter c. */
  predicate EndsPlain(s: string) {
    |s| > 0 && s[|s| - 1] != 'c'
  }

  lemma EndsPlainConcat(a: string, b: string)
    requires EndsPlain(b)
    ensures EndsPlain(a + b)
  {
    assert (a + b)[|a + b| - 1] == b[|b| - 1];
  }

  lemma PowerTextShape(e: nat)
    ensures e == 0 <==> PowerText(e) == ""
    ensures e > 0 ==> PowerText(e)[0] == 'x' && EndsPlain(PowerText(e))
  {
    if e > 1 {
      var d := NatToString(e);
      assert PowerText(e) == "x^" + d;
      assert PowerText(e)[|PowerText(e)| - 1] == d[|d| - 1];
    }
  }

  lemma NumeralShape(s: string)
    requires Numeral(s)
    ensures EndsPlain(s) && s[0] != '-' && s[0] != 'x'
  {
  }

  lemma LeadTextEndsPlain(e: nat, a: real, show: real -> string)
    requires NumeralRenderer(show)
    ensures EndsPlain(LeadText(e, a, show))
  {
    var sign := if a < 0.0 then "-" else "";
    var magnitude := if a != 1.0 || (a == 1.0 && e == 0) then show(Abs(a)) else "";
    PowerTextShape(e);
    NumeralShape(show(Abs(a)));
    if e > 0 {
      EndsPlainConcat(sign + magnitude, PowerText(e));
    } else {
      assert LeadText(e, a, show) == sign + show(Abs(a));
      EndsPlainConcat(sign, show(Abs(a)));
    }
  }

  lemma TermTextEndsPlain(e: nat, a: real, show: real -> string)
    requires NumeralRenderer(show)
    ensures EndsPlain(TermText(e, a, show))
  {
    var sign := if a < 0.0 then " - " else " + ";
    var m := show(Abs(a));
    NumeralShape(m);
    if e == 0 {
      assert TermText(e, a, show) == sign + m;
      EndsPlainConcat(sign, m);
    } else if e == 1 {
      assert TermText(e, a, show) == sign + m + "x";
    } else {
      var d := NatToString(e);
      assert TermText(e, a, show) == sign + m + "x" + ("^" + d);
      assert ("^" + d)[|"^" + d| - 1] == d[|d| - 1];
      EndsPlainConcat(sign + m + "x", "^" + d);
    }
  }

  lemma {:induction false} TermsBetweenEndsPlain(c: seq<real>, lo: nat, hi: nat, show: real -> string)
    requires hi <= |c| && NumeralRenderer(show)
    ensures TermsBetween(c, lo, hi, show) == "" || EndsPlain(TermsBetween(c, lo, hi, show))
    decreases hi - lo
  {
    if lo < hi {
      TermsBetweenEndsPlain(c, lo + 1, hi, show);
      if c[lo] != 0.0 {
        TermTextEndsPlain(lo, c[lo], show);
        EndsPlainConcat(TermsBetween(c, lo + 1, hi, show), TermText(lo, c[lo], show));
      } else {
        assert TermsBetween(c, lo, hi, show) == TermsBetween(c, lo + 1, hi, show);
      }
    }
  }

  /** The rendering ends with " + c" exactly when the constant is unspecified. */
  lemma PrettyEndsWithConstantIff(p: Polynomial, show: real -> string)
    requires HasNonzero(p.coefficients) && NumeralRenderer(show)
    ensures EndsWith(PrettyText(p, show), " + c") <==> p.unspecified
  {
    var c := p.coefficients;
    var lead := HighestNonzero(c, |c|);
    var head := LeadText(lead, c[lead], show);
    var terms := TermsBetween(c, 0, lead, show);
    var body := head + terms;
    LeadTextEndsPlain(lead, c[lead], show);
    TermsBetweenEndsPlain(c, 0, lead, show);
    if terms == "" {
      assert body == head;
    } else {
      EndsPlainConcat(head, terms);
    }
    if p.unspecified {
      var s := body + " + c";
      assert s[|s| - 4..] == " + c";
    } else {
      assert PrettyText(p, show) == body;
    }
  }

  lemma StartsWithFirst(s: string, t: string)
    requires |s| > 0
    ensures |s + t| > 0 && (s + t)[0] == s[0]
  {
  }

  lemma LeadTextStart(e: nat, a: real, show: real -> string)
    requires Numeral(show(Abs(a)))
    ensures |LeadText(e, a, show)| > 0
    ensures LeadText(e, a, show)[0] == '-' <==> a < 0.0
    ensures LeadText(e, a, show)[0] == 'x' <==> a == 1.0 && e > 0
  {
    var m := show(Abs(a));
    var sign := if a < 0.0 then "-" else "";
    var magnitude := if a != 1.0 || (a == 1.0 && e == 0) then m else "";
    var head := sign + magnitude;
    assert LeadText(e, a, show) == head + PowerText(e);
    NumeralShape(m);
    PowerTextShape(e);
    if head == "" {
      assert head + PowerText(e) == PowerText(e);
    } else {
      StartsWithFirst(head, PowerText(e));
      if a < 0.0 {
        StartsWithFirst("-", magnitude);
      } else {
        assert head == m;
      }
    }
  }

  /** The rendering starts with "-" exactly when the highest nonzero
      coefficient is negative, and starts with "x" exactly when that
      coefficient is 1 at a positive exponent, its magnitude then omitted. */
  lemma PrettyStart(p: Polynomial, show: real -> string)
    requires HasNonzero(p.coefficients) && NumeralRenderer(show)
    ensures var c := p.coefficients; var lead := HighestNonzero(c, |c|);
      && |PrettyText(p, show)| > 0
      && (PrettyText(p, show)[0] == '-' <==> c[lead] < 0.0)
      && (PrettyText(p, show)[0] == 'x' <==> c[lead] == 1.0 && lead > 0)
  {
    var c := p.coefficients;
    var lead := HighestNonzero(c, |c|);
    var head := LeadText(lead, c[lead], show);
    LeadTextStart(lead, c[lead], show);
    var rest := TermsBetween(c, 0, lead, show) + (if p.unspecified then " + c" else "");
    assert PrettyText(p, show) == head + rest;
    assert (head + rest)[0] == head[0];
  }

  /** `pretty` of the unit tests' polynomial 2 + 3x + x^2. */
  lemma PrettyOfTestPolynomial(show: real -> string)
    ensures HasNonzero(TestPolynomial.coefficients)
    ensures PrettyText(TestPolynomial, show) == "x^2 + " + show(3.0) + "x + " + show(2.0)
  {
    TestPolynomialLead(show);
    TestPolynomialLaterTerms(show);
    var later := " + " + show(3.0) + "x + " + show(2.0);
    assert PrettyText(TestPolynomial, show) == "x^2" + later + "";
    assert "x^2" + later + "" == "x^2 + " + show(3.0) + "x + " + show(2.0);
  }

  /** The test polynomial's first term is x^2. */
  lemma TestPolynomialLead(show: real -> string)
    ensures HasNonzero(TestPolynomial.coefficients)
    ensures HighestNonzero(TestPolynomial.coefficients, 3) == 2
    ensures LeadText(2, 1.0, show) == "x^2"
  {
    assert TestPolynomial.coefficients[2] != 0.0;
    assert NatToString(2) == "2";
  }

  /** The later terms of the test polynomial: 3x, then 2. */
  lemma TestPolynomialLaterTerms(show: real -> string)
    ensures TermsBetween(TestPolynomial.coefficients, 0, 2, show) == " + " + show(3.0) + "x + " + show(2.0)
  {
    var c := TestPolynomial.coefficients;
    var t1 := TermText(1, 3.0, show);
    assert t1 == " + " + show(3.0) + "x";
    var t0 := TermText(0, 2.0, show);
    assert t0 == " + " + show(2.0);
    assert TermsBetween(c, 2, 2, show) == "";
    assert TermsBetween(c, 1, 2, show) == t1;
    assert TermsBetween(c, 0, 2, show) == t1 + t0;
  }

  /** With numeral magnitudes the rendering has one x per root. */
  lemma FactoredTextCountsRoots(roots: seq<real>, show: real -> string)
    requires NumeralRenderer(show)
    ensures Count(FactoredText(roots, show), 'x') == |roots|
  {
    var fs := Factors(roots, show);
    forall i | 0 <= i < |fs| ensures Count(fs[i], 'x') == 1 {
      FactorTextHasOneX(roots[i], show);
    }
    JoinCountsParts(fs, 'x');
  }
}
