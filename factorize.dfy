/** The exact evaluator over complex rationals that works on the parser's
    polynomial (coefficients highest power first), the Aberth correction and
    sweep built on it, the stub root finder and the factored renderer.
    `Rational` is modelled by `real`; a division by a zero rational, which
    panics, is a `Failure` naming the divisor that vanished. */
module Factorize {
  import opened ComplexNumbers
  import opened Aberth
  import opened Parser
  import opened Text
  import Polynomials

  // ---------------------------------------------------------------------
  // Evaluation, highest power first

  /** The terms c[i]·x^(d-i) for i < m, in the order the loop adds them. */
  function LeadingTerms(c: seq<real>, d: nat, x: Complex, m: nat): Complex
    requires m <= d < |c|
  {
    if m == 0 then Zero
    else Add(LeadingTerms(c, d, x, m - 1), Mul(FromReal(c[m - 1]), Pow(x, d - (m - 1))))
  }

  /** P(x) = Σ_{i <= d} c[i]·x^(d-i): index 0 holds the leading coefficient. */
  function ValueAt(p: Polynomial, x: Complex): Complex
    requires p.degree < |p.coefficients|
  {
    Add(LeadingTerms(p.coefficients, p.degree, x, p.degree), FromReal(p.coefficients[p.degree]))
  }

  /** The derivative's terms (c[i]·(d-i))·x^(d-1-i) for i < m. */
  function SlopeTerms(c: seq<real>, d: nat, x: Complex, m: nat): Complex
    requires m < d <= |c|
  {
    if m == 0 then Zero
    else Add(SlopeTerms(c, d, x, m - 1),
             Mul(Mul(FromReal(c[m - 1]), FromReal((d - (m - 1)) as real)), Pow(x, d - 1 - (m - 1))))
  }

  /** P'(x) = Σ_{i < d} (d-i)·c[i]·x^(d-1-i). */
  function SlopeAt(p: Polynomial, x: Complex): Complex
    requires 1 <= p.degree <= |p.coefficients|
  {
    Add(SlopeTerms(p.coefficients, p.degree, x, p.degree - 1), FromReal(p.coefficients[p.degree - 1]))
  }

  /** `eval_at`: for exp = degree down to 1 adds c[degree-exp]·x^exp, then the
      constant c[degree]. */
  method EvalAt(p: Polynomial, x: Complex) returns (r: Complex)
    requires p.degree < |p.coefficients|
    ensures r == ValueAt(p, x)
  {
    var exp: nat := p.degree;
    r := Zero;
    while exp > 0
      invariant exp <= p.degree
      invariant r == LeadingTerms(p.coefficients, p.degree, x, p.degree - exp)
    {
      r := Add(r, Mul(FromReal(p.coefficients[p.degree - exp]), Pow(x, exp)));
      exp := exp - 1;
    }
    r := Add(r, FromReal(p.coefficients[p.degree]));
  }

  /** `deriv_at`: for exp = degree-1 down to 1 adds c[degree-exp-1]·(exp+1)·x^exp,
      then c[degree-1].  `degree - 1` underflows for degree 0, hence the
      precondition. */
  method DerivAt(p: Polynomial, x: Complex) returns (r: Complex)
    requires 1 <= p.degree <= |p.coefficients|
    ensures r == SlopeAt(p, x)
  {
    var exp: nat := p.degree - 1;
    r := Zero;
    while exp > 0
      invariant exp <= p.degree - 1
      invariant r == SlopeTerms(p.coefficients, p.degree, x, p.degree - 1 - exp)
    {
      var nextExp := exp + 1;
      r := Add(r, Mul(Mul(FromReal(p.coefficients[p.degree - exp - 1]), FromReal(nextExp as real)), Pow(x, exp)));
      exp := exp - 1;
    }
    r := Add(r, FromReal(p.coefficients[p.degree - 1]));
  }

  // ---------------------------------------------------------------------
  // The two evaluators agree

  /** The first d+1 coefficients, lowest power first. */
  function Reversed(p: Polynomial): seq<real>
    requires p.degree < |p.coefficients|
  {
    seq(p.degree + 1, j requires 0 <= j <= p.degree => p.coefficients[p.degree - j])
  }

  /** The terms of index below m plus the low-to-high sum of the remaining
      terms is the whole low-to-high sum. */
  lemma {:induction false} LeadingTermsSplit(p: Polynomial, x: Complex, m: nat)
    requires m <= p.degree < |p.coefficients|
    ensures Add(LeadingTerms(p.coefficients, p.degree, x, m), Polynomials.PowerSum(Reversed(p)[..p.degree + 1 - m], x))
            == Polynomials.PowerSum(Reversed(p), x)
  {
    if m == 0 {
      assert Reversed(p)[..p.degree + 1] == Reversed(p);
    } else {
      LeadingTermsSplit(p, x, m - 1);
      LeadingTermsShift(p, x, m);
    }
  }

  /** One step of LeadingTermsSplit: the term of index m-1 leaves the
      low-to-high sum and joins the leading terms. */
  lemma LeadingTermsShift(p: Polynomial, x: Complex, m: nat)
    requires 0 < m <= p.degree < |p.coefficients|
    requires Add(LeadingTerms(p.coefficients, p.degree, x, m - 1),
                 Polynomials.PowerSum(Reversed(p)[..p.degree + 1 - (m - 1)], x))
             == Polynomials.PowerSum(Reversed(p), x)
    ensures Add(LeadingTerms(p.coefficients, p.degree, x, m), Polynomials.PowerSum(Reversed(p)[..p.degree + 1 - m], x))
            == Polynomials.PowerSum(Reversed(p), x)
  {
    var r := Reversed(p);
    var c := p.coefficients;
    var d := p.degree;
    var n := d + 1 - m;
    var t := Mul(FromReal(c[m - 1]), Pow(x, n));
    assert Polynomials.PowerSum(r[..n + 1], x) == Add(Polynomials.PowerSum(r[..n], x), t) by {
      Polynomials.PowerSumStep(r, n, x);
      assert r[n] == c[m - 1];
      MulFromRealIsScale(c[m - 1], Pow(x, n));
    }
    assert LeadingTerms(c, d, x, m) == Add(LeadingTerms(c, d, x, m - 1), t) by {
      assert d - (m - 1) == n;
    }
    assert d + 1 - (m - 1) == n + 1;
    MoveTerm(LeadingTerms(c, d, x, m), LeadingTerms(c, d, x, m - 1), t,
             Polynomials.PowerSum(r[..n + 1], x), Polynomials.PowerSum(r[..n], x), Polynomials.PowerSum(r, x));
  }

  /** The bookkeeping of one step of LeadingTermsSplit: the term t leaves the
      low-to-high sum and joins the leading terms. */
  lemma MoveTerm(lead: Complex, a: Complex, t: Complex, rest: Complex, b: Complex, total: Complex)
    requires lead == Add(a, t) && rest == Add(b, t) && Add(a, rest) == total
    ensures Add(lead, b) == total
  {
  }

  /** `eval_at` here and `eval_at` of the low-to-high polynomial compute the
      same value when the coefficients are reversed. */
  lemma ValueAtAgrees(p: Polynomial, x: Complex)
    requires p.degree < |p.coefficients|
    ensures ValueAt(p, x) == Polynomials.PowerSum(Reversed(p), x)
  {
    var r := Reversed(p);
    var d := p.degree;
    LeadingTermsSplit(p, x, d);
    assert r[..1] == [p.coefficients[d]];
    assert [p.coefficients[d]][..0] == [];
  }

  /** The formal derivative: coefficient (d-i)·c[i] at index i, degree d-1. */
  function FormalDerivative(p: Polynomial): (q: Polynomial)
    requires 1 <= p.degree <= |p.coefficients|
    ensures q.degree == p.degree - 1 && |q.coefficients| == p.degree
  {
    var d := p.degree;
    Polynomial(d - 1, seq(d, i requires 0 <= i < d => (d - i) as real * p.coefficients[i]))
  }

  lemma MulReals(a: real, b: real)
    ensures Mul(FromReal(a), FromReal(b)) == FromReal(b * a)
  {
    assert a * b == b * a;
  }

  /** The term `deriv_at` adds for coefficient i is the formal derivative's
      term for the same index. */
  lemma SlopeTermIsDerivativeTerm(p: Polynomial, x: Complex, i: nat)
    requires i < p.degree <= |p.coefficients|
    ensures Mul(Mul(FromReal(p.coefficients[i]), FromReal((p.degree - i) as real)), Pow(x, p.degree - 1 - i))
            == Mul(FromReal(FormalDerivative(p).coefficients[i]), Pow(x, p.degree - 1 - i))
  {
    var k := (p.degree - i) as real;
    assert FormalDerivative(p).coefficients[i] == k * p.coefficients[i];
    MulReals(p.coefficients[i], k);
  }

  lemma {:induction false} SlopeTermsAreLeadingTerms(p: Polynomial, x: Complex, m: nat)
    requires m < p.degree <= |p.coefficients|
    ensures SlopeTerms(p.coefficients, p.degree, x, m)
            == LeadingTerms(FormalDerivative(p).coefficients, p.degree - 1, x, m)
  {
    if m > 0 {
      SlopeTermsAreLeadingTerms(p, x, m - 1);
      SlopeTermIsDerivativeTerm(p, x, m - 1);
    }
  }

  /** `deriv_at` evaluates the formal derivative of the polynomial `eval_at` evaluates. */
  lemma SlopeIsFormalDerivative(p: Polynomial, x: Complex)
    requires 1 <= p.degree <= |p.coefficients|
    ensures SlopeAt(p, x) == ValueAt(FormalDerivative(p), x)
  {
    SlopeTermsAreLeadingTerms(p, x, p.degree - 1);
    FormalDerivativeConstant(p);
  }

  /** The formal derivative's constant is the coefficient of x^1, times one. */
  lemma FormalDerivativeConstant(p: Polynomial)
    requires 1 <= p.degree <= |p.coefficients|
    ensures FormalDerivative(p).coefficients[p.degree - 1] == p.coefficients[p.degree - 1]
  {
    var d := p.degree;
    var k := (d - (d - 1)) as real;
    assert k == 1.0;
    assert FormalDerivative(p).coefficients[d - 1] == k * p.coefficients[d - 1];
  }

  /** Reversing the formal derivative gives the low-to-high derivative map of
      the reversed coefficients. */
  lemma ReversedFormalDerivative(p: Polynomial)
    requires 1 <= p.degree < |p.coefficients|
    ensures Reversed(FormalDerivative(p)) == Polynomials.DerivativeCoefficients(Reversed(p))
  {
    var q := FormalDerivative(p);
    var r := Reversed(p);
    var dr := Polynomials.DerivativeCoefficients(r);
    forall j | 0 <= j < |dr| ensures Reversed(q)[j] == dr[j] {
      ReversedFormalDerivativeAt(p, j);
    }
  }

  lemma ReversedFormalDerivativeAt(p: Polynomial, j: nat)
    requires 1 <= p.degree < |p.coefficients| && j < p.degree
    ensures Reversed(FormalDerivative(p))[j] == Polynomials.DerivativeCoefficients(Reversed(p))[j]
  {
    var d := p.degree;
    var i := d - 1 - j;
    assert Reversed(FormalDerivative(p))[j] == FormalDerivative(p).coefficients[i];
    assert FormalDerivative(p).coefficients[i] == (d - i) as real * p.coefficients[i];
    assert Polynomials.DerivativeCoefficients(Reversed(p))[j] == (j + 1) as real * Reversed(p)[j + 1];
    assert Reversed(p)[j + 1] == p.coefficients[i];
    assert (d - i) as real == (j + 1) as real;
  }

  /** `deriv_at` here and `deriv_at` of the low-to-high polynomial compute the
      same value when the coefficients are reversed. */
  lemma SlopeAtAgrees(p: Polynomial, x: Complex)
    requires 1 <= p.degree < |p.coefficients|
    ensures SlopeAt(p, x) == Polynomials.DerivSum(Reversed(p), x)
  {
    SlopeIsFormalDerivative(p, x);
    ValueAtAgrees(FormalDerivative(p), x);
    ReversedFormalDerivative(p);
    Polynomials.DerivSumIsPowerSumOfDerivative(Reversed(p), x);
  }

  /** The polynomial of the unit tests: x^2 + 3x + 2, highest power first. */
  const TestPolynomial := Polynomial(2, [1.0, 3.0, 2.0])

  /** Read lowest power first, the test polynomial is the low-to-high
      evaluator's test polynomial 2 + 3x + x^2. */
  lemma TestPolynomialReversed()
    ensures Reversed(TestPolynomial) == Polynomials.TestPolynomial.coefficients
  {
  }

  /** At a real point x the test polynomial is x^2 + 3x + 2, its derivative 2x + 3. */
  lemma TestPolynomialAtReal(x: real)
    ensures ValueAt(TestPolynomial, FromReal(x)) == FromReal(Polynomials.TestValue(x))
    ensures SlopeAt(TestPolynomial, FromReal(x)) == FromReal(Polynomials.TestSlope(x))
  {
    TestPolynomialReversed();
    ValueAtAgrees(TestPolynomial, FromReal(x));
    SlopeAtAgrees(TestPolynomial, FromReal(x));
    Polynomials.TestPolynomialAtReal(x);
    assert Polynomials.TestPolynomial.coefficients[..3] == Polynomials.TestPolynomial.coefficients;
  }

  /** The values the unit tests expect: P(1) = 6 and P'(1) = 5. */
  lemma TestPolynomialValues()
    ensures ValueAt(TestPolynomial, FromReal(1.0)) == FromReal(6.0)
    ensures SlopeAt(TestPolynomial, FromReal(1.0)) == FromReal(5.0)
  {
    TestPolynomialAtReal(1.0);
    assert Polynomials.TestValue(1.0) == 6.0 && Polynomials.TestSlope(1.0) == 5.0;
  }

  // ---------------------------------------------------------------------
  // The Aberth correction over complex rationals

  /** The divisor that is zero when a `Rational` division panics. */
  datatype Fault =
    | DegenerateDerivative      // P'(z_k) = 0 in t1 = P(z_k) / P'(z_k)
    | CoincidentApproximations  // z_k = z_j for some j != k in 1 / (z_k - z_j)
    | ZeroDivisor               // (1 - t1)·t2 = 0 in the final division

  datatype Result<T> = Success(value: T) | Failure(fault: Fault)

  /** The correction for approximation k: t1 / ((1 - t1)·t2), with
      t1 = P(z_k)/P'(z_k) and t2 the separation sum of z_k; the divisions
      happen in that order, and the first zero divisor is the fault. */
  function Correction(p: Polynomial, v: seq<Complex>, k: nat): (r: Result<Complex>)
    requires 1 <= p.degree < |p.coefficients| && k < |v|
    ensures r.Failure? <==> !Invertible(SlopeAt(p, v[k])) || !Separated(v, k)
                            || !Invertible(Mul(Sub(One, Div(ValueAt(p, v[k]), SlopeAt(p, v[k]))), OffsetNumberSum(v, k)))
    ensures r == Failure(DegenerateDerivative) <==> !Invertible(SlopeAt(p, v[k]))
    ensures r == Failure(CoincidentApproximations) <==> Invertible(SlopeAt(p, v[k])) && !Separated(v, k)
    ensures r == Failure(ZeroDivisor) <==> r.Failure? && Invertible(SlopeAt(p, v[k])) && Separated(v, k)
    ensures r.Success? ==> (r.value == Zero <==> ValueAt(p, v[k]) == Zero)
  {
    var z := v[k];
    var slope := SlopeAt(p, z);
    if !Invertible(slope) then Failure(DegenerateDerivative)
    else
      var t1 := Div(ValueAt(p, z), slope);
      if !Separated(v, k) then Failure(CoincidentApproximations)
      else
        var den := Mul(Sub(One, t1), OffsetNumberSum(v, k));
        if !Invertible(den) then Failure(ZeroDivisor)
        else
          DivIsZeroIff(t1, den);
          DivIsZeroIff(ValueAt(p, z), slope);
          Success(Div(t1, den))
  }

  /** `offset_number`: t1 from `eval_at` and `deriv_at`, t2 accumulated over
      every other approximation, then the quotient. */
  method OffsetNumber(p: Polynomial, v: seq<Complex>, k: nat) returns (r: Result<Complex>)
    requires 1 <= p.degree < |p.coefficients| && k < |v|
    ensures r == Correction(p, v, k)
  {
    var z := v[k];
    var value := EvalAt(p, z);
    var slope := DerivAt(p, z);
    if !Invertible(slope) {
      return Failure(DegenerateDerivative);
    }
    var t1 := Div(value, slope);
    var t2 := Zero;
    for j := 0 to |v|
      invariant SeparatedBelow(v, k, j)
      invariant t2 == SeparationPrefix(v, k, j)
    {
      if j != k {
        var gap := Sub(z, v[j]);
        if !Invertible(gap) {
          return Failure(CoincidentApproximations);
        }
        t2 := Add(t2, Div(One, gap));
      }
    }
    var den := Mul(Sub(One, t1), t2);
    if !Invertible(den) {
      return Failure(ZeroDivisor);
    }
    r := Success(Div(t1, den));
  }

  /** Without another approximation t2 is 0, so the divisor (1 - t1)·t2
      vanishes: unlike the low-to-high evaluator's t1 / (1 - t1·t2), which
      is then Newton's step, this correction always fails. */
  lemma LoneApproximationHasZeroDivisor(p: Polynomial, z: Complex)
    requires 1 <= p.degree < |p.coefficients| && Invertible(SlopeAt(p, z))
    ensures Correction(p, [z], 0) == Failure(ZeroDivisor)
  {
    assert SeparationPrefix([z], 0, 0) == Zero;
  }

  // ---------------------------------------------------------------------
  // The sweep and the root finder

  /** Steps 0 .. n-1 of one sweep: step j adds the correction of
      approximation j, computed from the vector as the earlier steps left it. */
  function SweepSteps(p: Polynomial, v: seq<Complex>, n: nat): (r: Result<seq<Complex>>)
    requires n <= |v| && (n == 0 || 1 <= p.degree < |p.coefficients|)
    ensures r.Success? ==> |r.value| == |v| && r.value[n..] == v[n..]
  {
    if n == 0 then Success(v)
    else
      match SweepSteps(p, v, n - 1)
      case Failure(f) => Failure(f)
      case Success(w) =>
        match Correction(p, w, n - 1)
        case Failure(f) => Failure(f)
        case Success(offset) => Success(w[n - 1 := Add(w[n - 1], offset)])
  }

  /** One pass of the inner loop of `factors`, over approximations 0 .. degree-1. */
  function SweepResult(p: Polynomial, v: seq<Complex>): Result<seq<Complex>>
    requires p.degree <= |v| && (p.degree == 0 || p.degree < |p.coefficients|)
  {
    SweepSteps(p, v, p.degree)
  }

  datatype Status = Completed | Aborted(fault: Fault)

  /** The inner loop of `factors`: `curr_approximation[j] += offset` for
      j = 0 .. degree-1, in place. */
  method Sweep(p: Polynomial, a: array<Complex>) returns (status: Status)
    requires p.degree <= a.Length && (p.degree == 0 || p.degree < |p.coefficients|)
    modifies a
    ensures status == Completed <==> SweepResult(p, old(a[..])).Success?
    ensures status == Completed ==> a[..] == SweepResult(p, old(a[..])).value
    ensures status.Aborted? ==> SweepResult(p, old(a[..])) == Failure(status.fault)
  {
    ghost var v := a[..];
    for j := 0 to p.degree
      invariant SweepSteps(p, v, j) == Success(a[..])
    {
      var offset := OffsetNumber(p, a[..], j);
      SweepStep(p, v, j, a[..]);
      if offset.Failure? {
        status := Aborted(offset.fault);
        FailureIsFinal(p, v, j + 1, p.degree);
        return;
      }
      a[j] := Add(a[j], offset.value);
    }
    status := Completed;
  }

  /** Step j of a sweep applies the correction of approximation j to the
      vector the earlier steps produced, or stops with its fault. */
  lemma SweepStep(p: Polynomial, v: seq<Complex>, j: nat, w: seq<Complex>)
    requires j < |v| && 1 <= p.degree < |p.coefficients|
    requires SweepSteps(p, v, j) == Success(w)
    ensures Correction(p, w, j).Failure? ==> SweepSteps(p, v, j + 1) == Failure(Correction(p, w, j).fault)
    ensures Correction(p, w, j).Success? ==>
              SweepSteps(p, v, j + 1) == Success(w[j := Add(w[j], Correction(p, w, j).value)])
  {
  }

  /** Once a step fails, the sweep fails with that fault. */
  lemma {:induction false} FailureIsFinal(p: Polynomial, v: seq<Complex>, m: nat, n: nat)
    requires m <= n <= |v| && (n == 0 || 1 <= p.degree < |p.coefficients|)
    requires SweepSteps(p, v, m).Failure?
    ensures SweepSteps(p, v, n) == SweepSteps(p, v, m)
    decreases n - m
  {
    if m < n {
      FailureIsFinal(p, v, m, n - 1);
    }
  }

  /** m sweeps from v, stopping at the first fault. */
  function Sweeps(p: Polynomial, v: seq<Complex>, m: nat): (r: Result<seq<Complex>>)
    requires p.degree <= |v| && (p.degree == 0 || p.degree < |p.coefficients|)
    ensures r.Success? ==> |r.value| == |v|
  {
    if m == 0 then Success(v)
    else
      match Sweeps(p, v, m - 1)
      case Failure(f) => Failure(f)
      case Success(w) => SweepResult(p, w)
  }

  /** The fixed initial approximations 1 + i and 2 + i. */
  const InitialApproximations := [Complex(1.0, 1.0), Complex(2.0, 1.0)]

  /** The roots `factors` reports, whatever the polynomial: 1 and 2. */
  const StubFactors := [1.0, 2.0]

  /** The number of sweeps `factors` performs. */
  const Rounds: nat := 10

  /** What `factors` returns: the constant roots once every sweep completes,
      the first fault otherwise. */
  function FactorsResult(p: Polynomial): (r: Result<seq<real>>)
    requires p.degree <= 2 && (p.degree == 0 || p.degree < |p.coefficients|)
    ensures r.Success? <==> Sweeps(p, InitialApproximations, Rounds).Success?
    ensures r.Success? ==> r.value == StubFactors
  {
    match Sweeps(p, InitialApproximations, Rounds)
    case Success(_) => Success(StubFactors)
    case Failure(f) => Failure(f)
  }

  /** `factors`: ten sweeps over the two fixed approximations (the vector has
      two slots, so a degree above 2 indexes past it), then the constant list
      [1, 2]; a zero divisor in any sweep panics. */
  method Factors(p: Polynomial) returns (r: Result<seq<real>>)
    requires p.degree <= 2 && (p.degree == 0 || p.degree < |p.coefficients|)
    ensures r == FactorsResult(p)
  {
    var a := new Complex[2];
    a[0], a[1] := Complex(1.0, 1.0), Complex(2.0, 1.0);
    ghost var init := a[..];
    assert init == InitialApproximations;
    for i := 0 to Rounds
      invariant Sweeps(p, init, i) == Success(a[..])
    {
      var status := Sweep(p, a);
      if status.Aborted? {
        SweepsFailureIsFinal(p, init, i + 1, Rounds);
        return Failure(status.fault);
      }
    }
    r := Success(StubFactors);
  }

  lemma {:induction false} SweepsFailureIsFinal(p: Polynomial, v: seq<Complex>, m: nat, n: nat)
    requires m <= n && p.degree <= |v| && (p.degree == 0 || p.degree < |p.coefficients|)
    requires Sweeps(p, v, m).Failure?
    ensures Sweeps(p, v, n) == Sweeps(p, v, m)
    decreases n - m
  {
    if m < n {
      SweepsFailureIsFinal(p, v, m, n - 1);
    }
  }

  /** A polynomial of degree 0 has no approximation to correct: every sweep
      leaves the vector as it is and cannot fail. */
  lemma {:induction false} ConstantNeverFails(p: Polynomial, v: seq<Complex>, m: nat)
    requires p.degree == 0
    ensures Sweeps(p, v, m) == Success(v)
  {
    if m > 0 {
      ConstantNeverFails(p, v, m - 1);
    }
  }

  /** Exact roots are fixed points: a sweep that completes over approximations
      that are all roots leaves them unchanged. */
  lemma {:induction false} RootsAreFixed(p: Polynomial, v: seq<Complex>, n: nat)
    requires n <= |v| && 1 <= p.degree < |p.coefficients|
    requires forall j :: 0 <= j < n ==> ValueAt(p, v[j]) == Zero
    requires SweepSteps(p, v, n).Success?
    ensures SweepSteps(p, v, n) == Success(v)
  {
    if n > 0 {
      RootsAreFixed(p, v, n - 1);
      var offset := Correction(p, v, n - 1);
      assert offset.Success?;
      assert offset.value == Zero;
      assert v[n - 1 := Add(v[n - 1], Zero)] == v;
    }
  }

  // ---------------------------------------------------------------------
  // Rendering

  /** One factor: "(x - r)" for a positive r, "(x + |r|)" otherwise, so 0
      gives "(x + 0)"; `show` renders the rational's magnitude. */
  function FactorText(r: real, show: real -> string): string {
    var sign := if r > 0.0 then "-" else "+";
    "(x " + sign + " " + show(Polynomials.Abs(r)) + ")"
  }

  /** One chunk per root, in the order of the roots. */
  function FactorTexts(roots: seq<real>, show: real -> string): seq<string> {
    seq(|roots|, i requires 0 <= i < |roots| => FactorText(roots[i], show))
  }

  /** The factors of the roots, in order. */
  function FactoredText(roots: seq<real>, show: real -> string): string {
    Join(FactorTexts(roots, show))
  }

  /** `pretty_factored`: the roots of `factors`, rendered one after another. */
  method PrettyFactored(p: Polynomial, show: real -> string) returns (r: Result<string>)
    requires p.degree <= 2 && (p.degree == 0 || p.degree < |p.coefficients|)
    ensures r.Success? <==> FactorsResult(p).Success?
    ensures r.Success? ==> r.value == FactoredText(StubFactors, show)
    ensures r.Failure? ==> FactorsResult(p) == Failure(r.fault)
  {
    var factors := Factors(p);
    if factors.Failure? {
      return Failure(factors.fault);
    }
    var roots := factors.value;
    var pretty := "";
    for i := 0 to |roots|
      invariant pretty == Join(FactorTexts(roots, show)[..i])
    {
      var factor := roots[i];
      var sign := if factor > 0.0 then "-" else "+";
      pretty := pretty + ("(x " + sign + " " + show(Polynomials.Abs(factor)) + ")");
      assert FactorTexts(roots, show)[..i + 1][..i] == FactorTexts(roots, show)[..i];
    }
    assert FactorTexts(roots, show)[..|roots|] == FactorTexts(roots, show);
    r := Success(pretty);
  }

  /** A factor opens with "(x " followed by "-" exactly for a positive root. */
  lemma FactorTextSign(r: real, show: real -> string)
    ensures |FactorText(r, show)| > 4 && FactorText(r, show)[..3] == "(x "
    ensures FactorText(r, show)[3] == '-' <==> r > 0.0
  {
    var sign := if r > 0.0 then "-" else "+";
    assert FactorText(r, show) == "(x " + sign + (" " + show(Polynomials.Abs(r)) + ")");
  }

  /** Rendering is a concatenation: the chunks of a list of roots are those of
      its parts, in order. */
  lemma FactoredTextConcat(a: seq<real>, b: seq<real>, show: real -> string)
    ensures FactoredText(a + b, show) == FactoredText(a, show) + FactoredText(b, show)
  {
    assert FactorTexts(a + b, show) == FactorTexts(a, show) + FactorTexts(b, show);
    JoinConcat(FactorTexts(a, show), FactorTexts(b, show));
  }

  /** With a numeral magnitude a chunk contains exactly one x. */
  lemma FactorTextHasOneX(r: real, show: real -> string)
    requires Numeral(show(Polynomials.Abs(r)))
    ensures Count(FactorText(r, show), 'x') == 1
  {
    var sign := if r > 0.0 then "-" else "+";
    var m := show(Polynomials.Abs(r));
    NumeralHasNoLetter(m, 'x');
    var t := "(x " + sign + " ";
    assert FactorText(r, show) == t + m + ")";
    CountConcat(t, m, 'x');
    CountConcat(t + m, ")", 'x');
    Polynomials.OpeningHasOneX(sign);
  }

  /** With numeral magnitudes the output contains one x per root. */
  lemma FactoredTextCountsRoots(roots: seq<real>, show: real -> string)
    requires Polynomials.NumeralRenderer(show)
    ensures Count(FactoredText(roots, show), 'x') == |roots|
  {
    var fs := FactorTexts(roots, show);
    forall i | 0 <= i < |fs| ensures Count(fs[i], 'x') == 1 {
      FactorTextHasOneX(roots[i], show);
    }
    JoinCountsParts(fs, 'x');
  }

  /** With the constant roots, and magnitudes written as integers, the
      output is "(x - 1)(x - 2)". */
  lemma StubRendering(show: real -> string)
    requires show(1.0) == "1" && show(2.0) == "2"
    ensures FactoredText(StubFactors, show) == "(x - 1)(x - 2)"
  {
    var fs := FactorTexts(StubFactors, show);
    assert Polynomials.Abs(1.0) == 1.0 && Polynomials.Abs(2.0) == 2.0;
    assert FactorText(1.0, show) == "(x - " + "1" + ")" == "(x - 1)";
    assert FactorText(2.0, show) == "(x - " + "2" + ")" == "(x - 2)";
    assert fs == ["(x - 1)", "(x - 2)"];
    assert fs[..1] == ["(x - 1)"] && fs[..1][..0] == [];
    assert Join(fs[..1]) == "(x - 1)";
    assert Join(fs) == "(x - 1)" + "(x - 2)";
  }
}
