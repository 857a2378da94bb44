/** Complex numbers over exact reals, with the operations the calculator's
    evaluators use.  Each operation is computed the way the num-complex crate
    computes it (component formulas), so with `real` in place of `f64` or
    `Rational` the values are those the source would produce without rounding. */
module ComplexNumbers {

  datatype Complex = Complex(re: real, im: real)

  const Zero := Complex(0.0, 0.0)
  const One := Complex(1.0, 0.0)

  /** The complex number with real part x and imaginary part 0 (`Complex::new(x, 0)`). */
  function FromReal(x: real): Complex {
    Complex(x, 0.0)
  }

  function Add(a: Complex, b: Complex): Complex {
    Complex(a.re + b.re, a.im + b.im)
  }

  function Sub(a: Complex, b: Complex): Complex {
    Complex(a.re - b.re, a.im - b.im)
  }

  function Mul(a: Complex, b: Complex): Complex {
    Complex(a.re * b.re - a.im * b.im, a.re * b.im + a.im * b.re)
  }

  /** A real scalar times a complex number (`f64 * Complex<f64>`), component-wise. */
  function Scale(x: real, z: Complex): Complex {
    Complex(x * z.re, x * z.im)
  }

  /** The squared modulus, `norm_sqr`: the quantity complex division divides by. */
  function NormSqr(z: Complex): real {
    z.re * z.re + z.im * z.im
  }

  /** z can be divided by: its squared modulus is nonzero (over the reals this
      is the case exactly when z is not 0; `InvertibleIsNonzero` proves one
      direction of that).  Dividing by a z that is not invertible is exactly the case in
      which num-complex's division divides a `Rational` by zero. */
  predicate Invertible(z: Complex) {
    NormSqr(z) != 0.0
  }

  /** Division as num-complex performs it: multiply by the conjugate, divide by the norm. */
  function Div(a: Complex, b: Complex): Complex
    requires Invertible(b)
  {
    var n := NormSqr(b);
    Complex((a.re * b.re + a.im * b.im) / n, (a.im * b.re - a.re * b.im) / n)
  }

  /** z^n by repeated multiplication; z^0 is 1 even for z = 0, as `powi(0)` is. */
  function Pow(z: Complex, n: nat): Complex {
    if n == 0 then One else Mul(z, Pow(z, n - 1))
  }

  /** Zero cannot be divided by; one can. */
  lemma InvertibleIsNonzero(z: Complex)
    ensures Invertible(z) ==> z != Zero
    ensures Invertible(One)
  {
  }

  /** A quotient vanishes exactly when its numerator does. */
  lemma DivIsZeroIff(a: Complex, b: Complex)
    requires Invertible(b)
    ensures Div(a, b) == Zero <==> a == Zero
  {
    if Div(a, b) == Zero {
      QuotientVanishes(a.re, a.im, b.re, b.im, NormSqr(b));
    }
  }

  /** The componentwise core of DivIsZeroIff: if both components of a / b are
      zero then so are both components of a. */
  lemma QuotientVanishes(ar: real, ai: real, br: real, bi: real, n: real)
    requires n == br * br + bi * bi && n != 0.0
    requires (ar * br + ai * bi) / n == 0.0 && (ai * br - ar * bi) / n == 0.0
    ensures ar == 0.0 && ai == 0.0
  {
    var x := ar * br + ai * bi;
    var y := ai * br - ar * bi;
    assert x == 0.0 && y == 0.0;
    assert ar * n == br * x - bi * y;
    assert ai * n == bi * x + br * y;
  }

  /** Multiplying by an embedded real is scaling. */
  lemma MulFromRealIsScale(a: real, z: Complex)
    ensures Mul(FromReal(a), z) == Scale(a, z)
  {
  }
}
