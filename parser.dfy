/** The parser's data: a term is a coefficient with an exponent, and a
    polynomial is the dense vector of its coefficients, highest power first,
    built from the list of terms the grammar produces. */
module Parser {

  /** Rust's `i32`. */
  type I32 = x: int | -0x8000_0000 <= x < 0x8000_0000

  /** A parsed term coefficient·x^exponent; the coefficient is a rational,
      modelled by its exact value. */
  datatype Term = Term(coefficient: real, exponent: I32)

  /** A polynomial with `coefficients[i]` the coefficient of x^(degree - i). */
  datatype Polynomial = Polynomial(degree: nat, coefficients: seq<real>)

  /** `Term::new`: the integer coefficient becomes the rational c/1, the
      exponent is kept.  The widening `i32` to `isize` cannot fail. */
  function NewTerm(coefficient: I32, exponent: I32): (t: Term)
    ensures t.coefficient == coefficient as real && t.exponent == exponent
  {
    Term(coefficient as real / 1.0, exponent)
  }

  /** A term records its arguments without loss. */
  lemma NewTermInjective(c: I32, e: I32, c': I32, e': I32)
    ensures NewTerm(c, e) == NewTerm(c', e') <==> c == c' && e == e'
  {
  }

  /** What `Polynomial::new` needs not to panic: a first term, whose exponent
      is not negative (`try_into` to `usize`), and no exponent that is
      negative or above the first one (the slot index `degree - exponent`). */
  predicate Buildable(terms: seq<Term>) {
    && |terms| > 0
    && terms[0].exponent >= 0
    && forall i :: 0 <= i < |terms| ==> 0 <= terms[i].exponent <= terms[0].exponent
  }

  /** The coefficient the terms give x^e: that of the last term with exponent
      e, since later terms overwrite earlier ones, and 0 without one. */
  function CoefficientOf(terms: seq<Term>, e: int): real {
    if terms == [] then 0.0
    else if terms[|terms| - 1].exponent == e then terms[|terms| - 1].coefficient
    else CoefficientOf(terms[..|terms| - 1], e)
  }

  /** `Polynomial::new`: a zeroed vector of `degree + 1` slots, then each term
      written, in order, to the slot of its exponent. */
  method New(terms: seq<Term>) returns (p: Polynomial)
    requires Buildable(terms)
    ensures p.degree == terms[0].exponent && |p.coefficients| == p.degree + 1
    ensures forall e :: 0 <= e <= p.degree ==> p.coefficients[p.degree - e] == CoefficientOf(terms, e)
  {
    var degree: nat := terms[0].exponent;
    var coefficients := new real[degree + 1](_ => 0.0);
    for i := 0 to |terms|
      invariant forall e :: 0 <= e <= degree ==> coefficients[degree - e] == CoefficientOf(terms[..i], e)
    {
      assert terms[..i + 1][..i] == terms[..i];
      var exponent: nat := terms[i].exponent;
      coefficients[degree - exponent] := terms[i].coefficient;
    }
    assert terms[..|terms|] == terms;
    p := Polynomial(degree, coefficients[..]);
  }

  /** An exponent no term carries gets the coefficient 0. */
  lemma {:induction false} CoefficientOfAbsent(terms: seq<Term>, e: int)
    requires forall i :: 0 <= i < |terms| ==> terms[i].exponent != e
    ensures CoefficientOf(terms, e) == 0.0
  {
    if terms != [] {
      CoefficientOfAbsent(terms[..|terms| - 1], e);
    }
  }

  /** The coefficient of x^e is that of the last term with exponent e. */
  lemma {:induction false} CoefficientOfLastWins(terms: seq<Term>, j: nat)
    requires j < |terms|
    requires forall i :: j < i < |terms| ==> terms[i].exponent != terms[j].exponent
    ensures CoefficientOf(terms, terms[j].exponent) == terms[j].coefficient
  {
    if j < |terms| - 1 {
      CoefficientOfLastWins(terms[..|terms| - 1], j);
    }
  }

  /** The terms 3x^2 + 5 + 2x^2 (a repeated exponent, x^1 missing) give the
      vector [2, 0, 5]: the later 2x^2 wins and the missing slot stays 0. */
  lemma NewExample()
    ensures var terms := [NewTerm(3, 2), NewTerm(5, 0), NewTerm(2, 2)];
      Buildable(terms)
      && CoefficientOf(terms, 2) == 2.0 && CoefficientOf(terms, 1) == 0.0 && CoefficientOf(terms, 0) == 5.0
  {
    var terms := [NewTerm(3, 2), NewTerm(5, 0), NewTerm(2, 2)];
    CoefficientOfAbsent(terms, 1);
    CoefficientOfLastWins(terms, 1);
  }
}
