/** The transcendental functions the pricer calls, and the normal CDF and
    density built from them. The library calls themselves are not modelled:
    a `MathLib` value supplies them, and `Lawful` lists the only facts about
    them that the proofs may use. */
module PricerMath {
  import opened RealAlgebra

  /** Stand-ins for std::exp, std::log, std::sqrt and std::erf. */
  datatype MathLib = MathLib(exp: real -> real, log: real -> real, sqrt: real -> real, erf: real -> real)

  /** Negation as a function, so that the laws below fire only where a
      proof names the negated argument. */
  function Neg(x: real): (y: real)
    ensures x + y == 0.0
  {
    -x
  }

  /** What the pricer relies on: exp is positive and exp(a) * exp(-a) == 1,
      the square root of a positive number is positive and squares back to
      it, erf is odd and bounded by 1 in absolute value. */
  ghost predicate Lawful(m: MathLib) {
    && (forall x :: m.exp(x) > 0.0)
    && (forall a {:trigger m.exp(Neg(a))} :: m.exp(a) * m.exp(Neg(a)) == 1.0)
    && (forall x :: x > 0.0 ==> m.sqrt(x) > 0.0)
    && (forall x :: x >= 0.0 ==> m.sqrt(x) * m.sqrt(x) == x)
    && (forall x {:trigger m.erf(Neg(x))} :: m.erf(Neg(x)) == -m.erf(x))
    && (forall x :: -1.0 <= m.erf(x) <= 1.0)
  }

  /** 1 / sqrt(2 pi), as the literal `norm_pdf` in include/pricer/math.hpp uses. */
  const InvSqrt2Pi: real := 0.39894228040143267794

  /** Standard normal CDF: 0.5 * (1 + erf(x / sqrt 2)). */
  function NormCdf(m: MathLib, x: real): (p: real)
    requires Lawful(m)
    ensures 0.0 <= p <= 1.0
  {
    0.5 * (1.0 + m.erf(x / m.sqrt(2.0)))
  }

  /** Standard normal density: exp(-x^2 / 2) / sqrt(2 pi). */
  function NormPdf(m: MathLib, x: real): (p: real)
    requires Lawful(m)
    ensures p > 0.0
  {
    InvSqrt2Pi * m.exp(-0.5 * x * x)
  }

  /** N(x) + N(-x) == 1, because erf is odd. */
  lemma NormCdfSymmetric(m: MathLib, x: real)
    requires Lawful(m)
    ensures NormCdf(m, x) + NormCdf(m, -x) == 1.0
  {
    var s := m.sqrt(2.0);
    assert (-x) / s == Neg(x / s);
    assert m.erf(Neg(x / s)) == -m.erf(x / s);
  }

  /** exp(a) * exp(b) == 1 whenever a and b are opposite. */
  lemma ExpInverse(m: MathLib, a: real, b: real)
    requires Lawful(m)
    requires a + b == 0.0
    ensures m.exp(a) * m.exp(b) == 1.0
  {
    assert b == Neg(a);
    assert m.exp(a) * m.exp(Neg(a)) == 1.0;
  }

  /** exp(0) == 1 follows from the two laws on exp. */
  lemma ExpZero(m: MathLib)
    requires Lawful(m)
    ensures m.exp(0.0) == 1.0
  {
    var e := m.exp(0.0);
    ExpInverse(m, 0.0, 0.0);
    if e > 1.0 {
      assert false;
    } else if e < 1.0 {
      MulLess(e, e, 1.0);
      assert false;
    }
  }
}
