/** Small facts about real arithmetic, kept apart so that each proof that
    uses them sees only the products it needs. */
module RealAlgebra {

  /** std::max(a, b): the larger of the two. */
  function Max(a: real, b: real): (m: real)
    ensures m >= a && m >= b
    ensures m == a || m == b
  {
    if a < b then b else a
  }

  lemma PositiveProduct(a: real, b: real)
    requires a > 0.0 && b > 0.0
    ensures a * b > 0.0
  {
  }

  lemma MulLess(a: real, b: real, c: real)
    requires a > 0.0 && b < c
    ensures a * b < a * c
  {
  }

  lemma MulAtMostOne(a: real, p: real)
    requires a > 0.0 && 0.0 <= p <= 1.0
    ensures 0.0 <= a * p <= a
  {
  }

  /** Discounting a payoff at the forward is the payoff against the
      discounted strike: with down * up == 1 and down > 0,
      down * max(s up - k, 0) == max(s - k down, 0), and likewise for puts. */
  lemma DiscountMax(down: real, up: real, s: real, k: real)
    requires down > 0.0 && down * up == 1.0
    ensures down * Max(s * up - k, 0.0) == Max(s - k * down, 0.0)
    ensures down * Max(k - s * up, 0.0) == Max(k * down - s, 0.0)
  {
    assert down * (s * up) == s * (down * up);
    assert down * (s * up - k) == s - k * down;
    assert down * (k - s * up) == k * down - s;
    MulSign(down, s * up - k);
    MulSign(down, k - s * up);
  }

  /** A positive factor keeps the sign of the other factor. */
  lemma MulSign(a: real, x: real)
    requires a > 0.0
    ensures x < 0.0 ==> a * x < 0.0
    ensures x >= 0.0 ==> a * x >= 0.0
  {
    if x < 0.0 {
      MulLess(a, x, 0.0);
    }
  }

  /** With probabilities p1, p2, q1, q2 in [0, 1] and positive s and d,
      s p1 - d p2 <= s and d q2 - s q1 <= d. */
  lemma ClosedFormBoundsAlgebra(s: real, d: real, p1: real, p2: real, q1: real, q2: real)
    requires s > 0.0 && d > 0.0
    requires 0.0 <= p1 <= 1.0 && 0.0 <= p2 <= 1.0 && 0.0 <= q1 <= 1.0 && 0.0 <= q2 <= 1.0
    ensures s * p1 - d * p2 <= s
    ensures d * q2 - s * q1 <= d
  {
    MulAtMostOne(s, p1);
    MulAtMostOne(d, p2);
    MulAtMostOne(d, q2);
    MulAtMostOne(s, q1);
  }

  /** The second-order term of the Black–Scholes equation:
      (1/2) sigma^2 S^2 * n / (S sigma q) == (S n sigma) / (2 q). */
  lemma HalfSigmaSquaredGamma(s: real, sigma: real, q: real, n: real)
    requires s > 0.0 && sigma > 0.0 && q > 0.0
    ensures s * sigma * q > 0.0
    ensures 0.5 * sigma * sigma * s * s * (n / (s * sigma * q)) == (s * n * sigma) / (2.0 * q)
  {
    PositiveProduct(s, sigma);
    PositiveProduct(s * sigma, q);
    var g := n / (s * sigma * q);
    assert g * (s * sigma * q) == n;
    assert (sigma * s * g) * q == n;
    var h := sigma * s * g;
    assert h == n / q;
    assert 0.5 * sigma * sigma * s * s * g == 0.5 * sigma * s * h;
    assert (s * n * sigma) / (2.0 * q) == 0.5 * sigma * s * (n / q);
  }
}
