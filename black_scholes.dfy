/** Present value of a European option under Black–Scholes: an ordered chain
    of input checks, two degenerate cases (zero expiry, then zero volatility)
    and the closed form. */
module Pricing {
  import opened PricerTypes
  import opened PricerMath
  import opened Payoffs
  import opened RealAlgebra

  /** The inputs that get past every pricing guard. Zero expiry and zero
      volatility are accepted. */
  predicate PricingInputsValid(mkt: MarketData, opt: Option) {
    && opt.style == European
    && mkt.spot > 0.0
    && opt.strike > 0.0
    && opt.expiry >= 0.0
    && mkt.vol >= 0.0
  }

  /** The discount factor exp(-rT), always positive. */
  function Discount(m: MathLib, r: real, t: real): (d: real)
    requires Lawful(m)
    ensures d > 0.0
  {
    m.exp(-r * t)
  }

  /** The growth factor exp(rT) of the risk-neutral forward, always positive. */
  function Growth(m: MathLib, r: real, t: real): (g: real)
    requires Lawful(m)
    ensures g > 0.0
  {
    m.exp(r * t)
  }

  /** Discounting undoes growth, and both factors are positive. */
  lemma DiscountGrowth(m: MathLib, r: real, t: real)
    requires Lawful(m)
    ensures Discount(m, r, t) > 0.0 && Growth(m, r, t) > 0.0
    ensures Discount(m, r, t) * Growth(m, r, t) == 1.0
  {
    ExpInverse(m, -r * t, r * t);
  }

  /** Over zero time the discount factor is 1. */
  lemma DiscountOverNoTime(m: MathLib, r: real)
    requires Lawful(m)
    ensures Discount(m, r, 0.0) == 1.0
  {
    ExpZero(m);
    assert -r * 0.0 == 0.0;
  }

  /** d1 = (ln(S/K) + (r + sigma^2 / 2) T) / (sigma sqrt T): the number
      that, scaled by the positive sigma sqrt T, gives the log-moneyness
      plus the drift term. */
  function D1(m: MathLib, s: real, k: real, r: real, t: real, sigma: real): (d1: real)
    requires Lawful(m)
    requires k > 0.0 && t > 0.0 && sigma > 0.0
    ensures sigma * m.sqrt(t) > 0.0
    ensures d1 * (sigma * m.sqrt(t)) == m.log(s / k) + (r + 0.5 * sigma * sigma) * t
  {
    var sqrtT := m.sqrt(t);
    PositiveProduct(sigma, sqrtT);
    (m.log(s / k) + (r + 0.5 * sigma * sigma) * t) / (sigma * sqrtT)
  }

  /** d2 = d1 - sigma sqrt T, which lies strictly below d1. */
  function D2(m: MathLib, s: real, k: real, r: real, t: real, sigma: real): (d2: real)
    requires Lawful(m)
    requires k > 0.0 && t > 0.0 && sigma > 0.0
    ensures d2 < D1(m, s, k, r, t, sigma)
  {
    D1(m, s, k, r, t, sigma) - sigma * m.sqrt(t)
  }

  /** d1 and d2 against the textbook definitions, with L = ln(S/K):
      d2 sigma sqrt T == L + (r - sigma^2 / 2) T, so subtracting
      sigma sqrt T from d1 gives the textbook d2, and
      d1^2 - d2^2 == 2 (L + r T). */
  lemma D1D2Identities(m: MathLib, s: real, k: real, r: real, t: real, sigma: real)
    requires Lawful(m)
    requires k > 0.0 && t > 0.0 && sigma > 0.0
    ensures var d1, d2, q := D1(m, s, k, r, t, sigma), D2(m, s, k, r, t, sigma), sigma * m.sqrt(t);
      && d2 * q == m.log(s / k) + (r - 0.5 * sigma * sigma) * t
      && d1 * d1 - d2 * d2 == 2.0 * (m.log(s / k) + r * t)
  {
    var d1, d2, sqrtT := D1(m, s, k, r, t, sigma), D2(m, s, k, r, t, sigma), m.sqrt(t);
    var q, l := sigma * sqrtT, m.log(s / k);
    assert sqrtT * sqrtT == t;
    assert q * q == sigma * sigma * t by {
      assert q * q == sigma * sigma * (sqrtT * sqrtT);
    }
    assert d1 * q == l + (r + 0.5 * sigma * sigma) * t;
    assert d2 == d1 - q;
    assert d2 * q == d1 * q - q * q;
    assert d1 * d1 - d2 * d2 == q * (d1 + d2) by {
      assert d1 * d1 - d2 * d2 == (d1 - d2) * (d1 + d2);
    }
    assert q * (d1 + d2) == d1 * q + d2 * q;
  }

  /** Value when sigma == 0 and T > 0: the terminal spot is the deterministic
      forward S0 exp(rT), and the value is its payoff discounted by exp(-rT).
      A failing payoff passes its error on, which happens exactly when the
      spot is negative; otherwise the value is never negative. */
  function DiscountedForwardPayoff(m: MathLib, opt: Option, s0: real, r: real, t: real): (res: RealResult)
    requires Lawful(m)
    ensures res.Err? <==> s0 < 0.0
    ensures res.Err? ==> res.error == SpotAtExpiryNegative
    ensures res.Ok? ==> res.value >= 0.0
  {
    var sT := s0 * Growth(m, r, t);
    MulSign(Growth(m, r, t), s0);
    assert sT == Growth(m, r, t) * s0;
    var p := Payoff(opt, sT);
    if p.Err? then p else
      MulSign(Discount(m, r, t), p.value);
      Ok(Discount(m, r, t) * p.value)
  }

  /** The closed form from d1, d2 and the discount factor, with
      discK = K exp(-rT): S0 N(d1) - discK N(d2) for a call and
      discK N(-d2) - S0 N(-d1) for a put. Whatever d1 and d2, a call is
      never worth more than the spot and a put never more than discK. */
  function ClosedForm(m: MathLib, kind: OptionType, s0: real, k: real, disc: real, d1: real, d2: real): (v: real)
    requires Lawful(m)
    ensures s0 > 0.0 && k > 0.0 && disc > 0.0 && kind == Call ==> v <= s0
    ensures s0 > 0.0 && k > 0.0 && disc > 0.0 && kind == Put ==> v <= k * disc
  {
    var discK := k * disc;
    var v := match kind
      case Call => s0 * NormCdf(m, d1) - discK * NormCdf(m, d2)
      case Put => discK * NormCdf(m, -d2) - s0 * NormCdf(m, -d1);
    if s0 > 0.0 && k > 0.0 && disc > 0.0 then
      PositiveProduct(k, disc);
      ClosedFormBoundsAlgebra(s0, discK, NormCdf(m, d1), NormCdf(m, d2), NormCdf(m, -d1), NormCdf(m, -d2));
      v
    else
      v
  }

  /** Price of `opt` in the market `mkt`. The first guard that fails decides
      the error, in the order style, spot, strike, expiry, volatility, and
      every input that passes them all gets a price. */
  function BlackScholesPrice(m: MathLib, mkt: MarketData, opt: Option): (r: RealResult)
    requires Lawful(m)
    ensures opt.style != European ==> r == Err(PricingNotEuropean)
    ensures opt.style == European && mkt.spot <= 0.0 ==> r == Err(SpotNotPositive)
    ensures opt.style == European && mkt.spot > 0.0 && opt.strike <= 0.0 ==>
              r == Err(StrikeNotPositive)
    ensures opt.style == European && mkt.spot > 0.0 && opt.strike > 0.0 && opt.expiry < 0.0 ==>
              r == Err(ExpiryNegative)
    ensures (opt.style == European && mkt.spot > 0.0 && opt.strike > 0.0 && opt.expiry >= 0.0
             && mkt.vol < 0.0) ==> r == Err(VolatilityNegative)
    ensures r.Ok? <==> PricingInputsValid(mkt, opt)
  {
    if opt.style != European then Err(PricingNotEuropean)
    else if mkt.spot <= 0.0 then Err(SpotNotPositive)
    else if opt.strike <= 0.0 then Err(StrikeNotPositive)
    else if opt.expiry < 0.0 then Err(ExpiryNegative)
    else if mkt.vol < 0.0 then Err(VolatilityNegative)
    else
      var s0, k, r, t, sigma := mkt.spot, opt.strike, mkt.rate, opt.expiry, mkt.vol;
      if t == 0.0 then
        Payoff(opt, s0)
      else if sigma == 0.0 then
        ForwardPayoffDefined(m, opt, s0, r, t);
        DiscountedForwardPayoff(m, opt, s0, r, t)
      else
        var d1 := D1(m, s0, k, r, t, sigma);
        var d2 := D2(m, s0, k, r, t, sigma);
        Ok(ClosedForm(m, opt.kind, s0, k, Discount(m, r, t), d1, d2))
  }

  /** The deterministic forward of a positive spot is positive, so the
      zero-volatility case never meets the payoff's negative-spot error. */
  lemma ForwardPayoffDefined(m: MathLib, opt: Option, s0: real, r: real, t: real)
    requires Lawful(m) && s0 > 0.0
    ensures s0 * Growth(m, r, t) > 0.0
    ensures Payoff(opt, s0 * Growth(m, r, t)).Ok?
  {
    DiscountGrowth(m, r, t);
    PositiveProduct(s0, Growth(m, r, t));
  }

  /** With zero volatility the value is the intrinsic value against the
      discounted strike: max(S0 - K exp(-rT), 0) for a call and
      max(K exp(-rT) - S0, 0) for a put. */
  lemma DiscountedForwardIntrinsic(m: MathLib, opt: Option, s0: real, r: real, t: real)
    requires Lawful(m) && s0 > 0.0
    ensures var discK := opt.strike * Discount(m, r, t);
      DiscountedForwardPayoff(m, opt, s0, r, t)
      == Ok(if opt.kind == Call then Max(s0 - discK, 0.0) else Max(discK - s0, 0.0))
  {
    var disc, up, k := Discount(m, r, t), Growth(m, r, t), opt.strike;
    ForwardPayoffDefined(m, opt, s0, r, t);
    var p := Payoff(opt, s0 * up);
    var res := DiscountedForwardPayoff(m, opt, s0, r, t);
    assert res.Ok? && res.value == disc * p.value;
    DiscountGrowth(m, r, t);
    DiscountMax(disc, up, s0, k);
    if opt.kind == Call {
      assert p.value == Max(s0 * up - k, 0.0);
    } else {
      assert p.value == Max(k - s0 * up, 0.0);
    }
  }

  /** Closed-form parity: the call minus the put is S0 - K exp(-rT), because
      N(x) + N(-x) == 1. */
  lemma ClosedFormParity(m: MathLib, s0: real, k: real, disc: real, d1: real, d2: real)
    requires Lawful(m)
    ensures ClosedForm(m, Call, s0, k, disc, d1, d2) - ClosedForm(m, Put, s0, k, disc, d1, d2)
            == s0 - k * disc
  {
    NormCdfSymmetric(m, d1);
    NormCdfSymmetric(m, d2);
  }

  /** Expiry now: the price is the payoff at today's spot, undiscounted, and
      that payoff never fails. This holds whatever the volatility, so the
      zero-expiry case wins over the zero-volatility one. */
  lemma PriceAtExpiry(m: MathLib, mkt: MarketData, opt: Option)
    requires Lawful(m) && PricingInputsValid(mkt, opt) && opt.expiry == 0.0
    ensures Payoff(opt, mkt.spot).Ok?
    ensures BlackScholesPrice(m, mkt, opt) == Payoff(opt, mkt.spot)
  {
  }

  /** Zero volatility before expiry: the price is the payoff at the
      deterministic forward S0 exp(rT), discounted by exp(-rT), and that
      payoff never fails. */
  lemma PriceZeroVolatility(m: MathLib, mkt: MarketData, opt: Option)
    requires Lawful(m) && PricingInputsValid(mkt, opt) && opt.expiry > 0.0 && mkt.vol == 0.0
    ensures var forward := mkt.spot * Growth(m, mkt.rate, opt.expiry);
      && forward > 0.0
      && Payoff(opt, forward).Ok?
      && BlackScholesPrice(m, mkt, opt)
         == Ok(Discount(m, mkt.rate, opt.expiry) * Payoff(opt, forward).value)
  {
    ForwardPayoffDefined(m, opt, mkt.spot, mkt.rate, opt.expiry);
  }

  /** Hence a zero-volatility price is the intrinsic value against the
      discounted strike. */
  lemma PriceZeroVolatilityIntrinsic(m: MathLib, mkt: MarketData, opt: Option)
    requires Lawful(m) && PricingInputsValid(mkt, opt) && opt.expiry > 0.0 && mkt.vol == 0.0
    ensures var discK := opt.strike * Discount(m, mkt.rate, opt.expiry);
      BlackScholesPrice(m, mkt, opt)
      == Ok(if opt.kind == Call then Max(mkt.spot - discK, 0.0) else Max(discK - mkt.spot, 0.0))
  {
    DiscountedForwardIntrinsic(m, opt, mkt.spot, mkt.rate, opt.expiry);
  }

  /** In the general case d2 = d1 - sigma sqrt T, the call is worth
      S0 N(d1) - K exp(-rT) N(d2) and the put K exp(-rT) N(-d2) - S0 N(-d1). */
  lemma PriceClosedForm(m: MathLib, mkt: MarketData, opt: Option)
    requires Lawful(m) && PricingInputsValid(mkt, opt) && opt.expiry > 0.0 && mkt.vol > 0.0
    ensures var s0, k, r, t, sigma := mkt.spot, opt.strike, mkt.rate, opt.expiry, mkt.vol;
      var d1, d2 := D1(m, s0, k, r, t, sigma), D2(m, s0, k, r, t, sigma);
      var discK := k * Discount(m, r, t);
      var price := BlackScholesPrice(m, mkt, opt);
      && d2 == d1 - sigma * m.sqrt(t)
      && price.Ok?
      && (opt.kind == Call ==> price.value == s0 * NormCdf(m, d1) - discK * NormCdf(m, d2))
      && (opt.kind == Put ==> price.value == discK * NormCdf(m, -d2) - s0 * NormCdf(m, -d1))
  {
    PriceIsClosedForm(m, mkt, opt);
  }

  /** The bridge the general-case lemmas build on, not a separate result:
      for T > 0 and sigma > 0 the price is `ClosedForm` at the market's own
      d1, d2 and discount factor, so the facts proved about `ClosedForm`
      carry over to the price. `PriceClosedForm` spells the formulas out. */
  lemma PriceIsClosedForm(m: MathLib, mkt: MarketData, opt: Option)
    requires Lawful(m) && PricingInputsValid(mkt, opt) && opt.expiry > 0.0 && mkt.vol > 0.0
    ensures var s0, k, r, t, sigma := mkt.spot, opt.strike, mkt.rate, opt.expiry, mkt.vol;
      BlackScholesPrice(m, mkt, opt)
      == Ok(ClosedForm(m, opt.kind, s0, k, Discount(m, r, t), D1(m, s0, k, r, t, sigma), D2(m, s0, k, r, t, sigma)))
  {
  }

  /** Put–call parity: for any accepted inputs, in every branch, a call and a
      put on the same terms differ in price by S0 - K exp(-rT). */
  lemma PutCallParity(m: MathLib, mkt: MarketData, opt: Option)
    requires Lawful(m) && PricingInputsValid(mkt, opt)
    ensures var call, put := opt.(kind := Call), opt.(kind := Put);
      && BlackScholesPrice(m, mkt, call).Ok?
      && BlackScholesPrice(m, mkt, put).Ok?
      && BlackScholesPrice(m, mkt, call).value - BlackScholesPrice(m, mkt, put).value
         == mkt.spot - opt.strike * Discount(m, mkt.rate, opt.expiry)
  {
    if opt.expiry == 0.0 {
      ParityAtExpiry(m, mkt, opt);
    } else if mkt.vol == 0.0 {
      ParityZeroVolatility(m, mkt, opt);
    } else {
      ParityClosedForm(m, mkt, opt);
    }
  }

  lemma ParityAtExpiry(m: MathLib, mkt: MarketData, opt: Option)
    requires Lawful(m) && PricingInputsValid(mkt, opt) && opt.expiry == 0.0
    ensures var call, put := opt.(kind := Call), opt.(kind := Put);
      && BlackScholesPrice(m, mkt, call).Ok?
      && BlackScholesPrice(m, mkt, put).Ok?
      && BlackScholesPrice(m, mkt, call).value - BlackScholesPrice(m, mkt, put).value
         == mkt.spot - opt.strike * Discount(m, mkt.rate, opt.expiry)
  {
    DiscountOverNoTime(m, mkt.rate);
    PayoffParity(opt.(kind := Call), opt.(kind := Put), mkt.spot);
  }

  lemma ParityZeroVolatility(m: MathLib, mkt: MarketData, opt: Option)
    requires Lawful(m) && PricingInputsValid(mkt, opt) && opt.expiry > 0.0 && mkt.vol == 0.0
    ensures var call, put := opt.(kind := Call), opt.(kind := Put);
      && BlackScholesPrice(m, mkt, call).Ok?
      && BlackScholesPrice(m, mkt, put).Ok?
      && BlackScholesPrice(m, mkt, call).value - BlackScholesPrice(m, mkt, put).value
         == mkt.spot - opt.strike * Discount(m, mkt.rate, opt.expiry)
  {
    DiscountedForwardIntrinsic(m, opt.(kind := Call), mkt.spot, mkt.rate, opt.expiry);
    DiscountedForwardIntrinsic(m, opt.(kind := Put), mkt.spot, mkt.rate, opt.expiry);
  }

  lemma ParityClosedForm(m: MathLib, mkt: MarketData, opt: Option)
    requires Lawful(m) && PricingInputsValid(mkt, opt) && opt.expiry > 0.0 && mkt.vol > 0.0
    ensures var call, put := opt.(kind := Call), opt.(kind := Put);
      && BlackScholesPrice(m, mkt, call).Ok?
      && BlackScholesPrice(m, mkt, put).Ok?
      && BlackScholesPrice(m, mkt, call).value - BlackScholesPrice(m, mkt, put).value
         == mkt.spot - opt.strike * Discount(m, mkt.rate, opt.expiry)
  {
    var s0, k, r, t, sigma := mkt.spot, opt.strike, mkt.rate, opt.expiry, mkt.vol;
    ClosedFormParity(m, s0, k, Discount(m, r, t), D1(m, s0, k, r, t, sigma), D2(m, s0, k, r, t, sigma));
  }

  /** A call is never worth more than the underlying, and a put never more
      than the discounted strike. */
  lemma PriceUpperBounds(m: MathLib, mkt: MarketData, opt: Option)
    requires Lawful(m) && PricingInputsValid(mkt, opt)
    ensures BlackScholesPrice(m, mkt, opt).Ok?
    ensures opt.kind == Call ==> BlackScholesPrice(m, mkt, opt).value <= mkt.spot
    ensures opt.kind == Put ==>
              BlackScholesPrice(m, mkt, opt).value <= opt.strike * Discount(m, mkt.rate, opt.expiry)
  {
    var s0, k, r, t, sigma := mkt.spot, opt.strike, mkt.rate, opt.expiry, mkt.vol;
    if t == 0.0 {
      DiscountOverNoTime(m, r);
    } else if sigma == 0.0 {
      UpperBoundsZeroVolatility(m, mkt, opt);
    } else {
      PriceIsClosedForm(m, mkt, opt);
    }
  }

  lemma UpperBoundsZeroVolatility(m: MathLib, mkt: MarketData, opt: Option)
    requires Lawful(m) && PricingInputsValid(mkt, opt) && opt.expiry > 0.0 && mkt.vol == 0.0
    ensures BlackScholesPrice(m, mkt, opt).Ok?
    ensures opt.kind == Call ==> BlackScholesPrice(m, mkt, opt).value <= mkt.spot
    ensures opt.kind == Put ==>
              BlackScholesPrice(m, mkt, opt).value <= opt.strike * Discount(m, mkt.rate, opt.expiry)
  {
    var s0, k, r, t := mkt.spot, opt.strike, mkt.rate, opt.expiry;
    DiscountGrowth(m, r, t);
    DiscountedForwardIntrinsic(m, opt, s0, r, t);
    PositiveProduct(k, Discount(m, r, t));
  }
}
