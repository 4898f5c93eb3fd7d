/** Closed-form sensitivities of a European option under Black–Scholes. The
    guards are those of pricing, except that zero expiry and zero volatility
    are rejected, since every formula divides by sigma sqrt T. */
module GreeksEngine {
  import opened PricerTypes
  import opened PricerMath
  import opened RealAlgebra
  import opened Pricing

  /** The inputs that get past every Greeks guard: pricing's, with expiry and
      volatility strictly positive. */
  predicate GreeksInputsValid(mkt: MarketData, opt: Option) {
    && opt.style == European
    && mkt.spot > 0.0
    && opt.strike > 0.0
    && opt.expiry > 0.0
    && mkt.vol > 0.0
  }

  /** gamma = n(d1) / (S sigma sqrt T), the same for calls and puts, and
      positive. */
  function Gamma(m: MathLib, s: real, sigma: real, sqrtT: real, d1: real): (g: real)
    requires Lawful(m) && s > 0.0 && sigma > 0.0 && sqrtT > 0.0
    ensures g > 0.0
  {
    PositiveProduct(s, sigma);
    PositiveProduct(s * sigma, sqrtT);
    NormPdf(m, d1) / (s * sigma * sqrtT)
  }

  /** vega = S n(d1) sqrt T, the same for calls and puts, and positive. */
  function Vega(m: MathLib, s: real, sqrtT: real, d1: real): (v: real)
    requires Lawful(m) && s > 0.0 && sqrtT > 0.0
    ensures v > 0.0
  {
    PositiveProduct(s, NormPdf(m, d1));
    PositiveProduct(s * NormPdf(m, d1), sqrtT);
    s * NormPdf(m, d1) * sqrtT
  }

  /** The term -(S n(d1) sigma) / (2 sqrt T) that both thetas share: the
      time decay, always negative. */
  function ThetaDecay(m: MathLib, s: real, sigma: real, sqrtT: real, d1: real): (d: real)
    requires Lawful(m) && s > 0.0 && sigma > 0.0 && sqrtT > 0.0
    ensures d < 0.0
  {
    PositiveProduct(s, NormPdf(m, d1));
    PositiveProduct(s * NormPdf(m, d1), sigma);
    -(s * NormPdf(m, d1) * sigma) / (2.0 * sqrtT)
  }

  /** The sensitivities from the scalars the formulas share: the common
      gamma and vega, then, for a call, delta N(d1), theta
      decay - r K disc N(d2) and rho K T disc N(d2); for a put, delta
      N(d1) - 1, theta decay + r K disc N(-d2) and rho -K T disc N(-d2).
      Gamma and vega are positive, and delta and rho carry the sign of the
      option type: a call's delta is in [0, 1] and its rho non-negative, a
      put's delta is in [-1, 0] and its rho non-positive. */
  function ClosedFormGreeks(m: MathLib, kind: OptionType, s: real, k: real, r: real, t: real,
                            sigma: real, sqrtT: real, disc: real, d1: real, d2: real): (g: Greeks)
    requires Lawful(m) && s > 0.0 && k > 0.0 && t > 0.0 && sigma > 0.0 && sqrtT > 0.0 && disc > 0.0
    ensures g.gamma > 0.0 && g.vega > 0.0
    ensures kind == Call ==> 0.0 <= g.delta <= 1.0 && g.rho >= 0.0
    ensures kind == Put ==> -1.0 <= g.delta <= 0.0 && g.rho <= 0.0
  {
    RhoSigns(m, k, t, disc, d2);
    var common := ZeroGreeks.(gamma := Gamma(m, s, sigma, sqrtT, d1), vega := Vega(m, s, sqrtT, d1));
    var decay := ThetaDecay(m, s, sigma, sqrtT, d1);
    match kind
    case Call =>
      var nd2 := NormCdf(m, d2);
      common.(delta := NormCdf(m, d1), theta := decay - r * k * disc * nd2, rho := k * t * disc * nd2)
    case Put =>
      var nmd2 := NormCdf(m, -d2);
      common.(delta := NormCdf(m, d1) - 1.0, theta := decay + r * k * disc * nmd2,
              rho := -k * t * disc * nmd2)
  }

  /** The sensitivities of `opt` in the market `mkt`. The first guard that
      fails decides the error, in the order style, spot, strike, expiry,
      volatility; an accepted input always gets a record, whose gamma and vega
      are positive, and whose delta and rho carry the sign of the option
      type: a call's delta is in [0, 1] and its rho non-negative, a put's
      delta is in [-1, 0] and its rho non-positive. */
  function BlackScholesGreeks(m: MathLib, mkt: MarketData, opt: Option): (r: GreeksResult)
    requires Lawful(m)
    ensures opt.style != European ==> r == GreeksErr(GreeksNotEuropean)
    ensures opt.style == European && mkt.spot <= 0.0 ==> r == GreeksErr(SpotNotPositive)
    ensures opt.style == European && mkt.spot > 0.0 && opt.strike <= 0.0 ==>
              r == GreeksErr(StrikeNotPositive)
    ensures opt.style == European && mkt.spot > 0.0 && opt.strike > 0.0 && opt.expiry <= 0.0 ==>
              r == GreeksErr(ExpiryNotPositive)
    ensures (opt.style == European && mkt.spot > 0.0 && opt.strike > 0.0 && opt.expiry > 0.0
             && mkt.vol <= 0.0) ==> r == GreeksErr(VolatilityNotPositive)
    ensures r.GreeksOk? <==> GreeksInputsValid(mkt, opt)
    ensures r.GreeksOk? ==> r.greeks.gamma > 0.0 && r.greeks.vega > 0.0
    ensures r.GreeksOk? && opt.kind == Call ==>
              0.0 <= r.greeks.delta <= 1.0 && r.greeks.rho >= 0.0
    ensures r.GreeksOk? && opt.kind == Put ==>
              -1.0 <= r.greeks.delta <= 0.0 && r.greeks.rho <= 0.0
  {
    if opt.style != European then GreeksErr(GreeksNotEuropean)
    else if mkt.spot <= 0.0 then GreeksErr(SpotNotPositive)
    else if opt.strike <= 0.0 then GreeksErr(StrikeNotPositive)
    else if opt.expiry <= 0.0 then GreeksErr(ExpiryNotPositive)
    else if mkt.vol <= 0.0 then GreeksErr(VolatilityNotPositive)
    else
      var s, k, r, t, sigma := mkt.spot, opt.strike, mkt.rate, opt.expiry, mkt.vol;
      var sqrtT := m.sqrt(t);
      var disc := Discount(m, r, t);
      var d1, d2 := D1(m, s, k, r, t, sigma), D2(m, s, k, r, t, sigma);
      GreeksOk(ClosedFormGreeks(m, opt.kind, s, k, r, t, sigma, sqrtT, disc, d1, d2))
  }

  /** The rho of a call is non-negative and that of a put non-positive. */
  lemma RhoSigns(m: MathLib, k: real, t: real, disc: real, d2: real)
    requires Lawful(m) && k > 0.0 && t > 0.0 && disc > 0.0
    ensures k * t * disc * NormCdf(m, d2) >= 0.0
    ensures -k * t * disc * NormCdf(m, -d2) <= 0.0
  {
    PositiveProduct(k, t);
    PositiveProduct(k * t, disc);
    MulAtMostOne(k * t * disc, NormCdf(m, d2));
    MulAtMostOne(k * t * disc, NormCdf(m, -d2));
  }

  /** An accepted input gets the closed-form record, computed from
      sqrt T, exp(-rT), d1 and d2 = d1 - sigma sqrt T. */
  lemma GreeksClosedForm(m: MathLib, mkt: MarketData, opt: Option)
    requires Lawful(m) && GreeksInputsValid(mkt, opt)
    ensures var s, k, r, t, sigma := mkt.spot, opt.strike, mkt.rate, opt.expiry, mkt.vol;
      var d1, d2 := D1(m, s, k, r, t, sigma), D2(m, s, k, r, t, sigma);
      && m.sqrt(t) > 0.0
      && d2 == d1 - sigma * m.sqrt(t)
      && BlackScholesGreeks(m, mkt, opt)
         == GreeksOk(ClosedFormGreeks(m, opt.kind, s, k, r, t, sigma, m.sqrt(t), Discount(m, r, t), d1, d2))
  {
  }

  /** Every input the Greeks accept is priced, and by the closed form: the
      Greeks guards are pricing's with expiry and volatility made strict. */
  lemma GreeksAcceptedByPricing(m: MathLib, mkt: MarketData, opt: Option)
    requires Lawful(m)
    ensures BlackScholesGreeks(m, mkt, opt).GreeksOk? ==>
              && PricingInputsValid(mkt, opt)
              && BlackScholesPrice(m, mkt, opt)
                 == Ok(ClosedForm(m, opt.kind, mkt.spot, opt.strike, Discount(m, mkt.rate, opt.expiry),
                                  D1(m, mkt.spot, opt.strike, mkt.rate, opt.expiry, mkt.vol),
                                  D2(m, mkt.spot, opt.strike, mkt.rate, opt.expiry, mkt.vol)))
  {
  }

  /** The degenerate inputs pricing handles (zero expiry, zero volatility)
      get a price but no Greeks, with the expiry error taking precedence. */
  lemma DegenerateInputsOnlyPriced(m: MathLib, mkt: MarketData, opt: Option)
    requires Lawful(m) && PricingInputsValid(mkt, opt)
    requires opt.expiry == 0.0 || mkt.vol == 0.0
    ensures BlackScholesPrice(m, mkt, opt).Ok?
    ensures BlackScholesGreeks(m, mkt, opt)
            == GreeksErr(if opt.expiry == 0.0 then ExpiryNotPositive else VolatilityNotPositive)
  {
  }

  /** The scalar-level core of the Greeks relations, proved once for any d1,
      d2 and discount factor. The call and put records on the same scalars: equal gamma and vega, a
      put delta one below the call's, a call theta r K disc below the put's,
      and a call rho K T disc above the put's. */
  lemma ClosedFormGreeksParity(m: MathLib, s: real, k: real, r: real, t: real, sigma: real,
                               sqrtT: real, disc: real, d1: real, d2: real)
    requires Lawful(m) && s > 0.0 && k > 0.0 && t > 0.0 && sigma > 0.0 && sqrtT > 0.0 && disc > 0.0
    ensures var c := ClosedFormGreeks(m, Call, s, k, r, t, sigma, sqrtT, disc, d1, d2);
      var p := ClosedFormGreeks(m, Put, s, k, r, t, sigma, sqrtT, disc, d1, d2);
      && c.gamma == p.gamma && c.vega == p.vega
      && p.delta == c.delta - 1.0
      && c.theta - p.theta == -r * k * disc
      && c.rho - p.rho == k * t * disc
  {
    NormCdfSymmetric(m, d2);
    var a, b := r * k * disc, k * t * disc;
    assert a * NormCdf(m, d2) + a * NormCdf(m, -d2) == a * (NormCdf(m, d2) + NormCdf(m, -d2));
    assert b * NormCdf(m, d2) + b * NormCdf(m, -d2) == b * (NormCdf(m, d2) + NormCdf(m, -d2));
  }

  /** Gamma and vega do not depend on the option type. */
  lemma GammaVegaSameForCallAndPut(m: MathLib, mkt: MarketData, opt: Option)
    requires Lawful(m) && GreeksInputsValid(mkt, opt)
    ensures var c, p := BlackScholesGreeks(m, mkt, opt.(kind := Call)), BlackScholesGreeks(m, mkt, opt.(kind := Put));
      && c.GreeksOk? && p.GreeksOk?
      && c.greeks.gamma == p.greeks.gamma
      && c.greeks.vega == p.greeks.vega
  {
    GreeksParityAt(m, mkt, opt);
  }

  /** Delta parity: a put's delta is the call's minus 1. */
  lemma DeltaParity(m: MathLib, mkt: MarketData, opt: Option)
    requires Lawful(m) && GreeksInputsValid(mkt, opt)
    ensures var c, p := BlackScholesGreeks(m, mkt, opt.(kind := Call)), BlackScholesGreeks(m, mkt, opt.(kind := Put));
      && c.GreeksOk? && p.GreeksOk?
      && p.greeks.delta == c.greeks.delta - 1.0
  {
    GreeksParityAt(m, mkt, opt);
  }

  /** Theta parity: the call's theta falls short of the put's by
      r K exp(-rT). */
  lemma ThetaParity(m: MathLib, mkt: MarketData, opt: Option)
    requires Lawful(m) && GreeksInputsValid(mkt, opt)
    ensures var c, p := BlackScholesGreeks(m, mkt, opt.(kind := Call)), BlackScholesGreeks(m, mkt, opt.(kind := Put));
      && c.GreeksOk? && p.GreeksOk?
      && c.greeks.theta - p.greeks.theta == -mkt.rate * opt.strike * Discount(m, mkt.rate, opt.expiry)
  {
    GreeksParityAt(m, mkt, opt);
  }

  /** Rho parity: the call's rho exceeds the put's by K T exp(-rT). */
  lemma RhoParity(m: MathLib, mkt: MarketData, opt: Option)
    requires Lawful(m) && GreeksInputsValid(mkt, opt)
    ensures var c, p := BlackScholesGreeks(m, mkt, opt.(kind := Call)), BlackScholesGreeks(m, mkt, opt.(kind := Put));
      && c.GreeksOk? && p.GreeksOk?
      && c.greeks.rho - p.greeks.rho == opt.strike * opt.expiry * Discount(m, mkt.rate, opt.expiry)
  {
    GreeksParityAt(m, mkt, opt);
  }

  /** The bridge the four per-Greek relations above build on, not a separate
      result: `ClosedFormGreeksParity` instantiated at the market's own d1, d2
      and discount factor, with both records tied to `BlackScholesGreeks`. */
  lemma GreeksParityAt(m: MathLib, mkt: MarketData, opt: Option)
    requires Lawful(m) && GreeksInputsValid(mkt, opt)
    ensures var s, k, r, t, sigma := mkt.spot, opt.strike, mkt.rate, opt.expiry, mkt.vol;
      var c := ClosedFormGreeks(m, Call, s, k, r, t, sigma, m.sqrt(t), Discount(m, r, t),
                                D1(m, s, k, r, t, sigma), D2(m, s, k, r, t, sigma));
      var p := ClosedFormGreeks(m, Put, s, k, r, t, sigma, m.sqrt(t), Discount(m, r, t),
                                D1(m, s, k, r, t, sigma), D2(m, s, k, r, t, sigma));
      && BlackScholesGreeks(m, mkt, opt.(kind := Call)) == GreeksOk(c)
      && BlackScholesGreeks(m, mkt, opt.(kind := Put)) == GreeksOk(p)
      && c.gamma == p.gamma && c.vega == p.vega
      && p.delta == c.delta - 1.0
      && c.theta - p.theta == -r * k * Discount(m, r, t)
      && c.rho - p.rho == k * t * Discount(m, r, t)
  {
    var s, k, r, t, sigma := mkt.spot, opt.strike, mkt.rate, opt.expiry, mkt.vol;
    GreeksClosedForm(m, mkt, opt.(kind := Call));
    GreeksClosedForm(m, mkt, opt.(kind := Put));
    ClosedFormGreeksParity(m, s, k, r, t, sigma, m.sqrt(t), Discount(m, r, t),
                           D1(m, s, k, r, t, sigma), D2(m, s, k, r, t, sigma));
  }

  /** The Black–Scholes equation in calendar time t, with the record's theta
      in the place of dV/dt and `v` the price:
      theta + (1/2) sigma^2 S^2 gamma + r S delta - r V = 0. */
  predicate SolvesBlackScholes(g: Greeks, v: real, s: real, r: real, sigma: real) {
    g.theta + 0.5 * sigma * sigma * s * s * g.gamma + r * s * g.delta - r * v == 0.0
  }

  /** The Black–Scholes equation on the closed forms, with V the closed-form
      price. */
  lemma ClosedFormPde(m: MathLib, kind: OptionType, s: real, k: real, r: real, t: real, sigma: real,
                      sqrtT: real, disc: real, d1: real, d2: real)
    requires Lawful(m) && s > 0.0 && k > 0.0 && t > 0.0 && sigma > 0.0 && sqrtT > 0.0 && disc > 0.0
    ensures SolvesBlackScholes(ClosedFormGreeks(m, kind, s, k, r, t, sigma, sqrtT, disc, d1, d2),
                               ClosedForm(m, kind, s, k, disc, d1, d2), s, r, sigma)
  {
    if kind == Call {
      ClosedFormPdeCall(m, s, k, r, t, sigma, sqrtT, disc, d1, d2);
    } else {
      ClosedFormPdePut(m, s, k, r, t, sigma, sqrtT, disc, d1, d2);
    }
  }

  /** The equation for a call record and the call's closed-form price. */
  lemma ClosedFormPdeCall(m: MathLib, s: real, k: real, r: real, t: real, sigma: real,
                          sqrtT: real, disc: real, d1: real, d2: real)
    requires Lawful(m) && s > 0.0 && k > 0.0 && t > 0.0 && sigma > 0.0 && sqrtT > 0.0 && disc > 0.0
    ensures SolvesBlackScholes(ClosedFormGreeks(m, Call, s, k, r, t, sigma, sqrtT, disc, d1, d2),
                               ClosedForm(m, Call, s, k, disc, d1, d2), s, r, sigma)
  {
    var g := ClosedFormGreeks(m, Call, s, k, r, t, sigma, sqrtT, disc, d1, d2);
    var v := ClosedForm(m, Call, s, k, disc, d1, d2);
    var decay := ThetaDecay(m, s, sigma, sqrtT, d1);
    DecayCancelsGamma(m, s, sigma, sqrtT, d1);
    PdeCall(g, v, decay, s, r, sigma, k, disc, NormCdf(m, d1), NormCdf(m, d2));
  }

  /** The equation for a put record and the put's closed-form price;
      N(d1) + N(-d1) == 1 turns the put's delta into the call's. */
  lemma ClosedFormPdePut(m: MathLib, s: real, k: real, r: real, t: real, sigma: real,
                          sqrtT: real, disc: real, d1: real, d2: real)
    requires Lawful(m) && s > 0.0 && k > 0.0 && t > 0.0 && sigma > 0.0 && sqrtT > 0.0 && disc > 0.0
    ensures SolvesBlackScholes(ClosedFormGreeks(m, Put, s, k, r, t, sigma, sqrtT, disc, d1, d2),
                               ClosedForm(m, Put, s, k, disc, d1, d2), s, r, sigma)
  {
    var g := ClosedFormGreeks(m, Put, s, k, r, t, sigma, sqrtT, disc, d1, d2);
    var v := ClosedForm(m, Put, s, k, disc, d1, d2);
    var decay := ThetaDecay(m, s, sigma, sqrtT, d1);
    DecayCancelsGamma(m, s, sigma, sqrtT, d1);
    NormCdfSymmetric(m, d1);
    PdePut(g, v, decay, s, r, sigma, k, disc, NormCdf(m, d1), NormCdf(m, -d1), NormCdf(m, -d2));
  }

  /** The Black–Scholes equation: for every input the Greeks accept, the
      computed theta, gamma and delta and the price satisfy
      dV/dt + (1/2) sigma^2 S^2 gamma + r S delta - r V = 0 exactly, for calls
      and puts alike. This fixes the sign convention of theta: the computed
      theta stands where the Black–Scholes equation has dV/dt, in calendar
      time. */
  lemma BlackScholesPde(m: MathLib, mkt: MarketData, opt: Option)
    requires Lawful(m) && GreeksInputsValid(mkt, opt)
    ensures var g, v := BlackScholesGreeks(m, mkt, opt), BlackScholesPrice(m, mkt, opt);
      && g.GreeksOk? && v.Ok?
      && SolvesBlackScholes(g.greeks, v.value, mkt.spot, mkt.rate, mkt.vol)
  {
    var s, k, r, t, sigma := mkt.spot, opt.strike, mkt.rate, opt.expiry, mkt.vol;
    GreeksClosedForm(m, mkt, opt);
    GreeksAcceptedByPricing(m, mkt, opt);
    ClosedFormPde(m, opt.kind, s, k, r, t, sigma, m.sqrt(t), Discount(m, r, t),
                  D1(m, s, k, r, t, sigma), D2(m, s, k, r, t, sigma));
  }

  /** The time-decay term of theta cancels the gamma term of the equation. */
  lemma DecayCancelsGamma(m: MathLib, s: real, sigma: real, sqrtT: real, d1: real)
    requires Lawful(m) && s > 0.0 && sigma > 0.0 && sqrtT > 0.0
    ensures ThetaDecay(m, s, sigma, sqrtT, d1) + 0.5 * sigma * sigma * s * s * Gamma(m, s, sigma, sqrtT, d1)
            == 0.0
  {
    HalfSigmaSquaredGamma(s, sigma, sqrtT, NormPdf(m, d1));
  }

  /** The equation for a call, once the decay and gamma terms cancel. */
  lemma PdeCall(g: Greeks, v: real, decay: real, s: real, r: real, sigma: real, k: real, disc: real,
                nd1: real, nd2: real)
    requires decay + 0.5 * sigma * sigma * s * s * g.gamma == 0.0
    requires g.theta == decay - r * k * disc * nd2 && g.delta == nd1
    requires v == s * nd1 - k * disc * nd2
    ensures SolvesBlackScholes(g, v, s, r, sigma)
  {
  }

  /** The equation for a put, once the decay and gamma terms cancel, with
      N(d1) + N(-d1) = 1. */
  lemma PdePut(g: Greeks, v: real, decay: real, s: real, r: real, sigma: real, k: real, disc: real,
               nd1: real, nmd1: real, nmd2: real)
    requires decay + 0.5 * sigma * sigma * s * s * g.gamma == 0.0 && nd1 + nmd1 == 1.0
    requires g.theta == decay + r * k * disc * nmd2 && g.delta == nd1 - 1.0
    requires v == k * disc * nmd2 - s * nmd1
    ensures SolvesBlackScholes(g, v, s, r, sigma)
  {
  }
}
