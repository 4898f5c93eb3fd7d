/** Terminal payoff of a vanilla option, the model-free value at expiry. */
module Payoffs {
  import opened PricerTypes
  import opened RealAlgebra

  /** Payoff of `option` when the underlying ends at `spotAtExpiry`: a negative
      terminal spot is an error; otherwise a call pays what the spot exceeds the
      strike by and a put what the strike exceeds the spot by, and neither pays
      when it is not in the money. */
  function Payoff(option: Option, spotAtExpiry: real): (r: RealResult)
    ensures r.Err? <==> spotAtExpiry < 0.0
    ensures r.Err? ==> r.error == SpotAtExpiryNegative
    ensures r.Ok? ==> r.value >= 0.0
    ensures r.Ok? && option.kind == Call ==>
              (r.value > 0.0 <==> spotAtExpiry > option.strike) &&
              (r.value > 0.0 ==> r.value == spotAtExpiry - option.strike)
    ensures r.Ok? && option.kind == Put ==>
              (r.value > 0.0 <==> spotAtExpiry < option.strike) &&
              (r.value > 0.0 ==> r.value == option.strike - spotAtExpiry)
  {
    if spotAtExpiry < 0.0 then
      Err(SpotAtExpiryNegative)
    else
      var k := option.strike;
      var s := spotAtExpiry;
      match option.kind
      case Call => Ok(Max(s - k, 0.0))
      case Put => Ok(Max(k - s, 0.0))
  }

  /** The call payoff dominates both zero and the forward gain S - K, and
      equals one of them: it is max(S - K, 0). */
  lemma CallPayoffIsMax(option: Option, s: real)
    requires option.kind == Call && s >= 0.0
    ensures Payoff(option, s).Ok?
    ensures var v := Payoff(option, s).value;
      v >= s - option.strike && v >= 0.0 && (v == s - option.strike || v == 0.0)
  {
  }

  /** The put payoff is max(K - S, 0) in the same sense. */
  lemma PutPayoffIsMax(option: Option, s: real)
    requires option.kind == Put && s >= 0.0
    ensures Payoff(option, s).Ok?
    ensures var v := Payoff(option, s).value;
      v >= option.strike - s && v >= 0.0 && (v == option.strike - s || v == 0.0)
  {
  }

  /** Payoff parity: for one strike and terminal spot, the call pays exactly
      S - K more than the put. */
  lemma PayoffParity(call: Option, put: Option, s: real)
    requires call.kind == Call && put.kind == Put && call.strike == put.strike
    requires s >= 0.0
    ensures Payoff(call, s).Ok? && Payoff(put, s).Ok?
    ensures Payoff(call, s).value - Payoff(put, s).value == s - call.strike
  {
  }

  /** At the money neither option pays; a call pays nothing at or below the
      strike and a put nothing at or above it. */
  lemma PayoffOutOfTheMoney(option: Option, s: real)
    requires s >= 0.0
    ensures option.kind == Call && s <= option.strike ==> Payoff(option, s) == Ok(0.0)
    ensures option.kind == Put && s >= option.strike ==> Payoff(option, s) == Ok(0.0)
  {
  }

  /** The payoff reads only the type and the strike of the contract: its
      exercise style and its expiry play no part. */
  lemma PayoffIgnoresStyleAndExpiry(a: Option, b: Option, s: real)
    requires a.kind == b.kind && a.strike == b.strike
    ensures Payoff(a, s) == Payoff(b, s)
  {
  }
}
