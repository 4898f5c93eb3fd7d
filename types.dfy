/** Shared value types of the pricer: the option contract, the market
    snapshot, the sensitivities record and the errors the engines raise. */
module PricerTypes {

  datatype OptionType = Call | Put

  /** Only European exercise is priced; any other style is rejected by the
      engines at call time, not when the contract is built. */
  datatype ExerciseStyle = European | American

  /** Contract terms: type, exercise style, strike K and expiry T in years. */
  datatype Option = Option(kind: OptionType, style: ExerciseStyle, strike: real, expiry: real)

  /** Market snapshot: spot S0, continuously compounded rate r, volatility sigma. */
  datatype MarketData = MarketData(spot: real, rate: real, vol: real)

  /** The five sensitivities, all zero in a default-built record. */
  datatype Greeks = Greeks(delta: real, gamma: real, vega: real, theta: real, rho: real)

  const ZeroGreeks := Greeks(0.0, 0.0, 0.0, 0.0, 0.0)

  /** One failure per validation guard of the three entry points; each one
      stands for an `invalid_argument` carrying the guard's message. */
  datatype Error =
    | SpotAtExpiryNegative     // payoff: "Spot price must be non-negative"
    | PricingNotEuropean       // price: "supports European options only"
    | GreeksNotEuropean        // greeks: "Greeks support European options only"
    | SpotNotPositive          // "Spot must be > 0"
    | StrikeNotPositive        // "Strike must be > 0"
    | ExpiryNegative           // price: "Expiry must be >= 0"
    | VolatilityNegative       // price: "Volatility must be >= 0"
    | ExpiryNotPositive        // greeks: "Expiry must be > 0 for Greeks"
    | VolatilityNotPositive    // greeks: "Volatility must be > 0 for Greeks"

  /** What the payoff and the pricing entry point return: a value or the
      error of the guard that stopped it. */
  datatype RealResult = Ok(value: real) | Err(error: Error)

  /** What the Greeks entry point returns. */
  datatype GreeksResult = GreeksOk(greeks: Greeks) | GreeksErr(error: Error)
}
