# Black–Scholes option pricer, modelled in Dafny

The model covers the exact logic of a small C++ library that prices European
vanilla options under Black–Scholes:

- the terminal payoff `payoff(option, spot_at_expiry)`;
- the pricing entry point `black_scholes_price(mkt, opt)`. It runs an ordered
  chain of input checks, then handles zero expiry, then zero volatility, and
  otherwise uses the d1/d2 closed form;
- the Greeks entry point `black_scholes_greeks(mkt, opt)`. It runs the same
  checks with expiry and volatility made strict, then fills a five-field
  record.

All three are pure C++ functions, so the model uses functions over `real`
that return result datatypes. Each validation guard gets its own `Error`
constructor. The spot and strike guards, whose messages pricing and Greeks
share, share theirs. The `Unknown option type` throws are left out (see
below).

The library functions `std::exp`, `std::log`, `std::sqrt` and `std::erf` are
not modelled. A `MathLib` value supplies them as parameters. The predicate
`PricerMath.Lawful` lists the only facts the proofs may use about them:

- exp is positive;
- exp(a) * exp(-a) = 1;
- the square root of a positive number is positive;
- the square root of a non-negative number squares back to it;
- erf is odd;
- |erf| <= 1.

`Pricing.D1` is the named sub-expression d1 of `src/black_scholes.cpp:48`
and `src/black_scholes_greeks.cpp:33`. What is proved about it is stated in
`Pricing.D1D2Identities` and in `Pricing.PriceClosedForm`.

The normal CDF and density are built from these exactly as
`include/pricer/math.hpp` builds them. N(x) + N(-x) = 1, 0 <= N <= 1 and
n > 0 are then proved, not assumed.

Files:

| file | module | models |
|---|---|---|
| types.dfy | `PricerTypes` | option, market, Greeks record, errors, results |
| algebra.dfy | `RealAlgebra` | `std::max` and the real-arithmetic steps the proofs share |
| math.dfy | `PricerMath` | the transcendental stand-ins, N and n |
| payoff.dfy | `Payoffs` | src/payoff.cpp |
| black_scholes.dfy | `Pricing` | src/black_scholes.cpp |
| black_scholes_greeks.dfy | `GreeksEngine` | src/black_scholes_greeks.cpp |

Theta sign. The comment on the `theta` field in
`include/pricer/greeks.hpp:9` calls it dV/dT, the derivative in time to
expiry. The code at `src/black_scholes_greeks.cpp:50,56` computes the usual
calendar-time theta, which is -dV/dT. The model follows the code. The tests
agree with the code: `tests/test_greeks.cpp:64,102` negate the finite
difference in T before comparing it with theta, although the comment at
`tests/test_greeks.cpp:61` also reads dV/dT.
`GreeksEngine.BlackScholesPde` fixes the convention: with the computed theta
in place of dV/dt, the Black–Scholes equation holds exactly.

## Model

| member | source | states |
|---|---|---|
| PricerMath.NormCdf | include/pricer/math.hpp:7-9 | the normal CDF built from erf lies in [0, 1] |
| PricerMath.NormPdf | include/pricer/math.hpp:11-14 | the normal density built from exp is strictly positive |
| PricerMath.NormCdfSymmetric | include/pricer/math.hpp:7-9 | N(x) + N(-x) = 1, since erf is odd |
| PricerMath.ExpZero | src/black_scholes.cpp:34-37 | exp(0) = 1 follows from the exp laws, so no discounting is needed at expiry |
| Pricing.DiscountGrowth | src/black_scholes.cpp:42-43 | exp(-rT) and exp(rT) are positive and multiply to 1 |
| Pricing.DiscountOverNoTime | src/black_scholes.cpp:34-37 | the discount factor over zero time is 1 |
| RealAlgebra.Max | src/payoff.cpp:18-21 | `std::max`: the result is at least both arguments and equal to one of them |
| Payoffs.Payoff | src/payoff.cpp:8-26 | error exactly when the terminal spot is negative; otherwise non-negative; a call pays exactly when S > K, and then S - K; a put pays exactly when S < K, and then K - S |
| Payoffs.CallPayoffIsMax | src/payoff.cpp:17-18 | for a call and a non-negative spot, the payoff is max(S - K, 0) |
| Payoffs.PutPayoffIsMax | src/payoff.cpp:20-21 | for a put and a non-negative spot, the payoff is max(K - S, 0) |
| Payoffs.PayoffParity | src/payoff.cpp:17-21 | with one strike and spot, call payoff minus put payoff is S - K |
| Payoffs.PayoffOutOfTheMoney | src/payoff.cpp:17-21 | at S = K neither pays; a call pays 0 for S <= K and a put 0 for S >= K |
| Payoffs.PayoffIgnoresStyleAndExpiry | src/payoff.cpp:13-21 | the payoff depends only on type, strike and spot |
| Pricing.Discount | src/black_scholes.cpp:53 | the discount factor exp(-rT) is positive |
| Pricing.Growth | src/black_scholes.cpp:42 | the growth factor exp(rT) of the forward is positive |
| Pricing.D1D2Identities | src/black_scholes.cpp:47-49 | d2 as the code computes it (d1 - sigma sqrt T) is the textbook d2, (ln(S0/K) + (r - sigma^2/2) T) / (sigma sqrt T); and d1^2 - d2^2 = 2 (ln(S0/K) + r T) |
| Pricing.D2 | src/black_scholes.cpp:49 | d2 lies strictly below d1 |
| Pricing.DiscountedForwardPayoff | src/black_scholes.cpp:41-45 | the discounted payoff at the forward fails exactly when S0 < 0, with the payoff's negative-spot error, and is otherwise non-negative |
| Pricing.ClosedForm | src/black_scholes.cpp:53-60 | for positive S0, K and discount factor, and whatever d1 and d2, the call closed form is at most S0 and the put at most K disc |
| Pricing.BlackScholesPrice | src/black_scholes.cpp:11-64 | the guards fire in the order style, spot <= 0, strike <= 0, expiry < 0, vol < 0, and the first that fails decides the error; a price exists exactly for inputs that pass them all, including T = 0 and sigma = 0 |
| Pricing.ForwardPayoffDefined | src/black_scholes.cpp:41-43 | the deterministic forward S0 exp(rT) is positive, so its payoff never hits the negative-spot error |
| Pricing.DiscountedForwardIntrinsic | src/black_scholes.cpp:41-45 | the discounted forward payoff is max(S0 - K exp(-rT), 0) for a call and max(K exp(-rT) - S0, 0) for a put |
| Pricing.PriceAtExpiry | src/black_scholes.cpp:34-37 | at T = 0 the price is exactly the payoff at today's spot, whatever the volatility |
| Pricing.PriceZeroVolatility | src/black_scholes.cpp:39-45 | at T > 0 and sigma = 0 the price is exp(-rT) times the payoff at S0 exp(rT) |
| Pricing.PriceZeroVolatilityIntrinsic | src/black_scholes.cpp:39-45 | at T > 0 and sigma = 0 the price is the intrinsic value against the discounted strike |
| Pricing.PriceClosedForm | src/black_scholes.cpp:47-60 | for T > 0 and sigma > 0, d2 = d1 - sigma sqrt T, a call is worth S0 N(d1) - K exp(-rT) N(d2), and a put K exp(-rT) N(-d2) - S0 N(-d1) |
| Pricing.PriceIsClosedForm | src/black_scholes.cpp:47-60 | for T > 0 and sigma > 0, the price is the closed form at the market's own d1, d2 and exp(-rT) |
| Pricing.ClosedFormParity | src/black_scholes.cpp:55-60 | the call and put closed forms differ by S0 - K disc for any d1, d2 |
| Pricing.PutCallParity | src/black_scholes.cpp:35-60 | for every accepted input, in all three branches, C - P = S0 - K exp(-rT) |
| Pricing.PriceUpperBounds | src/black_scholes.cpp:35-60 | a call is never worth more than the spot, and a put never more than the discounted strike |
| GreeksEngine.Gamma | src/black_scholes_greeks.cpp:44 | gamma n(d1) / (S sigma sqrt T) is positive |
| GreeksEngine.Vega | src/black_scholes_greeks.cpp:45 | vega S n(d1) sqrt T is positive |
| GreeksEngine.ThetaDecay | src/black_scholes_greeks.cpp:50-56 | the decay term -(S n(d1) sigma) / (2 sqrt T) shared by both thetas is negative |
| GreeksEngine.RhoSigns | src/black_scholes_greeks.cpp:51-57 | K T disc N(d2) >= 0 and -K T disc N(-d2) <= 0 |
| GreeksEngine.ClosedFormGreeks | src/black_scholes_greeks.cpp:41-58 | on any positive scalars, gamma and vega are positive; a call has delta in [0, 1] and rho >= 0; a put has delta in [-1, 0] and rho <= 0 |
| GreeksEngine.BlackScholesGreeks | src/black_scholes_greeks.cpp:9-65 | the guards fire in the order style, spot <= 0, strike <= 0, expiry <= 0, vol <= 0; a record exists exactly when all pass; gamma and vega are positive; a call has delta in [0, 1] and rho >= 0; a put has delta in [-1, 0] and rho <= 0 |
| GreeksEngine.GreeksClosedForm | src/black_scholes_greeks.cpp:26-58 | an accepted input gets the record built from sqrt T > 0, exp(-rT), d1 and d2 = d1 - sigma sqrt T |
| GreeksEngine.GreeksAcceptedByPricing | src/black_scholes_greeks.cpp:19-24 | every input the Greeks accept is priced, and pricing takes the closed-form branch |
| GreeksEngine.DegenerateInputsOnlyPriced | src/black_scholes_greeks.cpp:19-24 | inputs with T = 0 or sigma = 0 are priced but get no Greeks; the expiry error takes precedence |
| GreeksEngine.ClosedFormGreeksParity | src/black_scholes_greeks.cpp:44-58 | on shared scalars, gamma and vega agree; put delta = call delta - 1; the theta difference is -r K disc; the rho difference is K T disc |
| GreeksEngine.GreeksParityAt | src/black_scholes_greeks.cpp:44-58 | the same relations at the market's own d1, d2 and discount factor |
| GreeksEngine.GammaVegaSameForCallAndPut | src/black_scholes_greeks.cpp:44-45 | a call and a put on the same terms have equal gamma and equal vega |
| GreeksEngine.DeltaParity | src/black_scholes_greeks.cpp:49-55 | the put delta is the call delta minus 1 |
| GreeksEngine.ThetaParity | src/black_scholes_greeks.cpp:50-56 | theta_call - theta_put = -r K exp(-rT) |
| GreeksEngine.RhoParity | src/black_scholes_greeks.cpp:51-57 | rho_call - rho_put = K T exp(-rT) |
| GreeksEngine.DecayCancelsGamma | src/black_scholes_greeks.cpp:44-50 | the shared decay term of theta cancels (1/2) sigma^2 S^2 gamma |
| GreeksEngine.ClosedFormPde | src/black_scholes_greeks.cpp:44-58 | on shared scalars, theta + (1/2) sigma^2 S^2 gamma + r S delta - r V = 0, with V the closed-form price |
| GreeksEngine.BlackScholesPde | src/black_scholes_greeks.cpp:44-58 | for every accepted input, the computed theta, gamma and delta and the price satisfy the Black–Scholes equation theta + (1/2) sigma^2 S^2 gamma + r S delta - r V = 0 |

## Left out

- Floating point: everything is over exact reals. Rounding, the test tolerances and `==` on doubles are not modelled. `T == 0.0` and `sigma == 0.0` are exact real equalities.
- The library functions `std::exp`, `std::log`, `std::sqrt` and `std::erf` are not modelled. They are parameters, and their stated laws are the only assumptions.
- The numeric reference values in tests/test_black_scholes.cpp:15-16 are left out. Checking them needs the transcendentals evaluated.
- The finite-difference agreement of the Greeks in tests/test_greeks.cpp:34-109 is left out. It is a numerical property of doubles. `GreeksEngine.BlackScholesPde` ties theta, gamma and delta to the price instead.
- The `Unknown option type` default branches (src/payoff.cpp:23-24, src/black_scholes.cpp:61-62, src/black_scholes_greeks.cpp:60-61) are not modelled. They cannot be reached with a two-constructor `OptionType`.
- Exception throwing becomes an error value. The model keeps the guard's identity, not its message text.
- The default member initializers of the C++ value types are left out: `style{ExerciseStyle::European}` at include/pricer/option.hpp:7, and `0.0` for every field at include/pricer/market.hpp:6-8 and include/pricer/greeks.hpp:6-10. The Dafny constructors `Option`, `MarketData` and `Greeks` take every field explicitly. Only `ZeroGreeks`, the all-zero record, reflects the Greeks defaults.
- examples/payoff_demo.cpp is left out; it is console output only.
- The build wiring is left out. `include/pricer/option.hpp` includes a `types.hpp` that is not part of this model, and its `Struct` keyword is a typo. The enums are declared directly, with `American` standing in for any exercise style other than European.
