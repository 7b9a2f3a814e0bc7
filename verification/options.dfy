/**
 The shared vocabulary of the three pricers: the side of the option, the
 contract, the payoff at expiry, and the error value that stands for the
 non-numbers (infinities, NaN) the C++ code produces when it divides by zero.
 */
module Options {

  /** The side of a European option; the C++ code passes it as `bool isCall`,
      with `true` for `Call`. */
  datatype Side = Call | Put

  /** One pricing request: spot price S, strike K, annual risk-free rate r,
      time to expiry T in years and annual volatility sigma. */
  datatype Contract = Contract(side: Side, spot: real, strike: real, rate: real, expiry: real, vol: real)

  /** The C++ code never reports an error: a division by zero silently
      yields an infinity or NaN. The model returns this value instead. */
  datatype PricingError = DivisionByZero

  datatype Result<T> = Success(value: T) | Failure(error: PricingError)

  /** What exercising at `price` gains before it is floored at zero:
      `price - strike` for a call, `strike - price` for a put. */
  function Intrinsic(side: Side, price: real, strike: real): real
  {
    match side
    case Call => price - strike
    case Put => strike - price
  }

  /** `std::max` of two doubles: the second argument when the first is
      smaller, the first otherwise. */
  function MaxOf(a: real, b: real): real
  {
    if a < b then b else a
  }

  /** The payoff at expiry, `max(0, price - K)` for a call and
      `max(0, K - price)` for a put: the intrinsic value floored at zero. */
  function Payoff(side: Side, price: real, strike: real): (v: real)
    ensures v >= 0.0 && v >= Intrinsic(side, price, strike)
    ensures v == 0.0 || v == Intrinsic(side, price, strike)
  {
    if side == Call then MaxOf(0.0, price - strike) else MaxOf(0.0, strike - price)
  }

  /** At every price, the call payoff minus the put payoff is `price - K`. */
  lemma PayoffParity(price: real, strike: real)
    ensures Payoff(Call, price, strike) - Payoff(Put, price, strike) == price - strike
  {
  }

  /** Multiplying an inequality by a non-negative factor preserves it. */
  lemma ScaleLe(a: real, x: real, y: real)
    requires a >= 0.0 && x <= y
    ensures a * x <= a * y
  {
  }

  lemma MulNonNegative(a: real, b: real)
    requires a >= 0.0 && b >= 0.0
    ensures a * b >= 0.0
  {
  }

  /** A value brought back to today by a discount factor. */
  function Discounted(disc: real, value: real): real
  {
    disc * value
  }

  /** Discounting by a non-negative factor preserves order. */
  lemma DiscountedMonotone(disc: real, x: real, y: real)
    requires disc >= 0.0 && x <= y
    ensures Discounted(disc, x) <= Discounted(disc, y)
  {
    ScaleLe(disc, x, y);
  }

  /** `x` raised to a natural power, as `pow(x, n)` computes it for an
      integral exponent. */
  function Pow(x: real, n: nat): real
  {
    if n == 0 then 1.0 else x * Pow(x, n - 1)
  }
}
