/**
 The Monte Carlo pricers of `main.cpp` and `MonteCarlo.cpp`. Both draw
 `num_simulations` prices at maturity, collect their payoffs in a vector,
 average them and discount the average by `exp(-r * T)`. The random draws
 and the exponential are parameters: `terminals` holds the simulated prices
 at maturity in the order they are drawn, `disc` the discount factor.
 */
module MonteCarlo {
  import opened Options
  import opened RealSeq

  /** The payoff as the Monte Carlo loops write it, `max(price - K, 0)`,
      with the arguments of `std::max` in the opposite order from the
      lattice; on reals the value is the same payoff. */
  function SamplePayoff(side: Side, price: real, strike: real): (v: real)
    ensures v == Payoff(side, price, strike)
  {
    if side == Call then MaxOf(price - strike, 0.0) else MaxOf(strike - price, 0.0)
  }

  /** The payoff vector, built by appending one payoff per draw. */
  function Payoffs(side: Side, terminals: seq<real>, strike: real): (ps: seq<real>)
    ensures |ps| == |terminals|
    ensures forall i :: 0 <= i < |ps| ==> ps[i] == Payoff(side, terminals[i], strike)
  {
    if |terminals| == 0 then []
    else Payoffs(side, terminals[..|terminals| - 1], strike) + [SamplePayoff(side, terminals[|terminals| - 1], strike)]
  }

  /** The discounted mean payoff over a non-empty set of draws. */
  function Estimate(side: Side, terminals: seq<real>, strike: real, disc: real): real
    requires |terminals| > 0
  {
    Discounted(disc, Mean(Payoffs(side, terminals, strike)))
  }

  /** The simulation loop: one `push_back` of the payoff per draw. */
  method SimulatePayoffs(side: Side, terminals: seq<real>, strike: real) returns (payoffs: seq<real>)
    ensures payoffs == Payoffs(side, terminals, strike)
  {
    payoffs := [];
    var i := 0;
    while i < |terminals|
      invariant 0 <= i <= |terminals|
      invariant payoffs == Payoffs(side, terminals[..i], strike)
    {
      assert terminals[..i + 1][..i] == terminals[..i];
      payoffs := payoffs + [SamplePayoff(side, terminals[i], strike)];
      i := i + 1;
    }
    assert terminals[..|terminals|] == terminals;
  }

  /** `average` of `MonteCarlo.cpp`: a running sum divided by the size. An
      empty vector makes that `0 / 0`, NaN in C++, reported as
      `DivisionByZero`; otherwise the result is the mean. */
  method Average(values: seq<real>) returns (res: Result<real>)
    ensures res.Failure? <==> |values| == 0
    ensures res.Success? ==> res.value == Mean(values)
  {
    var sum := 0.0;
    var i := 0;
    while i < |values|
      invariant 0 <= i <= |values|
      invariant sum == Sum(values[..i])
    {
      assert values[..i + 1][..i] == values[..i];
      sum := sum + values[i];
      i := i + 1;
    }
    assert values[..|values|] == values;
    if |values| == 0 {
      res := Failure(DivisionByZero);
    } else {
      res := Success(sum / (|values| as real));
    }
  }

  /** `monte_carlo_option` of `main.cpp`: the payoff vector summed with
      `std::accumulate` and divided by the signed `num_simulations`. No draw
      happens for `n <= 0`; `n = 0` divides zero by zero, while a negative
      `n` divides zero by a non-zero number and prices the option at 0. */
  method MonteCarloPrice(side: Side, n: int, terminals: seq<real>, strike: real, disc: real)
    returns (res: Result<real>)
    requires |terminals| == (if n > 0 then n else 0)
    ensures res.Failure? <==> n == 0
    ensures n < 0 ==> res == Success(0.0)
    ensures n > 0 ==> res == Success(Estimate(side, terminals, strike, disc))
  {
    var payoffs := SimulatePayoffs(side, terminals, strike);
    if n == 0 {
      res := Failure(DivisionByZero);
    } else {
      var average := Sum(payoffs) / (n as real);
      res := Success(Discounted(disc, average));
      if n > 0 {
        assert average == Mean(Payoffs(side, terminals, strike));
      } else {
        assert payoffs == [];
        assert average == 0.0;
        assert Discounted(disc, average) == 0.0;
      }
    }
  }

  /** `monte_carlo_option` of `MonteCarlo.cpp`: the same simulation averaged
      with `average`, which divides by the vector's size and so fails for
      every `n <= 0`. For `n > 0` both versions give the same estimate. */
  method MonteCarloPriceAveraged(side: Side, n: int, terminals: seq<real>, strike: real, disc: real)
    returns (res: Result<real>)
    requires |terminals| == (if n > 0 then n else 0)
    ensures res.Failure? <==> n <= 0
    ensures n > 0 ==> res == Success(Estimate(side, terminals, strike, disc))
  {
    var payoffs := SimulatePayoffs(side, terminals, strike);
    var mean := Average(payoffs);
    if mean.Failure? {
      res := Failure(mean.error);
    } else {
      res := Success(Discounted(disc, mean.value));
    }
  }

  /** With a non-negative discount factor the estimate lies between the
      discounted least and greatest payoff; in particular it is never
      negative. */
  lemma EstimateBetween(side: Side, terminals: seq<real>, strike: real, disc: real)
    requires |terminals| > 0 && disc >= 0.0
    ensures Discounted(disc, Min(Payoffs(side, terminals, strike))) <= Estimate(side, terminals, strike, disc)
    ensures Estimate(side, terminals, strike, disc) <= Discounted(disc, Max(Payoffs(side, terminals, strike)))
    ensures Estimate(side, terminals, strike, disc) >= 0.0
  {
    var ps := Payoffs(side, terminals, strike);
    MeanBetween(ps);
    MinAtLeast(ps, 0.0);
    DiscountedMonotone(disc, 0.0, Min(ps));
    DiscountedMonotone(disc, Min(ps), Mean(ps));
    DiscountedMonotone(disc, Mean(ps), Max(ps));
  }

  /** The strike paid `n` times. */
  function Strikes(n: nat, strike: real): real
  {
    (n as real) * strike
  }

  /** One more draw pays one more strike. */
  lemma StrikesStep(n: nat, strike: real)
    ensures Strikes(n + 1, strike) == Strikes(n, strike) + strike
  {
  }

  /** Draw by draw, the call payoffs minus the put payoffs sum to the sum of
      the prices minus `n` strikes. */
  lemma {:induction false} SumPayoffParity(terminals: seq<real>, strike: real)
    ensures Sum(Payoffs(Call, terminals, strike)) - Sum(Payoffs(Put, terminals, strike))
         == Sum(terminals) - Strikes(|terminals|, strike)
  {
    if |terminals| > 0 {
      var init, last := terminals[..|terminals| - 1], terminals[|terminals| - 1];
      SumPayoffParity(init, strike);
      SumPayoffsSnoc(Call, terminals, strike);
      SumPayoffsSnoc(Put, terminals, strike);
      assert Sum(terminals) == Sum(init) + last by {
        assert terminals == init + [last];
        SumSnoc(init, last);
      }
      PayoffParity(last, strike);
      StrikesStep(|init|, strike);
      AddParity(Sum(Payoffs(Call, init, strike)), Sum(Payoffs(Put, init, strike)), Sum(init),
        Strikes(|init|, strike), Payoff(Call, last, strike), Payoff(Put, last, strike), last, strike);
    }
  }

  /** The last draw adds its own payoff to the summed payoffs. */
  lemma SumPayoffsSnoc(side: Side, terminals: seq<real>, strike: real)
    requires |terminals| > 0
    ensures Sum(Payoffs(side, terminals, strike))
         == Sum(Payoffs(side, terminals[..|terminals| - 1], strike)) + Payoff(side, terminals[|terminals| - 1], strike)
  {
    var init, last := terminals[..|terminals| - 1], terminals[|terminals| - 1];
    SumSnoc(Payoffs(side, init, strike), SamplePayoff(side, last, strike));
  }

  /** The algebra of one step of `SumPayoffParity`, with every sum abstracted. */
  lemma AddParity(c: real, p: real, t: real, s: real, cl: real, pl: real, last: real, strike: real)
    requires c - p == t - s && cl - pl == last - strike
    ensures (c + cl) - (p + pl) == (t + last) - (s + strike)
  {
  }

  /** Dividing the summed parity by the number of draws: the mean call
      payoff minus the mean put payoff is the mean price minus the strike. */
  lemma MeanPayoffParity(terminals: seq<real>, strike: real)
    requires |terminals| > 0
    ensures Mean(Payoffs(Call, terminals, strike)) - Mean(Payoffs(Put, terminals, strike)) == Mean(terminals) - strike
  {
    SumPayoffParity(terminals, strike);
    QuotientParity(Sum(Payoffs(Call, terminals, strike)), Sum(Payoffs(Put, terminals, strike)), Sum(terminals),
      |terminals|, strike);
  }

  /** The algebra of `MeanPayoffParity`, with the sums abstracted. */
  lemma QuotientParity(c: real, p: real, t: real, n: nat, strike: real)
    requires n > 0 && c - p == t - Strikes(n, strike)
    ensures c / (n as real) - p / (n as real) == t / (n as real) - strike
  {
    var m := n as real;
    assert (c / m - p / m) * m == c - p;
    assert (t / m - strike) * m == t - m * strike;
  }

  /** Discounting is linear. */
  lemma DiscountedDifference(disc: real, x: real, y: real, z: real)
    requires x - y == z
    ensures Discounted(disc, x) - Discounted(disc, y) == Discounted(disc, z)
  {
  }

  /** Put-call parity of the estimator: on the same draws, the call
      estimate minus the put estimate is the discounted mean price at
      maturity minus the discounted strike. */
  lemma MonteCarloParity(terminals: seq<real>, strike: real, disc: real)
    requires |terminals| > 0
    ensures Estimate(Call, terminals, strike, disc) - Estimate(Put, terminals, strike, disc)
         == Discounted(disc, Mean(terminals) - strike)
  {
    MeanPayoffParity(terminals, strike);
    DiscountedDifference(disc, Mean(Payoffs(Call, terminals, strike)), Mean(Payoffs(Put, terminals, strike)),
      Mean(terminals) - strike);
  }
}
