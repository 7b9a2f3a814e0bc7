# European option pricing: a Dafny model

This project models the numerical core of a small C++ backend that prices European
calls and puts in three ways:

- the Black-Scholes closed form;
- the Cox-Ross-Rubinstein binomial lattice, in the two variants of `Backend/main.cpp`
  and `Backend/Binomial.cpp`;
- the Monte Carlo estimator, in the two variants of `Backend/main.cpp` and
  `Backend/MonteCarlo.cpp`;

together with the integer `factorial` and `binomial_coefficient` of `Backend/Binomial.cpp`.

Everything is modelled over exact `real` and unbounded `int`. Dafny has no
transcendental functions, so every value the C++ code computes with `<cmath>` is a
parameter:

- lattice: the up factor `u`, the one-step growth `exp(r dt)` and the one-step
  discount `exp(-r dt)`;
- Black-Scholes: `log(S / K)`, `sqrt(T)`, `exp(-r T)`, the constant `sqrt(0.5)` and the
  complementary error function `erfc`;
- Monte Carlo: the simulated prices at maturity, given as a sequence in draw order, and
  `exp(-r T)`.

The C++ code never reports an error. Wherever a division by zero reaches the returned
value, the model returns `Failure(DivisionByZero)`, even in the cases where the C++ code
goes on to reach a finite limit. For example, a zero `sigma` in `black_scholes` gives
`d1 = +inf` or `-inf` and a finite price, or NaN when the numerator is zero. The one
division by zero that does not reach the result is `T / steps` in the lattice with
`steps = 0`: no backward step reads `p`, and the model returns the payoff at the spot,
as the code does. Every other result is the exact-real value of the C++ expression.

Modules, one per file:

- `Options` (`options.dfy`): side, contract, payoff, discounting and integer powers.
- `RealSeq` (`realseq.dfy`): sum, mean, least and greatest element of a sequence of reals.
- `Combinatorics` (`combinatorics.dfy`): `factorial` and `binomial_coefficient`, and
  Pascal's rule as a reference definition.
- `Lattice` (`lattice.dfy`): the one-step factors, the terminal layer, and the in-place
  backward fold, proved equal to a recursive tree.
- `ClosedForm` (`closedform.dfy`): the fold equals the discounted binomial expectation of
  the terminal payoffs, weighted by `binomial_coefficient`.
- `BlackScholes` (`blackscholes.dfy`): the closed form, put-call parity and price bounds.
- `MonteCarlo` (`montecarlo.dfy`): the payoff vector, `average`, both estimators, their
  agreement, bounds and parity.

What the code does with unusual inputs, and the model with it:

- The code validates no input. Non-positive prices, expiries or volatilities go
  straight into the formulas, and the risk-neutral probability `p` is never clamped
  to `[0, 1]`. The lattice bounds therefore take `0 <= p <= 1` as a precondition.
- With `steps = 0` the lattice code takes no backward step and returns the payoff at
  the spot, because `pow(x, 0)` is 1. The model does the same.
- With `num_simulations = 0` both Monte Carlo variants divide zero by zero. With a
  negative count, the `main.cpp` variant divides zero by that count and prices the
  option at zero, while `average` in `MonteCarlo.cpp` divides by the size 0 of the
  empty vector.
- Some functions only transcribe a source expression and carry no contract of their
  own; the members named after each state their properties:
  - `Options.MaxOf` is `std::max` on two doubles (`Options.Payoff`, `MonteCarlo.SamplePayoff`);
  - `Options.Pow` is `pow(x, n)` for an integral exponent (`Lattice.TerminalLayer`,
    `ClosedForm.NodeValueClosedForm`);
  - `RealSeq.Sum` is `std::accumulate` and the summing loop of `average`
    (`MonteCarlo.Average`, `RealSeq.MeanBetween`, `MonteCarlo.SumPayoffParity`);
  - `Lattice.NodePrice` is `S u^(steps-i) d^i` and `Lattice.Leaves` the terminal layer
    (`Lattice.TerminalLayer`, `Lattice.TerminalLayerTwoPass`);
  - `Lattice.Rollback` is one backward step of the fold (`Lattice.FoldLayer`,
    `Lattice.RollbackWithin`, `Lattice.RollbackAtMost`);
  - `BlackScholes.CallValue` and `BlackScholes.PutValue` are the call and put branches
    of `black_scholes` (`BlackScholes.BranchParity`, `BlackScholes.BranchBounds`);
  - `MonteCarlo.Estimate` is the discounted mean payoff (`MonteCarlo.MonteCarloPrice`,
    `MonteCarlo.EstimateBetween`, `MonteCarlo.MonteCarloParity`).

## Model

| member | source | states |
|---|---|---|
| Options.Payoff | Backend/main.cpp:34 | the terminal payoff is non-negative and at least the intrinsic value, and it is either zero or exactly the intrinsic value (`price - K` for a call, `K - price` for a put) |
| Options.PayoffParity | Backend/main.cpp:34 | at every node price, the call payoff minus the put payoff is `price - K` |
| Combinatorics.Factorial | Backend/Binomial.cpp:6-9 | `factorial(n)` is at least 1 for every `n`, and at least `n` |
| Combinatorics.FactorialMonotone | Backend/Binomial.cpp:6-9 | `factorial` never decreases as its argument grows |
| Combinatorics.FactorialFitsInt32 | Backend/Binomial.cpp:6-9 | `factorial(n)` fits a signed 32-bit `int` exactly when `n <= 12`; from 13 on, the C++ multiplication overflows |
| Combinatorics.ChooseTimesFactorials | Backend/Binomial.cpp:12-14 | the Pascal's-rule count of `k`-subsets times `factorial(k) * factorial(n - k)` is `factorial(n)`, the identity that makes the C++ division exact |
| Combinatorics.FactorialQuotient | Backend/Binomial.cpp:12-14 | for `0 <= k <= n`, `factorial(k) * factorial(n - k)` divides `factorial(n)` with no remainder, so the integer division loses nothing, and the quotient is the number of `k`-subsets given by Pascal's rule |
| Combinatorics.BinomialCoefficient | Backend/Binomial.cpp:12-14 | inside the triangle `0 <= k <= n`, `binomial_coefficient(n, k)` times `factorial(k) * factorial(n - k)` is `factorial(n)`, and it equals the independent Pascal's-rule count |
| Combinatorics.BinomialSymmetric | Backend/Binomial.cpp:12-14 | `binomial_coefficient(n, k) == binomial_coefficient(n, n - k)` for all integers |
| Combinatorics.BinomialPascal | Backend/Binomial.cpp:12-14 | the coefficient is 1 at both edges and satisfies Pascal's rule inside the triangle |
| Lattice.CrrTree | Backend/main.cpp:28-29 | `d = 1/u` and `p = (exp(r dt) - d)/(u - d)` fail exactly when `u == 0` or `u * u == 1`; otherwise `d * u == 1` and `p` is the probability under which one step grows the stock by `exp(r dt)` on average |
| Lattice.ProbabilityInUnitInterval | Backend/main.cpp:29 | when `d < u`, the unclamped `p` lies in `[0, 1]` if and only if `d <= exp(r dt) <= u` |
| Lattice.TerminalLayer | Backend/main.cpp:30-36 | the merged loop leaves a layer of `steps + 1` entries; entry `i` is the payoff at the node with `steps - i` up and `i` down moves, and it is non-negative |
| Lattice.TerminalLayerTwoPass | Backend/Binomial.cpp:22-36 | the price loop followed by the payoff loop gives the same layer as the merged loop, entry by entry, and every entry is non-negative |
| Lattice.FoldLayer | Backend/main.cpp:39-41 | one pass over layer `j` sets each entry `0..j` to the discounted mix of the old entry and its old right neighbour, and leaves every entry above `j` unchanged |
| Lattice.BackwardInduction | Backend/main.cpp:38-44 | the whole in-place fold returns the root of the recursive binomial tree built on the terminal layer |
| Lattice.BinomialPrice | Backend/main.cpp:25-45 | `binomial_option_pricing` fails exactly when `steps > 0` and `d` or `p` is undefined; with `steps == 0` it returns the payoff at the spot; otherwise it returns the lattice value of the recursive tree |
| Lattice.BinomialPriceTwoPass | Backend/Binomial.cpp:17-46 | the two-loop variant fails in the same cases and returns the same price as the merged variant |
| Lattice.RollbackWithin | Backend/main.cpp:40 | one backward step with `0 <= p <= 1` and a non-negative discount maps non-negative node values to a non-negative value |
| Lattice.RollbackAtMost | Backend/main.cpp:40 | one backward step with `0 <= p <= 1` and a discount in `[0, 1]` maps values in `[0, hi]` into `[0, hi]` |
| Lattice.NodeValueNonNegative | Backend/main.cpp:38-42 | with `0 <= p <= 1` and a non-negative discount, every node folded from non-negative leaves is non-negative |
| Lattice.NodeValueAtMost | Backend/main.cpp:38-42 | with `0 <= p <= 1` and a discount in `[0, 1]`, every node folded from leaves in `[0, hi]` stays in `[0, hi]` |
| Lattice.LatticeValueNonNegative | Backend/main.cpp:38-44 | the returned `prices[0]` is non-negative when `0 <= p <= 1` and the one-step discount is non-negative |
| Lattice.LatticeValueAtMostMaxPayoff | Backend/main.cpp:38-44 | when `0 <= p <= 1` and the one-step discount is in `[0, 1]`, the returned price is at most the largest terminal payoff, and so at most the payoff at some terminal node |
| ClosedForm.PartialSumIsPascal | Backend/Binomial.cpp:12-14 | the partial sums of the closed form are the same whether the paths are counted by `binomial_coefficient` or by Pascal's rule |
| ClosedForm.PascalSumSplit | Backend/Binomial.cpp:39-43 | by Pascal's rule, the first `t` summands of the `m`-step expectation at `k` are the risk-neutral mix of the first `t` summands at `k` and the first `t - 1` at `k + 1`, one step later |
| ClosedForm.ExpectationStep | Backend/Binomial.cpp:39-43 | the `m`-step binomial expectation at node `k` is the risk-neutral mix of the `m - 1`-step expectations at `k` and `k + 1` |
| ClosedForm.RollbackDiscounted | Backend/Binomial.cpp:41 | one backward step applied to values discounted over `m - 1` periods gives their mix discounted over `m` periods |
| ClosedForm.NodeValueClosedForm | Backend/Binomial.cpp:39-43 | every node of the fold equals `disc^m` times the binomial expectation of the leaves it reaches |
| ClosedForm.LatticeClosedForm | Backend/Binomial.cpp:5-45 | the lattice price equals `disc^steps * sum over i of binomial_coefficient(steps, i) p^(steps-i) (1-p)^i payoff_i`, so the fold computes a binomial expectation weighted by `binomial_coefficient`, which the C++ defines but never calls |
| BlackScholes.NormCdf | Backend/main.cpp:8-10 | `norm_cdf` lies in `[0, 1]` whenever `erfc` takes its values in `[0, 2]` |
| BlackScholes.NormCdfSymmetric | Backend/main.cpp:8-10 | the reflection `erfc(y) + erfc(-y) = 2` makes `norm_cdf(x) + norm_cdf(-x) = 1` |
| BlackScholes.DTerms | Backend/main.cpp:14-15 | `d1` fails exactly when `sigma * sqrt(T)` is zero; otherwise `d1 * sigma * sqrt(T)` is the numerator `log(S/K) + (r + sigma^2/2) T`, and `d1 - d2 = sigma * sqrt(T)` |
| BlackScholes.BlackScholesPrice | Backend/main.cpp:13-22 | `black_scholes` fails exactly when `sigma * sqrt(T)` is zero |
| BlackScholes.BranchParity | Backend/main.cpp:17-21 | at any `d1` and `d2`, with a symmetric `norm_cdf`, the call branch minus the put branch is `S - K exp(-rT)` |
| BlackScholes.PutCallParity | Backend/main.cpp:13-22 | for the same market data, both prices exist and call minus put is `S - K exp(-rT)` |
| BlackScholes.BranchBounds | Backend/main.cpp:17-21 | with `erfc` in range and non-negative `S`, `K` and discount, the call branch is at most `S` and the put branch at most `K exp(-rT)` |
| BlackScholes.PriceBounds | Backend/main.cpp:13-22 | under the same conditions, a call is worth at most the stock and a put at most the discounted strike |
| MonteCarlo.SamplePayoff | Backend/MonteCarlo.cpp:29-34 | `max(price - K, 0)` with its arguments in the simulation loop's order is the same payoff as the lattice's |
| MonteCarlo.Payoffs | Backend/MonteCarlo.cpp:22-36 | the payoff vector has one entry per draw, and entry `i` is the payoff of draw `i` |
| MonteCarlo.SimulatePayoffs | Backend/MonteCarlo.cpp:25-36 | the `push_back` loop builds exactly that payoff vector, in draw order |
| MonteCarlo.Average | Backend/MonteCarlo.cpp:7-13 | `average` fails exactly on the empty vector; otherwise it returns the mean |
| RealSeq.MeanBetween | Backend/MonteCarlo.cpp:7-13 | the mean of a non-empty vector lies between its least and its greatest value |
| MonteCarlo.MonteCarloPrice | Backend/main.cpp:53-63 | the `main.cpp` estimator fails exactly when `num_simulations == 0`, prices at zero when it is negative, and otherwise returns the discounted mean payoff |
| MonteCarlo.MonteCarloPriceAveraged | Backend/MonteCarlo.cpp:16-41 | the `MonteCarlo.cpp` estimator fails exactly when `num_simulations <= 0`, and for positive counts returns the same discounted mean payoff as the `main.cpp` one |
| MonteCarlo.EstimateBetween | Backend/MonteCarlo.cpp:39-40 | with a non-negative discount, the estimate lies between the discounted least and greatest payoff, and so is never negative |
| MonteCarlo.SumPayoffParity | Backend/MonteCarlo.cpp:29-35 | over any draws, the summed call payoffs minus the summed put payoffs is the summed prices minus `n` strikes |
| MonteCarlo.MeanPayoffParity | Backend/MonteCarlo.cpp:29-39 | the mean call payoff minus the mean put payoff is the mean price at maturity minus the strike |
| MonteCarlo.MonteCarloParity | Backend/MonteCarlo.cpp:29-40 | on the same draws, the call estimate minus the put estimate is the discounted mean price at maturity minus the discounted strike |

## Left out

- The `main` functions and their console dispatch (`Backend/main.cpp:66-111`, `Backend/Binomial.cpp:48-63`, `Backend/MonteCarlo.cpp:43-58`): I/O and string comparison only.
- `Backend/BlackScholes.cpp`: it repeats `norm_cdf` and `black_scholes` of `Backend/main.cpp`, and its `main` calls functions that do not exist, so it is not part of this model.
- `Frontend/app.js`: browser DOM handling and an HTTP request; not part of this model.
- The values of `exp`, `log`, `sqrt`, `pow` on doubles and `erfc`: they are parameters. The only facts assumed about `erfc` are its reflection `erfc(-y) = 2 - erfc(y)` and, for the bounds, its range `[0, 2]`. Nothing ties the lattice's growth factor to its one-step discount, or `u` to `sigma * sqrt(dt)`.
- The random generator, the normal draws and the geometric Brownian motion formula for the price at maturity (`Backend/main.cpp:49-57`, `Backend/MonteCarlo.cpp:17-27`): the prices at maturity are an input sequence.
- Convergence of the lattice to the closed form as `steps` grows, and of the Monte Carlo estimate within standard errors: analytic and statistical claims outside a discrete model.
- IEEE-754 rounding, signed zeros, infinities and NaN: the model computes over exact reals.
- Combinatorics.Factorial: does not model the 32-bit `int` overflow for `n >= 13`, because it is computed over unbounded integers; FactorialFitsInt32 states where the two agree.
- Combinatorics.BinomialCoefficient: computed over unbounded integers, so for `n >= 13` it differs from the overflowing C++ value.
- Lattice.CrrTree: reports `Failure` where `u - d` is zero, while the C++ code goes on with an infinite or NaN `p`. The model makes no claim about the number the C++ code would then return.
- Lattice.BinomialPrice: takes `steps` as a natural number. A negative `steps` in the C++ code makes a vector of size `steps + 1 <= 0` and reads or allocates out of range.
- Lattice.BinomialPriceTwoPass: takes `steps` as a natural number, for the same reason.
- BlackScholes.BlackScholesPrice: reports `Failure` when `sigma * sqrt(T)` is zero. The C++ code then computes `d1` as an infinity, giving a finite limit price, or as NaN.
- BlackScholes.DTerms: takes `log(S / K)` as a finite parameter, so the infinite or NaN logarithm for `S <= 0` or `K <= 0` is not modelled.
- MonteCarlo.MonteCarloPrice: for a negative `num_simulations` the C++ result is a negative zero; reals have a single zero.
- MonteCarlo.MonteCarloPrice: the draws are given as a sequence whose length is the number of loop iterations, which is `num_simulations` when positive and zero otherwise.
