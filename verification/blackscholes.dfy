/**
 The Black-Scholes closed form of `main.cpp`. The transcendental values the
 C++ code computes with `<cmath>` are parameters: `logMoneyness` stands for
 `log(S / K)`, `sqrtT` for `sqrt(T)`, `disc` for `exp(-r * T)`, and the
 normal distribution function is built, as `norm_cdf` does in `main.cpp`, from a
 complementary error function `erfc` and the constant `sqrtHalf = sqrt(0.5)`.
 */
module BlackScholes {
  import opened Options

  /** `erfc` is reflected about 1: `erfc(-y) = 2 - erfc(y)`. */
  ghost predicate ErfcReflection(erfc: real -> real)
  {
    forall y, z :: y + z == 0.0 ==> erfc(y) + erfc(z) == 2.0
  }

  /** `erfc` takes its values in `[0, 2]`. */
  ghost predicate ErfcRange(erfc: real -> real)
  {
    forall y :: 0.0 <= erfc(y) <= 2.0
  }

  /** `norm_cdf(x) = erfc(-x * sqrt(0.5)) / 2`: a probability whenever
      `erfc` stays in its range. */
  function NormCdf(erfc: real -> real, sqrtHalf: real, x: real): (phi: real)
    ensures ErfcRange(erfc) ==> 0.0 <= phi <= 1.0
  {
    0.5 * erfc(-x * sqrtHalf)
  }

  /** The reflection of `erfc` makes the distribution function symmetric:
      `N(x) + N(-x) = 1`, for every value of the constant. */
  lemma NormCdfSymmetric(erfc: real -> real, sqrtHalf: real, x: real)
    requires ErfcReflection(erfc)
    ensures NormCdf(erfc, sqrtHalf, x) + NormCdf(erfc, sqrtHalf, -x) == 1.0
  {
    var y, z := -x * sqrtHalf, -(-x) * sqrtHalf;
    assert y + z == 0.0;
    assert erfc(y) + erfc(z) == 2.0;
  }

  /** The two arguments of the distribution function. `d1` divides by
      `sigma * sqrt(T)`; where that is zero the C++ division produces an
      infinity or NaN, reported here as `DivisionByZero`. Otherwise `d1` is
      the quotient and `d2` lies `sigma * sqrt(T)` below it. */
  function DTerms(vol: real, rate: real, expiry: real, logMoneyness: real, sqrtT: real): (d: Result<(real, real)>)
    ensures d.Failure? <==> vol * sqrtT == 0.0
    ensures d.Success? ==> d.value.0 * (vol * sqrtT) == logMoneyness + (rate + 0.5 * vol * vol) * expiry
    ensures d.Success? ==> d.value.0 - d.value.1 == vol * sqrtT
  {
    var width := vol * sqrtT;
    if width == 0.0 then Failure(DivisionByZero)
    else
      var d1 := (logMoneyness + (rate + 0.5 * vol * vol) * expiry) / width;
      Success((d1, d1 - width))
  }

  /** The call branch of `black_scholes`: `S N(d1) - K e^{-rT} N(d2)`. */
  function CallValue(spot: real, strike: real, disc: real, erfc: real -> real, sqrtHalf: real, d1: real, d2: real): real
  {
    spot * NormCdf(erfc, sqrtHalf, d1) - strike * disc * NormCdf(erfc, sqrtHalf, d2)
  }

  /** The put branch of `black_scholes`: `K e^{-rT} N(-d2) - S N(-d1)`. */
  function PutValue(spot: real, strike: real, disc: real, erfc: real -> real, sqrtHalf: real, d1: real, d2: real): real
  {
    strike * disc * NormCdf(erfc, sqrtHalf, -d2) - spot * NormCdf(erfc, sqrtHalf, -d1)
  }

  /** `black_scholes`: the call or put branch at `d1` and `d2`. Fails
      exactly where `d1` does. */
  function BlackScholesPrice(c: Contract, logMoneyness: real, sqrtT: real, disc: real,
                             erfc: real -> real, sqrtHalf: real): (res: Result<real>)
    ensures res.Failure? <==> c.vol * sqrtT == 0.0
  {
    match DTerms(c.vol, c.rate, c.expiry, logMoneyness, sqrtT)
    case Failure(e) => Failure(e)
    case Success((d1, d2)) =>
      if c.side == Call then Success(CallValue(c.spot, c.strike, disc, erfc, sqrtHalf, d1, d2))
      else Success(PutValue(c.spot, c.strike, disc, erfc, sqrtHalf, d1, d2))
  }

  /** At any `d1` and `d2`, a symmetric distribution function makes the
      call branch minus the put branch `S - K e^{-rT}`. */
  lemma BranchParity(spot: real, strike: real, disc: real, erfc: real -> real, sqrtHalf: real, d1: real, d2: real)
    requires ErfcReflection(erfc)
    ensures CallValue(spot, strike, disc, erfc, sqrtHalf, d1, d2) - PutValue(spot, strike, disc, erfc, sqrtHalf, d1, d2)
         == spot - strike * disc
  {
    NormCdfSymmetric(erfc, sqrtHalf, d1);
    NormCdfSymmetric(erfc, sqrtHalf, d2);
    var a, a' := NormCdf(erfc, sqrtHalf, d1), NormCdf(erfc, sqrtHalf, -d1);
    var b, b' := NormCdf(erfc, sqrtHalf, d2), NormCdf(erfc, sqrtHalf, -d2);
    var kd := strike * disc;
    assert spot * a + spot * a' == spot * (a + a');
    assert kd * b + kd * b' == kd * (b + b');
  }

  /** Put-call parity: with a symmetric distribution function, the call
      minus the put on the same market data is `S - K e^{-rT}`. */
  lemma PutCallParity(spot: real, strike: real, rate: real, expiry: real, vol: real,
                      logMoneyness: real, sqrtT: real, disc: real, erfc: real -> real, sqrtHalf: real)
    requires ErfcReflection(erfc)
    requires vol * sqrtT != 0.0
    ensures
      var call := BlackScholesPrice(Contract(Call, spot, strike, rate, expiry, vol), logMoneyness, sqrtT, disc, erfc, sqrtHalf);
      var put := BlackScholesPrice(Contract(Put, spot, strike, rate, expiry, vol), logMoneyness, sqrtT, disc, erfc, sqrtHalf);
      call.Success? && put.Success? && call.value - put.value == spot - strike * disc
  {
    var d := DTerms(vol, rate, expiry, logMoneyness, sqrtT).value;
    BranchParity(spot, strike, disc, erfc, sqrtHalf, d.0, d.1);
  }

  /** With `erfc` in range and non-negative `S`, `K` and discount factor, the
      call branch is at most the stock and the put branch at most the
      discounted strike. */
  lemma BranchBounds(spot: real, strike: real, disc: real, erfc: real -> real, sqrtHalf: real, d1: real, d2: real)
    requires ErfcRange(erfc)
    requires spot >= 0.0 && strike >= 0.0 && disc >= 0.0
    ensures CallValue(spot, strike, disc, erfc, sqrtHalf, d1, d2) <= spot
    ensures PutValue(spot, strike, disc, erfc, sqrtHalf, d1, d2) <= strike * disc
  {
    var kd := strike * disc;
    MulNonNegative(strike, disc);
    var n1, n2 := NormCdf(erfc, sqrtHalf, d1), NormCdf(erfc, sqrtHalf, d2);
    var m1, m2 := NormCdf(erfc, sqrtHalf, -d1), NormCdf(erfc, sqrtHalf, -d2);
    ScaleLe(spot, n1, 1.0);
    MulNonNegative(kd, n2);
    ScaleLe(kd, m2, 1.0);
    MulNonNegative(spot, m1);
  }

  /** With `erfc` in range and non-negative `S`, `K` and discount factor, a
      call is worth at most the stock and a put at most the discounted
      strike. */
  lemma PriceBounds(c: Contract, logMoneyness: real, sqrtT: real, disc: real,
                    erfc: real -> real, sqrtHalf: real)
    requires ErfcRange(erfc)
    requires c.spot >= 0.0 && c.strike >= 0.0 && disc >= 0.0
    requires c.vol * sqrtT != 0.0
    ensures c.side == Call ==> BlackScholesPrice(c, logMoneyness, sqrtT, disc, erfc, sqrtHalf).value <= c.spot
    ensures c.side == Put ==> BlackScholesPrice(c, logMoneyness, sqrtT, disc, erfc, sqrtHalf).value <= c.strike * disc
  {
    var d := DTerms(c.vol, c.rate, c.expiry, logMoneyness, sqrtT).value;
    BranchBounds(c.spot, c.strike, disc, erfc, sqrtHalf, d.0, d.1);
  }
}
