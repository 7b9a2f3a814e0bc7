/**
 The Cox-Ross-Rubinstein binomial pricer: the one-step factors, the
 terminal layer of option payoffs, and the backward induction that folds
 that layer in place down to the price at the root.

 The exponentials the C++ code evaluates are parameters here: `u` stands
 for `exp(sigma * sqrt(dt))`, `growth` for `exp(r * dt)` and `stepDisc`
 for the one-step discount `exp(-r * dt)`, with `dt = T / steps`.
 The `std::vector<double>` of node values is a `seq<real>` local variable
 that is updated one index at a time.
 */
module Lattice {
  import opened Options
  import opened RealSeq

  /** The one-step factors: up move, down move and risk-neutral probability
      of the up move. */
  datatype Tree = Tree(up: real, down: real, prob: real)

  /** `d = 1 / u` and `p = (growth - d) / (u - d)`. Both divisions fail when
      their divisor is zero, that is when `u == 0` or `u == d`; the second
      happens exactly when `u * u == 1`, i.e. for zero volatility. When it
      succeeds, `p` is the probability under which one step grows the stock
      by `growth` on average. */
  function CrrTree(u: real, growth: real): (t: Result<Tree>)
    ensures t.Failure? <==> u == 0.0 || u * u == 1.0
    ensures t.Success? ==> t.value.up == u && t.value.down * u == 1.0
    ensures t.Success? ==> t.value.prob * t.value.up + (1.0 - t.value.prob) * t.value.down == growth
  {
    if u == 0.0 then Failure(DivisionByZero)
    else
      var d := 1.0 / u;
      assert u - d == 0.0 <==> u * u == 1.0 by {
        assert d * u == 1.0;
        assert (u - d) * u == u * u - d * u;
      }
      if u - d == 0.0 then Failure(DivisionByZero)
      else
        var p := (growth - d) / (u - d);
        assert p * (u - d) == growth - d;
        Success(Tree(u, d, p))
  }

  /** The C++ code does not clamp `p`. It lies in [0, 1] exactly when one
      step's growth lies between the down and the up factor. */
  lemma ProbabilityInUnitInterval(u: real, growth: real)
    requires CrrTree(u, growth).Success?
    requires CrrTree(u, growth).value.down < u
    ensures var t := CrrTree(u, growth).value;
      0.0 <= t.prob <= 1.0 <==> t.down <= growth <= t.up
  {
    var t := CrrTree(u, growth).value;
    var w := t.up - t.down;
    assert t.prob * w == growth - t.down;
    assert (1.0 - t.prob) * w == t.up - growth by {
      assert (1.0 - t.prob) * w == w - t.prob * w;
    }
    PositiveFactorSign(t.prob, w);
    PositiveFactorSign(1.0 - t.prob, w);
  }

  /** A positive factor keeps the sign of the other. */
  lemma PositiveFactorSign(a: real, w: real)
    requires w > 0.0
    ensures a >= 0.0 <==> a * w >= 0.0
  {
    if a < 0.0 {
      assert a * w == -((-a) * w);
      MulNonNegative(-a, w);
      assert (-a) * w != 0.0;
    } else {
      MulNonNegative(a, w);
    }
  }

  /** The stock price at terminal node `i`: `steps - i` up moves and `i`
      down moves from the spot. */
  function NodePrice(spot: real, up: real, down: real, steps: nat, i: nat): real
    requires i <= steps
  {
    spot * Pow(up, steps - i) * Pow(down, i)
  }

  /** The terminal layer the pricer folds: the payoff at every node. */
  function Leaves(c: Contract, t: Tree, steps: nat): (v: seq<real>)
    ensures |v| == steps + 1
  {
    seq(steps + 1, i requires 0 <= i <= steps => Payoff(c.side, NodePrice(c.spot, t.up, t.down, steps, i), c.strike))
  }

  /** One backward step: the risk-neutral mix of the up and the down
      successor, discounted over one period. */
  function Rollback(p: real, up: real, down: real, disc: real): real
  {
    (p * up + (1.0 - p) * down) * disc
  }

  /** The recursive tree: the value of node `k` after `m` backward steps from
      the leaves `v` rolls back the two nodes it can move to. */
  function NodeValue(v: seq<real>, p: real, disc: real, m: nat, k: nat): real
    requires k + m < |v|
    decreases m
  {
    if m == 0 then v[k]
    else Rollback(p, NodeValue(v, p, disc, m - 1, k), NodeValue(v, p, disc, m - 1, k + 1), disc)
  }

  /** The price the lattice assigns: the root of the recursive tree. */
  function LatticeValue(c: Contract, t: Tree, stepDisc: real, steps: nat): real
  {
    NodeValue(Leaves(c, t, steps), t.prob, stepDisc, steps, 0)
  }

  /** The terminal layer as `main.cpp` builds it, one loop writing the node
      price and then overwriting it with its payoff. */
  method TerminalLayer(c: Contract, steps: nat, up: real, down: real) returns (prices: seq<real>)
    ensures |prices| == steps + 1
    ensures forall i :: 0 <= i <= steps ==> prices[i] == Payoff(c.side, NodePrice(c.spot, up, down, steps, i), c.strike)
    ensures forall i :: 0 <= i <= steps ==> prices[i] >= 0.0
  {
    prices := seq(steps + 1, _ => 0.0);
    var i := 0;
    while i <= steps
      invariant 0 <= i <= steps + 1
      invariant |prices| == steps + 1
      invariant forall t :: 0 <= t < i ==> prices[t] == Payoff(c.side, NodePrice(c.spot, up, down, steps, t), c.strike)
    {
      prices := prices[i := NodePrice(c.spot, up, down, steps, i)];
      var payoff := if c.side == Call then MaxOf(0.0, prices[i] - c.strike) else MaxOf(0.0, c.strike - prices[i]);
      prices := prices[i := payoff];
      i := i + 1;
    }
  }

  /** The terminal layer as `Binomial.cpp` builds it: a first loop writes
      every node price, a second maps each entry to its payoff on its own. */
  method TerminalLayerTwoPass(c: Contract, steps: nat, up: real, down: real) returns (prices: seq<real>)
    ensures |prices| == steps + 1
    ensures forall i :: 0 <= i <= steps ==> prices[i] == Payoff(c.side, NodePrice(c.spot, up, down, steps, i), c.strike)
    ensures forall i :: 0 <= i <= steps ==> prices[i] >= 0.0
  {
    prices := seq(steps + 1, _ => 0.0);
    var i := 0;
    while i <= steps
      invariant 0 <= i <= steps + 1
      invariant |prices| == steps + 1
      invariant forall t :: 0 <= t < i ==> prices[t] == NodePrice(c.spot, up, down, steps, t)
    {
      prices := prices[i := NodePrice(c.spot, up, down, steps, i)];
      i := i + 1;
    }
    i := 0;
    while i <= steps
      invariant 0 <= i <= steps + 1
      invariant |prices| == steps + 1
      invariant forall t :: 0 <= t < i ==> prices[t] == Payoff(c.side, NodePrice(c.spot, up, down, steps, t), c.strike)
      invariant forall t :: i <= t <= steps ==> prices[t] == NodePrice(c.spot, up, down, steps, t)
    {
      if c.side == Call {
        prices := prices[i := MaxOf(0.0, prices[i] - c.strike)];
      } else {
        prices := prices[i := MaxOf(0.0, c.strike - prices[i])];
      }
      i := i + 1;
    }
  }

  /** One pass of the backward induction, for layer `j`. Entry `i` is
      overwritten while entry `i + 1` still holds the later layer, so the
      entries `0..j` become the discounted mix of their two successors and
      every entry above `j` is left as it was. */
  method FoldLayer(prices: seq<real>, j: nat, p: real, disc: real) returns (next: seq<real>)
    requires j + 1 < |prices|
    ensures |next| == |prices|
    ensures forall i :: 0 <= i <= j ==> next[i] == Rollback(p, prices[i], prices[i + 1], disc)
    ensures forall i :: j < i < |prices| ==> next[i] == prices[i]
  {
    next := prices;
    var i := 0;
    while i <= j
      invariant 0 <= i <= j + 1
      invariant |next| == |prices|
      invariant forall t :: 0 <= t < i ==> next[t] == Rollback(p, prices[t], prices[t + 1], disc)
      invariant forall t :: i <= t < |prices| ==> next[t] == prices[t]
    {
      next := next[i := Rollback(p, next[i], next[i + 1], disc)];
      i := i + 1;
    }
  }

  /** The backward induction over the whole triangle, `j` running from
      `steps - 1` down to 0. Before the pass for `j`, entries `0..j + 1` hold
      layer `j + 1` of the recursive tree and every entry `i` above that
      holds node `i` of layer `i`, its last value. The result is the root. */
  method BackwardInduction(leaves: seq<real>, p: real, disc: real) returns (price: real)
    requires |leaves| >= 1
    ensures price == NodeValue(leaves, p, disc, |leaves| - 1, 0)
  {
    var steps := |leaves| - 1;
    var prices := leaves;
    var j := steps - 1;
    while j >= 0
      invariant -1 <= j < steps
      invariant |prices| == steps + 1
      invariant forall i :: 0 <= i <= j + 1 ==> prices[i] == NodeValue(leaves, p, disc, steps - (j + 1), i)
      invariant forall i :: j + 1 < i <= steps ==> prices[i] == NodeValue(leaves, p, disc, steps - i, i)
    {
      var m := steps - j;
      var next := FoldLayer(prices, j, p, disc);
      forall i | 0 <= i <= j
        ensures next[i] == NodeValue(leaves, p, disc, m, i)
      {
        assert prices[i] == NodeValue(leaves, p, disc, m - 1, i);
        assert prices[i + 1] == NodeValue(leaves, p, disc, m - 1, i + 1);
        assert next[i] == Rollback(p, prices[i], prices[i + 1], disc);
      }
      prices := next;
      j := j - 1;
    }
    price := prices[0];
  }

  /** `binomial_option_pricing` of `main.cpp`. With no backward step the
      probability is never read and the price is the payoff at the spot;
      otherwise an undefined `d` or `p` makes the whole result undefined. */
  method BinomialPrice(c: Contract, steps: nat, u: real, growth: real, stepDisc: real) returns (res: Result<real>)
    ensures res.Failure? <==> steps > 0 && CrrTree(u, growth).Failure?
    ensures steps == 0 ==> res == Success(Payoff(c.side, c.spot, c.strike))
    ensures steps > 0 && res.Success? ==> res.value == LatticeValue(c, CrrTree(u, growth).value, stepDisc, steps)
  {
    var tree := CrrTree(u, growth);
    if tree.Failure? {
      if steps == 0 {
        return Success(Payoff(c.side, c.spot, c.strike));
      }
      return Failure(tree.error);
    }
    var t := tree.value;
    var prices := TerminalLayer(c, steps, t.up, t.down);
    assert prices == Leaves(c, t, steps);
    var price := BackwardInduction(prices, t.prob, stepDisc);
    return Success(price);
  }

  /** `binomial_option_pricing` of `Binomial.cpp`: the same fold over the
      terminal layer built in two passes. */
  method BinomialPriceTwoPass(c: Contract, steps: nat, u: real, growth: real, stepDisc: real) returns (res: Result<real>)
    ensures res.Failure? <==> steps > 0 && CrrTree(u, growth).Failure?
    ensures steps == 0 ==> res == Success(Payoff(c.side, c.spot, c.strike))
    ensures steps > 0 && res.Success? ==> res.value == LatticeValue(c, CrrTree(u, growth).value, stepDisc, steps)
  {
    var tree := CrrTree(u, growth);
    if tree.Failure? {
      if steps == 0 {
        return Success(Payoff(c.side, c.spot, c.strike));
      }
      return Failure(tree.error);
    }
    var t := tree.value;
    var prices := TerminalLayerTwoPass(c, steps, t.up, t.down);
    assert prices == Leaves(c, t, steps);
    var price := BackwardInduction(prices, t.prob, stepDisc);
    return Success(price);
  }

  /** With `0 <= p <= 1` and a non-negative discount, folding non-negative
      leaves never produces a negative node. */
  lemma {:induction false} NodeValueNonNegative(v: seq<real>, p: real, disc: real, m: nat, k: nat)
    requires k + m < |v|
    requires 0.0 <= p <= 1.0 && disc >= 0.0
    requires forall i :: 0 <= i < |v| ==> v[i] >= 0.0
    ensures NodeValue(v, p, disc, m, k) >= 0.0
  {
    if m > 0 {
      NodeValueNonNegative(v, p, disc, m - 1, k);
      NodeValueNonNegative(v, p, disc, m - 1, k + 1);
      RollbackWithin(p, NodeValue(v, p, disc, m - 1, k), NodeValue(v, p, disc, m - 1, k + 1), disc);
    }
  }

  /** With `0 <= p <= 1` and `0 <= disc <= 1`, folding leaves that lie in
      `[0, hi]` keeps every node in `[0, hi]`. */
  lemma {:induction false} NodeValueAtMost(v: seq<real>, p: real, disc: real, m: nat, k: nat, hi: real)
    requires k + m < |v|
    requires 0.0 <= p <= 1.0 && 0.0 <= disc <= 1.0
    requires forall i :: 0 <= i < |v| ==> 0.0 <= v[i] <= hi
    ensures 0.0 <= NodeValue(v, p, disc, m, k) <= hi
  {
    if m > 0 {
      NodeValueAtMost(v, p, disc, m - 1, k, hi);
      NodeValueAtMost(v, p, disc, m - 1, k + 1, hi);
      RollbackAtMost(p, NodeValue(v, p, disc, m - 1, k), NodeValue(v, p, disc, m - 1, k + 1), disc, hi);
    }
  }

  lemma WeightedAtMost(p: real, q: real, a: real, b: real, hi: real)
    requires p >= 0.0 && q >= 0.0 && a <= hi && b <= hi
    ensures p * a + q * b <= p * hi + q * hi
  {
    ScaleLe(p, a, hi);
    ScaleLe(q, b, hi);
  }

  /** Rolling back two non-negative values with `0 <= p <= 1` and a
      non-negative discount gives a non-negative value. */
  lemma RollbackWithin(p: real, a: real, b: real, disc: real)
    requires 0.0 <= p <= 1.0 && disc >= 0.0 && a >= 0.0 && b >= 0.0
    ensures Rollback(p, a, b, disc) >= 0.0
  {
    MulNonNegative(p, a);
    MulNonNegative(1.0 - p, b);
    MulNonNegative(p * a + (1.0 - p) * b, disc);
  }

  /** Rolling back two values in `[0, hi]`, with `0 <= p <= 1` and a
      discount in `[0, 1]`, stays in `[0, hi]`. */
  lemma RollbackAtMost(p: real, a: real, b: real, disc: real, hi: real)
    requires 0.0 <= p <= 1.0 && 0.0 <= disc <= 1.0
    requires 0.0 <= a <= hi && 0.0 <= b <= hi
    ensures 0.0 <= Rollback(p, a, b, disc) <= hi
  {
    var q := 1.0 - p;
    var mix := p * a + q * b;
    MulNonNegative(p, a);
    MulNonNegative(q, b);
    WeightedAtMost(p, q, a, b, hi);
    assert p * hi + q * hi == hi by {
      assert p * hi + q * hi == (p + q) * hi;
    }
    ScaleLe(mix, disc, 1.0);
    MulNonNegative(mix, disc);
  }

  /** The lattice price is non-negative whenever `0 <= p <= 1` and the
      one-step discount is non-negative; the C++ code does not clamp `p`,
      so the first condition is the caller's. */
  lemma LatticeValueNonNegative(c: Contract, t: Tree, stepDisc: real, steps: nat)
    requires 0.0 <= t.prob <= 1.0 && stepDisc >= 0.0
    ensures LatticeValue(c, t, stepDisc, steps) >= 0.0
  {
    NodeValueNonNegative(Leaves(c, t, steps), t.prob, stepDisc, steps, 0);
  }

  /** With `0 <= p <= 1` and `0 <= stepDisc <= 1`, the lattice price never
      exceeds the largest terminal payoff, which is the payoff at one of the
      terminal nodes. */
  lemma LatticeValueAtMostMaxPayoff(c: Contract, t: Tree, stepDisc: real, steps: nat)
    requires 0.0 <= t.prob <= 1.0 && 0.0 <= stepDisc <= 1.0
    ensures LatticeValue(c, t, stepDisc, steps) <= Max(Leaves(c, t, steps))
    ensures exists i :: 0 <= i <= steps && LatticeValue(c, t, stepDisc, steps) <= Leaves(c, t, steps)[i]
  {
    var v := Leaves(c, t, steps);
    NodeValueAtMost(v, t.prob, stepDisc, steps, 0, Max(v));
    var i :| 0 <= i < |v| && v[i] == Max(v);
  }
}
