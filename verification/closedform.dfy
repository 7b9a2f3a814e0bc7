/**
 The closed form of the lattice fold. `Binomial.cpp` defines
 `binomial_coefficient` but never calls it; the closed form is where it fits.
 Folding the terminal layer `steps` times equals discounting, by
 `disc^steps`, the expectation of the leaves under the binomial
 distribution, in which leaf `i` (reached by `steps - i` up moves and `i`
 down moves) carries the weight
 `binomial_coefficient(steps, i) p^(steps - i) (1 - p)^i`.
 */
module ClosedForm {
  import opened Options
  import opened Combinatorics
  import opened Lattice

  /** `coeff * p^(m - i) * (1 - p)^i * x`: a leaf value `x` weighted by the
      probability of one path with `m - i` up and `i` down moves, times the
      number `coeff` of such paths. */
  function Weighted(coeff: real, p: real, m: nat, i: nat, x: real): real
    requires i <= m
  {
    coeff * Pow(p, m - i) * Pow(1.0 - p, i) * x
  }

  /** The `i`-th summand of the expectation over the `m + 1` leaves that node
      `k` reaches in `m` steps, its paths counted by `binomial_coefficient`. */
  function Term(v: seq<real>, p: real, m: nat, k: nat, i: nat): real
    requires i <= m && k + m < |v|
  {
    Weighted(BinomialCoefficient(m, i) as real, p, m, i, v[k + i])
  }

  /** The first `t` summands. */
  function PartialSum(v: seq<real>, p: real, m: nat, k: nat, t: nat): real
    requires t <= m + 1 && k + m < |v|
  {
    if t == 0 then 0.0 else PartialSum(v, p, m, k, t - 1) + Term(v, p, m, k, t - 1)
  }

  /** The binomial expectation of the leaves below node `k`, `m` steps up. */
  function Expectation(v: seq<real>, p: real, m: nat, k: nat): real
    requires k + m < |v|
  {
    PartialSum(v, p, m, k, m + 1)
  }

  /** The same summand with its paths counted by Pascal's rule, the form the
      algebra below works with. */
  function PascalTerm(v: seq<real>, p: real, m: nat, k: nat, i: nat): real
    requires i <= m && k + m < |v|
  {
    Weighted(Choose(m, i) as real, p, m, i, v[k + i])
  }

  /** The first `t` summands with Pascal's count. */
  function PascalSum(v: seq<real>, p: real, m: nat, k: nat, t: nat): real
    requires t <= m + 1 && k + m < |v|
  {
    if t == 0 then 0.0 else PascalSum(v, p, m, k, t - 1) + PascalTerm(v, p, m, k, t - 1)
  }

  /** Counting the paths with `binomial_coefficient` or with Pascal's rule
      gives the same partial sums. */
  lemma {:induction false} PartialSumIsPascal(v: seq<real>, p: real, m: nat, k: nat, t: nat)
    requires t <= m + 1 && k + m < |v|
    ensures PartialSum(v, p, m, k, t) == PascalSum(v, p, m, k, t)
  {
    if t > 0 {
      PartialSumIsPascal(v, p, m, k, t - 1);
      assert BinomialCoefficient(m, t - 1) == Choose(m, t - 1);
      assert Term(v, p, m, k, t - 1) == PascalTerm(v, p, m, k, t - 1);
    }
  }

  /** The risk-neutral mix of an up-move value and a down-move value. */
  function Mix(p: real, up: real, down: real): real
  {
    p * up + (1.0 - p) * down
  }

  /** Mixing is linear: two mixes add up to the mix of the sums. */
  lemma MixAdd(p: real, s1: real, s2: real, u1: real, u2: real, z1: real, z2: real)
    requires z1 == s1 + u1 && z2 == s2 + u2
    ensures Mix(p, s1, s2) + Mix(p, u1, u2) == Mix(p, z1, z2)
  {
  }

  /** The polynomial identity behind `WeightedSplit`. */
  lemma PascalRegroup(a: real, b: real, p: real, q: real, pp: real, qq: real, x: real)
    ensures (a + b) * (p * pp) * (q * qq) * x == p * (b * pp * (q * qq) * x) + q * (a * (p * pp) * qq * x)
  {
  }

  /** The polynomial identity behind one backward step of the closed form. */
  lemma DiscountRegroup(p: real, q: real, dd: real, e1: real, e2: real, disc: real)
    ensures (p * (dd * e1) + q * (dd * e2)) * disc == (disc * dd) * (p * e1 + q * e2)
  {
  }

  /** The summands of the `m`-step expectation split into an up-move part
      of the `m - 1`-step expectation at `k` and a down-move part of the one
      at `k + 1`; the first summand has only the up-move part, ... */
  lemma {:induction false} TermSplitFirst(v: seq<real>, p: real, m: nat, k: nat)
    requires 1 <= m && k + m < |v|
    ensures PascalTerm(v, p, m, k, 0) == Mix(p, PascalTerm(v, p, m - 1, k, 0), 0.0)
  {
    var pp, x := Pow(p, m - 1), v[k];
    assert PascalTerm(v, p, m, k, 0) == (p * pp) * x by {
      assert Pow(p, m) == p * pp;
    }
    assert PascalTerm(v, p, m - 1, k, 0) == pp * x;
  }

  /** ... the last only the down-move part, ... */
  lemma {:induction false} TermSplitLast(v: seq<real>, p: real, m: nat, k: nat)
    requires 1 <= m && k + m < |v|
    ensures PascalTerm(v, p, m, k, m) == Mix(p, 0.0, PascalTerm(v, p, m - 1, k + 1, m - 1))
  {
    var qq, x := Pow(1.0 - p, m - 1), v[k + m];
    assert PascalTerm(v, p, m, k, m) == ((1.0 - p) * qq) * x by {
      assert Pow(1.0 - p, m) == (1.0 - p) * qq;
    }
    assert PascalTerm(v, p, m - 1, k + 1, m - 1) == qq * x by {
      assert v[(k + 1) + (m - 1)] == x;
    }
  }

  /** The path weights split by the first move: `a + b` paths of `m` steps
      are `b` paths that start up and `a` that start down. */
  lemma WeightedSplit(a: real, b: real, p: real, m: nat, i: nat, x: real)
    requires 0 < i < m
    ensures Weighted(a + b, p, m, i, x) == Mix(p, Weighted(b, p, m - 1, i, x), Weighted(a, p, m - 1, i - 1, x))
  {
    var pp, qq := Pow(p, m - 1 - i), Pow(1.0 - p, i - 1);
    assert Weighted(a + b, p, m, i, x) == (a + b) * (p * pp) * ((1.0 - p) * qq) * x by {
      assert Pow(p, m - i) == p * pp;
      assert Pow(1.0 - p, i) == (1.0 - p) * qq;
    }
    assert Weighted(b, p, m - 1, i, x) == b * pp * ((1.0 - p) * qq) * x by {
      assert Pow(1.0 - p, i) == (1.0 - p) * qq;
    }
    assert Weighted(a, p, m - 1, i - 1, x) == a * (p * pp) * qq * x by {
      assert (m - 1) - (i - 1) == m - i;
      assert Pow(p, m - i) == p * pp;
    }
    PascalRegroup(a, b, p, 1.0 - p, pp, qq, x);
  }

  /** ... and every inner summand both, by Pascal's rule. */
  lemma TermSplitInner(v: seq<real>, p: real, m: nat, k: nat, i: nat)
    requires 0 < i < m && k + m < |v|
    ensures PascalTerm(v, p, m, k, i) == Mix(p, PascalTerm(v, p, m - 1, k, i), PascalTerm(v, p, m - 1, k + 1, i - 1))
  {
    var a, b := Choose(m - 1, i - 1) as real, Choose(m - 1, i) as real;
    assert v[(k + 1) + (i - 1)] == v[k + i];
    assert Choose(m, i) as real == a + b;
    WeightedSplit(a, b, p, m, i, v[k + i]);
  }

  /** The first `t` summands split the same way, for `1 <= t <= m`. */
  lemma {:induction false} PascalSumSplit(v: seq<real>, p: real, m: nat, k: nat, t: nat)
    requires 1 <= t <= m && k + m < |v|
    ensures PascalSum(v, p, m, k, t) == Mix(p, PascalSum(v, p, m - 1, k, t), PascalSum(v, p, m - 1, k + 1, t - 1))
  {
    if t == 1 {
      TermSplitFirst(v, p, m, k);
      assert PascalSum(v, p, m, k, 1) == PascalTerm(v, p, m, k, 0);
      assert PascalSum(v, p, m - 1, k, 1) == PascalTerm(v, p, m - 1, k, 0);
      assert PascalSum(v, p, m - 1, k + 1, 0) == 0.0;
    } else {
      var r := t - 1;
      TermSplitInner(v, p, m, k, r);
      PascalSumSplit(v, p, m, k, r);
      MixAdd(p, PascalSum(v, p, m - 1, k, r), PascalSum(v, p, m - 1, k + 1, r - 1),
        PascalTerm(v, p, m - 1, k, r), PascalTerm(v, p, m - 1, k + 1, r - 1),
        PascalSum(v, p, m - 1, k, t), PascalSum(v, p, m - 1, k + 1, t - 1));
    }
  }

  /** One backward step of the expectation: the `m`-step expectation at `k`
      is the mix of the `m - 1`-step ones at `k` and `k + 1`. */
  lemma {:induction false} ExpectationStep(v: seq<real>, p: real, m: nat, k: nat)
    requires 1 <= m && k + m < |v|
    ensures Expectation(v, p, m, k) == Mix(p, Expectation(v, p, m - 1, k), Expectation(v, p, m - 1, k + 1))
  {
    PartialSumIsPascal(v, p, m, k, m + 1);
    PartialSumIsPascal(v, p, m - 1, k, m);
    PartialSumIsPascal(v, p, m - 1, k + 1, m);
    PascalSumSplit(v, p, m, k, m);
    TermSplitLast(v, p, m, k);
    MixAdd(p, PascalSum(v, p, m - 1, k, m), PascalSum(v, p, m - 1, k + 1, m - 1),
      0.0, PascalTerm(v, p, m - 1, k + 1, m - 1),
      PascalSum(v, p, m - 1, k, m), PascalSum(v, p, m - 1, k + 1, m));
  }

  /** Rolling back two values discounted over `m - 1` periods gives their
      mix discounted over `m` periods. */
  lemma RollbackDiscounted(p: real, disc: real, m: nat, e1: real, e2: real)
    requires m >= 1
    ensures Rollback(p, Discounted(Pow(disc, m - 1), e1), Discounted(Pow(disc, m - 1), e2), disc)
         == Discounted(Pow(disc, m), Mix(p, e1, e2))
  {
    DiscountRegroup(p, 1.0 - p, Pow(disc, m - 1), e1, e2, disc);
  }

  /** The recursive tree equals its closed form at every node. */
  lemma {:induction false} NodeValueClosedForm(v: seq<real>, p: real, disc: real, m: nat, k: nat)
    requires k + m < |v|
    ensures NodeValue(v, p, disc, m, k) == Discounted(Pow(disc, m), Expectation(v, p, m, k))
  {
    if m == 0 {
      assert Term(v, p, 0, k, 0) == v[k];
      assert PartialSum(v, p, 0, k, 1) == Term(v, p, 0, k, 0);
    } else {
      NodeValueClosedForm(v, p, disc, m - 1, k);
      NodeValueClosedForm(v, p, disc, m - 1, k + 1);
      ExpectationStep(v, p, m, k);
      RollbackDiscounted(p, disc, m, Expectation(v, p, m - 1, k), Expectation(v, p, m - 1, k + 1));
    }
  }

  /** The binomial price is the terminal payoffs' binomial expectation,
      discounted over all `steps` periods. */
  lemma {:induction false} LatticeClosedForm(c: Contract, t: Tree, stepDisc: real, steps: nat)
    ensures LatticeValue(c, t, stepDisc, steps) == Discounted(Pow(stepDisc, steps), Expectation(Leaves(c, t, steps), t.prob, steps, 0))
  {
    NodeValueClosedForm(Leaves(c, t, steps), t.prob, stepDisc, steps, 0);
  }
}
