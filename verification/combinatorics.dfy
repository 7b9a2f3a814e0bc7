/**
 The integer helpers of the binomial pricer: a recursive factorial and the
 binomial coefficient computed from three factorials. The model uses
 unbounded integers; `FactorialFitsInt32` records where a 32-bit `int`
 holds the exact value.
 */
module Combinatorics {

  /** `factorial(n)`: 1 for every `n <= 1`, negative ones included,
      and `n * factorial(n - 1)` above that. */
  function Factorial(n: int): (f: int)
    ensures f >= 1
    ensures f >= n
  {
    if n <= 1 then 1 else n * Factorial(n - 1)
  }

  /** `binomial_coefficient(n, k) = factorial(n) / (factorial(k) * factorial(n - k))`.
      Every factorial is positive, so truncating and Euclidean division agree.
      Inside the triangle the division is exact and the quotient is Pascal's
      count of `k`-subsets. */
  function BinomialCoefficient(n: int, k: int): (c: int)
    ensures 0 <= k <= n ==> c * (Factorial(k) * Factorial(n - k)) == Factorial(n)
    ensures 0 <= k <= n ==> c == Choose(n, k)
  {
    FactorialQuotient(n, k);
    Factorial(n) / (Factorial(k) * Factorial(n - k))
  }

  /** Pascal's triangle: an independent definition of "n choose k". */
  function Choose(n: nat, k: nat): nat
    requires k <= n
  {
    if k == 0 || k == n then 1 else Choose(n - 1, k - 1) + Choose(n - 1, k)
  }

  /** `factorial` never decreases as its argument grows. */
  lemma {:induction false} FactorialMonotone(m: int, n: int)
    requires m <= n
    ensures Factorial(m) <= Factorial(n)
    decreases n - m
  {
    if m < n {
      FactorialMonotone(m, n - 1);
      if n > 1 {
        ScaleUp(n, Factorial(n - 1));
      }
    }
  }

  /** `factorial(n)` is exact in a 32-bit signed `int` precisely for
      `n <= 12`; from 13 on the C++ multiplication overflows. */
  lemma FactorialFitsInt32(n: int)
    ensures Factorial(n) <= 0x7fff_ffff <==> n <= 12
  {
    assert Factorial(12) == 479001600;
    assert Factorial(13) == 6227020800;
    if n <= 12 {
      FactorialMonotone(n, 12);
    } else {
      FactorialMonotone(13, n);
    }
  }

  /** Pascal's count times the two factorials it divides out gives back
      `n!`: the defining identity of the binomial coefficient. */
  lemma {:induction false} ChooseTimesFactorials(n: nat, k: nat)
    requires k <= n
    ensures Choose(n, k) * (Factorial(k) * Factorial(n - k)) == Factorial(n)
  {
    if k == 0 || k == n {
      assert Factorial(0) == 1;
    } else {
      ChooseTimesFactorials(n - 1, k - 1);
      ChooseTimesFactorials(n - 1, k);
      var a, b := Choose(n - 1, k - 1), Choose(n - 1, k);
      var fk1, fnk1 := Factorial(k - 1), Factorial(n - k - 1);
      var fn1 := Factorial(n - 1);
      assert Factorial(k) == k * fk1;
      assert Factorial(n - k) == (n - k) * fnk1;
      assert a * (fk1 * ((n - k) * fnk1)) == fn1;
      assert b * ((k * fk1) * fnk1) == fn1;
      calc {
        Choose(n, k) * (Factorial(k) * Factorial(n - k));
        (a + b) * ((k * fk1) * ((n - k) * fnk1));
        { Regroup(a, b, k, n - k, fk1, fnk1); }
        k * (a * (fk1 * ((n - k) * fnk1))) + (n - k) * (b * ((k * fk1) * fnk1));
        k * fn1 + (n - k) * fn1;
        { Distribute(k, n - k, fn1); }
        n * fn1;
      }
    }
  }

  lemma Distribute(k: int, m: int, x: int)
    ensures k * x + m * x == (k + m) * x
  {
  }

  /** The polynomial identity behind one step of Pascal's rule. */
  lemma Regroup(a: int, b: int, k: int, m: int, x: int, y: int)
    ensures (a + b) * ((k * x) * (m * y)) == k * (a * (x * (m * y))) + m * (b * ((k * x) * y))
  {
  }

  /** Multiplying a positive number by a factor of at least 1 does not
      shrink it. */
  lemma ScaleUp(k: int, x: int)
    requires k >= 1 && x >= 0
    ensures k * x >= x
  {
  }

  /** Euclidean division of an exact multiple recovers the other factor. */
  lemma DivideExactProduct(q: int, d: int)
    requires d > 0
    ensures (q * d) / d == q && (q * d) % d == 0
  {
    var x := q * d;
    var t, r := q - x / d, x % d;
    assert t * d == r by {
      assert x == (x / d) * d + r;
    }
    if t > 0 {
      ScaleUp(t, d);
    } else if t < 0 {
      ScaleUp(-t, d);
    }
  }

  /** For `0 <= k <= n`, `k! (n - k)!` divides `n!` with no remainder, and
      the quotient is Pascal's count. */
  lemma FactorialQuotient(n: int, k: int)
    ensures 0 <= k <= n ==> Factorial(n) % (Factorial(k) * Factorial(n - k)) == 0
    ensures 0 <= k <= n ==> Factorial(n) / (Factorial(k) * Factorial(n - k)) == Choose(n, k)
    ensures 0 <= k <= n ==> Choose(n, k) * (Factorial(k) * Factorial(n - k)) == Factorial(n)
  {
    if 0 <= k <= n {
      ChooseTimesFactorials(n, k);
      DivideExactProduct(Choose(n, k), Factorial(k) * Factorial(n - k));
    }
  }

  /** `C(n, k) = C(n, n - k)`. */
  lemma BinomialSymmetric(n: int, k: int)
    ensures BinomialCoefficient(n, k) == BinomialCoefficient(n, n - k)
  {
    assert n - (n - k) == k;
  }

  /** The edges of the triangle are 1 and every inner entry is the sum of
      the two above it. */
  lemma BinomialPascal(n: int, k: int)
    requires 0 <= k <= n
    ensures k == 0 || k == n ==> BinomialCoefficient(n, k) == 1
    ensures 0 < k < n ==> BinomialCoefficient(n, k) == BinomialCoefficient(n - 1, k - 1) + BinomialCoefficient(n - 1, k)
  {
  }
}
