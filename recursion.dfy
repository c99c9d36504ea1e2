/**
 * The recursive exercises of lab03/src/recursion.py: factorial, the naive
 * Fibonacci numbers and exponentiation by repeated squaring. Python's
 * integers are unbounded, like Dafny's `int`; every function takes its
 * counter as a `nat` because a negative argument never reaches a base case
 * in the source.
 */
module Recursion {

  /** factorial(n): 1 for 0 and 1, otherwise n * factorial(n - 1). */
  function Factorial(n: nat): (r: nat)
    ensures r >= 1
    ensures r >= n
  {
    if n == 0 || n == 1 then 1 else n * Factorial(n - 1)
  }

  /** Every k in 1..n divides factorial(n). */
  lemma FactorialDivisible(n: nat, k: nat)
    requires 1 <= k <= n
    ensures Factorial(n) % k == 0
  {
    FactorialFactor(n, k);
    MultipleMod(Cofactor(n, k), k);
  }

  /** factorial(n) with the factor k taken out. */
  function Cofactor(n: nat, k: nat): nat
    requires 1 <= k <= n
  {
    if n == k then Factorial(n - 1) else n * Cofactor(n - 1, k)
  }

  lemma {:induction false} FactorialFactor(n: nat, k: nat)
    requires 1 <= k <= n
    ensures Factorial(n) == k * Cofactor(n, k)
  {
    if n != k {
      FactorialFactor(n - 1, k);
      calc {
        Factorial(n);
        n * Factorial(n - 1);
        n * (k * Cofactor(n - 1, k));
        { MulSwap(n, k, Cofactor(n - 1, k)); }
        k * (n * Cofactor(n - 1, k));
      }
    }
  }

  lemma MulSwap(a: int, b: int, c: int)
    ensures a * (b * c) == b * (a * c)
  {
  }

  /** A multiple of k leaves no remainder when divided by k. */
  lemma MultipleMod(q: int, k: nat)
    requires k >= 1
    ensures (k * q) % k == 0
  {
    var d, m := (k * q) / k, (k * q) % k;
    assert k * (q - d) == m by {
      assert k * q == d * k + m;
    }
    if q - d >= 1 {
      MulMonotone(k, q - d);
    } else if q - d <= -1 {
      MulMonotone(k, d - q);
    }
  }

  /** k * z >= k for positive k and z. */
  lemma MulMonotone(k: int, z: int)
    requires k >= 1 && z >= 1
    ensures k * z >= k && k * -z <= -k
  {
  }

  /** fibonacci(n): 0, 1, and the sum of the two previous numbers. */
  function Fibonacci(n: nat): (r: nat)
    ensures n >= 1 ==> r >= 1
  {
    if n == 0 then 0
    else if n == 1 then 1
    else Fibonacci(n - 1) + Fibonacci(n - 2)
  }

  /** The mathematical power a^n by n repeated multiplications: the reference
      against which the fast exponentiation below is proved. */
  function Pow(a: int, n: nat): int
  {
    if n == 0 then 1 else a * Pow(a, n - 1)
  }

  /** a^(m + k) == a^m * a^k */
  lemma {:induction false} PowAdd(a: int, m: nat, k: nat)
    ensures Pow(a, m + k) == Pow(a, m) * Pow(a, k)
  {
    if m > 0 {
      PowAdd(a, m - 1, k);
      calc {
        Pow(a, m + k);
        a * Pow(a, m - 1 + k);
        a * (Pow(a, m - 1) * Pow(a, k));
        (a * Pow(a, m - 1)) * Pow(a, k);
      }
    }
  }

  /** power(a, n) by repeated squaring: half * half for even n and
      half * half * a for odd n, where half is the power with exponent n / 2. */
  function Power(a: int, n: nat): (r: int)
    ensures r == Pow(a, n)
  {
    if n == 0 then 1
    else if n % 2 == 0 then
      var half := Power(a, n / 2);
      SquareIsPow(a, n / 2, n);
      half * half
    else
      var half := Power(a, (n - 1) / 2);
      SquareIsPow(a, (n - 1) / 2, n - 1);
      PowAdd(a, n - 1, 1);
      half * half * a
  }

  /** a^m * a^m == a^n when n == 2m. */
  lemma SquareIsPow(a: int, m: nat, n: nat)
    requires n == m + m
    ensures Pow(a, m) * Pow(a, m) == Pow(a, n)
  {
    PowAdd(a, m, m);
  }

  /** The depth of the recursion of power(a, n): each call halves the exponent. */
  function PowerDepth(n: nat): nat
  {
    if n == 0 then 0
    else if n % 2 == 0 then 1 + PowerDepth(n / 2)
    else 1 + PowerDepth((n - 1) / 2)
  }

  /** The recursion of power is logarithmic: 2^(depth - 1) <= n < 2^depth. */
  lemma {:induction false} PowerDepthLogarithmic(n: nat)
    requires n >= 1
    ensures Pow(2, PowerDepth(n) - 1) <= n < Pow(2, PowerDepth(n))
  {
    if n >= 2 {
      PowerDepthLogarithmic(n / 2);
      assert PowerDepth(n) == 1 + PowerDepth(n / 2);
    }
  }
}
