/** The sample `calculate_fibonacci`: plain double recursion, which also
    answers every argument below 2, negative ones included, with the
    argument itself. */
module FibonacciSample {

  /** `calculate_fibonacci(n)`. */
  function Fib(n: int): int
    decreases if n <= 1 then 0 else n
  {
    if n <= 1 then n else Fib(n - 1) + Fib(n - 2)
  }

  /** An independent, linear-time definition: `k` more steps from the pair
      (`a`, `b`) of consecutive numbers. */
  function FibFrom(k: nat, a: int, b: int): int
    decreases k
  {
    if k == 0 then a else FibFrom(k - 1, b, a + b)
  }

  function FibLinear(n: nat): int {
    FibFrom(n, 0, 1)
  }

  /** Every argument up to 1 is its own result; from 2 on the result is
      the sum of the two before. */
  lemma FibCases(n: int)
    ensures n <= 1 ==> Fib(n) == n
    ensures n >= 2 ==> Fib(n) == Fib(n - 1) + Fib(n - 2)
    ensures Fib(0) == 0 && Fib(1) == 1
  {
  }

  lemma {:induction false} FibFromShift(k: nat, i: nat)
    ensures FibFrom(k, Fib(i), Fib(i + 1)) == Fib(i + k)
    decreases k
  {
    if k > 0 {
      assert Fib(i + 2) == Fib(i + 1) + Fib(i);
      FibFromShift(k - 1, i + 1);
    }
  }

  /** The two definitions agree on every natural number. */
  lemma FibLinearAgrees(n: nat)
    ensures FibLinear(n) == Fib(n)
  {
    FibFromShift(n, 0);
  }

  /** No natural number has a negative result, and results never shrink
      as the argument grows. */
  lemma {:induction false} FibMonotone(m: nat, n: nat)
    requires m <= n
    ensures 0 <= Fib(m) <= Fib(n)
    decreases n
  {
    if n <= 1 {
    } else if m == n {
      FibMonotone(0, n - 1);
      FibMonotone(0, n - 2);
    } else {
      FibMonotone(m, n - 1);
      FibMonotone(0, n - 2);
    }
  }

  /** From 1 on, the result is positive. */
  lemma FibPositive(n: nat)
    requires n >= 1
    ensures Fib(n) >= 1
  {
    FibMonotone(1, n);
  }
}
