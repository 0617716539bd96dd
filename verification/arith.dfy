/** Small facts about multiplication and Euclidean division that the solver
    does not find on its own when the factors are variables. */
module Arith {

  /** One more row of m columns. */
  lemma MulStep(a: int, m: int)
    ensures a * m == (a - 1) * m + m
  {
  }

  lemma MulMonotone(x: int, y: int, m: nat)
    requires x <= y
    ensures x * m <= y * m
  {
  }

  /** Euclidean division of n by k. */
  lemma DivMod(n: nat, k: nat)
    requires k >= 1
    ensures n == k * (n / k) + n % k && 0 <= n % k < k && n / k >= 0
  {
  }

  /** Fewer elements than sections: every quotient is 0. */
  lemma SmallDivMod(n: nat, k: nat)
    requires n < k
    ensures n / k == 0 && n % k == n
  {
  }

  /** At least as many elements as sections: every quotient is at least 1. */
  lemma DivAtLeastOne(n: nat, k: nat)
    requires 1 <= k <= n
    ensures n / k >= 1
  {
    DivMod(n, k);
  }
}
