/** Minimum, division rounding up, and the few facts about products that proofs ask for by name. */
module Arithmetic {

  function Min(a: int, b: int): int {
    if a < b then a else b
  }

  /** `(a + b-1) / b`. */
  function CeilDiv(a: nat, b: nat): nat
    requires b > 0
  {
    (a + b - 1) / b
  }

  lemma {:induction false} MulMonotone(k: nat, a: int, b: int)
    requires a <= b
    ensures k * a <= k * b && a * k <= b * k
  {
  }

  lemma {:induction false} SumTimes(k: int, a: int, b: int)
    ensures k * (a + b) == k * a + k * b && (a + b) * k == a * k + b * k
  {
  }

  /** A product by name, for loops that only add to it. */
  function Times(a: int, b: int): int {
    a * b
  }

  lemma {:induction false} TimesNext(a: int, b: int)
    ensures Times(0, b) == 0 && Times(a + 1, b) == Times(a, b) + b
  {
  }

  lemma {:induction false} Quotient(n: nat, d: nat)
    requires d > 0
    ensures (n / d) * d <= n < (n / d) * d + d
    ensures n == (n / d) * d + n % d == Times(d, n / d) + n % d
  {
  }

  /** Multiples of k less than k apart are the same. */
  lemma {:induction false} Squeeze(a: int, b: int, k: nat, r: nat)
    requires a * k + r == b * k && r < k
    ensures r == 0 && a == b
  {
    if a < b {
      MulMonotone(k, a + 1, b);
      SumTimes(k, a, 1);
      assert false;
    } else if a > b {
      MulMonotone(k, b + 1, a);
      SumTimes(k, b, 1);
      assert false;
    }
  }
}
