/** The logs that SetInput accepts: the numbers below 65535 coprime to it. */
module Coprimes {
  import opened Arithmetic
  import opened Order

  ghost predicate Divides(d: nat, n: nat)
  {
    exists k: nat :: Multiple(d, k, n)
  }

  predicate Multiple(d: nat, k: nat, n: nat) {
    d * k == n
  }

  ghost predicate Common(d: nat, a: nat, b: nat) {
    Divides(d, a) && Divides(d, b)
  }

  lemma {:induction false} DividesSelf(a: nat)
    ensures Divides(a, a) && Divides(a, 0)
  {
    assert Multiple(a, 1, a) && Multiple(a, 0, 0);
  }

  lemma {:induction false} DividesSum(d: nat, a: nat, b: nat, q: nat)
    requires Divides(d, a)
    ensures a * q + b >= 0
    ensures Divides(d, b) <==> Divides(d, a * q + b)
  {
    var k: nat :| Multiple(d, k, a);
    var m := a * q;
    Associate(d, k, q);
    if Divides(d, b) {
      var i: nat :| Multiple(d, i, b);
      SumTimes(d, k * q, i);
      assert Multiple(d, k * q + i, m + b);
    }
    if Divides(d, m + b) {
      var i: nat :| Multiple(d, i, m + b);
      QuotientLess(d, k * q, i, b);
    }
  }

  lemma {:induction false} Associate(d: nat, k: nat, q: nat)
    ensures d * (k * q) == (d * k) * q >= 0
  {
  }

  lemma {:induction false} QuotientLess(d: nat, j: nat, i: nat, b: nat)
    requires d * i == d * j + b
    ensures Divides(d, b)
  {
    if i >= j {
      SumTimes(d, j, i - j);
      assert Multiple(d, i - j, b);
    } else {
      SumTimes(d, i, j - i);
      assert d * (j - i) >= 0;
      assert Multiple(d, 0, b);
    }
  }

  /** gcd of reedsolomon.cpp: 0 if an argument is 0, otherwise the greatest common divisor. */
  method gcd(a0: nat, b0: nat) returns (r: nat)
    ensures a0 == 0 || b0 == 0 ==> r == 0
    ensures a0 != 0 && b0 != 0 ==> r > 0 && forall d: nat :: Common(d, a0, b0) <==> Divides(d, r)
  {
    var a: nat, b: nat := a0, b0;
    if a != 0 && b != 0 {
      while a != 0 && b != 0
        invariant a != 0 || b != 0
        invariant forall d: nat :: Common(d, a0, b0) <==> Common(d, a, b)
        decreases a + b
      {
        if a > b {
          RemainderCommon(b, a);
          a := a % b;
        } else {
          RemainderCommon(a, b);
          b := b % a;
        }
      }
      forall d: nat
        ensures Common(d, a, b) <==> Divides(d, a + b)
      {
        DividesSelf(d);
        assert Multiple(d, 0, 0);
      }
      return a + b;
    } else {
      return 0;
    }
  }

  lemma {:induction false} RemainderCommon(a: nat, b: nat)
    requires a > 0
    ensures forall d: nat :: Common(d, a, b) <==> Common(d, a, b % a)
    ensures forall d: nat :: Common(d, b, a) <==> Common(d, b % a, a)
  {
    forall d: nat
      ensures Common(d, a, b) <==> Common(d, a, b % a)
      ensures Common(d, b, a) <==> Common(d, b % a, a)
    {
      if Divides(d, a) {
        DividesSum(d, a, b % a, b / a);
        assert a * (b / a) + b % a == b;
      }
    }
  }

  // ----- Coprime to 65535 = 3 * 5 * 17 * 257 -----

  /** l is divisible by none of the first k of the primes 3, 5, 17, 257. */
  predicate Avoids(k: nat, l: nat) {
    && (k >= 1 ==> l % 3 != 0)
    && (k >= 2 ==> l % 5 != 0)
    && (k >= 3 ==> l % 17 != 0)
    && (k >= 4 ==> l % 257 != 0)
  }

  /** The k-th of the primes, and the product of the first k. */
  function Factor(k: nat): nat { if k == 0 then 3 else if k == 1 then 5 else if k == 2 then 17 else 257 }
  function Product(k: nat): nat {
    if k == 0 then 1 else if k == 1 then 3 else if k == 2 then 15 else if k == 3 then 255 else 65535
  }

  lemma {:induction false} ExactQuotient(p: nat, k: nat, q: nat, r: nat)
    requires p * k == p * q + r && r < p
    ensures r == 0
  {
    if k > q {
      MulMonotone(p, q + 1, k);
    } else {
      MulMonotone(p, k, q);
    }
  }

  lemma {:induction false} FactorDivides(p: nat, n: nat)
    requires p > 0
    ensures Divides(p, n) <==> n % p == 0
  {
    if n % p == 0 {
      assert Multiple(p, n / p, n);
    }
    if Divides(p, n) {
      var k: nat :| Multiple(p, k, n);
      ExactQuotient(p, k, n / p, n % p);
    }
  }

  /** If a prime divides a product it divides a factor: the least t > 0 with p | t * b divides p. */
  lemma {:induction false} PrimeDividesFactor(p: nat, a: nat, b: nat)
    requires IsPrime(p) && Divides(p, a * b) && a % p != 0
    ensures Divides(p, b)
  {
    assert Multiple(p, b, p * b);
    var t := LeastMultiplier(p, b);
    MultiplierRemainder(p, b, t, p);
    assert p % t == 0;
    if t == p {
      MultiplierRemainder(p, b, p, a);
    }
    assert t == 1;
    assert 1 * b == b;
  }

  lemma {:induction false} LeastMultiplier(p: nat, b: nat) returns (t: nat)
    requires p > 0 && Divides(p, p * b)
    ensures 0 < t <= p && t * b >= 0 && Divides(p, t * b)
    ensures forall i: nat :: 0 < i < t ==> !Divides(p, i * b)
  {
    t := 1;
    while !Divides(p, t * b)
      invariant 0 < t <= p
      invariant forall i: nat :: 0 < i < t ==> !Divides(p, i * b)
      decreases p - t
    {
      t := t + 1;
    }
  }

  lemma {:induction false} MultiplierRemainder(p: nat, b: nat, t: nat, i: nat)
    requires t > 0 && Divides(p, t * b) && Divides(p, i * b)
    ensures i % t * b >= 0 && Divides(p, i % t * b)
  {
    var q, r := i / t, i % t;
    assert i * b == t * b * q + r * b by {
      assert i == t * q + r;
      assert (t * q + r) * b == t * q * b + r * b;
    }
    assert r * b >= 0;
    DividesSum(p, t * b, r * b, q);
  }

  /** A divisor of 65535 that avoids its primes is 1. */
  lemma {:induction false} AvoidingDivisor(d: nat, h: nat)
    requires d * h == 65535 && Avoids(4, d)
    ensures d == 1
  {
    CofactorDivisible(3, d, h);
    CofactorDivisible(5, d, h);
    CofactorDivisible(17, d, h);
    CofactorDivisible(257, d, h);
    MultipleOf255(h);
    MultipleOf65535(h);
    WholeCofactor(d, h);
  }

  lemma {:induction false} WholeCofactor(d: nat, h: nat)
    requires d * h == 65535 && h % 65535 == 0
    ensures d == 1
  {
    MulMonotone(h, 1, d);
    assert h == 65535;
  }

  lemma {:induction false} CofactorDivisible(p: nat, d: nat, h: nat)
    requires p in {3, 5, 17, 257} && d * h == 65535 && d % p != 0
    ensures h % p == 0
  {
    SmallPrimes(p);
    FactorDivides(p, 65535);
    PrimeDividesFactor(p, d, h);
    FactorDivides(p, h);
  }

  /** What the test `gcd(65535, logbase) != 1` of SetInput means. */
  lemma {:induction false} GcdIsOne(l: nat, r: nat)
    requires l == 0 ==> r == 0
    requires l != 0 ==> r > 0 && forall d: nat :: Common(d, 65535, l) <==> Divides(d, r)
    ensures r == 1 <==> Avoids(4, l)
  {
    if l != 0 {
      DividesSelf(r);
      assert Common(r, 65535, l);
      if r != 1 {
        var h: nat :| Multiple(r, h, 65535);
        if Avoids(4, r) {
          AvoidingDivisor(r, h);
        }
        forall p | p in {3, 5, 17, 257} && r % p == 0
          ensures l % p == 0
        {
          FactorDivides(p, r);
          assert Common(p, 65535, l);
          FactorDivides(p, l);
        }
      } else {
        forall p | p in {3, 5, 17, 257}
          ensures l % p != 0
        {
          if l % p == 0 {
            FactorDivides(p, l);
            FactorDivides(p, 65535);
            assert Common(p, 65535, l);
            FactorDivides(p, 1);
          }
        }
      }
    }
  }

  // ----- How many there are -----

  /** The numbers below n that avoid the first k primes, ascending. */
  function Avoiding(k: nat, n: nat): seq<nat>
    decreases n
  {
    if n == 0 then [] else if Avoids(k, n - 1) then Avoiding(k, n - 1) + [n - 1] else Avoiding(k, n - 1)
  }

  lemma {:induction false} AvoidsPeriodic(k: nat, l: nat)
    requires k <= 4
    ensures Avoids(k, l + Product(k)) == Avoids(k, l)
  {
    var n := Product(k);
    forall p | p in {3, 5, 17, 257} && n % p == 0
      ensures (l + n) % p == l % p
    {
      SameRemainder(p, l, n);
    }
  }

  lemma {:induction false} SameRemainder(p: nat, l: nat, n: nat)
    requires p in {3, 5, 17, 257} && n % p == 0
    ensures (l + n) % p == l % p
  {
    if p == 3 {
      SameRemainder3(l, n);
    } else if p == 5 {
      SameRemainder5(l, n);
    } else if p == 17 {
      SameRemainder17(l, n);
    } else {
      SameRemainder257(l, n);
    }
  }

  lemma {:induction false} SameRemainder3(l: nat, n: nat)
    requires n % 3 == 0
    ensures (l + n) % 3 == l % 3
  {
    assert l + n == 3 * (l / 3 + n / 3) + l % 3;
  }

  lemma {:induction false} SameRemainder5(l: nat, n: nat)
    requires n % 5 == 0
    ensures (l + n) % 5 == l % 5
  {
    assert l + n == 5 * (l / 5 + n / 5) + l % 5;
  }

  lemma {:induction false} SameRemainder17(l: nat, n: nat)
    requires n % 17 == 0
    ensures (l + n) % 17 == l % 17
  {
    assert l + n == 17 * (l / 17 + n / 17) + l % 17;
  }

  lemma {:induction false} SameRemainder257(l: nat, n: nat)
    requires n % 257 == 0
    ensures (l + n) % 257 == l % 257
  {
    assert l + n == 257 * (l / 257 + n / 257) + l % 257;
  }

  lemma {:induction false} MultipleAvoids(p: nat, q: nat, j: nat)
    requires q in {3, 5, 17} && p % q != 0
    ensures p * j >= 0 && (p * j % q == 0 <==> j % q == 0)
  {
    SmallPrimes(q);
    FactorDivides(q, p * j);
    FactorDivides(q, j);
    if Divides(q, p * j) {
      PrimeDividesFactor(q, p, j);
    }
    if Divides(q, j) {
      assert Divides(q, j * p + 0) by {
        DividesSelf(q);
        assert Multiple(q, 0, 0);
        DividesSum(q, j, 0, p);
      }
    }
  }

  lemma {:induction false} AvoidsMultiple(k: nat, j: nat)
    requires k < 4
    ensures Avoids(k, Factor(k) * j) == Avoids(k, j)
  {
    var p := Factor(k);
    if k >= 1 {
      MultipleAvoids(p, 3, j);
    }
    if k >= 2 {
      MultipleAvoids(p, 5, j);
    }
    if k >= 3 {
      MultipleAvoids(p, 17, j);
    }
  }

  lemma {:induction false} CountShift(k: nat, n: nat)
    requires k <= 4
    ensures |Avoiding(k, n + Product(k))| == |Avoiding(k, n)| + |Avoiding(k, Product(k))|
    decreases n
  {
    if n > 0 {
      CountShift(k, n - 1);
      AvoidsPeriodic(k, n - 1);
      assert n + Product(k) - 1 == n - 1 + Product(k);
    }
  }

  lemma {:induction false} CountPeriods(k: nat, m: nat)
    requires k <= 4
    ensures Product(k) * m >= 0
    ensures |Avoiding(k, Product(k) * m)| == |Avoiding(k, Product(k))| * m
    decreases m
  {
    hide Avoiding;
    if m == 0 {
      assert |Avoiding(k, 0)| == 0 by {
        NoneAvoiding(k);
      }
    } else {
      CountPeriods(k, m - 1);
      SumTimes(Product(k), m - 1, 1);
      SumTimes(|Avoiding(k, Product(k))|, m - 1, 1);
      MulMonotone(Product(k), 0, m - 1);
      MulMonotone(|Avoiding(k, Product(k))|, 0, m - 1);
      CountShift(k, Product(k) * (m - 1));
    }
  }

  lemma {:induction false} NoneAvoiding(k: nat)
    ensures Avoiding(k, 0) == []
  {
  }

  lemma {:induction false} CeilingStep(n: nat, p: nat)
    requires p in {3, 5, 17, 257}
    ensures CeilDiv(0, p) == 0
    ensures n % p == 0 ==> n == p * (n / p) && CeilDiv(n, p) == n / p && CeilDiv(n + 1, p) == n / p + 1
    ensures n % p != 0 ==> CeilDiv(n + 1, p) == CeilDiv(n, p)
  {
    if p == 3 {
    } else if p == 5 {
    } else if p == 17 {
    } else {
    }
  }

  /** Up to p*m, exactly the multiples of the next prime p are dropped: one for every avoiding j < m. */
  lemma {:induction false} CountDropped(k: nat, n: nat)
    requires k < 4
    ensures var p := Factor(k);
            |Avoiding(k + 1, n)| == |Avoiding(k, n)| - |Avoiding(k, CeilDiv(n, p))|
    decreases n
  {
    hide CeilDiv;
    var p := Factor(k);
    CeilingStep(if n == 0 then 0 else n - 1, p);
    if n > 0 {
      CountDropped(k, n - 1);
      if (n - 1) % p == 0 {
        AvoidsMultiple(k, (n - 1) / p);
      }
    }
  }

  lemma {:induction false} CountNext(k: nat, count: nat)
    requires k < 4 && |Avoiding(k, Product(k))| == count
    ensures |Avoiding(k + 1, Product(k + 1))| == count * (Factor(k) - 1)
  {
    hide Avoiding;
    var p := Factor(k);
    assert Product(k + 1) == Product(k) * p;
    CountDropped(k, Product(k + 1));
    CountPeriods(k, p);
    assert CeilDiv(Product(k + 1), p) == Product(k);
  }

  /** Exactly 32768 numbers below 65535 are coprime to it. */
  lemma {:induction false} CoprimeCount()
    ensures |Avoiding(4, 65535)| == 32768
  {
    assert |Avoiding(0, 1)| == 1 by {
      assert Avoiding(0, 0) == [];
    }
    hide Avoiding;
    CountNext(0, 1);
    CountNext(1, 2);
    CountNext(2, 8);
    CountNext(3, 128);
  }

  lemma {:induction false} AvoidingPrefix(k: nat, m: nat, n: nat)
    requires m <= n
    ensures |Avoiding(k, m)| <= |Avoiding(k, n)|
    ensures Avoiding(k, n)[..|Avoiding(k, m)|] == Avoiding(k, m)
    decreases n
  {
    if m < n {
      AvoidingPrefix(k, m, n - 1);
    }
  }

  lemma {:induction false} AvoidingMembers(k: nat, n: nat)
    ensures forall i :: 0 <= i < |Avoiding(k, n)| ==> Avoiding(k, n)[i] < n && Avoids(k, Avoiding(k, n)[i])
    ensures forall i, j :: 0 <= i < j < |Avoiding(k, n)| ==> Avoiding(k, n)[i] < Avoiding(k, n)[j]
    decreases n
  {
    if n > 0 {
      AvoidingMembers(k, n - 1);
    }
  }
}
