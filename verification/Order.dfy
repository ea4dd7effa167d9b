/** Why the walk of galois.h does not close early: x^Limit is 1, and for each prime p
    dividing Limit x^(Limit/p) is not, so every period is a multiple of Limit.
    255 = 3*5*17 and 65535 = 3*5*17*257. */
module Order {
  import opened Bits
  import opened Polynomials
  import opened Walk

  ghost predicate IsPrime(p: nat) {
    p > 1 && forall t :: 1 < t < p ==> p % t != 0
  }

  lemma {:induction false} SmallProducts(d: nat, e: nat)
    requires 1 < d <= e
    ensures d * e !in {3, 5, 17, 257}
  {
    if d > 16 {
      assert d * e >= 17 * e;
    } else {
      assert d in {2, 3, 4, 5, 6, 7, 8, 9, 10, 11, 12, 13, 14, 15, 16};
    }
  }

  lemma {:induction false} SmallPrimes(p: nat)
    requires p in {3, 5, 17, 257}
    ensures IsPrime(p)
  {
    forall t | 1 < t < p
      ensures p % t != 0
    {
      if p % t == 0 {
        var q := p / t;
        assert p == t * q == q * t;
        assert q != 0 && q != 1;
        if t <= q {
          SmallProducts(t, q);
        } else {
          SmallProducts(q, t);
        }
      }
    }
  }

  /** x^(m*i) is 1. */
  predicate Period(g: Galois, m: nat, i: nat) {
    m * i >= 0 && Power(g, m * i) == 1
  }

  lemma {:induction false} PeriodRemainder(g: Galois, m: nat, t: nat, i: nat)
    requires g.Valid() && t > 0 && Period(g, m, t) && Period(g, m, i)
    ensures Period(g, m, i % t)
  {
    var q, r := i / t, i % t;
    MulNonneg(m, t);
    MulNonneg(m, r);
    assert m * i == (m * t) * q + m * r by {
      assert i == t * q + r;
      assert m * (t * q + r) == m * (t * q) + m * r;
      assert m * (t * q) == (m * t) * q;
    }
    PowerPeriod(g, m * t, q, m * r);
  }

  lemma {:induction false} MulNonneg(a: nat, b: nat)
    ensures a * b >= 0
  {
  }

  lemma {:induction false} LeastPeriod(g: Galois, m: nat, l: nat) returns (t: nat)
    requires 0 < l && Period(g, m, l)
    ensures 0 < t <= l && Period(g, m, t)
    ensures forall i :: 0 < i < t ==> !Period(g, m, i)
  {
    t := 1;
    while !Period(g, m, t)
      invariant 0 < t <= l
      invariant forall i :: 0 < i < t ==> !Period(g, m, i)
      decreases l - t
    {
      t := t + 1;
    }
  }

  /** Every period of x is divisible by a prime p whose cofactor is not a period. */
  lemma {:induction false} PrimeDividesPeriod(g: Galois, p: nat, m: nat, l: nat)
    requires g.Valid() && IsPrime(p) && m * p == g.Limit()
    requires Power(g, g.Limit()) == 1 && Power(g, m) != 1 && Power(g, l) == 1
    ensures l % p == 0
  {
    assert Period(g, m, p);
    var t := LeastPeriod(g, m, p);
    PeriodRemainder(g, m, t, p);
    assert p % t == 0;
    assert t != 1 by {
      assert m * 1 == m;
    }
    assert t == p;
    MulNonneg(m, l);
    PowerPeriod(g, l, m, 0);
    assert l * m + 0 == m * l;
    PeriodRemainder(g, m, p, l);
  }

  /** 1 is a combination of 3 and 5, and of 15 and 17. */
  lemma {:induction false} Combine(a: int, b: int, c: int)
    requires 3 * a == 5 * b == 17 * c
    ensures 3 * a == 255 * (8 * c - 14 * b + 7 * a)
  {
    assert 3 * a == 15 * (2 * b - a);
  }

  lemma {:induction false} MultipleOf255(l: nat)
    requires l % 3 == 0 && l % 5 == 0 && l % 17 == 0
    ensures l % 255 == 0
  {
    Combine(l / 3, l / 5, l / 17);
  }

  lemma {:induction false} MultipleOf65535(l: nat)
    requires l % 255 == 0 && l % 257 == 0
    ensures l % 65535 == 0
  {
  }

  lemma {:induction false} Limits(g: Galois)
    ensures g.bits == 8 ==> g.Limit() == 255
    ensures g.bits == 16 ==> g.Limit() == 65535
  {
    assert Pow2(8) == 256;
    assert Pow2(16) == 256 * Pow2(8);
  }

  lemma {:induction false} Primitive8(g: Galois)
    requires g.Valid() && g.bits == 8 && Power(g, 255) == 1
    requires Power(g, 85) != 1 && Power(g, 51) != 1 && Power(g, 15) != 1
    ensures Primitive(g)
  {
    hide Power;
    Limits(g);
    forall l | 0 < l < 255
      ensures Power(g, l) != 1
    {
      if Power(g, l) == 1 {
        SmallPrimes(3);
        SmallPrimes(5);
        SmallPrimes(17);
        PrimeDividesPeriod(g, 3, 85, l);
        PrimeDividesPeriod(g, 5, 51, l);
        PrimeDividesPeriod(g, 17, 15, l);
        MultipleOf255(l);
      }
    }
  }

  lemma {:induction false} Primitive16(g: Galois)
    requires g.Valid() && g.bits == 16 && Power(g, 65535) == 1
    requires Power(g, 21845) != 1 && Power(g, 13107) != 1 && Power(g, 3855) != 1 && Power(g, 255) != 1
    ensures Primitive(g)
  {
    hide Power;
    Limits(g);
    forall l | 0 < l < 65535
      ensures Power(g, l) != 1
    {
      if Power(g, l) == 1 {
        SmallPrimes(3);
        SmallPrimes(5);
        SmallPrimes(17);
        SmallPrimes(257);
        PrimeDividesPeriod(g, 3, 21845, l);
        PrimeDividesPeriod(g, 5, 13107, l);
        PrimeDividesPeriod(g, 17, 3855, l);
        PrimeDividesPeriod(g, 257, 255, l);
        MultipleOf255(l);
        MultipleOf65535(l);
      }
    }
  }
}
