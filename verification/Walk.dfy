/** The powers of x in the quotient: the sequence that the table constructor of
    galois.h walks through, and what makes it reach every nonzero element once. */
module Walk {
  import opened Polynomials

  /** x^l modulo the generator: the value of `b` in round l of the constructor. */
  function Power(g: Galois, l: nat): nat
  {
    if l == 0 then 1 else TimesX(g, Power(g, l - 1))
  }

  /** The generator is primitive: x has order exactly Limit. */
  ghost predicate Primitive(g: Galois) {
    && g.Valid()
    && g.bits > 1
    && Power(g, g.Limit()) == 1
    && forall l :: 0 < l < g.Limit() ==> Power(g, l) != 1
  }

  lemma {:induction false} PowerHas(g: Galois, l: nat)
    requires g.Valid()
    ensures g.Has(Power(g, l))
  {
    if l == 0 {
      assert 1 < g.Count();
    } else {
      PowerHas(g, l - 1);
      TimesXHas(g, Power(g, l - 1));
    }
  }

  lemma {:induction false} PowerNonzero(g: Galois, l: nat)
    requires g.Valid()
    ensures Power(g, l) != 0
  {
    if l > 0 {
      PowerNonzero(g, l - 1);
      PowerHas(g, l - 1);
      TimesXNonzero(g, Power(g, l - 1));
    }
  }

  lemma {:induction false} TimesXNonzero(g: Galois, a: nat)
    requires g.Valid() && g.Has(a)
    ensures TimesX(g, a) == 0 ==> a == 0
  {
    TimesXZero(g);
    assert 0 < g.Count();
    if TimesX(g, a) == 0 {
      TimesXInjective(g, a, 0);
    }
  }

  /** Exponents add. */
  lemma {:induction false} PowerAdd(g: Galois, i: nat, j: nat)
    requires g.Valid()
    ensures Power(g, i + j) == Mul(g, Power(g, i), Power(g, j))
    decreases i
  {
    PowerHas(g, j);
    if i == 0 {
      MulOneLeft(g, Power(g, j));
    } else {
      PowerAdd(g, i - 1, j);
      PowerHas(g, i - 1);
      MulTimesXLeft(g, Power(g, i - 1), Power(g, j));
    }
  }

  /** Equal powers stay equal when both exponents drop by the same amount. */
  lemma {:induction false} PowerCancel(g: Galois, i: nat, d: nat)
    requires g.Valid() && Power(g, i) == Power(g, i + d)
    ensures Power(g, d) == 1
    decreases i
  {
    if i > 0 {
      PowerHas(g, i - 1);
      PowerHas(g, i - 1 + d);
      TimesXInjective(g, Power(g, i - 1), Power(g, i - 1 + d));
      PowerCancel(g, i - 1, d);
    }
  }

  lemma {:induction false} PowersDistinct(g: Galois, i: nat, j: nat)
    requires Primitive(g) && i < g.Limit() && j < g.Limit() && Power(g, i) == Power(g, j)
    ensures i == j
  {
    if i < j {
      PowerCancel(g, i, j - i);
    } else if j < i {
      PowerCancel(g, j, i - j);
    }
  }

  /** A period repeats. */
  lemma {:induction false} PowerPeriod(g: Galois, t: nat, k: nat, i: nat)
    requires g.Valid() && Power(g, t) == 1
    ensures t * k + i >= 0
    ensures Power(g, t * k + i) == Power(g, i)
    decreases k
  {
    if k > 0 {
      PowerPeriod(g, t, k - 1, i);
      assert t * k + i == t + (t * (k - 1) + i);
      assert t * (k - 1) + i >= 0;
      PowerAdd(g, t, t * (k - 1) + i);
      PowerHas(g, t * (k - 1) + i);
      MulOneLeft(g, Power(g, t * (k - 1) + i));
    }
  }

  // ----- Every nonzero element is a power of x (a pigeonhole argument) -----

  lemma {:induction false} Pigeonhole(s: set<nat>, n: nat)
    requires forall v :: v in s ==> v < n
    ensures |s| <= n
    ensures |s| == n ==> forall v: nat :: v < n ==> v in s
  {
    if n == 0 {
      assert s == {};
    } else {
      var s' := s - {n - 1};
      Pigeonhole(s', n - 1);
      if n - 1 !in s {
        assert s' == s;
      } else if |s| == n {
        assert |s'| == n - 1;
        assert forall v: nat :: v < n - 1 ==> v in s';
      }
    }
  }

  /** The first n powers, as a set. */
  function FirstPowers(g: Galois, n: nat): set<nat> {
    if n == 0 then {} else FirstPowers(g, n - 1) + {Power(g, n - 1)}
  }

  lemma {:induction false} PowersMembers(g: Galois, n: nat, v: nat)
    requires v in FirstPowers(g, n)
    ensures exists l: nat :: l < n && Power(g, l) == v
  {
    if v != Power(g, n - 1) {
      PowersMembers(g, n - 1, v);
    }
  }

  lemma {:induction false} PowersCount(g: Galois, n: nat)
    requires Primitive(g) && n <= g.Limit()
    ensures |FirstPowers(g, n)| == n
  {
    if n > 0 {
      PowersCount(g, n - 1);
      if Power(g, n - 1) in FirstPowers(g, n - 1) {
        PowersMembers(g, n - 1, Power(g, n - 1));
        var l: nat :| l < n - 1 && Power(g, l) == Power(g, n - 1);
        PowersDistinct(g, l, n - 1);
      }
    }
  }

  /** Every nonzero field element is a power of x with exponent below Limit. */
  lemma {:induction false} EveryElementIsAPower(g: Galois, v: nat)
    requires Primitive(g) && 0 < v < g.Count()
    ensures exists l: nat :: l < g.Limit() && Power(g, l) == v
  {
    var n := g.Limit();
    var s := FirstPowers(g, n);
    PowersCount(g, n);
    forall p | p in s
      ensures 0 < p < g.Count()
    {
      PowersMembers(g, n, p);
      var l: nat :| l < n && Power(g, l) == p;
      PowerHas(g, l);
      PowerNonzero(g, l);
    }
    assert |s + {0}| == g.Count();
    Pigeonhole(s + {0}, g.Count());
    PowersMembers(g, n, v);
  }

  /** The logarithm of a nonzero element. */
  ghost function Log(g: Galois, v: nat): (l: nat)
    requires Primitive(g) && 0 < v < g.Count()
    ensures l < g.Limit() && Power(g, l) == v
  {
    EveryElementIsAPower(g, v);
    var l: nat :| l < g.Limit() && Power(g, l) == v;
    l
  }

  lemma {:induction false} LogOfPower(g: Galois, l: nat)
    requires Primitive(g) && l < g.Limit()
    ensures 0 < Power(g, l) < g.Count()
    ensures Log(g, Power(g, l)) == l
  {
    PowerNonzero(g, l);
    PowerHas(g, l);
    PowersDistinct(g, l, Log(g, Power(g, l)));
  }
}
