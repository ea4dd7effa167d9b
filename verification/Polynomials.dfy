/** Carry-less (polynomial) arithmetic modulo a generator: the reference that the
    log and antilog tables of galois.h stand for.

    A polynomial over GF(2) is the natural number whose bits are its coefficients. */
module Polynomials {
  import opened Bits

  /** The template parameters of the C++ classes: GF(2^bits) and its generator. */
  datatype Galois = Galois(bits: nat, generator: nat)
  {
    function Count(): nat { Pow2(bits) }
    function Limit(): nat { Count() - 1 }

    /** The generator has degree `bits` and a constant term. */
    predicate Valid() {
      bits > 0 && Count() <= generator < 2 * Count() && generator % 2 == 1
    }

    predicate Has(a: nat) { a < Count() }
  }

  const GALOIS8 := Galois(8, 0x11D)
  const GALOIS16 := Galois(16, 0x1100B)

  /** Multiplication by the polynomial x: `b <<= 1; if (b & Count) b ^= Generator`. */
  function TimesX(g: Galois, b: nat): nat {
    var s := 2 * b;
    if s >= g.Count() then Xor(s, g.generator) else s
  }

  /** Shift-and-add multiplication modulo the generator. */
  function Mul(g: Galois, a: nat, b: nat): nat
    decreases b
  {
    if b == 0 then 0 else Xor(if b % 2 == 1 then a else 0, TimesX(g, Mul(g, a, b / 2)))
  }

  lemma {:induction false} TopBit(g: Galois, s: nat)
    requires g.Valid() && g.Count() <= s < 2 * g.Count()
    ensures Xor(s, g.generator) < g.Count()
  {
    CancelTopBit(s, g.generator, g.bits);
  }

  lemma {:induction false} CancelTopBit(a: nat, b: nat, n: nat)
    requires Pow2(n) <= a < Pow2(n + 1) && Pow2(n) <= b < Pow2(n + 1)
    ensures Xor(a, b) < Pow2(n)
  {
    if n == 0 {
      XorSelf(1);
    } else {
      CancelTopBit(a / 2, b / 2, n - 1);
      XorStep(a, b);
    }
  }

  lemma {:induction false} KeepTopBit(a: nat, b: nat, n: nat)
    requires Pow2(n) <= a < Pow2(n + 1) && b < Pow2(n)
    ensures Pow2(n) <= Xor(a, b) < Pow2(n + 1)
  {
    if n == 0 {
      XorZero(a);
    } else {
      KeepTopBit(a / 2, b / 2, n - 1);
      XorStep(a, b);
    }
  }

  lemma {:induction false} TimesXHas(g: Galois, a: nat)
    requires g.Valid() && g.Has(a)
    ensures g.Has(TimesX(g, a))
  {
    if 2 * a >= g.Count() {
      TopBit(g, 2 * a);
    }
  }

  lemma {:induction false} XorHas(g: Galois, a: nat, b: nat)
    requires g.Has(a) && g.Has(b)
    ensures g.Has(Xor(a, b))
  {
    XorBound(a, b, g.bits);
  }

  /** Multiplication by x is linear ... */
  lemma {:induction false} TimesXAdd(g: Galois, a: nat, b: nat)
    requires g.Valid() && g.Has(a) && g.Has(b)
    ensures TimesX(g, Xor(a, b)) == Xor(TimesX(g, a), TimesX(g, b))
  {
    hide Xor;
    XorHas(g, a, b);
    XorAppend(a, 0, b, 0);
    var s, t, p := 2 * a, 2 * b, g.generator;
    assert 2 * Xor(a, b) == Xor(s, t);
    if s >= g.Count() && t >= g.Count() {
      CancelTopBit(s, t, g.bits);
      XorExchange(s, p, t, p);
      XorSelf(p);
      XorZero(Xor(s, t));
    } else if s >= g.Count() {
      KeepTopBit(s, t, g.bits);
      XorAssoc(s, p, t);
      XorComm(p, t);
      XorAssoc(s, t, p);
    } else if t >= g.Count() {
      XorComm(s, t);
      KeepTopBit(t, s, g.bits);
      XorAssoc(s, t, p);
    } else {
      XorBound(s, t, g.bits);
    }
  }

  /** ... and injective, because the generator has a constant term. */
  lemma {:induction false} TimesXInjective(g: Galois, a: nat, b: nat)
    requires g.Valid() && g.Has(a) && g.Has(b) && TimesX(g, a) == TimesX(g, b)
    ensures a == b
  {
    hide Xor;
    var s, t, p := 2 * a, 2 * b, g.generator;
    XorLowBits(s, p);
    XorLowBits(t, p);
    if s >= g.Count() && t >= g.Count() {
      XorInjective(s, t, p);
    }
  }

  lemma {:induction false} TimesXZero(g: Galois)
    requires g.Valid()
    ensures TimesX(g, 0) == 0
  {
  }

  lemma {:induction false} MulHas(g: Galois, a: nat, b: nat)
    requires g.Valid() && g.Has(a)
    ensures g.Has(Mul(g, a, b))
    decreases b
  {
    hide Xor;
    if b > 0 {
      MulHas(g, a, b / 2);
      TimesXHas(g, Mul(g, a, b / 2));
      XorHas(g, if b % 2 == 1 then a else 0, TimesX(g, Mul(g, a, b / 2)));
    }
  }

  /** Unfolding one bit of the multiplier, including the zero multiplier. */
  lemma {:induction false} MulStep(g: Galois, a: nat, b: nat)
    requires g.Valid()
    ensures Mul(g, a, b) == Xor(if b % 2 == 1 then a else 0, TimesX(g, Mul(g, a, b / 2)))
  {
    if b == 0 {
      XorZero(0);
    }
  }

  lemma {:induction false} MulAddRight(g: Galois, a: nat, b: nat, c: nat)
    requires g.Valid() && g.Has(a)
    ensures Mul(g, a, Xor(b, c)) == Xor(Mul(g, a, b), Mul(g, a, c))
    decreases b, c
  {
    hide Xor;
    if b == 0 {
      XorZero(c);
      XorZero(Mul(g, a, c));
    } else {
      var d := Xor(b, c);
      XorStep(b, c);
      XorLowBits(b, c);
      MulAddRight(g, a, b / 2, c / 2);
      MulHas(g, a, b / 2);
      MulHas(g, a, c / 2);
      TimesXAdd(g, Mul(g, a, b / 2), Mul(g, a, c / 2));
      MulStep(g, a, b);
      MulStep(g, a, c);
      MulStep(g, a, d);
      var i, j := if b % 2 == 1 then a else 0, if c % 2 == 1 then a else 0;
      XorExchange(i, TimesX(g, Mul(g, a, b / 2)), j, TimesX(g, Mul(g, a, c / 2)));
      XorSelf(a);
      XorZero(a);
      XorZero(0);
    }
  }

  lemma {:induction false} MulAddLeft(g: Galois, a: nat, b: nat, c: nat)
    requires g.Valid() && g.Has(a) && g.Has(b)
    ensures Mul(g, Xor(a, b), c) == Xor(Mul(g, a, c), Mul(g, b, c))
    decreases c
  {
    hide Xor;
    XorZero(0);
    if c > 0 {
      MulAddLeft(g, a, b, c / 2);
      var m, n := Mul(g, a, c / 2), Mul(g, b, c / 2);
      MulHas(g, a, c / 2);
      MulHas(g, b, c / 2);
      TimesXAdd(g, m, n);
      var i, j := if c % 2 == 1 then a else 0, if c % 2 == 1 then b else 0;
      XorExchange(i, TimesX(g, m), j, TimesX(g, n));
    }
  }

  lemma {:induction false} MulTimesXLeft(g: Galois, a: nat, b: nat)
    requires g.Valid() && g.Has(a)
    ensures Mul(g, TimesX(g, a), b) == TimesX(g, Mul(g, a, b))
    decreases b
  {
    hide Xor;
    if b == 0 {
      TimesXZero(g);
    } else {
      MulTimesXLeft(g, a, b / 2);
      MulHas(g, a, b / 2);
      TimesXHas(g, Mul(g, a, b / 2));
      TimesXZero(g);
      TimesXAdd(g, if b % 2 == 1 then a else 0, TimesX(g, Mul(g, a, b / 2)));
    }
  }

  lemma {:induction false} MulOneRight(g: Galois, a: nat)
    requires g.Valid()
    ensures Mul(g, a, 1) == a
  {
    TimesXZero(g);
    XorZero(a);
    assert Mul(g, a, 0) == 0;
  }

  lemma {:induction false} MulOneLeft(g: Galois, b: nat)
    requires g.Valid() && g.Has(b)
    ensures Mul(g, 1, b) == b
    decreases b
  {
    hide Xor;
    if b > 0 {
      MulOneLeft(g, b / 2);
      BitPlusDouble(b);
    }
  }

  lemma {:induction false} BitPlusDouble(b: nat)
    ensures Xor(b % 2, 2 * (b / 2)) == b
    ensures Xor(2 * (b / 2), b % 2) == b
  {
    XorAppend(0, b % 2, b / 2, 0);
    XorZero(b / 2);
    XorComm(b % 2, 2 * (b / 2));
  }

  /** A field element is the shift of its upper bits plus its lowest bit. */
  lemma {:induction false} Horner(g: Galois, a: nat)
    requires g.Valid() && g.Has(a)
    ensures g.Has(a / 2) && a == Xor(TimesX(g, a / 2), a % 2)
  {
    hide Xor;
    BitPlusDouble(a);
    assert 2 * (a / 2) < g.Count();
  }

  /** The generator is zero in the quotient. */
  lemma {:induction false} GeneratorVanishes(g: Galois, a: nat)
    requires g.Valid() && g.Has(a)
    ensures Mul(g, a, g.generator) == 0
    decreases a
  {
    hide Xor;
    var p := g.generator;
    if a == 0 {
      MulZeroLeft(g, p);
    } else if a == 1 {
      assert g.Has(p / 2);
      MulOneLeft(g, p / 2);
      assert 2 * (p / 2) >= g.Count();
      BitPlusDouble(p);
      XorCancel(p % 2, 2 * (p / 2));
      XorComm(2 * (p / 2), p);
      XorComm(p % 2, 2 * (p / 2));
      XorSelf(1);
      assert p % 2 == 1;
    } else {
      Horner(g, a);
      TimesXHas(g, a / 2);
      GeneratorVanishes(g, a / 2);
      GeneratorVanishes(g, a % 2);
      assert 1 < g.Count();
      MulAddLeft(g, TimesX(g, a / 2), a % 2, p);
      MulTimesXLeft(g, a / 2, p);
      TimesXZero(g);
      XorZero(0);
    }
  }

  lemma {:induction false} MulZeroLeft(g: Galois, b: nat)
    requires g.Valid()
    ensures Mul(g, 0, b) == 0
    decreases b
  {
    if b > 0 {
      MulZeroLeft(g, b / 2);
      XorZero(0);
    }
  }

  lemma {:induction false} MulDouble(g: Galois, a: nat, b: nat)
    requires g.Valid()
    ensures Mul(g, a, 2 * b) == TimesX(g, Mul(g, a, b))
  {
    MulStep(g, a, 2 * b);
    assert 2 * b / 2 == b;
    XorZero(TimesX(g, Mul(g, a, b)));
  }

  lemma {:induction false} MulTimesXRight(g: Galois, a: nat, b: nat)
    requires g.Valid() && g.Has(a) && g.Has(b)
    ensures Mul(g, a, TimesX(g, b)) == TimesX(g, Mul(g, a, b))
  {
    hide Xor;
    MulDouble(g, a, b);
    if 2 * b >= g.Count() {
      MulAddRight(g, a, 2 * b, g.generator);
      GeneratorVanishes(g, a);
      XorZero(Mul(g, a, 2 * b));
    }
  }

  lemma {:induction false} MulComm(g: Galois, a: nat, b: nat)
    requires g.Valid() && g.Has(a) && g.Has(b)
    ensures Mul(g, a, b) == Mul(g, b, a)
    decreases b
  {
    hide Xor;
    if b == 0 {
      MulZeroLeft(g, a);
    } else {
      Horner(g, b);
      MulComm(g, a, b / 2);
      TimesXHas(g, b / 2);
      assert 1 < g.Count();
      MulAddLeft(g, TimesX(g, b / 2), b % 2, a);
      MulTimesXLeft(g, b / 2, a);
      MulZeroLeft(g, a);
      MulOneLeft(g, a);
      XorComm(Mul(g, b % 2, a), TimesX(g, Mul(g, a, b / 2)));
      MulStep(g, a, b);
    }
  }

  lemma {:induction false} MulAssoc(g: Galois, a: nat, b: nat, c: nat)
    requires g.Valid() && g.Has(a) && g.Has(b) && g.Has(c)
    ensures Mul(g, Mul(g, a, b), c) == Mul(g, a, Mul(g, b, c))
    decreases c
  {
    hide Xor;
    if c > 0 {
      var ab, bc := Mul(g, a, b), Mul(g, b, c / 2);
      MulAssoc(g, a, b, c / 2);
      MulHas(g, b, c / 2);
      MulHas(g, a, b);
      TimesXHas(g, bc);
      MulTimesXRight(g, a, bc);
      MulAddRight(g, a, if c % 2 == 1 then b else 0, TimesX(g, bc));
      MulStep(g, b, c);
      MulStep(g, ab, c);
    }
  }
}
