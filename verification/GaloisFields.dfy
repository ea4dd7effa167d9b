/** The two fields of the program, Galois8 and Galois16, as instances of the template parameter. */
module GaloisFields {
  import opened Bits
  import opened Polynomials
  import opened Walk
  import opened Generators
  import opened GaloisTables
  import opened Fields

  type Element8 = n: nat | n < 0x100
  type Element16 = n: nat | n < 0x1_0000

  lemma {:induction false} Has8(n: nat)
    ensures GALOIS8.Has(n) <==> n < 0x100
    ensures GALOIS8.Valid()
  {
    InstanceFacts(GALOIS8);
  }

  lemma {:induction false} Has16(n: nat)
    ensures GALOIS16.Has(n) <==> n < 0x1_0000
    ensures GALOIS16.Valid()
  {
    InstanceFacts(GALOIS16);
  }

  function Add8(a: Element8, b: Element8): Element8 {
    Has8(a); Has8(b); XorHas(GALOIS8, a, b); Has8(Xor(a, b));
    Xor(a, b)
  }

  function Mul8(a: Element8, b: Element8): Element8 {
    Has8(a); MulHas(GALOIS8, a, b); Has8(Mul(GALOIS8, a, b));
    Mul(GALOIS8, a, b)
  }

  function Div8(a: Element8, b: Element8): Element8 {
    Has8(a); MulHas(GALOIS8, a, PowN(GALOIS8, b, GALOIS8.Limit() - 1)); Has8(Div(GALOIS8, a, b));
    Div(GALOIS8, a, b)
  }

  function Add16(a: Element16, b: Element16): Element16 {
    Has16(a); Has16(b); XorHas(GALOIS16, a, b); Has16(Xor(a, b));
    Xor(a, b)
  }

  function Mul16(a: Element16, b: Element16): Element16 {
    Has16(a); MulHas(GALOIS16, a, b); Has16(Mul(GALOIS16, a, b));
    Mul(GALOIS16, a, b)
  }

  function Div16(a: Element16, b: Element16): Element16 {
    Has16(a); MulHas(GALOIS16, a, PowN(GALOIS16, b, GALOIS16.Limit() - 1)); Has16(Div(GALOIS16, a, b));
    Div(GALOIS16, a, b)
  }

  const FIELD8: Field<Element8> := Field(0, 1, Add8, Mul8, Div8)
  const FIELD16: Field<Element16> := Field(0, 1, Add16, Mul16, Div16)

  /** The laws of a field, for polynomial arithmetic modulo a primitive generator. */
  lemma {:induction false} LawsOf(g: Galois, a: nat, b: nat, c: nat)
    requires Primitive(g) && g.Has(a) && g.Has(b) && g.Has(c)
    ensures Xor(a, a) == 0 && Xor(a, 0) == a && Mul(g, a, 1) == a
    ensures Xor(a, b) == Xor(b, a) && Mul(g, a, b) == Mul(g, b, a)
    ensures b != 0 ==> Mul(g, Div(g, a, b), b) == a
    ensures Xor(Xor(a, b), c) == Xor(a, Xor(b, c))
    ensures Mul(g, Mul(g, a, b), c) == Mul(g, a, Mul(g, b, c))
    ensures Mul(g, a, Xor(b, c)) == Xor(Mul(g, a, b), Mul(g, a, c))
  {
    hide Xor;
    hide Mul;
    XorSelf(a);
    XorZero(a);
    MulOneRight(g, a);
    XorComm(a, b);
    MulComm(g, a, b);
    if b != 0 {
      DivMul(g, a, b);
    }
    XorAssoc(a, b, c);
    Polynomials.MulAssoc(g, a, b, c);
    MulAddRight(g, a, b, c);
  }

  lemma {:induction false} Field8Lawful()
    ensures FIELD8.Lawful()
  {
    Galois8Primitive();
    hide Xor;
    hide Mul;
    hide Div;
    forall a: Element8, b: Element8, c: Element8
      ensures Laws(FIELD8, a, b, c)
    {
      Has8(a);
      Has8(b);
      Has8(c);
      LawsOf(GALOIS8, a, b, c);
    }
    LawsSuffice(FIELD8, 0);
  }

  lemma {:induction false} Field16Lawful()
    ensures FIELD16.Lawful()
  {
    Galois16Primitive();
    hide Xor;
    hide Mul;
    hide Div;
    forall a: Element16, b: Element16, c: Element16
      ensures Laws(FIELD16, a, b, c)
    {
      Has16(a);
      Has16(b);
      Has16(c);
      LawsOf(GALOIS16, a, b, c);
    }
    LawsSuffice(FIELD16, 0);
  }

  ghost predicate Laws<T(!new)>(F: Field<T>, a: T, b: T, c: T) {
    && F.add(a, a) == F.zero && F.add(a, F.zero) == a && F.mul(a, F.one) == a
    && F.add(a, b) == F.add(b, a) && F.mul(a, b) == F.mul(b, a)
    && (b != F.zero ==> F.mul(F.div(a, b), b) == a)
    && F.add(F.add(a, b), c) == F.add(a, F.add(b, c))
    && F.mul(F.mul(a, b), c) == F.mul(a, F.mul(b, c))
    && F.mul(a, F.add(b, c)) == F.add(F.mul(a, b), F.mul(a, c))
  }

  lemma {:induction false} LawsSuffice<T(!new)>(F: Field<T>, x: T)
    requires F.zero != F.one && forall a, b, c :: Laws(F, a, b, c)
    ensures F.Lawful()
  {
    forall a
      ensures F.add(a, a) == F.zero && F.add(a, F.zero) == a && F.mul(a, F.one) == a
    {
      assert Laws(F, a, x, x);
    }
    forall a, b
      ensures F.add(a, b) == F.add(b, a) && F.mul(a, b) == F.mul(b, a)
      ensures b != F.zero ==> F.mul(F.div(a, b), b) == a
    {
      assert Laws(F, a, b, x);
    }
    forall a, b, c
      ensures F.add(F.add(a, b), c) == F.add(a, F.add(b, c))
      ensures F.mul(F.mul(a, b), c) == F.mul(a, F.mul(b, c))
      ensures F.mul(a, F.add(b, c)) == F.add(F.mul(a, b), F.mul(a, c))
    {
      assert Laws(F, a, b, c);
    }
  }

  /** Powers in the field are powers of the tables. */
  lemma {:induction false} Pow16IsPowN(a: Element16, n: nat)
    ensures Pow(FIELD16, a, n) == PowN(GALOIS16, a, n)
    decreases n
  {
    hide Mul;
    if n > 0 {
      Pow16IsPowN(a, n - 1);
    }
  }
}
