/** The template parameter `g` of ReedSolomon<g>: a field of characteristic two.
    The laws are stated once and used through the lemmas below. */
module Fields {

  datatype Field<!T(!new)> = Field(zero: T, one: T, add: (T, T) -> T, mul: (T, T) -> T, div: (T, T) -> T)
  {
    ghost predicate Lawful() {
      && zero != one
      && (forall a {:trigger Law1(a)} ::
            add(a, a) == zero && add(a, zero) == a && mul(a, one) == a)
      && (forall a, b {:trigger Law2(a, b)} ::
            && add(a, b) == add(b, a)
            && mul(a, b) == mul(b, a)
            && (b != zero ==> mul(div(a, b), b) == a))
      && (forall a, b, c {:trigger Law3(a, b, c)} ::
            && add(add(a, b), c) == add(a, add(b, c))
            && mul(mul(a, b), c) == mul(a, mul(b, c))
            && mul(a, add(b, c)) == add(mul(a, b), mul(a, c)))
    }
  }

  // Instances of the laws are asked for by name.
  ghost predicate Law1<T(!new)>(a: T) { true }
  ghost predicate Law2<T(!new)>(a: T, b: T) { true }
  ghost predicate Law3<T(!new)>(a: T, b: T, c: T) { true }

  lemma {:induction false} AddLaws<T(!new)>(F: Field<T>, a: T, b: T)
    requires F.Lawful()
    ensures F.add(a, b) == F.add(b, a)
    ensures F.add(a, a) == F.zero
    ensures F.add(a, F.zero) == a && F.add(F.zero, a) == a
  {
    assert Law1(a) && Law2(a, b) && Law2(a, F.zero);
  }

  lemma {:induction false} AddAssoc<T(!new)>(F: Field<T>, a: T, b: T, c: T)
    requires F.Lawful()
    ensures F.add(F.add(a, b), c) == F.add(a, F.add(b, c))
  {
    assert Law3(a, b, c);
  }

  lemma {:induction false} AddCancel<T(!new)>(F: Field<T>, a: T, b: T, c: T)
    requires F.Lawful()
    ensures F.add(F.add(a, c), c) == a
    ensures F.add(a, c) == F.add(b, c) ==> a == b
  {
    assert Law3(a, c, c) && Law3(b, c, c) && Law1(c) && Law1(a) && Law1(b);
  }

  lemma {:induction false} AddExchange<T(!new)>(F: Field<T>, a: T, b: T, c: T, d: T)
    requires F.Lawful()
    ensures F.add(F.add(a, b), F.add(c, d)) == F.add(F.add(a, c), F.add(b, d))
  {
    assert Law3(a, b, F.add(c, d)) && Law3(b, c, d) && Law2(b, c) && Law3(c, b, d) && Law3(a, c, F.add(b, d));
  }

  lemma {:induction false} MulLaws<T(!new)>(F: Field<T>, a: T, b: T)
    requires F.Lawful()
    ensures F.mul(a, b) == F.mul(b, a)
    ensures F.mul(a, F.one) == a && F.mul(F.one, a) == a
    ensures F.mul(a, F.zero) == F.zero && F.mul(F.zero, a) == F.zero
  {
    var z := F.mul(a, F.zero);
    assert Law2(a, b) && Law1(a) && Law2(a, F.one) && Law2(a, F.zero);
    assert Law1(F.zero) && Law3(a, F.zero, F.zero) && Law1(z);
  }

  lemma {:induction false} MulAssoc<T(!new)>(F: Field<T>, a: T, b: T, c: T)
    requires F.Lawful()
    ensures F.mul(F.mul(a, b), c) == F.mul(a, F.mul(b, c))
  {
    assert Law3(a, b, c);
  }

  lemma {:induction false} Distribute<T(!new)>(F: Field<T>, a: T, b: T, c: T)
    requires F.Lawful()
    ensures F.mul(a, F.add(b, c)) == F.add(F.mul(a, b), F.mul(a, c))
    ensures F.mul(F.add(b, c), a) == F.add(F.mul(b, a), F.mul(c, a))
  {
    assert Law3(a, b, c) && Law2(a, F.add(b, c)) && Law2(a, b) && Law2(a, c);
  }

  lemma {:induction false} DivLaws<T(!new)>(F: Field<T>, a: T, b: T)
    requires F.Lawful() && b != F.zero
    ensures F.mul(F.div(a, b), b) == a
    ensures F.mul(b, F.div(a, b)) == a
    ensures F.div(F.mul(a, b), b) == a
    ensures F.div(F.zero, b) == F.zero
  {
    var i := F.div(F.one, b);
    assert Law2(F.one, b) && Law2(a, b) && Law2(F.div(a, b), b);
    MulCancel(F, F.div(F.mul(a, b), b), a, b);
    assert Law2(F.mul(a, b), b);
    MulLaws(F, b, F.zero);
    assert Law2(F.zero, b);
    MulCancel(F, F.div(F.zero, b), F.zero, b);
  }

  lemma {:induction false} MulCancel<T(!new)>(F: Field<T>, a: T, b: T, c: T)
    requires F.Lawful() && c != F.zero
    ensures F.mul(a, c) == F.mul(b, c) ==> a == b
  {
    var i := F.div(F.one, c);
    assert Law2(F.one, c) && Law2(i, c) && Law3(a, c, i) && Law3(b, c, i) && Law1(a) && Law1(b);
  }

  /** A product is zero only if a factor is. */
  lemma {:induction false} NoZeroDivisors<T(!new)>(F: Field<T>, a: T, b: T)
    requires F.Lawful() && F.mul(a, b) == F.zero
    ensures a == F.zero || b == F.zero
  {
    if b != F.zero {
      MulLaws(F, b, F.zero);
      MulCancel(F, a, F.zero, b);
    }
  }

  /** Distinct elements have a nonzero difference. */
  lemma {:induction false} Difference<T(!new)>(F: Field<T>, a: T, b: T)
    requires F.Lawful()
    ensures F.add(a, b) == F.zero <==> a == b
  {
    AddCancel(F, a, b, b);
    AddLaws(F, b, F.zero);
    AddLaws(F, a, b);
  }

  /** a^n. */
  function Pow<T(!new)>(F: Field<T>, a: T, n: nat): T {
    if n == 0 then F.one else F.mul(a, Pow(F, a, n - 1))
  }

  lemma {:induction false} PowNonzero<T(!new)>(F: Field<T>, a: T, n: nat)
    requires F.Lawful() && a != F.zero
    ensures Pow(F, a, n) != F.zero
  {
    if n > 0 {
      PowNonzero(F, a, n - 1);
      if Pow(F, a, n) == F.zero {
        NoZeroDivisors(F, a, Pow(F, a, n - 1));
      }
    }
  }

  lemma {:induction false} PowAdd<T(!new)>(F: Field<T>, a: T, m: nat, n: nat)
    requires F.Lawful()
    ensures Pow(F, a, m + n) == F.mul(Pow(F, a, m), Pow(F, a, n))
    decreases m
  {
    if m == 0 {
      MulLaws(F, Pow(F, a, n), F.one);
    } else {
      PowAdd(F, a, m - 1, n);
      MulAssoc(F, a, Pow(F, a, m - 1), Pow(F, a, n));
    }
  }
}
