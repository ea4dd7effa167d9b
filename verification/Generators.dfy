/** The two instances used by the program, GF(2^8) with 0x11D and GF(2^16) with 0x1100B,
    are primitive.  The powers of x that the order argument needs are computed on
    bit-vectors, which the words of the model are related to bit by bit. */
module Generators {
  import opened Bits
  import opened Polynomials
  import opened Walk
  import opened Order

  /** The natural number a and the machine word v have the same bits. */
  ghost predicate SameWord(a: nat, v: bv32)
    decreases a
  {
    if a == 0 then v == 0 else (a % 2 == 1 <==> v & 1 == 1) && SameWord(a / 2, v >> 1)
  }

  lemma {:induction false} SameFromStep(a: nat, v: bv32)
    requires a % 2 == 1 <==> v & 1 == 1
    requires SameWord(a / 2, v >> 1)
    ensures SameWord(a, v)
  {
    if a == 0 {
      assert v >> 1 == 0 && v & 1 == 0;
    }
  }

  lemma {:induction false} OneWord(a: nat, v: bv32, w: bv32)
    requires SameWord(a, v) && SameWord(a, w)
    ensures v == w
    decreases a
  {
    if a != 0 {
      OneWord(a / 2, v >> 1, w >> 1);
    }
  }

  lemma {:induction false} OneNumber(a: nat, b: nat, v: bv32)
    requires SameWord(a, v) && SameWord(b, v)
    ensures a == b
    decreases a, b
  {
    if a != 0 || b != 0 {
      assert (a / 2 == 0 ==> a == 1 || a == 0) && (b / 2 == 0 ==> b == 1 || b == 0);
      assert SameWord(a / 2, v >> 1) && SameWord(b / 2, v >> 1);
      OneNumber(a / 2, b / 2, v >> 1);
    }
  }

  lemma {:induction false} XorWordStep(v: bv32, w: bv32)
    ensures (v ^ w) >> 1 == (v >> 1) ^ (w >> 1)
    ensures (v ^ w) & 1 == 1 <==> (v & 1 == 1) != (w & 1 == 1)
  {
  }

  lemma {:induction false} DoubleWord(v: bv32)
    requires v < 0x8000_0000
    ensures (v << 1) >> 1 == v && (v << 1) & 1 == 0
  {
  }

  lemma {:induction false} XorParity(a: nat, b: nat)
    ensures Xor(a, b) % 2 == 1 <==> (a % 2 == 1) != (b % 2 == 1)
  {
    hide Xor;
    XorLowBits(a, b);
  }

  lemma {:induction false} ZeroXor(w: bv32)
    ensures 0 ^ w == w
  {
  }

  lemma {:induction false} SameStep(a: nat, v: bv32)
    requires SameWord(a, v)
    ensures a % 2 == 1 <==> v & 1 == 1
    ensures SameWord(a / 2, v >> 1)
  {
  }

  lemma {:induction false} SameXor(a: nat, v: bv32, b: nat, w: bv32)
    requires SameWord(a, v) && SameWord(b, w)
    ensures SameWord(Xor(a, b), v ^ w)
    decreases a, b
  {
    if a == 0 {
      XorZero(b);
      ZeroXor(w);
    } else {
      hide Xor;
      hide SameWord;
      SameStep(a, v);
      SameStep(b, w);
      SameXor(a / 2, v >> 1, b / 2, w >> 1);
      XorStep(a, b);
      XorParity(a, b);
      XorWordStep(v, w);
      SameFromStep(Xor(a, b), v ^ w);
    }
  }

  lemma {:induction false} SameDouble(a: nat, v: bv32)
    requires SameWord(a, v) && v < 0x8000_0000
    ensures SameWord(2 * a, v << 1)
  {
    hide SameWord;
    DoubleWord(v);
    SameFromStep(2 * a, v << 1);
  }

  lemma {:induction false} ShiftsAdd(v: bv32)
    ensures v >> 1 >> 1 == v >> 2
    ensures v >> 2 >> 2 == v >> 4
    ensures v >> 4 >> 4 == v >> 8
    ensures v >> 8 >> 8 == v >> 16
  {
  }

  lemma {:induction false} SameShift2(a: nat, v: bv32)
    requires SameWord(a, v)
    ensures SameWord(a / 4, v >> 2)
  {
    hide SameWord;
    SameStep(a, v);
    SameStep(a / 2, v >> 1);
    assert a / 2 / 2 == a / 4;
    ShiftsAdd(v);
  }

  lemma {:induction false} SameShift4(a: nat, v: bv32)
    requires SameWord(a, v)
    ensures SameWord(a / 16, v >> 4)
  {
    hide SameWord;
    SameShift2(a, v);
    SameShift2(a / 4, v >> 2);
    assert a / 4 / 4 == a / 16;
    ShiftsAdd(v);
  }

  lemma {:induction false} SameShift8(a: nat, v: bv32)
    requires SameWord(a, v)
    ensures SameWord(a / 256, v >> 8)
  {
    hide SameWord;
    SameShift4(a, v);
    SameShift4(a / 16, v >> 4);
    assert a / 16 / 16 == a / 256;
    ShiftsAdd(v);
  }

  lemma {:induction false} SameShift16(a: nat, v: bv32)
    requires SameWord(a, v)
    ensures SameWord(a / 65536, v >> 16)
  {
    hide SameWord;
    SameShift8(a, v);
    SameShift8(a / 256, v >> 8);
    assert a / 256 / 256 == a / 65536;
    ShiftsAdd(v);
  }

  /** The two machine-word instances: the polynomial added. */
  function GeneratorWord(g: Galois): bv32 { if g == GALOIS8 then 0x11D else 0x1100B }

  predicate Instance(g: Galois) { g == GALOIS8 || g == GALOIS16 }

  lemma {:induction false} InstanceFacts(g: Galois)
    requires Instance(g)
    ensures g.Valid() && (g == GALOIS8 ==> g.Count() == 256) && (g == GALOIS16 ==> g.Count() == 65536)
  {
    assert Pow2(8) == 256;
    assert Pow2(16) == 256 * Pow2(8);
  }

  lemma {:induction false} GeneratorSame(g: Galois)
    requires Instance(g)
    ensures SameWord(g.generator, GeneratorWord(g))
  {
    if g == GALOIS8 {
      assert SameWord(0x11, 0x11);
    } else {
      assert SameWord(0x11, 0x11);
      assert SameWord(0x110, 0x110);
      assert SameWord(0x1100, 0x1100);
    }
  }

  /** The part of a word from position `bits` upwards. */
  function TopWord(g: Galois, v: bv32): bv32 { if g == GALOIS8 then v >> 8 else v >> 16 }

  lemma {:induction false} TopBitSame(g: Galois, s: nat, v: bv32)
    requires Instance(g) && SameWord(s, v) && s < 2 * g.Count()
    ensures s >= g.Count() <==> TopWord(g, v) != 0
    ensures TopWord(g, v) == 0 || TopWord(g, v) == 1
  {
    InstanceFacts(g);
    assert SameWord(0, 0) && SameWord(1, 1);
    hide SameWord;
    SameShift8(s, v);
    SameShift16(s, v);
    OneWord(s / g.Count(), TopWord(g, v), if s >= g.Count() then 1 else 0);
  }

  lemma {:induction false} TopWordSmall(g: Galois, v: bv32)
    requires TopWord(g, v) == 0 || TopWord(g, v) == 1
    ensures v < 0x8000_0000
  {
  }

  function TimesXWord(g: Galois, v: bv32): bv32 {
    ReduceWord(g, v << 1)
  }

  function ReduceWord(g: Galois, s: bv32): bv32 {
    if TopWord(g, s) != 0 then s ^ GeneratorWord(g) else s
  }

  lemma {:induction false} SameReduce(g: Galois, s: nat, t: bv32)
    requires Instance(g) && SameWord(s, t) && s < 2 * g.Count()
    ensures SameWord(if s >= g.Count() then Xor(s, g.generator) else s, ReduceWord(g, t))
  {
    hide Xor;
    hide SameWord;
    hide TopWord;
    TopBitSame(g, s, t);
    GeneratorSame(g);
    SameXor(s, t, g.generator, GeneratorWord(g));
  }

  lemma {:induction false} SameTimesX(g: Galois, a: nat, v: bv32)
    requires Instance(g) && SameWord(a, v) && g.Has(a)
    ensures SameWord(TimesX(g, a), TimesXWord(g, v))
  {
    hide Xor;
    hide SameWord;
    hide ReduceWord;
    hide TopWord;
    TopBitSame(g, a, v);
    TopWordSmall(g, v);
    SameDouble(a, v);
    SameReduce(g, 2 * a, v << 1);
  }

  /** Two bits of shift-and-add per round, n rounds. */
  function MulWord(g: Galois, v: bv32, w: bv32, n: nat): bv32
    decreases n
  {
    if n == 0 then 0
    else AddBit(g, v, w, AddBit(g, v, w >> 1, MulWord(g, v, w >> 1 >> 1, n - 1)))
  }

  function AddBit(g: Galois, v: bv32, w: bv32, m: bv32): bv32 {
    (if w & 1 == 1 then v else 0) ^ TimesXWord(g, m)
  }

  lemma {:induction false} SameAddBit(g: Galois, a: nat, v: bv32, b: nat, w: bv32, m: bv32)
    requires Instance(g) && SameWord(a, v) && SameWord(b, w) && g.Has(a)
    requires SameWord(Mul(g, a, b / 2), m)
    ensures SameWord(Mul(g, a, b), AddBit(g, v, w, m))
  {
    hide Xor;
    assert SameWord(0, 0);
    hide SameWord;
    SameStep(b, w);
    InstanceFacts(g);
    MulHas(g, a, b / 2);
    SameTimesX(g, Mul(g, a, b / 2), m);
    SameXor(if b % 2 == 1 then a else 0, if w & 1 == 1 then v else 0, TimesX(g, Mul(g, a, b / 2)), TimesXWord(g, m));
    MulStep(g, a, b);
  }

  lemma {:induction false} SameMul(g: Galois, a: nat, v: bv32, b: nat, w: bv32, n: nat)
    requires Instance(g) && SameWord(a, v) && SameWord(b, w) && g.Has(a) && b < Pow2(2 * n)
    ensures SameWord(Mul(g, a, b), MulWord(g, v, w, n))
    decreases n
  {
    assert SameWord(0, 0);
    hide SameWord;
    hide AddBit;
    if n > 0 {
      SameStep(b, w);
      SameStep(b / 2, w >> 1);
      SameMul(g, a, v, b / 2 / 2, w >> 1 >> 1, n - 1);
      SameAddBit(g, a, v, b / 2, w >> 1, MulWord(g, v, w >> 1 >> 1, n - 1));
      SameAddBit(g, a, v, b, w, AddBit(g, v, w >> 1, MulWord(g, v, w >> 1 >> 1, n - 1)));
    }
  }

  // ----- The powers of x that the order argument needs -----

  /** x^n has the bits of v. */
  ghost predicate At(g: Galois, n: nat, v: bv32) {
    SameWord(Power(g, n), v)
  }

  lemma {:induction false} AtOne(g: Galois)
    requires Instance(g)
    ensures At(g, 1, 2)
  {
    InstanceFacts(g);
    assert Power(g, 0) == 1;
    assert Power(g, 1) == 2;
  }

  lemma {:induction false} AtSum(g: Galois, m: nat, v: bv32, n: nat, w: bv32, r: bv32)
    requires Instance(g) && At(g, m, v) && At(g, n, w) && MulWord(g, v, w, 8) == r
    ensures At(g, m + n, r)
  {
    hide SameWord;
    hide MulWord;
    InstanceFacts(g);
    PowerHas(g, m);
    PowerHas(g, n);
    SameMul(g, Power(g, m), v, Power(g, n), w, 8);
    PowerAdd(g, m, n);
  }

  lemma {:induction false} Powers8()
    ensures At(GALOIS8, 2, 4) && At(GALOIS8, 3, 8) && At(GALOIS8, 12, 0xcd) && At(GALOIS8, 15, 0x26)
  {
    hide At;
    AtOne(GALOIS8);
    AtSum(GALOIS8, 1, 2, 1, 2, 4);
    AtSum(GALOIS8, 1, 2, 2, 4, 8);
    AtSum(GALOIS8, 3, 8, 3, 8, 0x40);
    AtSum(GALOIS8, 6, 0x40, 6, 0x40, 0xcd);
    AtSum(GALOIS8, 3, 8, 12, 0xcd, 0x26);
  }

  lemma {:induction false} Cofactors8()
    ensures At(GALOIS8, 51, 0xa)
  {
    hide At;
    Powers8();
    AtSum(GALOIS8, 12, 0xcd, 12, 0xcd, 0x8f);
    AtSum(GALOIS8, 24, 0x8f, 24, 0x8f, 0x46);
    AtSum(GALOIS8, 3, 8, 48, 0x46, 0xa);
  }

  lemma {:induction false} Powers17()
    ensures At(GALOIS8, 17, 0x98)
  {
    hide At;
    Powers8();
    AtSum(GALOIS8, 2, 4, 15, 0x26, 0x98);
  }

  lemma {:induction false} Cofactors8More()
    ensures At(GALOIS8, 85, 0xd6)
  {
    hide At;
    Powers17();
    AtSum(GALOIS8, 17, 0x98, 17, 0x98, 0x4e);
    AtSum(GALOIS8, 34, 0x4e, 34, 0x4e, 0x99);
    AtSum(GALOIS8, 17, 0x98, 68, 0x99, 0xd6);
  }

  lemma {:induction false} Closed8()
    ensures At(GALOIS8, 255, 1)
  {
    hide At;
    Powers8();
    AtSum(GALOIS8, 15, 0x26, 15, 0x26, 0x60);
    AtSum(GALOIS8, 30, 0x60, 30, 0x60, 0xb9);
    AtSum(GALOIS8, 60, 0xb9, 60, 0xb9, 0x3b);
    AtSum(GALOIS8, 120, 0x3b, 120, 0x3b, 0x2c);
    AtSum(GALOIS8, 15, 0x26, 240, 0x2c, 1);
  }

  lemma {:induction false} Powers16()
    ensures At(GALOIS16, 2, 4) && At(GALOIS16, 3, 8) && At(GALOIS16, 12, 0x1000) && At(GALOIS16, 15, 0x8000)
  {
    hide At;
    AtOne(GALOIS16);
    AtSum(GALOIS16, 1, 2, 1, 2, 4);
    AtSum(GALOIS16, 1, 2, 2, 4, 8);
    AtSum(GALOIS16, 3, 8, 3, 8, 0x40);
    AtSum(GALOIS16, 6, 0x40, 6, 0x40, 0x1000);
    AtSum(GALOIS16, 3, 8, 12, 0x1000, 0x8000);
  }

  lemma {:induction false} Powers255()
    ensures At(GALOIS16, 240, 0x6b65) && At(GALOIS16, 255, 0x8d92)
  {
    hide At;
    Powers16();
    AtSum(GALOIS16, 15, 0x8000, 15, 0x8000, 0x8efa);
    AtSum(GALOIS16, 30, 0x8efa, 30, 0x8efa, 0xc9c5);
    AtSum(GALOIS16, 60, 0xc9c5, 60, 0xc9c5, 0x27b7);
    AtSum(GALOIS16, 120, 0x27b7, 120, 0x27b7, 0x6b65);
    AtSum(GALOIS16, 15, 0x8000, 240, 0x6b65, 0x8d92);
  }

  lemma {:induction false} Powers3855()
    ensures At(GALOIS16, 3855, 0x4d78)
  {
    hide At;
    Powers16();
    Powers255();
    AtSum(GALOIS16, 240, 0x6b65, 240, 0x6b65, 0xc38d);
    AtSum(GALOIS16, 480, 0xc38d, 480, 0xc38d, 0x3537);
    AtSum(GALOIS16, 960, 0x3537, 960, 0x3537, 0x70f2);
    AtSum(GALOIS16, 1920, 0x70f2, 1920, 0x70f2, 0x8be8);
    AtSum(GALOIS16, 15, 0x8000, 3840, 0x8be8, 0x4d78);
  }

  lemma {:induction false} Powers51()
    ensures At(GALOIS16, 51, 0x41be)
  {
    hide At;
    Powers16();
    AtSum(GALOIS16, 12, 0x1000, 12, 0x1000, 0x1bbb);
    AtSum(GALOIS16, 24, 0x1bbb, 24, 0x1bbb, 0x4c35);
    AtSum(GALOIS16, 3, 8, 48, 0x4c35, 0x41be);
  }

  lemma {:induction false} Powers13056()
    ensures At(GALOIS16, 13056, 0xbd18)
  {
    hide At;
    Powers51();
    AtSum(GALOIS16, 51, 0x41be, 51, 0x41be, 0xfee4);
    AtSum(GALOIS16, 102, 0xfee4, 102, 0xfee4, 0x167d);
    AtSum(GALOIS16, 204, 0x167d, 204, 0x167d, 0x5e7d);
    AtSum(GALOIS16, 408, 0x5e7d, 408, 0x5e7d, 0xb72a);
    AtSum(GALOIS16, 816, 0xb72a, 816, 0xb72a, 0xbf75);
    AtSum(GALOIS16, 1632, 0xbf75, 1632, 0xbf75, 0xeccc);
    AtSum(GALOIS16, 3264, 0xeccc, 3264, 0xeccc, 0x49aa);
    AtSum(GALOIS16, 6528, 0x49aa, 6528, 0x49aa, 0xbd18);
  }

  lemma {:induction false} Powers17Of16()
    ensures At(GALOIS16, 17, 0x2016)
  {
    hide At;
    Powers16();
    AtOne(GALOIS16);
    AtSum(GALOIS16, 1, 2, 15, 0x8000, 0x100b);
    AtSum(GALOIS16, 1, 2, 16, 0x100b, 0x2016);
  }

  lemma {:induction false} Powers85()
    ensures At(GALOIS16, 85, 0x1539)
  {
    hide At;
    Powers17Of16();
    AtSum(GALOIS16, 17, 0x2016, 17, 0x2016, 0x6ff8);
    AtSum(GALOIS16, 34, 0x6ff8, 34, 0x6ff8, 0x9267);
    AtSum(GALOIS16, 17, 0x2016, 68, 0x9267, 0x1539);
  }

  lemma {:induction false} Powers21760()
    ensures At(GALOIS16, 21760, 0xb266)
  {
    hide At;
    Powers85();
    AtSum(GALOIS16, 85, 0x1539, 85, 0x1539, 0x1e4a);
    AtSum(GALOIS16, 170, 0x1e4a, 170, 0x1e4a, 0x1984);
    AtSum(GALOIS16, 340, 0x1984, 340, 0x1984, 0x94c);
    AtSum(GALOIS16, 680, 0x94c, 680, 0x94c, 0x42b7);
    AtSum(GALOIS16, 1360, 0x42b7, 1360, 0x42b7, 0xae82);
    AtSum(GALOIS16, 2720, 0xae82, 2720, 0xae82, 0xb269);
    AtSum(GALOIS16, 5440, 0xb269, 5440, 0xb269, 0xafc0);
    AtSum(GALOIS16, 10880, 0xafc0, 10880, 0xafc0, 0xb266);
  }

  lemma {:induction false} Powers65280()
    ensures At(GALOIS16, 65280, 0x70b4)
  {
    hide At;
    Powers255();
    AtSum(GALOIS16, 255, 0x8d92, 255, 0x8d92, 0x8da2);
    AtSum(GALOIS16, 510, 0x8da2, 510, 0x8da2, 0x88a2);
    AtSum(GALOIS16, 1020, 0x88a2, 1020, 0x88a2, 0x8812);
    AtSum(GALOIS16, 2040, 0x8812, 2040, 0x8812, 0xcd12);
    AtSum(GALOIS16, 4080, 0xcd12, 4080, 0xcd12, 0x6619);
    AtSum(GALOIS16, 8160, 0x6619, 8160, 0x6619, 0x9481);
    AtSum(GALOIS16, 16320, 0x9481, 16320, 0x9481, 0xc5fb);
    AtSum(GALOIS16, 32640, 0xc5fb, 32640, 0xc5fb, 0x70b4);
  }

  lemma {:induction false} Powers65535()
    ensures At(GALOIS16, 13107, 0x1ce8) && At(GALOIS16, 21845, 0x15e) && At(GALOIS16, 65535, 1)
  {
    hide At;
    Powers51();
    Powers13056();
    Powers85();
    Powers21760();
    Powers255();
    Powers65280();
    AtSum(GALOIS16, 51, 0x41be, 13056, 0xbd18, 0x1ce8);
    AtSum(GALOIS16, 85, 0x1539, 21760, 0xb266, 0x15e);
    AtSum(GALOIS16, 255, 0x8d92, 65280, 0x70b4, 1);
  }


  lemma {:induction false} NotOne(g: Galois, n: nat, v: bv32)
    requires At(g, n, v) && v != 1
    ensures Power(g, n) != 1
  {
    assert SameWord(1, 1);
    if Power(g, n) == 1 {
      OneWord(1, v, 1);
    }
  }

  /** The constructor's walk in GF(2^8) visits every nonzero byte. */
  lemma {:induction false} Galois8Primitive()
    ensures Primitive(GALOIS8)
  {
    InstanceFacts(GALOIS8);
    assert SameWord(1, 1);
    hide SameWord;
    Powers8();
    Cofactors8();
    Cofactors8More();
    Closed8();
    OneNumber(Power(GALOIS8, 255), 1, 1);
    NotOne(GALOIS8, 85, 0xd6);
    NotOne(GALOIS8, 51, 0xa);
    NotOne(GALOIS8, 15, 0x26);
    Primitive8(GALOIS8);
  }

  /** The constructor's walk in GF(2^16) visits every nonzero 16-bit word. */
  lemma {:induction false} Galois16Primitive()
    ensures Primitive(GALOIS16)
  {
    InstanceFacts(GALOIS16);
    assert SameWord(1, 1);
    hide SameWord;
    Powers255();
    Powers3855();
    Powers65535();
    OneNumber(Power(GALOIS16, 65535), 1, 1);
    NotOne(GALOIS16, 21845, 0x15e);
    NotOne(GALOIS16, 13107, 0x1ce8);
    NotOne(GALOIS16, 3855, 0x4d78);
    NotOne(GALOIS16, 255, 0x8d92);
    Primitive16(GALOIS16);
  }
}
