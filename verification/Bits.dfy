/** Bitwise exclusive-or and powers of two over the natural numbers.

    The machine words of the program (u8, u16, u32, u64) are modelled as naturals
    with their width stated where it matters.  On such words `x >> n` is division
    by Pow2(n), `x & (2^n - 1)` is the remainder modulo Pow2(n), and `x << n` is
    multiplication by Pow2(n) (reduced where the program's word would overflow). */
module Bits {

  function Pow2(n: nat): (r: nat)
    ensures r > 0
  {
    if n == 0 then 1 else 2 * Pow2(n - 1)
  }

  function Xor(a: nat, b: nat): nat
    decreases a, b
  {
    if a == 0 && b == 0 then 0 else 2 * Xor(a / 2, b / 2) + (a + b) % 2
  }

  lemma {:induction false} XorStep(a: nat, b: nat)
    ensures Xor(a, b) / 2 == Xor(a / 2, b / 2)
    ensures Xor(a, b) % 2 == (a + b) % 2
  {
  }

  /** Two words agree if their halves and their lowest bits do. */
  lemma {:induction false} SameBits(a: nat, b: nat)
    requires a / 2 == b / 2 && a % 2 == b % 2
    ensures a == b
  {
  }

  lemma {:induction false} XorZero(a: nat)
    ensures Xor(a, 0) == a && Xor(0, a) == a
  {
    if a != 0 {
      XorZero(a / 2);
    }
  }

  lemma {:induction false} XorSelf(a: nat)
    ensures Xor(a, a) == 0
  {
    if a != 0 {
      XorSelf(a / 2);
    }
  }

  lemma {:induction false} XorComm(a: nat, b: nat)
    ensures Xor(a, b) == Xor(b, a)
    decreases a, b
  {
    if a != 0 || b != 0 {
      XorComm(a / 2, b / 2);
    }
  }

  lemma {:induction false} XorAssoc(a: nat, b: nat, c: nat)
    ensures Xor(Xor(a, b), c) == Xor(a, Xor(b, c))
    decreases a, b, c
  {
    if a == 0 {
      XorZero(b);
      XorZero(Xor(b, c));
    } else {
      XorAssoc(a / 2, b / 2, c / 2);
      XorHalves(a, b, c);
      XorHalves(b, c, a);
      XorComm(Xor(b, c), a);
      XorComm(Xor(b / 2, c / 2), a / 2);
      SameBits(Xor(Xor(a, b), c), Xor(a, Xor(b, c)));
    }
  }

  lemma {:induction false} XorHalves(a: nat, b: nat, c: nat)
    ensures Xor(Xor(a, b), c) / 2 == Xor(Xor(a / 2, b / 2), c / 2)
    ensures Xor(Xor(a, b), c) % 2 == (a + b + c) % 2
  {
    hide Xor;
    XorStep(a, b);
    XorStep(Xor(a, b), c);
  }

  /** Adding a word twice cancels it. */
  lemma {:induction false} XorCancel(a: nat, b: nat)
    ensures Xor(Xor(a, b), b) == a
    ensures Xor(b, Xor(b, a)) == a
  {
    XorAssoc(a, b, b);
    XorAssoc(b, b, a);
    XorSelf(b);
    XorZero(a);
  }

  /** Exclusive-or is injective in each argument. */
  lemma {:induction false} XorInjective(a: nat, b: nat, c: nat)
    requires Xor(a, c) == Xor(b, c)
    ensures a == b
  {
    XorCancel(a, c);
    XorCancel(b, c);
  }

  /** (a + b) + (c + d) == (a + c) + (b + d). */
  lemma {:induction false} XorExchange(a: nat, b: nat, c: nat, d: nat)
    ensures Xor(Xor(a, b), Xor(c, d)) == Xor(Xor(a, c), Xor(b, d))
  {
    XorAssoc(a, b, Xor(c, d));
    XorAssoc(b, c, d);
    XorComm(b, c);
    XorAssoc(c, b, d);
    XorAssoc(a, c, Xor(b, d));
  }

  lemma {:induction false} XorBound(a: nat, b: nat, n: nat)
    requires a < Pow2(n) && b < Pow2(n)
    ensures Xor(a, b) < Pow2(n)
    decreases n
  {
    if n > 0 {
      XorBound(a / 2, b / 2, n - 1);
    }
  }

  /** `a >> n`. */
  function Shr(a: nat, n: nat): nat
    decreases n
  {
    if n == 0 then a else Shr(a / 2, n - 1)
  }

  /** `a & (2^n - 1)`: the lowest n bits. */
  function Low(a: nat, n: nat): (r: nat)
    ensures r < Pow2(n)
    decreases n
  {
    if n == 0 then 0 else 2 * Low(a / 2, n - 1) + a % 2
  }

  /** `a << n`, before any reduction to a word width. */
  function Shl(a: nat, n: nat): nat
  {
    if n == 0 then a else 2 * Shl(a, n - 1)
  }

  /** Splitting a word at position n loses nothing. */
  lemma {:induction false} SplitWord(a: nat, n: nat)
    ensures a == Shl(Shr(a, n), n) + Low(a, n)
    decreases n
  {
    if n > 0 {
      SplitWord(a / 2, n - 1);
    }
  }

  lemma {:induction false} SplitJoined(hi: nat, lo: nat, n: nat)
    requires lo < Pow2(n)
    ensures Shr(Shl(hi, n) + lo, n) == hi && Low(Shl(hi, n) + lo, n) == lo
  {
    if n > 0 {
      var w := Shl(hi, n) + lo;
      assert w / 2 == Shl(hi, n - 1) + lo / 2;
      SplitJoined(hi, lo / 2, n - 1);
    }
  }

  /** Appending one bit to both words appends the sum of the bits. */
  lemma {:induction false} XorAppend(x: nat, i: nat, y: nat, j: nat)
    requires i < 2 && j < 2
    ensures Xor(2 * x + i, 2 * y + j) == 2 * Xor(x, y) + (i + j) % 2
  {
    hide Xor;
    var a, b := 2 * x + i, 2 * y + j;
    assert a / 2 == x && b / 2 == y;
    XorStep(a, b);
  }

  lemma {:induction false} XorLowBits(a: nat, b: nat)
    ensures Xor(a, b) % 2 == (a % 2 + b % 2) % 2
  {
    hide Xor;
    XorStep(a, b);
  }

  /** Exclusive-or acts separately on the bits above position n ... */
  lemma {:induction false} XorShr(a: nat, b: nat, n: nat)
    ensures Shr(Xor(a, b), n) == Xor(Shr(a, n), Shr(b, n))
    decreases n
  {
    hide Xor;
    if n > 0 {
      XorStep(a, b);
      XorShr(a / 2, b / 2, n - 1);
    }
  }

  /** ... and on the bits below it. */
  lemma {:induction false} XorLow(a: nat, b: nat, n: nat)
    ensures Low(Xor(a, b), n) == Xor(Low(a, n), Low(b, n))
    decreases n
  {
    hide Xor;
    if n == 0 {
      XorZero(0);
    } else {
      var q := Xor(a, b);
      XorStep(a, b);
      XorLowBits(a, b);
      XorLow(a / 2, b / 2, n - 1);
      XorAppend(Low(a / 2, n - 1), a % 2, Low(b / 2, n - 1), b % 2);
      assert Low(q, n) == 2 * Low(q / 2, n - 1) + q % 2;
    }
  }

  /** Words joined from a high and a low part combine part by part. */
  lemma {:induction false} XorJoin(hi: nat, lo: nat, hi': nat, lo': nat, n: nat)
    requires lo < Pow2(n) && lo' < Pow2(n)
    ensures Xor(Shl(hi, n) + lo, Shl(hi', n) + lo') == Shl(Xor(hi, hi'), n) + Xor(lo, lo')
  {
    hide Xor;
    if n == 0 {
      XorZero(0);
    } else {
      XorJoin(hi, lo / 2, hi', lo' / 2, n - 1);
      XorAppend(Shl(hi, n - 1) + lo / 2, lo % 2, Shl(hi', n - 1) + lo' / 2, lo' % 2);
      XorAppend(lo / 2, lo % 2, lo' / 2, lo' % 2);
    }
  }

  // ----- Shifts by the widths the program uses -----

  lemma {:induction false} Shl8(a: nat)
    ensures Shl(a, 8) == 256 * a
  {
    ShlAdd(a, 4, 4);
    Shl4(a);
    Shl4(16 * a);
  }

  lemma {:induction false} Shl2(a: nat)
    ensures Shl(a, 2) == 4 * a
  {
    assert Shl(a, 1) == 2 * Shl(a, 0);
    assert Shl(a, 2) == 2 * Shl(a, 1);
  }

  lemma {:induction false} Shl4(a: nat)
    ensures Shl(a, 4) == 16 * a
  {
    ShlAdd(a, 2, 2);
    Shl2(a);
    Shl2(4 * a);
  }

  lemma {:induction false} Shl16(a: nat)
    ensures Shl(a, 16) == 65536 * a
  {
    ShlAdd(a, 8, 8);
    Shl8(a);
    Shl8(256 * a);
  }

  lemma {:induction false} ShlAdd(a: nat, m: nat, n: nat)
    ensures Shl(a, m + n) == Shl(Shl(a, m), n)
    decreases n
  {
    if n > 0 {
      ShlAdd(a, m, n - 1);
    }
  }

  /** Exclusive-or of words made of a low byte and the rest. */
  lemma {:induction false} XorByte(lo: nat, hi: nat, lo': nat, hi': nat)
    requires lo < 256 && lo' < 256
    ensures Xor(lo + 256 * hi, lo' + 256 * hi') == Xor(lo, lo') + 256 * Xor(hi, hi')
    ensures Xor(lo, lo') < 256
  {
    hide Xor;
    assert Pow2(8) == 256;
    Shl8(hi);
    Shl8(hi');
    Shl8(Xor(hi, hi'));
    XorJoin(hi, lo, hi', lo', 8);
    XorBound(lo, lo', 8);
  }
}
