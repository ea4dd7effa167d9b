/** The log and antilog tables of galois.h, and the operators that work on them,
    proved equal to polynomial arithmetic modulo the generator. */
module GaloisTables {
  import opened Arithmetic
  import opened Bits
  import opened Polynomials
  import opened Walk

  /** Repeated multiplication. */
  function PowN(g: Galois, a: nat, n: nat): nat
    decreases n
  {
    if n == 0 then 1 else Mul(g, a, PowN(g, a, n - 1))
  }

  /** a divided by b: a times the (Limit-1)-th power of b. */
  function Div(g: Galois, a: nat, b: nat): nat
    requires g.Valid()
  {
    Mul(g, a, PowN(g, b, g.Limit() - 1))
  }

  lemma {:induction false} PowNHas(g: Galois, a: nat, n: nat)
    requires g.Valid() && g.Has(a)
    ensures g.Has(PowN(g, a, n))
    decreases n
  {
    if n == 0 {
      assert 1 < g.Count();
    } else {
      MulHas(g, a, PowN(g, a, n - 1));
    }
  }

  /** Powers of x multiply their exponents. */
  lemma {:induction false} PowNOfPower(g: Galois, l: nat, n: nat)
    requires g.Valid()
    ensures l * n >= 0
    ensures PowN(g, Power(g, l), n) == Power(g, l * n)
    decreases n
  {
    if n > 0 {
      PowNOfPower(g, l, n - 1);
      PowerAdd(g, l, l * (n - 1));
      assert l * n == l + l * (n - 1);
    }
  }

  /** Every nonzero element has order dividing Limit. */
  lemma {:induction false} PowNLimit(g: Galois, a: nat)
    requires Primitive(g) && 0 < a < g.Count()
    ensures PowN(g, a, g.Limit()) == 1
  {
    var l := Log(g, a);
    PowNOfPower(g, l, g.Limit());
    PowerPeriod(g, g.Limit(), l, 0);
    assert l * g.Limit() == g.Limit() * l + 0;
  }

  /** (a / b) * b == a. */
  lemma {:induction false} DivMul(g: Galois, a: nat, b: nat)
    requires Primitive(g) && g.Has(a) && 0 < b < g.Count()
    ensures g.Has(Div(g, a, b)) && Mul(g, Div(g, a, b), b) == a
  {
    var i := PowN(g, b, g.Limit() - 1);
    PowNHas(g, b, g.Limit() - 1);
    MulHas(g, a, i);
    MulAssoc(g, a, i, b);
    MulComm(g, i, b);
    PowNLimit(g, b);
    MulOneRight(g, a);
  }

  /** Division is determined: there is only one quotient. */
  lemma {:induction false} DivUnique(g: Galois, a: nat, b: nat, c: nat)
    requires Primitive(g) && g.Has(a) && 0 < b < g.Count() && g.Has(c) && Mul(g, c, b) == a
    ensures Div(g, a, b) == c
  {
    var i := PowN(g, b, g.Limit() - 1);
    PowNHas(g, b, g.Limit() - 1);
    MulAssoc(g, c, b, i);
    PowNLimit(g, b);
    MulOneRight(g, c);
  }

  class GaloisTable {
    const g: Galois
    const log: array<nat>
    const antilog: array<nat>

    ghost predicate Valid()
      reads log, antilog
    {
      && Primitive(g)
      && log.Length == antilog.Length == g.Count()
      && log[0] == g.Limit() && antilog[g.Limit()] == 0
      && (forall l :: 0 <= l < g.Limit() ==> antilog[l] == Power(g, l))
      && (forall v :: 0 < v < g.Count() ==> log[v] == Log(g, v))
    }

    /** The walk b = 1, x, x^2, ... that fills both tables. */
    constructor (g: Galois)
      requires Primitive(g)
      ensures this.g == g && Valid() && fresh(log) && fresh(antilog)
    {
      this.g := g;
      log := new nat[g.Count()];
      antilog := new nat[g.Count()];
      new;
      Fill();
    }

    method Fill()
      requires Primitive(g) && log != antilog && log.Length == antilog.Length == g.Count()
      modifies log, antilog
      ensures Valid()
    {
      hide Power;
      hide Log;
      hide Xor;
      hide Pow2;
      hide Primitive;
      var b := 1;
      var l := 0;
      WalkStep(g, 0);
      while l < g.Limit()
        invariant 0 <= l <= g.Limit()
        invariant b == Power(g, l)
        invariant forall i :: 0 <= i < l ==> antilog[i] == Power(g, i)
        invariant forall v :: 0 < v < g.Count() && Log(g, v) < l ==> log[v] == Log(g, v)
      {
        WalkStep(g, l);
        log[b] := l;
        antilog[l] := b;
        b := 2 * b;
        if b >= g.Count() {
          b := Xor(b, g.generator);
        }
        l := l + 1;
      }
      log[0] := g.Limit();
      antilog[g.Limit()] := 0;
    }

    /** operator * */
    function Times(left: nat, right: nat): (r: nat)
      requires Valid() && g.Has(left) && g.Has(right)
      reads log, antilog
      ensures r == Mul(g, left, right)
    {
      if left == 0 || right == 0 then
        MulZeroLeft(g, right);
        0
      else
        var sum := log[left] + log[right];
        SumOfLogs(g, left, right);
        if sum >= g.Limit() then antilog[sum - g.Limit()] else antilog[sum]
    }

    /** operator / */
    function DividedBy(left: nat, right: nat): (r: nat)
      requires Valid() && g.Has(left) && g.Has(right)
      reads log, antilog
      ensures right != 0 ==> r == Div(g, left, right)
    {
      if left == 0 then
        MulZeroLeft(g, PowN(g, right, g.Limit() - 1));
        0
      else if right == 0 then 0
      else
        var i: int, j: int := log[left], log[right];
        var sum := i - j;
        DifferenceOfLogs(g, left, right);
        if sum < 0 then antilog[sum + g.Limit()] else antilog[sum]
    }

    /** pow: the product of log and exponent fits a 32-bit word, and folding its two
        halves gives an index below twice Limit. */
    function RaisedTo(left: nat, right: nat): (r: nat)
      requires Valid() && g.bits <= 16 && g.Has(left) && right <= g.Limit()
      reads log, antilog
      ensures left != 0 ==> log[left] * right < 0x1_0000_0000
      ensures r == PowN(g, left, right)
    {
      if right == 0 then 1
      else if left == 0 then
        MulZeroLeft(g, PowN(g, left, right - 1));
        0
      else
        ProductFits(g, log[left], right);
        var product := log[left] * right;
        Folded(g, log[left], right, product);
        var sum := Fold(product, g.Count());
        if sum >= g.Limit() then antilog[sum - g.Limit()] else antilog[sum]
    }
  }

  lemma {:induction false} SumOfLogs(g: Galois, a: nat, b: nat)
    requires Primitive(g) && g.Valid() && 0 < a < g.Count() && 0 < b < g.Count()
    ensures Mul(g, a, b) == Power(g, Log(g, a) + Log(g, b))
    ensures Log(g, a) + Log(g, b) >= g.Limit() ==>
              Mul(g, a, b) == Power(g, Log(g, a) + Log(g, b) - g.Limit())
  {
    var i, j := Log(g, a), Log(g, b);
    assert Power(g, i) == a && Power(g, j) == b;
    hide *;
    PowerAdd(g, i, j);
    if i + j >= g.Limit() {
      Period(g, 1, i + j - g.Limit(), i + j);
    }
  }

  lemma {:induction false} DifferenceOfLogs(g: Galois, a: nat, b: nat)
    requires Primitive(g) && 0 < a < g.Count() && 0 < b < g.Count()
    ensures var d := Log(g, a) - Log(g, b);
            Div(g, a, b) == Power(g, if d < 0 then d + g.Limit() else d)
  {
    var i, j := Log(g, a), Log(g, b);
    var d := if i - j < 0 then i - j + g.Limit() else i - j;
    PowerAdd(g, d, j);
    if i < j {
      PowerPeriod(g, g.Limit(), 1, i);
    }
    PowerHas(g, d);
    DivUnique(g, a, b, Power(g, d));
  }

  lemma {:induction false} ProductFits(g: Galois, l: nat, n: nat)
    requires g.bits <= 16 && l < g.Limit() && n <= g.Limit()
    ensures 0 <= l * n < 0x1_0000_0000
  {
    Pow2Monotone(g.bits, 16);
    assert Pow2(8) == 256;
    assert Pow2(16) == 256 * Pow2(8);
    WordProduct(l, n);
  }

  lemma {:induction false} WordProduct(l: nat, n: nat)
    requires l <= 65535 && n <= 65535
    ensures 0 <= l * n <= 65535 * 65535
  {
    MulMonotone(n, l, 65535);
  }

  lemma {:induction false} Pow2Monotone(m: nat, n: nat)
    requires m <= n
    ensures Pow2(m) <= Pow2(n)
    decreases n
  {
    if m < n {
      Pow2Monotone(m, n - 1);
    }
  }

  /** `(p >> bits) + (p & Limit)`, with c == 2^bits. */
  function Fold(p: nat, c: nat): nat
    requires c > 0
  {
    p / c + p % c
  }

  lemma {:induction false} FoldSplit(p: nat, c: nat) returns (q: nat, r: nat)
    requires c > 0
    ensures p == c * q + r && r < c && Fold(p, c) == q + r
  {
    q, r := p / c, p % c;
  }

  lemma {:induction false} HighPartSmall(l: nat, n: nat, m: nat, q: nat)
    requires l < m && n <= m && (m + 1) * q <= l * n
    ensures q < m
  {
    MulMonotone(l, n, m);
    MulMonotone(m, l, m - 1);
    assert m * (m - 1) < (m + 1) * m;
    if q >= m {
      MulMonotone(m + 1, m, q);
    }
  }

  /** Folding the product at 2^bits keeps its residue modulo Limit = 2^bits - 1. */
  lemma {:induction false} Folded(g: Galois, l: nat, n: nat, p: nat)
    requires Primitive(g) && l < g.Limit() && n <= g.Limit() && p == l * n
    ensures var sum := Fold(p, g.Count());
            && sum < 2 * g.Limit()
            && PowN(g, Power(g, l), n) == Power(g, if sum >= g.Limit() then sum - g.Limit() else sum)
  {
    var m := g.Limit();
    assert g.Valid() && g.Count() == m + 1;
    hide *;
    PowNAt(g, l, n, p);
    var q, r := FoldSplit(p, m + 1);
    SumTimes(q, m, 1);
    HighPartSmall(l, n, m, q);
    Period(g, q, q + r, p);
    if q + r >= m {
      Period(g, 1, q + r - m, q + r);
    }
  }

  lemma {:induction false} PowNAt(g: Galois, l: nat, n: nat, p: nat)
    requires g.Valid() && p == l * n
    ensures PowN(g, Power(g, l), n) == Power(g, p)
  {
    PowNOfPower(g, l, n);
  }

  lemma {:induction false} Period(g: Galois, k: nat, i: nat, s: nat)
    requires Primitive(g) && s == g.Limit() * k + i
    ensures Power(g, s) == Power(g, i)
  {
    PowerPeriod(g, g.Limit(), k, i);
  }

  /** One round of the table constructor. */
  lemma {:induction false} WalkStep(g: Galois, l: nat)
    requires Primitive(g)
    ensures Power(g, 0) == 1
    ensures 0 < Power(g, l) < g.Count()
    ensures l < g.Limit() ==> Log(g, Power(g, l)) == l
    ensures var b := 2 * Power(g, l);
            Power(g, l + 1) == if b >= g.Count() then Xor(b, g.generator) else b
  {
    PowerNonzero(g, l);
    PowerHas(g, l);
    if l < g.Limit() {
      LogOfPower(g, l);
    }
  }
}
