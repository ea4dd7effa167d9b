/** The table-driven multiply-accumulate loops: GaloisLongMultiplyTable of galois.h and the
    portable paths of InternalProcess in reedsolomon.cpp. */
module LongMultiply {
  import opened Bits
  import opened Bytes
  import opened Polynomials
  import opened Walk
  import opened GaloisTables

  // ----- The table -----

  /** Row p, line ii, entry jj of a table of 256-by-256 blocks. */
  function Entry(p: nat, ii: nat, jj: nat): nat {
    (p * 256 + ii) * 256 + jj
  }

  class GaloisLongMultiplyTable {
    const g: Galois
    const bytes: nat
    const tables: array<nat>

    /** Block 0 holds low * low, block 1 low * high, block 2 high * high. */
    ghost predicate Valid()
      reads tables
    {
      && Primitive(g) && g.bits == 8 * bytes && (bytes == 1 || bytes == 2)
      && tables.Length == (if bytes == 1 then 65536 else 196608)
      && (forall ii, jj :: 0 <= ii < 256 && 0 <= jj < 256 ==> tables[Entry(0, ii, jj)] == Mul(g, ii, jj))
      && (bytes == 2 ==> forall ii, jj :: 0 <= ii < 256 && 0 <= jj < 256 ==>
            && tables[Entry(1, ii, jj)] == Mul(g, ii, 256 * jj)
            && tables[Entry(2, ii, jj)] == Mul(g, 256 * ii, 256 * jj))
    }

    constructor (t: GaloisTable, bytes: nat)
      requires t.Valid() && t.g.bits == 8 * bytes && (bytes == 1 || bytes == 2)
      ensures g == t.g && this.bytes == bytes && Valid() && fresh(tables)
    {
      g := t.g;
      this.bytes := bytes;
      tables := new nat[if bytes == 1 then 65536 else 196608];
      new;
      FillBlock(t, 0, 1, 1);
      if bytes == 2 {
        FillBlock(t, 1, 1, 256);
        FillBlock(t, 2, 256, 256);
      }
    }

    /** One block: all products of two bytes shifted to their places. */
    method FillBlock(t: GaloisTable, p: nat, ishift: nat, jshift: nat)
      requires t.Valid() && t.g == g && g.bits == 8 * bytes && (bytes == 1 || bytes == 2)
      requires tables.Length == (if bytes == 1 then 65536 else 196608) && Entry(p, 255, 255) < tables.Length
      requires ishift in {1, 256} && jshift in {1, 256} && (bytes == 1 ==> ishift == jshift == 1)
      requires tables != t.log && tables != t.antilog
      modifies tables
      ensures forall ii, jj :: 0 <= ii < 256 && 0 <= jj < 256 ==>
                tables[Entry(p, ii, jj)] == Mul(g, ishift * ii, jshift * jj)
      ensures forall i :: 0 <= i < tables.Length && !(Entry(p, 0, 0) <= i <= Entry(p, 255, 255)) ==>
                tables[i] == old(tables[i])
    {
      hide Mul;
      hide Primitive;
      for ii := 0 to 256
        invariant t.Valid()
        invariant forall k, jj :: 0 <= k < ii && 0 <= jj < 256 ==>
                    tables[Entry(p, k, jj)] == Mul(g, ishift * k, jshift * jj)
        invariant forall i :: 0 <= i < tables.Length && !(Entry(p, 0, 0) <= i <= Entry(p, 255, 255)) ==>
                    tables[i] == old(tables[i])
      {
        FillTableRow(t, p, ii, ishift, jshift);
      }
    }

    method FillTableRow(t: GaloisTable, p: nat, ii: nat, ishift: nat, jshift: nat)
      requires t.Valid() && t.g == g && g.bits == 8 * bytes && (bytes == 1 || bytes == 2)
      requires tables.Length == (if bytes == 1 then 65536 else 196608) && Entry(p, 255, 255) < tables.Length && ii < 256
      requires ishift in {1, 256} && jshift in {1, 256} && (bytes == 1 ==> ishift == jshift == 1)
      requires tables != t.log && tables != t.antilog
      modifies tables
      ensures forall jj :: 0 <= jj < 256 ==> tables[Entry(p, ii, jj)] == Mul(g, ishift * ii, jshift * jj)
      ensures forall i :: 0 <= i < tables.Length && !(Entry(p, ii, 0) <= i <= Entry(p, ii, 255)) ==>
                tables[i] == old(tables[i])
    {
      hide Mul;
      hide Primitive;
      hide GaloisTable.Valid;
      for jj := 0 to 256
        invariant t.Valid()
        invariant forall l :: 0 <= l < jj ==> tables[Entry(p, ii, l)] == Mul(g, ishift * ii, jshift * l)
        invariant forall i :: 0 <= i < tables.Length && !(Entry(p, ii, 0) <= i <= Entry(p, ii, 255)) ==>
                    tables[i] == old(tables[i])
      {
        ByteFits(g, bytes, ii, ishift);
        ByteFits(g, bytes, jj, jshift);
        tables[Entry(p, ii, jj)] := t.Times(ishift * ii, jshift * jj);
      }
    }
  }

  lemma {:induction false} ByteFits(g: Galois, bytes: nat, b: nat, shift: nat)
    requires g.bits == 8 * bytes && (bytes == 1 || bytes == 2) && b < 256
    requires shift in {1, 256} && (bytes == 1 ==> shift == 1)
    ensures g.Has(shift * b)
  {
    assert Pow2(8) == 256;
    assert Pow2(16) == 256 * Pow2(8);
  }

  /** What the table holds, entry by entry. */
  lemma {:induction false} Products(t: GaloisLongMultiplyTable, ii: nat, jj: nat)
    requires t.Valid() && ii < 256 && jj < 256
    ensures t.g.Valid() && t.g.bits == 8 * t.bytes
    ensures Entry(0, ii, jj) < t.tables.Length && t.tables[Entry(0, ii, jj)] == Mul(t.g, ii, jj)
    ensures t.bytes == 2 ==> Entry(1, ii, jj) < t.tables.Length && t.tables[Entry(1, ii, jj)] == Mul(t.g, ii, 256 * jj)
    ensures t.bytes == 2 ==>
              Entry(2, ii, jj) < t.tables.Length && t.tables[Entry(2, ii, jj)] == Mul(t.g, 256 * ii, 256 * jj)
  {
    hide Mul;
  }

  // ----- Words and bytes -----

  /** A little-endian pair of bytes, and a little-endian 32-bit word. */
  function Pair(lo: nat, hi: nat): nat {
    lo + 256 * hi
  }

  function Word(b0: nat, b1: nat, b2: nat, b3: nat): nat {
    b0 + 256 * (b1 + 256 * (b2 + 256 * b3))
  }

  /** Exclusive-or of words made of two 16-bit lanes. */
  lemma {:induction false} XorLanes(lo: nat, hi: nat, lo': nat, hi': nat)
    requires lo < 65536 && lo' < 65536
    ensures Xor(lo + 65536 * hi, lo' + 65536 * hi') == Xor(lo, lo') + 65536 * Xor(hi, hi')
    ensures Xor(lo, lo') < 65536
  {
    hide Xor;
    assert Pow2(8) == 256;
    assert Pow2(16) == 256 * Pow2(8);
    Shl16(hi);
    Shl16(hi');
    Shl16(Xor(hi, hi'));
    XorJoin(hi, lo, hi', lo', 16);
    XorBound(lo, lo', 16);
  }

  // ----- GF(2^16): InternalProcess -----

  /** A 16-bit product from the products of its bytes. */
  lemma {:induction false} SplitProduct(g: Galois, factor: nat, low: nat, high: nat)
    requires g.Valid() && g.bits == 16 && factor < 65536 && low < 256 && high < 256
    ensures var fl, fh := factor % 256, factor / 256;
            Mul(g, factor, low + 256 * high) ==
            Xor(Xor(Mul(g, fl, low), Mul(g, low, 256 * fh)), Xor(Mul(g, fl, 256 * high), Mul(g, 256 * fh, 256 * high)))
  {
    hide Mul;
    hide Xor;
    var fl, fh := factor % 256, factor / 256;
    assert Pow2(8) == 256;
    assert Pow2(16) == 256 * Pow2(8);
    XorByte(low, 0, 0, high);
    XorZero(low);
    XorZero(high);
    XorByte(fl, 0, 0, fh);
    XorZero(fl);
    XorZero(fh);
    assert Xor(low, 256 * high) == low + 256 * high && Xor(fl, 256 * fh) == factor;
    MulAddRight(g, factor, low, 256 * high);
    MulAddLeft(g, fl, 256 * fh, low);
    MulAddLeft(g, fl, 256 * fh, 256 * high);
    MulComm(g, 256 * fh, low);
  }

  /** The two lookup tables combined from the four multiplication tables for one factor. */
  predicate Combined(g: Galois, factor: nat, L: seq<nat>, H: seq<nat>) {
    && |L| == 256 && |H| == 256 && factor < 65536
    && (forall i :: 0 <= i < 256 ==>
          L[i] == Xor(Mul(g, factor % 256, i), Mul(g, i, 256 * (factor / 256))))
    && (forall i :: 0 <= i < 256 ==>
          H[i] == Xor(Mul(g, factor % 256, 256 * i), Mul(g, 256 * (factor / 256), 256 * i)))
  }

  /** Looking up both bytes of a lane multiplies it by the factor. */
  lemma {:induction false} LookupLane(g: Galois, factor: nat, L: seq<nat>, H: seq<nat>, lane: nat)
    requires g.Valid() && g.bits == 16 && Combined(g, factor, L, H) && lane < 65536
    ensures Xor(L[lane % 256], H[lane / 256]) == Mul(g, factor, lane)
    ensures L[lane % 256] < 65536 && H[lane / 256] < 65536
    ensures Mul(g, factor, lane) < 65536
  {
    hide Mul;
    hide Xor;
    assert Pow2(8) == 256;
    assert Pow2(16) == 256 * Pow2(8);
    var fl, fh, low, high := factor % 256, factor / 256, lane % 256, lane / 256;
    SplitProduct(g, factor, low, high);
    assert lane == low + 256 * high;
    MulHas(g, fl, low);
    MulHas(g, low, 256 * fh);
    MulHas(g, fl, 256 * high);
    MulHas(g, 256 * fh, 256 * high);
    MulHas(g, factor, lane);
    XorHas(g, Mul(g, fl, low), Mul(g, low, 256 * fh));
    XorHas(g, Mul(g, fl, 256 * high), Mul(g, 256 * fh, 256 * high));
  }

  /** One round of the loop: `d` from source word `s` and destination word `dst`. */
  function Round(L: seq<nat>, H: seq<nat>, s: nat, dst: nat): nat
    requires |L| == 256 && |H| == 256 && s < 0x1_0000_0000
  {
    var sw := s / 65536;
    var d := L[sw % 256];
    var d := Xor(d, H[sw / 256]);
    var d := d * 65536 % 0x1_0000_0000;
    Xor(d, Xor(Xor(dst, L[s % 256]), H[s % 65536 / 256]))
  }

  /** One round adds factor times each source lane to the destination lane. */
  lemma {:induction false} RoundLanes(g: Galois, factor: nat, L: seq<nat>, H: seq<nat>, lo: nat, hi: nat, lo': nat,
                                      hi': nat)
    requires g.Valid() && g.bits == 16 && Combined(g, factor, L, H)
    requires lo < 65536 && hi < 65536 && lo' < 65536 && hi' < 65536
    ensures Round(L, H, lo + 65536 * hi, lo' + 65536 * hi') ==
            Xor(lo', Mul(g, factor, lo)) + 65536 * Xor(hi', Mul(g, factor, hi))
    ensures Xor(lo', Mul(g, factor, lo)) < 65536 && Xor(hi', Mul(g, factor, hi)) < 65536
  {
    hide Mul;
    hide Xor;
    hide Combined;
    LookupLane(g, factor, L, H, lo);
    LookupLane(g, factor, L, H, hi);
    CombinedSize(g, factor, L, H);
    var s, dst := lo + 65536 * hi, lo' + 65536 * hi';
    var p, q := Mul(g, factor, lo), Mul(g, factor, hi);
    WordParts(lo, hi);
    var a, b := L[lo % 256], H[lo / 256];
    XorAssoc(dst, a, b);
    XorLanes(lo', hi', p, 0);
    XorZero(hi');
    XorLanes(0, q, Xor(lo', p), hi');
    XorZero(Xor(lo', p));
    XorComm(q, hi');
    XorLanes(hi', 0, q, 0);
  }

  lemma {:induction false} WordParts(lo: nat, hi: nat)
    requires lo < 65536 && hi < 65536
    ensures var s := lo + 65536 * hi;
            s / 65536 == hi && s % 65536 == lo && s % 256 == lo % 256 && s % 65536 / 256 == lo / 256
  {
  }

  lemma {:induction false} CombinedSize(g: Galois, factor: nat, L: seq<nat>, H: seq<nat>)
    requires Combined(g, factor, L, H)
    ensures |L| == 256 && |H| == 256
  {
  }

  function Lane16(b: seq<byte>, k: nat): nat
    requires 2 * k + 1 < |b|
  {
    Pair(b[2 * k], b[2 * k + 1])
  }

  /** Two tables with the product for each byte of a lane, from the four of the pairs of bytes. */
  method CombineTables(t: GaloisLongMultiplyTable, factor: nat) returns (L: array<nat>, H: array<nat>)
    requires t.Valid() && t.bytes == 2 && factor < 65536
    ensures fresh(L) && fresh(H) && Combined(t.g, factor, L[..], H[..])
  {
    hide Mul;
    hide Xor;
    hide Entry;
    hide GaloisLongMultiplyTable.Valid;
    var fl, fh := factor % 256, factor / 256;
    L, H := new nat[256], new nat[256];
    for i := 0 to 256
      invariant forall k :: 0 <= k < i ==> L[k] == Xor(Mul(t.g, fl, k), Mul(t.g, k, 256 * fh))
      invariant forall k :: 0 <= k < i ==> H[k] == Xor(Mul(t.g, fl, 256 * k), Mul(t.g, 256 * fh, 256 * k))
    {
      Products(t, fl, i);
      Products(t, i, fh);
      Products(t, fh, i);
      L[i] := Xor(t.tables[Entry(0, fl, i)], t.tables[Entry(1, i, fh)]);
      H[i] := Xor(t.tables[Entry(1, fl, i)], t.tables[Entry(2, fh, i)]);
    }
  }

  /** Read a 32-bit word. */
  function LoadWord(b: seq<byte>, i: nat): (w: nat)
    requires i + 4 <= |b|
    ensures w < 0x1_0000_0000
    ensures w == Pair(b[i], b[i + 1]) + 65536 * Pair(b[i + 2], b[i + 3])
  {
    Word(b[i], b[i + 1], b[i + 2], b[i + 3])
  }

  method StoreWord(a: array<byte>, i: nat, w: nat)
    requires i + 4 <= a.Length && w < 0x1_0000_0000
    modifies a
    ensures Pair(a[i], a[i + 1]) == w % 65536 && Pair(a[i + 2], a[i + 3]) == w / 65536
    ensures a[i] == w % 256 && a[i + 1] == w / 256 % 256 && a[i + 2] == w / 65536 % 256 && a[i + 3] == w / 16777216
    ensures forall k :: 0 <= k < a.Length && !(i <= k < i + 4) ==> a[k] == old(a[k])
  {
    BytesOf(w);
    a[i] := w % 256;
    a[i + 1] := w / 256 % 256;
    a[i + 2] := w / 65536 % 256;
    a[i + 3] := w / 16777216;
  }

  lemma {:induction false} BytesOf(w: nat)
    requires w < 0x1_0000_0000
    ensures w / 16777216 < 256
    ensures Pair(w % 256, w / 256 % 256) == w % 65536
    ensures Pair(w / 65536 % 256, w / 16777216) == w / 65536
  {
    var b0, w1 := w % 256, w / 256;
    var b1, w2 := w1 % 256, w1 / 256;
    var b2, b3 := w2 % 256, w2 / 256;
    assert w == b0 + 256 * b1 + 65536 * b2 + 16777216 * b3;
    assert w / 65536 == w2;
    assert w / 16777216 == b3;
  }

  /** InternalProcess for GF(2^16): 32 bits at a time, it adds factor times the source lane to every
      16-bit lane of the output.  The size is a positive multiple of 4. */
  method InternalProcess16(t: GaloisLongMultiplyTable, factor: nat, inputbuffer: array<byte>, outputbuffer: array<byte>,
                           size: nat)
    requires t.Valid() && t.bytes == 2 && factor < 65536 && inputbuffer != outputbuffer
    requires size > 0 && size % 4 == 0 && size <= inputbuffer.Length && size <= outputbuffer.Length
    modifies outputbuffer
    ensures forall k :: 0 <= k < size / 2 ==>
              Lane16(outputbuffer[..], k) ==
              Xor(Lane16(old(outputbuffer[..]), k), Mul(t.g, factor, Lane16(inputbuffer[..], k)))
    ensures forall i :: size <= i < outputbuffer.Length ==> outputbuffer[i] == old(outputbuffer[i])
  {
    assert t.g.Valid() && t.g.bits == 16;
    hide *;
    ghost var out0 := outputbuffer[..];
    Quarters(size);
    var L, H := CombineTables(t, factor);
    ProcessWords(t.g, factor, L, H, inputbuffer, outputbuffer, size);
    ScaledEnd(t.g, factor, inputbuffer[..], out0, outputbuffer[..], size / 2);
  }

  /** The loop over the words. */
  method ProcessWords(ghost g: Galois, ghost factor: nat, L: array<nat>, H: array<nat>, inputbuffer: array<byte>,
                      outputbuffer: array<byte>, size: nat)
    requires g.Valid() && g.bits == 16 && factor < 65536 && inputbuffer != outputbuffer
    requires Combined(g, factor, L[..], H[..])
    requires size % 4 == 0 && size == 2 * (size / 2) && size <= inputbuffer.Length && size <= outputbuffer.Length
    modifies outputbuffer
    ensures Scaled(g, factor, inputbuffer[..], old(outputbuffer[..]), outputbuffer[..], size / 2)
    ensures forall i :: size <= i < outputbuffer.Length ==> outputbuffer[i] == old(outputbuffer[i])
  {
    hide *;
    ghost var out0, in0 := outputbuffer[..], inputbuffer[..];
    ScaledStart(g, factor, in0, out0);
    Quarters(size);
    var src := 0;
    ghost var words := 0;
    while src < size
      invariant src == 4 * words && words <= size / 4
      invariant Scaled(g, factor, in0, out0, outputbuffer[..], 2 * words)
      invariant forall i :: src <= i < outputbuffer.Length ==> outputbuffer[i] == out0[i]
    {
      ghost var before := outputbuffer[..];
      Quarters(src);
      StepWord(g, factor, L[..], H[..], inputbuffer, outputbuffer, src);
      ScaledNext(g, factor, in0, out0, before, outputbuffer[..], 2 * words);
      src := src + 4;
      words := words + 1;
    }
  }

  lemma {:induction false} Quarters(n: nat)
    ensures n % 4 == 0 ==> n == 4 * (n / 4) && n / 2 == 2 * (n / 4)
    ensures forall q: nat :: n == 4 * q ==> n % 4 == 0 && n / 2 == 2 * q
  {
  }

  /** The first n lanes are done, the others are as they were. */
  ghost predicate Scaled(g: Galois, factor: nat, in0: seq<byte>, out0: seq<byte>, out: seq<byte>, n: nat)
    requires g.Valid() && g.bits == 16 && factor < 65536 && 2 * n <= |in0|
  {
    && |out| == |out0|
    && forall k :: 0 <= k < |out| / 2 ==>
         Lane16(out, k) == if k < n then Xor(Lane16(out0, k), Mul(g, factor, Lane16(in0, k))) else Lane16(out0, k)
  }

  lemma {:induction false} ScaledStart(g: Galois, factor: nat, in0: seq<byte>, out0: seq<byte>)
    requires g.Valid() && g.bits == 16 && factor < 65536
    ensures Scaled(g, factor, in0, out0, out0, 0)
  {
  }

  lemma {:induction false} ScaledEnd(g: Galois, factor: nat, in0: seq<byte>, out0: seq<byte>, out: seq<byte>, n: nat)
    requires g.Valid() && g.bits == 16 && factor < 65536 && 2 * n <= |in0| && Scaled(g, factor, in0, out0, out, n)
    requires 2 * n <= |out|
    ensures |out| == |out0|
    ensures forall k :: 0 <= k < n ==> Lane16(out, k) == Xor(Lane16(out0, k), Mul(g, factor, Lane16(in0, k)))
  {
    hide Mul, Xor, Lane16, Galois.Valid;
  }

  lemma {:induction false} ScaledNext(g: Galois, factor: nat, in0: seq<byte>, out0: seq<byte>, before: seq<byte>,
                                      out: seq<byte>, n: nat)
    requires g.Valid() && g.bits == 16 && factor < 65536 && 2 * n + 4 <= |in0| && |out| == |before|
    requires Scaled(g, factor, in0, out0, before, n)
    requires forall k :: 0 <= k < |out| / 2 ==>
               Lane16(out, k) ==
               if n <= k < n + 2 then Xor(Lane16(before, k), Mul(g, factor, Lane16(in0, k))) else Lane16(before, k)
    ensures Scaled(g, factor, in0, out0, out, n + 2)
  {
    hide Mul, Xor, Lane16, Galois.Valid;
  }

  /** One round of the loop on the buffers. */
  method StepWord(ghost g: Galois, ghost factor: nat, L: seq<nat>, H: seq<nat>,
                  inputbuffer: array<byte>, outputbuffer: array<byte>, src: nat)
    requires g.Valid() && g.bits == 16 && Combined(g, factor, L, H) && inputbuffer != outputbuffer
    requires src % 4 == 0 && src + 4 <= inputbuffer.Length && src + 4 <= outputbuffer.Length
    modifies outputbuffer
    ensures forall k :: 0 <= k < outputbuffer.Length / 2 ==>
              Lane16(outputbuffer[..], k) ==
              if src / 2 <= k < src / 2 + 2
              then Xor(Lane16(old(outputbuffer[..]), k), Mul(g, factor, Lane16(inputbuffer[..], k)))
              else Lane16(old(outputbuffer[..]), k)
    ensures forall i :: 0 <= i < outputbuffer.Length && !(src <= i < src + 4) ==>
              outputbuffer[i] == old(outputbuffer[i])
  {
    hide Mul;
    hide Xor;
    hide Combined;
    hide Round;
    hide Lane16;
    CombinedSize(g, factor, L, H);
    ghost var out0, in0, k := outputbuffer[..], inputbuffer[..], src / 2;
    var s := LoadWord(inputbuffer[..], src);
    var dst := LoadWord(outputbuffer[..], src);
    LaneAt(in0, src);
    LaneAt(out0, src);
    RoundLanes(g, factor, L, H, Lane16(in0, k), Lane16(in0, k + 1), Lane16(out0, k), Lane16(out0, k + 1));
    var w := Round(L, H, s, dst);
    SplitLanes(Xor(Lane16(out0, k), Mul(g, factor, Lane16(in0, k))),
               Xor(Lane16(out0, k + 1), Mul(g, factor, Lane16(in0, k + 1))), w);
    hide LoadWord;
    StoreWord(outputbuffer, src, w);
    LaneAt(outputbuffer[..], src);
    assert src == 2 * k;
    LanesElsewhere(out0, outputbuffer[..], k);
  }

  lemma {:induction false} SplitLanes(lo: nat, hi: nat, w: nat)
    requires lo < 65536 && hi < 65536 && w == lo + 65536 * hi
    ensures w % 65536 == lo && w / 65536 == hi && w < 0x1_0000_0000
  {
  }

  lemma {:induction false} LaneAt(b: seq<byte>, src: nat)
    requires src % 4 == 0 && src + 4 <= |b|
    ensures Lane16(b, src / 2) == Pair(b[src], b[src + 1]) && Lane16(b, src / 2 + 1) == Pair(b[src + 2], b[src + 3])
    ensures Lane16(b, src / 2) < 65536 && Lane16(b, src / 2 + 1) < 65536
  {
  }

  lemma {:induction false} LanesElsewhere(b: seq<byte>, b': seq<byte>, h: nat)
    requires |b| == |b'|
    requires forall i :: 0 <= i < |b| && !(2 * h <= i < 2 * h + 4) ==> b'[i] == b[i]
    ensures forall k :: 0 <= k < |b| / 2 && !(h <= k < h + 2) ==> Lane16(b', k) == Lane16(b, k)
  {
    forall k | 0 <= k < |b| / 2 && !(h <= k < h + 2)
      ensures Lane16(b', k) == Lane16(b, k)
    {
      LaneSame(b, b', h, k);
    }
  }

  lemma {:induction false} LaneSame(b: seq<byte>, b': seq<byte>, h: nat, k: nat)
    requires |b| == |b'| && 2 * k + 1 < |b| && !(h <= k < h + 2)
    requires forall i :: 0 <= i < |b| && !(2 * h <= i < 2 * h + 4) ==> b'[i] == b[i]
    ensures Lane16(b', k) == Lane16(b, k)
  {
    var i, j := 2 * k, 2 * k + 1;
    assert b'[i] == b[i] && b'[j] == b[j];
  }

  // ----- GF(2^8): InternalProcess -----

  /** The lookup table for one factor. */
  predicate Lookup(g: Galois, factor: nat, L: seq<nat>) {
    |L| == 256 && forall i :: 0 <= i < 256 ==> L[i] == Mul(g, factor, i) && L[i] < 256
  }

  /** One round of the 8-bit loop. */
  function Round8(L: seq<nat>, s: nat, dst: nat): nat
    requires |L| == 256
  {
    Xor(dst,
        Xor(Xor(Xor(L[s % 256], 256 * L[s / 256 % 256]), 65536 * L[s / 65536 % 256]), 16777216 * L[s / 16777216 % 256]))
  }

  lemma {:induction false} XorFourBytes(a0: nat, a1: nat, a2: nat, a3: nat)
    requires a0 < 256 && a1 < 256 && a2 < 256
    ensures Xor(Xor(Xor(a0, 256 * a1), 65536 * a2), 16777216 * a3) == Word(a0, a1, a2, a3)
  {
    hide Xor;
    XorByte(a0, 0, 0, a1);
    XorByte(a0, a1, 0, 256 * a2);
    XorByte(a1, 0, 0, a2);
    XorByte(a0, a1 + 256 * a2, 0, 65536 * a3);
    XorByte(a1, a2, 0, 256 * a3);
    XorByte(a2, 0, 0, a3);
    XorZero(a0);
    XorZero(a1);
    XorZero(a2);
    XorZero(a3);
  }

  lemma {:induction false} XorWords(a0: nat, a1: nat, a2: nat, a3: nat, b0: nat, b1: nat, b2: nat, b3: nat)
    requires a0 < 256 && a1 < 256 && a2 < 256 && a3 < 256 && b0 < 256 && b1 < 256 && b2 < 256 && b3 < 256
    ensures Xor(Word(a0, a1, a2, a3), Word(b0, b1, b2, b3)) == Word(Xor(a0, b0), Xor(a1, b1), Xor(a2, b2), Xor(a3, b3))
    ensures Xor(a0, b0) < 256 && Xor(a1, b1) < 256 && Xor(a2, b2) < 256 && Xor(a3, b3) < 256
  {
    hide Xor;
    XorByte(a0, a1 + 256 * (a2 + 256 * a3), b0, b1 + 256 * (b2 + 256 * b3));
    XorByte(a1, a2 + 256 * a3, b1, b2 + 256 * b3);
    XorByte(a2, a3, b2, b3);
    XorByte(a3, 0, b3, 0);
  }

  lemma {:induction false} WordBytes(b0: nat, b1: nat, b2: nat, b3: nat)
    requires b0 < 256 && b1 < 256 && b2 < 256 && b3 < 256
    ensures var w := Word(b0, b1, b2, b3);
            w < 0x1_0000_0000 && w % 256 == b0 && w / 256 % 256 == b1 && w / 65536 % 256 == b2 && w / 16777216 == b3
  {
    var w := Word(b0, b1, b2, b3);
    assert w / 256 == b1 + 256 * (b2 + 256 * b3);
    assert w / 65536 == b2 + 256 * b3;
  }

  lemma {:induction false} Round8Bytes(g: Galois, factor: nat, L: seq<nat>, s: seq<byte>, d: seq<byte>)
    requires Lookup(g, factor, L) && |s| == |d| == 4
    ensures Round8(L, Word(s[0], s[1], s[2], s[3]), Word(d[0], d[1], d[2], d[3])) ==
            Word(Xor(d[0], L[s[0]]), Xor(d[1], L[s[1]]), Xor(d[2], L[s[2]]), Xor(d[3], L[s[3]]))
    ensures forall i :: 0 <= i < 4 ==> Xor(d[i], L[s[i]]) < 256
  {
    hide Xor;
    hide Mul;
    hide Word;
    WordBytes(s[0], s[1], s[2], s[3]);
    XorFourBytes(L[s[0]], L[s[1]], L[s[2]], L[s[3]]);
    XorWords(d[0], d[1], d[2], d[3], L[s[0]], L[s[1]], L[s[2]], L[s[3]]);
  }

  method BuildLookup(t: GaloisLongMultiplyTable, factor: nat) returns (L: array<nat>)
    requires t.Valid() && t.bytes == 1 && factor < 256
    ensures fresh(L) && Lookup(t.g, factor, L[..])
  {
    hide Mul;
    hide Entry;
    hide GaloisLongMultiplyTable.Valid;
    Products(t, factor, 0);
    assert t.g.Count() == 256 by {
      assert Pow2(8) == 256;
    }
    L := new nat[256];
    for i := 0 to 256
      invariant forall k :: 0 <= k < i ==> L[k] == Mul(t.g, factor, k) && L[k] < 256
    {
      Products(t, factor, i);
      MulHas(t.g, factor, i);
      L[i] := t.tables[Entry(0, factor, i)];
    }
  }

  /** One 32-bit round on the buffers. */
  method StepWord8(ghost g: Galois, ghost factor: nat, L: seq<nat>, inputbuffer: array<byte>, outputbuffer: array<byte>,
                   src: nat)
    requires Lookup(g, factor, L) && inputbuffer != outputbuffer
    requires src + 4 <= inputbuffer.Length && src + 4 <= outputbuffer.Length
    modifies outputbuffer
    ensures forall i :: src <= i < src + 4 ==> outputbuffer[i] == Xor(old(outputbuffer[i]), L[inputbuffer[i]])
    ensures forall i :: 0 <= i < outputbuffer.Length && !(src <= i < src + 4) ==>
              outputbuffer[i] == old(outputbuffer[i])
  {
    hide Xor;
    hide Mul;
    hide Word;
    hide Round8;
    ghost var s4, d4 := inputbuffer[src..src + 4], outputbuffer[src..src + 4];
    var s := LoadWord(inputbuffer[..], src);
    var dst := LoadWord(outputbuffer[..], src);
    LoadedWord(inputbuffer[..], src);
    LoadedWord(outputbuffer[..], src);
    Round8Bytes(g, factor, L, s4, d4);
    WordBytes(Xor(d4[0], L[s4[0]]), Xor(d4[1], L[s4[1]]), Xor(d4[2], L[s4[2]]), Xor(d4[3], L[s4[3]]));
    StoreWord(outputbuffer, src, Round8(L, s, dst));
  }

  lemma {:induction false} LoadedWord(b: seq<byte>, i: nat)
    requires i + 4 <= |b|
    ensures LoadWord(b, i) == Word(b[i], b[i + 1], b[i + 2], b[i + 3])
  {
  }

  /** InternalProcess for GF(2^8): it adds factor times the source byte to every byte of the output,
      32 bits at a time and then the one to three bytes left over. */
  method InternalProcess8(t: GaloisLongMultiplyTable, factor: nat, inputbuffer: array<byte>, outputbuffer: array<byte>,
                          size: nat)
    requires t.Valid() && t.bytes == 1 && factor < 256 && inputbuffer != outputbuffer
    requires size <= inputbuffer.Length && size <= outputbuffer.Length
    modifies outputbuffer
    ensures forall i :: 0 <= i < size ==> outputbuffer[i] == Xor(old(outputbuffer[i]), Mul(t.g, factor, inputbuffer[i]))
    ensures forall i :: size <= i < outputbuffer.Length ==> outputbuffer[i] == old(outputbuffer[i])
  {
    hide Mul;
    hide Xor;
    hide Primitive;
    hide GaloisLongMultiplyTable.Valid;
    var L := BuildLookup(t, factor);
    var src := 0;
    while src < size / 4 * 4
      invariant src % 4 == 0 && 0 <= src <= size / 4 * 4
      invariant Lookup(t.g, factor, L[..])
      invariant forall i :: 0 <= i < src ==> outputbuffer[i] == Xor(old(outputbuffer[i]), L[inputbuffer[i]])
      invariant forall i :: src <= i < outputbuffer.Length ==> outputbuffer[i] == old(outputbuffer[i])
    {
      StepWord8(t.g, factor, L[..], inputbuffer, outputbuffer, src);
      src := src + 4;
    }
    while src < size
      invariant 0 <= src <= size
      invariant Lookup(t.g, factor, L[..])
      invariant forall i :: 0 <= i < src ==> outputbuffer[i] == Xor(old(outputbuffer[i]), L[inputbuffer[i]])
      invariant forall i :: src <= i < outputbuffer.Length ==> outputbuffer[i] == old(outputbuffer[i])
    {
      BytesXor(outputbuffer[src], L[inputbuffer[src]]);
      outputbuffer[src] := Xor(outputbuffer[src], L[inputbuffer[src]]);
      src := src + 1;
    }
  }

  lemma {:induction false} BytesXor(a: nat, b: nat)
    requires a < 256 && b < 256
    ensures Xor(a, b) < 256
  {
    assert Pow2(8) == 256;
    XorBound(a, b, 8);
  }
}
