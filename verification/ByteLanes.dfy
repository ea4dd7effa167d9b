/** Buffers of bytes as rows of field elements: the byte loops of reedsolomon.cpp are the field
    arithmetic that create and repair are proved for. */
module ByteLanes {
  import opened Bits
  import opened Bytes
  import opened Polynomials
  import opened Fields
  import opened GaloisFields
  import opened LongMultiply

  /** The 16-bit lanes of a buffer, low byte first. */
  function Lanes(b: seq<byte>): (r: seq<Element16>)
    requires |b| % 2 == 0
    ensures |r| == |b| / 2
    ensures forall k :: 0 <= k < |r| ==> r[k] == Lane16(b, k)
  {
    seq(|b| / 2, k requires 0 <= k < |b| / 2 => Lane16(b, k))
  }

  /** Buffers with the same lanes are the same: lanes that come back bring the bytes back. */
  lemma {:induction false} LanesDetermine(a: seq<byte>, b: seq<byte>)
    requires |a| % 2 == 0 && |b| % 2 == 0 && Lanes(a) == Lanes(b)
    ensures a == b
  {
    assert |a| / 2 == |b| / 2;
    forall i | 0 <= i < |a|
      ensures a[i] == b[i]
    {
      var k := i / 2;
      assert Lanes(a)[k] == Lanes(b)[k];
      PairDetermines(a[2 * k], a[2 * k + 1], b[2 * k], b[2 * k + 1]);
    }
  }

  lemma {:induction false} PairDetermines(lo: byte, hi: byte, lo': byte, hi': byte)
    requires Pair(lo, hi) == Pair(lo', hi')
    ensures lo == lo' && hi == hi'
  {
  }

  /** Add factor times the elements of one row to another. */
  function AddMultiple<T(!new)>(F: Field<T>, row: seq<T>, input: seq<T>, factor: T): (r: seq<T>)
    requires |row| == |input|
    ensures |r| == |row|
  {
    seq(|row|, k requires 0 <= k < |row| => F.add(row[k], F.mul(input[k], factor)))
  }

  /** The first `size` bytes of a buffer, taken as field elements, have had a multiple of those of the
      input added; the rest is as before. */
  ghost predicate Processed16(before: seq<byte>, after: seq<byte>, input: seq<byte>, factor: Element16, size: nat) {
    && size % 2 == 0 && size <= |before| == |after| && size <= |input|
    && Lanes(after[..size]) == AddMultiple(FIELD16, Lanes(before[..size]), Lanes(input[..size]), factor)
    && after[size..] == before[size..]
  }

  /** ReedSolomon::Process on buffers of bytes, for GF(2^16). */
  method Process16(t: GaloisLongMultiplyTable, factor: Element16, inputbuffer: array<byte>, outputbuffer: array<byte>,
                   size: nat)
    requires t.Valid() && t.bytes == 2 && t.g == GALOIS16 && inputbuffer != outputbuffer
    requires size > 0 && size % 4 == 0 && size <= inputbuffer.Length && size <= outputbuffer.Length
    modifies outputbuffer
    ensures Processed16(old(outputbuffer[..]), outputbuffer[..], old(inputbuffer[..]), factor, size)
  {
    hide *;
    ghost var out0, in0 := outputbuffer[..], inputbuffer[..];
    if factor == 0 {
      NothingAdded(out0, in0, size);
      return;
    }
    InternalProcess16(t, factor, inputbuffer, outputbuffer, size);
    LanesAfter(out0, outputbuffer[..], in0, factor, size);
  }

  lemma {:induction false} NothingAdded(before: seq<byte>, input: seq<byte>, size: nat)
    requires size % 2 == 0 && size <= |before| && size <= |input|
    ensures Processed16(before, before, input, 0, size)
  {
    ZeroMultiple(Lanes(before[..size]), Lanes(input[..size]));
  }

  lemma {:induction false} LanesAfter(before: seq<byte>, after: seq<byte>, input: seq<byte>, factor: Element16,
                                      size: nat)
    requires size % 2 == 0 && size <= |before| == |after| && size <= |input|
    requires forall k :: 0 <= k < size / 2 ==>
               Lane16(after, k) == Xor(Lane16(before, k), Mul(GALOIS16, factor, Lane16(input, k)))
    requires forall i :: size <= i < |before| ==> after[i] == before[i]
    ensures Processed16(before, after, input, factor, size)
  {
    hide Mul;
    hide Xor;
    hide Lane16;
    var a, b, c := Lanes(after[..size]), Lanes(before[..size]), Lanes(input[..size]);
    forall k | 0 <= k < size / 2
      ensures a[k] == Add16(b[k], Mul16(c[k], factor))
    {
      LanePrefix(after, size, k);
      LanePrefix(before, size, k);
      LanePrefix(input, size, k);
      MultipleOf(c[k], factor);
    }
  }

  lemma {:induction false} ZeroMultiple(row: seq<Element16>, input: seq<Element16>)
    requires |row| == |input|
    ensures AddMultiple(FIELD16, row, input, 0) == row
  {
    Field16Lawful();
    forall k | 0 <= k < |row|
      ensures FIELD16.add(row[k], FIELD16.mul(input[k], 0)) == row[k]
    {
      MulLaws(FIELD16, input[k], FIELD16.zero);
      AddLaws(FIELD16, row[k], FIELD16.zero);
    }
  }

  lemma {:induction false} MultipleOf(a: Element16, factor: Element16)
    ensures Mul16(a, factor) == Mul(GALOIS16, factor, a)
  {
    Has16(a);
    Has16(factor);
    MulComm(GALOIS16, factor, a);
  }

  lemma {:induction false} LanePrefix(b: seq<byte>, size: nat, k: nat)
    requires size <= |b| && size % 2 == 0 && k < size / 2
    ensures Lane16(b[..size], k) == Lane16(b, k)
  {
  }
}
