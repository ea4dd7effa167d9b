/** MD5Context of md5.cpp: the streaming hash computes the padded, block-by-block hash of
    section 3 of RFC 1321, however its input is cut up.

    The compression of one block is a parameter: its rounds are not part of this model. */
module Md5 {
  import opened Bytes

  /** The initial state, the compression of a 64-byte block into it, and its 16-byte rendering. */
  datatype Compression<!S> = Compression(init: S, step: (S, seq<byte>) -> S, output: S -> seq<byte>)

  const BLOCK := 64
  const U64 := 0x1_0000_0000_0000_0000

  /** Compress the first n blocks of s (section 3.4). */
  function Fold<S>(h: Compression<S>, s: seq<byte>, n: nat): S
    requires 64 * n <= |s|
    decreases n
  {
    if n == 0 then h.init else h.step(Fold(h, s, n - 1), s[64 * (n - 1)..64 * n])
  }

  /** k bytes of v, low order first. */
  function LittleEndian(v: nat, k: nat): (b: seq<byte>)
    ensures |b| == k
    decreases k
  {
    if k == 0 then [] else [v % 256] + LittleEndian(v / 256, k - 1)
  }

  /** Numbers are read as they were written. */
  lemma {:induction false} NumberOf(v: nat, k: nat)
    requires v < Bytes256(k)
    ensures Number(LittleEndian(v, k)) == v
    decreases k
  {
    if k > 0 {
      NumberOf(v / 256, k - 1);
      assert LittleEndian(v, k)[1..] == LittleEndian(v / 256, k - 1);
    }
  }

  /** Section 3.1: a one bit, then zero bits until the length is 56 modulo 64;
      section 3.2: the length in bits, its low-order 64 bits, low order first. */
  function PadLength(n: nat): (p: nat)
    ensures 1 <= p <= 64 && (n + p) % 64 == 56
  {
    if n % 64 >= 56 then 120 - n % 64 else 56 - n % 64
  }

  function Padded(s: seq<byte>): (p: seq<byte>)
    ensures |p| % 64 == 0
  {
    PaddedLength(|s|);
    s + [0x80] + Zeros(PadLength(|s|) - 1) + LittleEndian(8 * |s| % U64, 8)
  }

  lemma {:induction false} PaddedLength(n: nat)
    ensures (n + 1 + (PadLength(n) - 1) + 8) % 64 == 0
  {
  }

  /** The MD5 hash of a string. */
  function Hash<S>(h: Compression<S>, s: seq<byte>): seq<byte> {
    h.output(Fold(h, Padded(s), |Padded(s)| / 64))
  }

  lemma {:induction false} FoldPrefix<S>(h: Compression<S>, s: seq<byte>, t: seq<byte>, n: nat)
    requires 64 * n <= |s|
    ensures Fold(h, s + t, n) == Fold(h, s, n)
    decreases n
  {
    if n > 0 {
      FoldPrefix(h, s, t, n - 1);
      assert (s + t)[64 * (n - 1)..64 * n] == s[64 * (n - 1)..64 * n];
    }
  }

  /** The value of a context: what it has become after some bytes went in. */
  datatype Value<!S> = Value(state: S, pending: seq<byte>, bytes: nat)

  /** The state after all whole blocks of s, and the bytes left over. */
  function StateAfter<S>(h: Compression<S>, s: seq<byte>): S {
    Fold(h, s, |s| / 64)
  }

  function Pending(s: seq<byte>): (p: seq<byte>)
    ensures |p| == |s| % 64
  {
    s[64 * (|s| / 64)..]
  }

  /** The context after the bytes of s. */
  function After<S>(h: Compression<S>, s: seq<byte>): Value<S> {
    Value(StateAfter(h, s), Pending(s), |s| % U64)
  }

  class MD5Context<S> {
    const h: Compression<S>
    var state: S
    const block: array<byte>
    var used: nat
    var bytes: nat

    ghost predicate Valid()
      reads this, block
    {
      block.Length == 64 && used < 64 && bytes < U64
    }

    ghost function Contents(): Value<S>
      requires Valid()
      reads this, block
    {
      Value(state, block[..used], bytes)
    }

    constructor (h: Compression<S>)
      ensures this.h == h && fresh(block) && Valid() && Contents() == After(h, [])
    {
      this.h := h;
      block := new byte[64];
      state, used, bytes := h.init, 0, 0;
    }

    /** Back to the initial state. */
    method Reset()
      requires Valid()
      modifies this
      ensures Valid() && Contents() == After(h, [])
    {
      state, used, bytes := h.init, 0, 0;
    }

    /** Assignment from another context. */
    method CopyFrom(other: MD5Context<S>)
      requires Valid() && other.Valid() && other.block != block && other.h == h
      modifies this, block
      ensures Valid() && Contents() == old(other.Contents())
    {
      for i := 0 to 64
        invariant block[..i] == other.block[..i]
        modifies block
      {
        block[i] := other.block[i];
      }
      state, used, bytes := other.state, other.used, other.bytes;
      assert block[..used] == block[..64][..used];
    }

    /** Feed some bytes.  `fed` is what the context has seen so far. */
    method Update(buffer: seq<byte>, ghost fed: seq<byte>)
      requires Valid() && Contents() == After(h, fed)
      modifies this, block
      ensures Valid() && Contents() == After(h, fed + buffer)
    {
      hide StateAfter;
      hide Pending;
      var current, length := 0, |buffer|;
      bytes := (bytes + length) % U64;
      ghost var done := fed;
      LengthsAdd(|fed|, |buffer|);
      while used + length >= 64
        invariant used < 64 && current + length == |buffer| && 0 <= length
        invariant bytes == (|fed| + |buffer|) % U64
        invariant done == fed + buffer[..current]
        invariant state == StateAfter(h, done) && block[..used] == Pending(done)
        decreases length
      {
        var have := 64 - used;
        ghost var more := buffer[current..current + have];
        Store(buffer[current..current + have]);
        assert block[..64] == block[..];
        WholeBlock(h, done, more);
        assert done + more == fed + buffer[..current + have];
        done := done + more;
        current := current + have;
        length := length - have;
        state := h.step(state, block[..]);
        used := 0;
      }
      Store(buffer[current..]);
      PartBlock(h, done, buffer[current..]);
      assert done + buffer[current..] == fed + buffer;
      used := used + length;
    }

    /** Copy data behind the bytes already in the block. */
    method Store(data: seq<byte>)
      requires Valid() && used + |data| <= 64
      modifies block
      ensures block[..used + |data|] == old(block[..used]) + data
    {
      for i := 0 to |data|
        invariant block[..used + i] == old(block[..used]) + data[..i]
      {
        block[used + i] := data[i];
        assert block[..used + i + 1] == block[..used + i] + [data[i]];
      }
    }

    /** Process 0 bytes. */
    method UpdateZeros(length: nat, ghost fed: seq<byte>)
      requires Valid() && Contents() == After(h, fed)
      modifies this, block
      ensures Valid() && Contents() == After(h, fed + Zeros(length))
    {
      hide After;
      var left := length;
      ghost var done := fed;
      assert fed + Zeros(0) == fed;
      if used > 0 {
        var size := if 64 - used < left then 64 - used else left;
        Update(Zeros(size), done);
        done := done + Zeros(size);
        left := left - size;
      }
      while left >= 64
        invariant Valid() && 0 <= left <= length && Contents() == After(h, done)
        invariant done == fed + Zeros(length - left)
        decreases left
      {
        Update(Zeros(64), done);
        done := done + Zeros(64);
        left := left - 64;
        assert Zeros(length - left - 64) + Zeros(64) == Zeros(length - left);
      }
      assert left == 0 ==> Zeros(length - left) == Zeros(length);
      if left > 0 {
        assert Zeros(length - left) + Zeros(left) == Zeros(length);
        assert done + Zeros(left) == fed + Zeros(length);
        Update(Zeros(left), done);
      }
    }

    /** Pad what has been fed, and give its hash. */
    method Final(ghost fed: seq<byte>) returns (output: seq<byte>)
      requires Valid() && Contents() == After(h, fed)
      modifies this, block
      ensures Valid() && output == Hash(h, fed)
    {
      var bits := 8 * bytes % U64;
      BitsOfLength(|fed|);
      var padding := if used >= 56 then 56 + 64 - used else 56 - used;
      assert used == |fed| % 64;
      Update([0x80] + Zeros(padding - 1), fed);
      Update(LittleEndian(bits, 8), fed + ([0x80] + Zeros(padding - 1)));
      assert fed + ([0x80] + Zeros(padding - 1)) + LittleEndian(bits, 8) == Padded(fed);
      output := h.output(state);
    }
  }

  lemma {:induction false} LengthsAdd(m: nat, n: nat)
    ensures (m % U64 + n) % U64 == (m + n) % U64
  {
  }

  lemma {:induction false} BitsOfLength(n: nat)
    ensures 8 * (n % U64) % U64 == 8 * n % U64
  {
    var q, r := n / U64, n % U64;
    assert n == U64 * q + r;
    var q', r' := 8 * r / U64, 8 * r % U64;
    assert 8 * n == U64 * (8 * q + q') + r';
    RemainderIs(8 * n, 8 * q + q', r');
  }

  lemma {:induction false} RemainderIs(x: nat, q: nat, r: nat)
    requires x == U64 * q + r && r < U64
    ensures x % U64 == r
  {
  }

  /** A block completed by new data is one more block of the input. */
  lemma {:induction false} WholeBlock<S>(h: Compression<S>, done: seq<byte>, more: seq<byte>)
    requires |Pending(done)| + |more| == 64
    ensures Pending(done + more) == []
    ensures StateAfter(h, done + more) == h.step(StateAfter(h, done), Pending(done) + more)
  {
    var n := |done| / 64;
    assert |done + more| == 64 * (n + 1);
    FoldPrefix(h, done, more, n);
    assert (done + more)[64 * n..64 * (n + 1)] == Pending(done) + more;
  }

  lemma {:induction false} PartBlock<S>(h: Compression<S>, done: seq<byte>, more: seq<byte>)
    requires |Pending(done)| + |more| < 64
    ensures StateAfter(h, done + more) == StateAfter(h, done)
    ensures Pending(done + more) == Pending(done) + more
  {
    assert |done + more| / 64 == |done| / 64;
    FoldPrefix(h, done, more, |done| / 64);
  }
}
