/** Bytes, the contents of files and buffers. */
module Bytes {

  type byte = n: nat | n < 256

  /** A file has a hash of its own for its first 16k. */
  const FIRST := 16384

  function Zeros(n: nat): (z: seq<byte>)
    ensures |z| == n
    ensures forall i :: 0 <= i < n ==> z[i] == 0
  {
    seq(n, i => 0)
  }

  /** A buffer holding a block: the given bytes, zeros up to the block size. */
  function PaddedTo(s: seq<byte>, blocksize: nat): (r: seq<byte>)
    requires |s| <= blocksize
    ensures |r| == blocksize
  {
    s + Zeros(blocksize - |s|)
  }

  /** A part of a part. */
  lemma {:induction false} SubSlice(s: seq<byte>, a: nat, b: nat, c: nat, d: nat)
    requires a <= b <= |s| && c <= d <= b - a
    ensures s[a..b][c..d] == s[a + c..a + d]
  {
    var t, u := s[a..b][c..d], s[a + c..a + d];
    forall i | 0 <= i < d - c
      ensures t[i] == u[i]
    {
    }
  }

  /** The front of a concatenation. */
  lemma {:induction false} FrontOf(s: seq<byte>, t: seq<byte>, n: nat)
    requires n <= |s|
    ensures (s + t)[..n] == s[..n]
  {
    var a, b := (s + t)[..n], s[..n];
    forall i | 0 <= i < n
      ensures a[i] == b[i]
    {
    }
  }

  /** A little-endian number. */
  function Number(s: seq<byte>): nat
    decreases |s|
  {
    if |s| == 0 then 0 else s[0] + 256 * Number(s[1..])
  }

  /** 256 to the power of n. */
  function Bytes256(n: nat): nat {
    if n == 0 then 1 else 256 * Bytes256(n - 1)
  }

  /** Numbers of n bytes are less than that. */
  lemma {:induction false} NumberBelow(s: seq<byte>)
    ensures Number(s) < Bytes256(|s|)
    decreases |s|
  {
    if |s| > 0 {
      NumberBelow(s[1..]);
    }
  }

  /** Strings of the same length are the same if their numbers are. */
  lemma {:induction false} NumberDetermines(s: seq<byte>, t: seq<byte>)
    requires |s| == |t| && Number(s) == Number(t)
    ensures s == t
    decreases |s|
  {
    if |s| > 0 {
      assert s[0] == Number(s) % 256 && t[0] == Number(t) % 256;
      NumberDetermines(s[1..], t[1..]);
      assert s == [s[0]] + s[1..] && t == [t[0]] + t[1..];
    }
  }
}
