/** The CRC of crc.h and crc.cpp: the byte-wise table form is the bit-by-bit CRC of section 8 of
    RFC 1952, and sliding a window along the data gives the CRC of the new window. */
module Crc {
  import opened Bits
  import opened Bytes

  const ALL_ONES := 0xFFFF_FFFF
  const POLYNOMIAL := 0xEDB8_8320

  /** One bit: `(crc >> 1) ^ ((crc & 1) ? polynomial : 0)`. */
  function Step(crc: nat): nat {
    Xor(crc / 2, if crc % 2 == 1 then POLYNOMIAL else 0)
  }

  function Steps(crc: nat, n: nat): nat
    decreases n
  {
    if n == 0 then crc else Steps(Step(crc), n - 1)
  }

  /** An entry of the lookup table. */
  function Table(i: nat): nat {
    Steps(i, 8)
  }

  /** CRCUpdateChar: `((crc >> 8) & 0x00ffffff) ^ table[(u8)crc ^ ch]`. */
  function UpdateChar(crc: nat, ch: byte): nat {
    Xor(crc / 256, Table(Xor(crc % 256, ch)))
  }

  /** CRCUpdateBlock. */
  function UpdateBlock(crc: nat, s: seq<byte>): nat
    decreases |s|
  {
    if |s| == 0 then crc else UpdateBlock(UpdateChar(crc, s[0]), s[1..])
  }

  /** The checksum of a block: `~0 ^ CRCUpdateBlock(~0, length, buffer)`. */
  function Checksum(s: seq<byte>): nat {
    Xor(ALL_ONES, UpdateBlock(ALL_ONES, s))
  }

  // ----- Linearity -----

  lemma {:induction false} StepAdd(a: nat, b: nat)
    ensures Step(Xor(a, b)) == Xor(Step(a), Step(b))
  {
    hide Xor;
    XorStep(a, b);
    XorLowBits(a, b);
    var p, q := if a % 2 == 1 then POLYNOMIAL else 0, if b % 2 == 1 then POLYNOMIAL else 0;
    XorExchange(a / 2, p, b / 2, q);
    XorZero(p);
    XorZero(q);
    XorSelf(POLYNOMIAL);
  }

  lemma {:induction false} StepsAdd(a: nat, b: nat, n: nat)
    ensures Steps(Xor(a, b), n) == Xor(Steps(a, n), Steps(b, n))
    decreases n
  {
    hide Xor;
    hide Step;
    if n > 0 {
      StepAdd(a, b);
      StepsAdd(Step(a), Step(b), n - 1);
    }
  }

  lemma {:induction false} StepsEven(hi: nat, n: nat)
    ensures Steps(Shl(hi, n), n) == hi
    decreases n
  {
    if n > 0 {
      StepEven(Shl(hi, n - 1));
      hide Step;
      StepsEven(hi, n - 1);
    }
  }

  lemma {:induction false} StepEven(s: nat)
    ensures Step(2 * s) == s
  {
    hide Xor;
    XorZero(s);
  }

  lemma {:induction false} SplitByte(a: nat)
    ensures a == Xor(Shl(a / 256, 8), a % 256)
    ensures Shl(a / 256, 8) == 256 * (a / 256)
  {
    hide Xor;
    assert Pow2(8) == 256;
    XorJoin(a / 256, 0, 0, a % 256, 8);
    ShlZero(8);
    Shl8(a / 256);
    XorZero(a / 256);
    XorZero(a % 256);
  }

  lemma {:induction false} ShlZero(n: nat)
    ensures Shl(0, n) == 0
  {
    if n > 0 {
      ShlZero(n - 1);
    }
  }

  /** Eight bits at once: the table form is eight single-bit steps on the byte added in. */
  lemma {:induction false} EightSteps(x: nat)
    ensures Steps(x, 8) == Xor(x / 256, Table(x % 256))
  {
    hide Xor;
    hide Step;
    hide Steps;
    SplitByte(x);
    StepsAdd(Shl(x / 256, 8), x % 256, 8);
    StepsEven(x / 256, 8);
  }

  /** The CRC of RFC 1952: add the byte to the register, then shift out eight bits one by one. */
  lemma {:induction false} UpdateCharIsBitwise(crc: nat, ch: byte)
    ensures UpdateChar(crc, ch) == Steps(Xor(crc, ch), 8)
  {
    hide Steps;
    XorHighLow(crc, ch);
    EightSteps(Xor(crc, ch));
  }

  lemma {:induction false} XorHighLow(crc: nat, ch: byte)
    ensures Xor(crc, ch) / 256 == crc / 256
    ensures Xor(crc, ch) % 256 == Xor(crc % 256, ch)
  {
    hide Xor;
    assert Pow2(8) == 256;
    XorJoin(crc / 256, crc % 256, 0, ch, 8);
    Shl8(crc / 256);
    ShlZero(8);
    XorZero(crc / 256);
    XorBound(crc % 256, ch, 8);
    Shl8(Xor(crc / 256, 0));
  }

  lemma {:induction false} UpdateCharAdd(a: nat, b: nat, ch: byte, ch': byte, d: byte)
    requires d == Xor(ch, ch')
    ensures UpdateChar(Xor(a, b), d) == Xor(UpdateChar(a, ch), UpdateChar(b, ch'))
  {
    hide Xor;
    hide Steps;
    hide UpdateChar;
    UpdateCharIsBitwise(Xor(a, b), d);
    UpdateCharIsBitwise(a, ch);
    UpdateCharIsBitwise(b, ch');
    XorExchange(a, b, ch, ch');
    StepsAdd(Xor(a, ch), Xor(b, ch'), 8);
  }

  /** The register splits into the part started by a and the part started by b fed zeros. */
  lemma {:induction false} UpdateBlockAdd(a: nat, b: nat, s: seq<byte>)
    ensures UpdateBlock(Xor(a, b), s) == Xor(UpdateBlock(a, s), UpdateBlock(b, Zeros(|s|)))
    decreases |s|
  {
    hide Xor;
    hide UpdateChar;
    if |s| > 0 {
      XorZero(s[0]);
      UpdateCharAdd(a, b, s[0], 0, s[0]);
      UpdateBlockAdd(UpdateChar(a, s[0]), UpdateChar(b, 0), s[1..]);
      assert Zeros(|s|)[1..] == Zeros(|s| - 1);
    }
  }

  lemma {:induction false} UpdateBlockSplit(a: nat, s: seq<byte>, t: seq<byte>)
    ensures UpdateBlock(a, s + t) == UpdateBlock(UpdateBlock(a, s), t)
    decreases |s|
  {
    hide UpdateChar;
    if |s| == 0 {
      assert s + t == t;
    } else {
      assert (s + t)[1..] == s[1..] + t;
      UpdateBlockSplit(UpdateChar(a, s[0]), s[1..], t);
    }
  }

  /** The register never needs more than 32 bits. */
  lemma {:induction false} StepsFit(crc: nat, n: nat)
    requires crc <= ALL_ONES
    ensures Steps(crc, n) <= ALL_ONES
    decreases n
  {
    hide Xor;
    if n > 0 {
      XorFits(crc / 2, if crc % 2 == 1 then POLYNOMIAL else 0);
      StepsFit(Step(crc), n - 1);
    }
  }

  lemma {:induction false} XorFits(a: nat, b: nat)
    requires a <= ALL_ONES && b <= ALL_ONES
    ensures Xor(a, b) <= ALL_ONES
  {
    hide Xor;
    Shl16(65536);
    assert Pow2(16) == 65536 by { assert Pow2(8) == 256; }
    Pow2IsShl(16, 16);
    XorBound(a, b, 32);
  }

  lemma {:induction false} Pow2IsShl(m: nat, n: nat)
    ensures Pow2(m + n) == Shl(Pow2(m), n)
    decreases n
  {
    if n > 0 {
      Pow2IsShl(m, n - 1);
    }
  }

  lemma {:induction false} ChecksumFits(s: seq<byte>)
    ensures Checksum(s) <= ALL_ONES
  {
    hide Xor;
    hide UpdateBlock;
    BlockFits(ALL_ONES, s);
    XorFits(ALL_ONES, UpdateBlock(ALL_ONES, s));
  }

  lemma {:induction false} BlockFits(crc: nat, s: seq<byte>)
    requires crc <= ALL_ONES
    ensures UpdateBlock(crc, s) <= ALL_ONES
    decreases |s|
  {
    hide UpdateChar;
    if |s| > 0 {
      UpdateCharIsBitwise(crc, s[0]);
      XorFits(crc, s[0]);
      StepsFit(Xor(crc, s[0]), 8);
      BlockFits(UpdateChar(crc, s[0]), s[1..]);
    }
  }

  // ----- The sliding window -----

  /** The window table: the effect that a byte still has when it leaves the window. */
  function WindowTable(window: nat, i: nat): nat {
    UpdateBlock(Table(i), Zeros(window))
  }

  /** The mask that takes the initial and final inversions out of a checksum. */
  function WindowMask(window: nat): nat {
    Xor(UpdateBlock(ALL_ONES, Zeros(window)), ALL_ONES)
  }

  /** CRCSlideChar. */
  function SlideChar(crc: nat, chNew: byte, removed: nat): nat {
    Xor(UpdateChar(crc, chNew), removed)
  }

  /** Without the inversions a checksum is the register started from zero. */
  lemma {:induction false} Unmasked(s: seq<byte>)
    ensures Xor(WindowMask(|s|), Checksum(s)) == UpdateBlock(0, s)
    ensures Xor(WindowMask(|s|), UpdateBlock(0, s)) == Checksum(s)
  {
    hide Xor;
    hide UpdateBlock;
    var z, r := UpdateBlock(ALL_ONES, Zeros(|s|)), UpdateBlock(0, s);
    XorZero(ALL_ONES);
    UpdateBlockAdd(0, ALL_ONES, s);
    assert UpdateBlock(ALL_ONES, s) == Xor(r, z);
    // mask = z ^ ~0, checksum = ~0 ^ (r ^ z)
    XorComm(r, z);
    XorComm(z, ALL_ONES);
    XorAssoc(ALL_ONES, z, r);
    XorCancel(r, Xor(ALL_ONES, z));
  }

  /** One slide turns the checksum of a window into the checksum of the window one byte further. */
  lemma {:induction false} SlideIsChecksum(s: seq<byte>, next: byte)
    requires |s| > 0
    ensures var n := |s|;
            Xor(WindowMask(n), SlideChar(Xor(WindowMask(n), Checksum(s)), next, WindowTable(n, s[0]))) ==
            Checksum(s[1..] + [next])
  {
    hide Xor;
    hide Steps;
    var n, m := |s|, s[1..] + [next];
    Unmasked(s);
    Unmasked(m);
    Leaving(s, next);
    XorCancel(UpdateBlock(0, m), WindowTable(n, s[0]));
  }

  /** The byte that leaves contributes exactly its window table entry. */
  lemma {:induction false} Leaving(s: seq<byte>, next: byte)
    requires |s| > 0
    ensures UpdateChar(UpdateBlock(0, s), next) == Xor(UpdateBlock(0, s[1..] + [next]), WindowTable(|s|, s[0]))
  {
    hide Xor;
    hide Steps;
    var m := s[1..] + [next];
    UpdateBlockSplit(0, s, [next]);
    assert (s + [next])[1..] == m && (s + [next])[0] == s[0];
    assert UpdateBlock(UpdateBlock(0, s), [next]) == UpdateChar(UpdateBlock(0, s), next);
    XorZero(s[0]);
    XorZero(Table(s[0]));
    assert UpdateChar(0, s[0]) == Table(s[0]);
    UpdateBlockAdd(0, Table(s[0]), m);
    assert Zeros(|m|) == Zeros(|s|);
  }

  // ----- The loops -----

  /** GenerateCRC32Table. */
  method GenerateCRC32Table() returns (table: array<nat>)
    ensures fresh(table) && table.Length == 256 && forall i :: 0 <= i < 256 ==> table[i] == Table(i)
  {
    hide Xor;
    table := new nat[256];
    for i := 0 to 256
      invariant forall k :: 0 <= k < i ==> table[k] == Table(k)
    {
      var crc: nat := i;
      for j := 0 to 8
        invariant Steps(crc, 8 - j) == Table(i)
      {
        assert Step(crc) == Xor(crc / 2, if crc % 2 == 1 then POLYNOMIAL else 0);
        crc := Xor(crc / 2, if crc % 2 == 1 then POLYNOMIAL else 0);
      }
      table[i] := crc;
    }
  }

  /** CRCUpdateBlock over a buffer. */
  method CRCUpdateBlock(table: array<nat>, crc0: nat, buffer: seq<byte>) returns (crc: nat)
    requires table.Length == 256 && forall i :: 0 <= i < 256 ==> table[i] == Table(i)
    ensures crc == UpdateBlock(crc0, buffer)
  {
    hide Xor;
    hide Table;
    crc := crc0;
    for current := 0 to |buffer|
      invariant UpdateBlock(crc, buffer[current..]) == UpdateBlock(crc0, buffer)
    {
      ByteXor(crc % 256, buffer[current]);
      crc := Xor(crc / 256, table[Xor(crc % 256, buffer[current])]);
      assert buffer[current..][1..] == buffer[current + 1..];
    }
  }

  lemma {:induction false} ByteXor(a: nat, b: nat)
    requires a < 256 && b < 256
    ensures Xor(a, b) < 256
  {
    assert Pow2(8) == 256;
    XorBound(a, b, 8);
  }

  /** GenerateWindowTable. */
  method GenerateWindowTable(table: array<nat>, window: nat) returns (target: array<nat>)
    requires table.Length == 256 && forall i :: 0 <= i < 256 ==> table[i] == Table(i)
    ensures fresh(target) && target.Length == 256
    ensures forall i :: 0 <= i < 256 ==> target[i] == WindowTable(window, i)
  {
    hide Xor;
    hide Table;
    target := new nat[256];
    for i := 0 to 256
      invariant forall k :: 0 <= k < i ==> target[k] == WindowTable(window, k)
    {
      var crc := table[i];
      for j := 0 to window
        invariant UpdateBlock(crc, Zeros(window - j)) == WindowTable(window, i)
        modifies {}
      {
        XorZero(crc % 256);
        assert Zeros(window - j)[1..] == Zeros(window - j - 1);
        crc := Xor(crc / 256, table[crc % 256]);
      }
      assert Zeros(window - window) == [];
      target[i] := crc;
    }
  }

  /** ComputeWindowMask. */
  method ComputeWindowMask(table: array<nat>, window: nat) returns (result: nat)
    requires table.Length == 256 && forall i :: 0 <= i < 256 ==> table[i] == Table(i)
    ensures result == WindowMask(window)
  {
    hide Xor;
    hide Table;
    result := ALL_ONES;
    for left := window downto 0
      invariant UpdateBlock(result, Zeros(left)) == UpdateBlock(ALL_ONES, Zeros(window))
    {
      XorZero(result % 256);
      assert Zeros(left + 1)[1..] == Zeros(left);
      result := Xor(result / 256, table[result % 256]);
    }
    result := Xor(result, ALL_ONES);
  }
}
