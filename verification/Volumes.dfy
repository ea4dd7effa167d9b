/** How recovery blocks are divided among recovery files (par2creator.cpp, ComputeRecoveryFileCount and
    the first half of InitialiseOutputFiles). */
module Volumes {
  import opened Arithmetic
  import opened Bits

  const WORDS := 0x1_0000_0000

  datatype Scheme = Unknown | Variable | Limited | Uniform

  /** The number of binary digits of n, as counted by shifting it down to zero. */
  function Digits(n: nat): nat {
    if n == 0 then 0 else 1 + Digits(n / 2)
  }

  /** Digits(n) is floor(log2 n) + 1. */
  lemma {:induction false} DigitsBounds(n: nat)
    ensures n < Pow2(Digits(n))
    ensures n > 0 ==> Digits(n) > 0 && Pow2(Digits(n) - 1) <= n
    decreases n
  {
    if n > 0 {
      DigitsBounds(n / 2);
    }
  }

  method CountDigits(n: nat, start: nat) returns (digits: nat)
    ensures digits == start + Digits(n)
  {
    digits := start;
    var t := n;
    while t > 0
      invariant digits + Digits(t) == start + Digits(n)
    {
      digits := digits + 1;
      t := t / 2;
    }
  }

  /** The number of blocks of the largest file that only the limited scheme looks at, and the number
      of recovery files of that size. */
  function Whole(recoveryblockcount: nat, largest: nat): nat
    requires largest > 0
  {
    if recoveryblockcount / largest >= 1 then recoveryblockcount / largest - 1 else 0
  }

  /** The number of recovery files. */
  function FileCount(scheme: Scheme, requested: nat, recoveryblockcount: nat, largest: nat): nat
    requires largest > 0
  {
    if recoveryblockcount == 0 then 0
    else if scheme == Limited then
      var whole := Whole(recoveryblockcount, largest);
      whole + Digits(if recoveryblockcount >= whole * largest then recoveryblockcount - whole * largest else 0)
    else if requested == 0 then Digits(recoveryblockcount)
    else requested
  }

  /** The count is floor(log2 n) + 1. */
  ghost predicate Logarithmic(n: nat, count: int) {
    0 < count && Pow2(count - 1) <= n < Pow2(count)
  }

  /** There are so many full-sized files that what is left is at least one of them, but less than two, if there are any;
      and the others are as many as the number of blocks that are left has binary digits. */
  ghost predicate LimitedFiles(n: nat, largest: nat, count: nat, whole: nat) {
    && n < (whole + 2) * largest && (whole > 0 ==> (whole + 1) * largest <= n)
    && whole * largest <= n && Logarithmic(n - whole * largest, count - whole)
  }

  /** How many recovery files there are: none without recovery blocks, otherwise the number requested, or one for every
      binary digit of the number of blocks; in the limited scheme the full-sized ones and those for the rest. */
  ghost predicate Divides(scheme: Scheme, requested: nat, n: nat, largest: nat, count: nat) {
    if n == 0 then count == 0
    else if scheme == Limited then exists whole: nat :: LimitedFiles(n, largest, count, whole)
    else if requested > 0 then count == requested
    else Logarithmic(n, count)
  }

  lemma {:induction false} FileCountDivides(scheme: Scheme, requested: nat, n: nat, largest: nat)
    requires largest > 0
    ensures Divides(scheme, requested, n, largest, FileCount(scheme, requested, n, largest))
  {
    DigitsBounds(n);
    if n > 0 && scheme == Limited {
      var whole := Whole(n, largest);
      LimitedCounts(n, largest);
      WholeBounds(n, largest);
      DigitsBounds(n - whole * largest);
      assert LimitedFiles(n, largest, FileCount(scheme, requested, n, largest), whole);
    }
  }

  /** How many recovery files there are, or why there cannot be any. */
  method ComputeRecoveryFileCount(scheme: Scheme, requested: nat, recoveryblockcount: nat, largest: nat)
    returns (ok: bool, recoveryfilecount: nat)
    requires largest > 0
    ensures ok <==> recoveryblockcount == 0 || scheme == Limited ||
                    (scheme != Unknown && requested <= recoveryblockcount)
    ensures ok ==> recoveryfilecount == FileCount(scheme, requested, recoveryblockcount, largest)
    ensures ok ==> Divides(scheme, requested, recoveryblockcount, largest, recoveryfilecount)
    ensures ok ==> (recoveryfilecount == 0 <==> recoveryblockcount == 0)
  {
    hide Divides, Logarithmic, Digits;
    FileCountDivides(scheme, requested, recoveryblockcount, largest);
    if recoveryblockcount == 0 {
      return true, 0;
    }
    match scheme {
      case Unknown =>
        return false, requested;
      case Limited =>
        var whole := recoveryblockcount / largest;
        whole := if whole >= 1 then whole - 1 else 0;
        LimitedCounts(recoveryblockcount, largest);
        var extra := recoveryblockcount - whole * largest;
        DigitsAtMost(extra);
        recoveryfilecount := CountDigits(extra, whole);
        return true, recoveryfilecount;
      case _ =>
        recoveryfilecount := requested;
        if recoveryfilecount == 0 {
          recoveryfilecount := CountDigits(recoveryblockcount, 0);
        }
        DigitsAtMost(recoveryblockcount);
        if recoveryfilecount > recoveryblockcount {
          return false, recoveryfilecount;
        }
        return true, recoveryfilecount;
    }
  }

  lemma {:induction false} DigitsAtMost(n: nat)
    ensures Digits(n) <= n && (n > 0 ==> 0 < Digits(n))
    decreases n
  {
    if n > 0 {
      DigitsAtMost(n / 2);
    }
  }

  /** What the limited scheme leaves for the exponential part is less than twice the largest file. */
  lemma {:induction false} LimitedCounts(count: nat, largest: nat)
    requires largest > 0 && count > 0
    ensures var whole := Whole(count, largest);
            0 < count - whole * largest < 2 * largest
  {
    var q := count / largest;
    assert count == largest * q + count % largest;
    if q >= 1 {
      assert largest * q == (q - 1) * largest + largest;
    }
  }

  lemma {:induction false} WholeBounds(count: nat, largest: nat)
    requires largest > 0 && count > 0
    ensures var whole := Whole(count, largest);
            count < (whole + 2) * largest && (whole > 0 ==> (whole + 1) * largest <= count)
  {
    var q, whole := count / largest, Whole(count, largest);
    assert count == largest * q + count % largest;
    assert (whole + 1) * largest == whole * largest + largest;
    assert (whole + 2) * largest == whole * largest + 2 * largest;
    if q >= 1 {
      assert largest * q == (q - 1) * largest + largest;
    }
  }

  // ----- Allocation -----

  datatype FileAllocation = FileAllocation(exponent: nat, count: nat)

  /** The files hold contiguous ascending ranges of exponents, from `first` up to `last`. */
  ghost predicate Chain(a: seq<FileAllocation>, first: nat, last: nat)
    decreases |a|
  {
    if |a| == 0 then first == last
    else
      var n := |a| - 1;
      a[n].exponent + a[n].count == last && Chain(a[..n], first, a[n].exponent)
  }

  predicate In(f: FileAllocation, e: nat) {
    f.exponent <= e < f.exponent + f.count
  }

  lemma {:induction false} ChainNext(a: seq<FileAllocation>, first: nat, f: FileAllocation)
    requires Chain(a, first, f.exponent)
    ensures Chain(a + [f], first, f.exponent + f.count)
  {
    assert (a + [f])[..|a|] == a;
  }

  lemma {:induction false} ChainJoin(a: seq<FileAllocation>, b: seq<FileAllocation>, first: nat, middle: nat, last: nat)
    requires Chain(a, first, middle) && Chain(b, middle, last)
    ensures Chain(a + b, first, last)
    decreases |b|
  {
    if |b| == 0 {
      assert a + b == a;
    } else {
      var n := |b| - 1;
      ChainJoin(a, b[..n], first, middle, b[n].exponent);
      assert (a + b)[..|a| + n] == a + b[..n];
    }
  }

  lemma {:induction false} ChainInside(a: seq<FileAllocation>, first: nat, last: nat, k: nat)
    requires Chain(a, first, last)
    ensures first <= last
    ensures k < |a| ==> first <= a[k].exponent && a[k].exponent + a[k].count <= last
    decreases |a|
  {
    if |a| > 0 {
      var n := |a| - 1;
      ChainInside(a[..n], first, a[n].exponent, k);
    }
  }

  /** Every exponent from `first` up to `last` is in one of the files, and only in one; no other is
      in any; and files further on hold larger exponents. */
  lemma {:induction false} ChainPartitions(a: seq<FileAllocation>, first: nat, last: nat, e: nat)
    requires Chain(a, first, last)
    ensures first <= e < last <==> exists k :: 0 <= k < |a| && In(a[k], e)
    ensures forall j, k :: 0 <= j < k < |a| ==> a[j].exponent + a[j].count <= a[k].exponent
    decreases |a|
  {
    if |a| > 0 {
      var n, b := |a| - 1, a[..|a| - 1];
      ChainPartitions(b, first, a[n].exponent, e);
      ChainInside(b, first, a[n].exponent, 0);
      forall j | 0 <= j < n
        ensures a[j].exponent + a[j].count <= a[n].exponent && (In(a[j], e) ==> first <= e < last)
      {
        ChainInside(b, first, a[n].exponent, j);
        assert b[j] == a[j];
      }
      if first <= e < a[n].exponent {
        var k :| 0 <= k < |b| && In(b[k], e);
        assert In(a[k], e);
      } else if a[n].exponent <= e < last {
        assert In(a[n], e);
      }
    }
  }

  /** One block more in each of the first `remainder` files. */
  method AllocateEvenly(base: nat, remainder: nat, recoveryfilecount: nat, first: nat) returns (a: seq<FileAllocation>)
    requires remainder <= recoveryfilecount
    ensures |a| == recoveryfilecount && 0 <= Times(recoveryfilecount, base)
    ensures Chain(a, first, first + Times(recoveryfilecount, base) + remainder)
    ensures forall k :: 0 <= k < |a| ==> a[k].count == if k < remainder then base + 1 else base
  {
    var exponent: nat := first;
    a := [];
    assert Chain(a, first, exponent);
    TimesNext(0, base);
    hide Chain;
    hide Times;
    for filenumber := 0 to recoveryfilecount
      invariant |a| == filenumber && Chain(a, first, exponent) && 0 <= Times(filenumber, base)
      invariant exponent == first + Times(filenumber, base) + if filenumber < remainder then filenumber else remainder
      invariant forall k :: 0 <= k < filenumber ==> a[k].count == if k < remainder then base + 1 else base
    {
      var count := if filenumber < remainder then base + 1 else base;
      ChainNext(a, first, FileAllocation(exponent, count));
      a := a + [FileAllocation(exponent, count)];
      exponent := exponent + count;
      TimesNext(filenumber, base);
    }
  }

  /** Share the recovery blocks out evenly. */
  method AllocateUniform(recoveryblockcount: nat, recoveryfilecount: nat, first: nat) returns (a: seq<FileAllocation>)
    requires 0 < recoveryfilecount
    ensures |a| == recoveryfilecount && Chain(a, first, first + recoveryblockcount)
    ensures forall j, k :: 0 <= j <= k < |a| ==> a[k].count <= a[j].count <= a[k].count + 1
  {
    hide Chain;
    var base, remainder := recoveryblockcount / recoveryfilecount, recoveryblockcount % recoveryfilecount;
    Quotient(recoveryblockcount, recoveryfilecount);
    hide Times;
    a := AllocateEvenly(base, remainder, recoveryfilecount, first);
  }

  lemma {:induction false} NoFiles(first: nat)
    ensures Chain([], first, first)
  {
  }

  /** 32-bit doubling. */
  function Doubled(n: nat): (r: nat)
    ensures r < WORDS && (2 * n < WORDS ==> r == 2 * n)
    ensures WORDS <= 2 * n < 2 * WORDS ==> r == 2 * n - WORDS
  {
    2 * n % WORDS
  }

  /** Every file has twice as many blocks as the one before, from `low` on, or what is left. */
  ghost predicate Doubling(a: seq<FileAllocation>, low: nat, end: nat) {
    forall k :: 0 <= k < |a| ==> a[k].count == Min(Times(low, Pow2(k)), end - a[k].exponent)
  }

  /** Give each of a number of files twice as many blocks as the one before, the last ones what is left. */
  method AllocateDoubling(lowblockcount: nat, recoveryblockcount: nat, files: nat, first: nat)
    returns (a: seq<FileAllocation>)
    requires recoveryblockcount <= Times(lowblockcount, Pow2(files)) - lowblockcount && recoveryblockcount <= 65536
    ensures |a| == files && Chain(a, first, first + recoveryblockcount)
    ensures Doubling(a, lowblockcount, first + recoveryblockcount)
    ensures lowblockcount == 1 ==> forall k :: 0 <= k < files ==> 2 * a[k].count <= recoveryblockcount + 1
  {
    hide Chain, Times;
    var exponent: nat, blocks: nat, count: nat := first, recoveryblockcount, lowblockcount;
    a := [];
    NoFiles(first);
    TimesPow2(lowblockcount, 0);
    for filenumber := 0 to files
      invariant |a| == filenumber && Chain(a, first, exponent)
      invariant 0 <= blocks <= recoveryblockcount && exponent + blocks == first + recoveryblockcount
      invariant blocks > 0 ==> count == Times(lowblockcount, Pow2(filenumber)) &&
                               count - lowblockcount + blocks == recoveryblockcount
      invariant 0 <= Times(lowblockcount, Pow2(filenumber))
      invariant Doubling(a, lowblockcount, first + recoveryblockcount)
      invariant lowblockcount == 1 ==> forall k :: 0 <= k < filenumber ==> 2 * a[k].count <= recoveryblockcount + 1
    {
      var number := if count < blocks then count else blocks;
      ChainNext(a, first, FileAllocation(exponent, number));
      a := a + [FileAllocation(exponent, number)];
      exponent := exponent + number;
      blocks := blocks - number;
      TimesPow2(lowblockcount, filenumber);
      count := Doubled(count);
    }
  }

  lemma {:induction false} TimesPow2(a: nat, n: nat)
    ensures Times(a, Pow2(0)) == a
    ensures Times(a, Pow2(n + 1)) == 2 * Times(a, Pow2(n)) >= 0
  {
    var p := Pow2(n);
    assert Pow2(n + 1) == 2 * p && Pow2(0) == 1;
    hide Pow2;
    SumTimes(a, p, p);
    MulMonotone(a, 0, p);
  }

  // ----- The variable scheme -----

  /** The 32-bit difference. */
  function MinusOne(n: nat): nat {
    if n == 0 then WORDS - 1 else n - 1
  }

  /** After n doublings in 32 bits. */
  function DoubledTimes(m: nat, n: nat): nat {
    if n == 0 then m else Doubled(DoubledTimes(m, n - 1))
  }

  /** What `1 << n` gives on 32-bit words: from 31 on the language leaves it open. */
  predicate ShiftOfOne(shifted: nat, n: nat) {
    shifted < WORDS && (n < 31 ==> shifted == Pow2(n))
  }

  /** The search for the number of blocks in the smallest file ends exactly if the shift has not given 1, or there are
      no blocks. */
  lemma {:induction false} EnoughExactly(shifted: nat, recoveryblockcount: nat)
    requires shifted < WORDS && recoveryblockcount <= 65536
    ensures (exists n: nat :: DoubledTimes(MinusOne(shifted), n) >= recoveryblockcount) <==>
            shifted != 1 || recoveryblockcount == 0
  {
    if shifted != 1 {
      var n := DoubledEnough(MinusOne(shifted), recoveryblockcount, 0);
    } else {
      var m := MinusOne(shifted);
      forall n: nat
        ensures DoubledTimes(m, n) == 0
      {
        NothingDoubled(m, n);
      }
      assert recoveryblockcount == 0 ==> DoubledTimes(m, 0) >= recoveryblockcount;
    }
  }

  lemma {:induction false} NothingDoubled(m: nat, n: nat)
    requires m == 0
    ensures DoubledTimes(m, n) == 0
  {
    if n > 0 {
      NothingDoubled(m, n - 1);
    }
  }

  lemma {:induction false} DoubledEnough(m: nat, count: nat, n: nat) returns (k: nat)
    requires 0 < DoubledTimes(m, n) && count <= 65536
    ensures DoubledTimes(m, k) >= count
    decreases count - DoubledTimes(m, n)
  {
    k := n;
    if DoubledTimes(m, n) < count {
      k := DoubledEnough(m, count, n + 1);
    }
  }

  /** Numbers of blocks that grow exponentially, from the smallest power of two that is enough. */
  method AllocateVariable(recoveryblockcount: nat, recoveryfilecount: nat, first: nat, shifted: nat)
    returns (a: seq<FileAllocation>, ghost n: nat)
    requires 0 < recoveryfilecount && recoveryblockcount <= 65536
    requires ShiftOfOne(shifted, recoveryfilecount) && (shifted == 1 ==> recoveryblockcount == 0)
    ensures |a| == recoveryfilecount && Chain(a, first, first + recoveryblockcount)
    ensures Doubling(a, Pow2(n), first + recoveryblockcount)
    ensures recoveryblockcount <= DoubledTimes(MinusOne(shifted), n)
    ensures n > 0 ==> DoubledTimes(MinusOne(shifted), n - 1) < recoveryblockcount
  {
    var lowblockcount := 1;
    var maxrecoveryblocks := if shifted == 0 then WORDS - 1 else shifted - 1;
    n := 0;
    ShiftedEnough(shifted, recoveryfilecount);
    hide Times;
    while maxrecoveryblocks < recoveryblockcount
      invariant lowblockcount == Pow2(n) && maxrecoveryblocks == DoubledTimes(MinusOne(shifted), n)
      invariant lowblockcount <= maxrecoveryblocks || maxrecoveryblocks == recoveryblockcount == 0
      invariant n > 0 ==> DoubledTimes(MinusOne(shifted), n - 1) < recoveryblockcount
      invariant Min(maxrecoveryblocks, 65536) <= Times(lowblockcount, Pow2(recoveryfilecount)) - lowblockcount
      decreases recoveryblockcount - maxrecoveryblocks
    {
      SumTimes(Pow2(recoveryfilecount), lowblockcount, lowblockcount);
      TwiceTimes(lowblockcount, Pow2(recoveryfilecount));
      lowblockcount := Doubled(lowblockcount);
      maxrecoveryblocks := Doubled(maxrecoveryblocks);
      n := n + 1;
    }
    a := AllocateDoubling(lowblockcount, recoveryblockcount, recoveryfilecount, first);
  }

  lemma {:induction false} TwiceTimes(a: nat, b: nat)
    ensures Times(2 * a, b) == 2 * Times(a, b)
  {
  }

  lemma {:induction false} ShiftedEnough(shifted: nat, n: nat)
    requires 0 < n && ShiftOfOne(shifted, n)
    ensures Times(1, Pow2(n)) == Pow2(n) && Min(MinusOne(shifted), 65536) <= Pow2(n) - 1
    ensures n < 31 ==> shifted > 1
  {
    hide Pow2;
    SmallPowers();
    OneTimes(Pow2(n));
    Pow2Grows(1, n);
    if n >= 31 {
      Pow2Grows(17, n);
    }
  }

  lemma {:induction false} SmallPowers()
    ensures Pow2(1) == 2 && Pow2(17) == 131072
  {
    Pow2Add(8, 9);
    assert Pow2(8) == 256 && Pow2(9) == 512;
  }

  lemma {:induction false} Pow2Grows(m: nat, n: nat)
    requires m <= n
    ensures Pow2(m) <= Pow2(n)
    decreases n
  {
    if m < n {
      Pow2Grows(m, n - 1);
    }
  }

  lemma {:induction false} Pow2Add(m: nat, n: nat)
    ensures Pow2(m + n) == Pow2(m) * Pow2(n)
    decreases n
  {
    if n > 0 {
      Pow2Add(m, n - 1);
    }
  }

  /** Files with as many blocks as the largest source file at the top, and a doubling sequence from one on at the
      bottom, which ends at `end`. */
  ghost predicate Limits(a: seq<FileAllocation>, whole: nat, largest: nat, end: nat) {
    && whole <= |a| && (forall k :: |a| - whole <= k < |a| ==> a[k].count == largest)
    && Doubling(a[..|a| - whole], 1, end)
  }

  /** Exponential numbers of blocks, but no file with more than the largest source file has: files of
      that size at the top, a doubling sequence at the bottom. */
  method AllocateLimited(recoveryblockcount: nat, recoveryfilecount: nat, largest: nat, first: nat)
    returns (a: seq<FileAllocation>, exponent: nat)
    requires 0 < recoveryblockcount <= 65536 && 0 < largest
    requires recoveryfilecount == FileCount(Limited, 0, recoveryblockcount, largest)
    ensures |a| == recoveryfilecount && Chain(a, first, first + recoveryblockcount)
    ensures forall k :: 0 <= k < |a| ==> a[k].count <= largest
    ensures exponent == first + recoveryblockcount - Whole(recoveryblockcount, largest) * largest
    ensures Limits(a, Whole(recoveryblockcount, largest), largest, exponent)
  {
    ghost var whole := Whole(recoveryblockcount, largest);
    LimitedCounts(recoveryblockcount, largest);
    var filenumber, blocks := recoveryfilecount, recoveryblockcount;
    var top := [];
    exponent := first + recoveryblockcount;
    while blocks >= 2 * largest && filenumber > 0
      invariant 0 <= blocks && exponent == first + blocks
      invariant filenumber + |top| == recoveryfilecount && |top| <= whole
      invariant blocks == recoveryblockcount - |top| * largest
      invariant Chain(top, exponent, first + recoveryblockcount)
      invariant forall k :: 0 <= k < |top| ==> top[k].count == largest
      decreases filenumber
    {
      filenumber := filenumber - 1;
      exponent := exponent - largest;
      blocks := blocks - largest;
      assert (|top| + 1) * largest == |top| * largest + largest;
      assert |top| != whole;
      ghost var f := FileAllocation(exponent, largest);
      ChainNext([], exponent, f);
      assert [] + [f] == [f];
      ChainJoin([f], top, exponent, exponent + largest, first + recoveryblockcount);
      top := [FileAllocation(exponent, largest)] + top;
    }
    assert |top| == whole by {
      TopFull(recoveryblockcount, largest, |top|);
    }
    assert blocks > 0 && filenumber > 0;
    DigitsBounds(blocks);
    TimesPow2(1, filenumber);
    OneTimes(Pow2(filenumber));
    var bottom := AllocateDoubling(1, blocks, filenumber, first);
    ChainJoin(bottom, top, first, first + blocks, first + recoveryblockcount);
    exponent := first + blocks;
    a := bottom + top;
    assert a[..|a| - whole] == bottom;
  }

  lemma {:induction false} OneTimes(n: nat)
    ensures Times(1, n) == n
  {
  }

  /** The top is complete when fewer than twice the largest number of blocks is left. */
  lemma {:induction false} TopFull(count: nat, largest: nat, taken: nat)
    requires 0 < largest && 0 < count && taken <= Whole(count, largest)
    requires count - taken * largest < 2 * largest || taken == Whole(count, largest)
    ensures taken == Whole(count, largest)
  {
    var q := count / largest;
    assert count == largest * q + count % largest;
    if taken < q - 1 {
      MulMonotone(largest, taken + 2, q);
      SumTimes(largest, taken, 2);
      assert false;
    }
  }
}
