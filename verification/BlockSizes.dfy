/** How par2creator.cpp (ComputeBlockSizeAndBlockCount) finds the block size that belongs to a number of blocks,
    and the number that belongs to a size. */
module BlockSizes {
  import opened Arithmetic

  const MAX_BLOCKS := 32768

  /** The number of blocks of the given size that hold files of the given sizes. */
  function Count(sizes: seq<nat>, size: nat): nat
    requires size > 0
    decreases |sizes|
  {
    if |sizes| == 0 then 0 else Count(sizes[..|sizes| - 1], size) + CeilDiv(sizes[|sizes| - 1], size)
  }

  function Sum(s: seq<nat>): nat
    decreases |s|
  {
    if |s| == 0 then 0 else Sum(s[..|s| - 1]) + s[|s| - 1]
  }

  /** File sizes in 4-byte words, rounded up. */
  function Words(sizes: seq<nat>): (r: seq<nat>)
    ensures |r| == |sizes|
    ensures forall i :: 0 <= i < |r| ==> r[i] == CeilDiv(sizes[i], 4)
  {
    seq(|sizes|, i requires 0 <= i < |sizes| => CeilDiv(sizes[i], 4))
  }

  function Distance(count: nat, wanted: nat): nat {
    if count > wanted then count - wanted else wanted - count
  }

  // ----- Rounding up -----

  lemma {:induction false} CeilDivBounds(a: nat, b: nat)
    requires b > 0
    ensures a <= b * CeilDiv(a, b) <= a + b - 1
  {
    var x := a + b - 1;
    assert x == b * (x / b) + x % b;
  }

  lemma {:induction false} CeilDivUnique(a: nat, b: nat, c: nat)
    requires b > 0 && a <= b * c < a + b
    ensures CeilDiv(a, b) == c
  {
    CeilDivBounds(a, b);
    var d := CeilDiv(a, b);
    Between(b, c, d);
    Between(b, d, c);
  }

  lemma {:induction false} Between(b: nat, c: nat, d: nat)
    requires b > 0 && b * c < b * d + b
    ensures c <= d
  {
    if c >= d + 1 {
      MulMonotone(b, d + 1, c);
      assert false;
    }
  }

  /** Rounding up by 4 and then by s is rounding up by 4*s. */
  lemma {:induction false} CeilDivTwice(a: nat, s: nat)
    requires s > 0
    ensures CeilDiv(CeilDiv(a, 4), s) == CeilDiv(a, 4 * s)
  {
    var w := CeilDiv(a, 4);
    var c := CeilDiv(w, s);
    CeilDivBounds(w, s);
    assert (4 * s) * c == 4 * (s * c);
    CeilDivUnique(a, 4 * s, c);
  }

  lemma {:induction false} CeilDivMono(a: nat, s: nat, t: nat)
    requires 0 < s <= t
    ensures CeilDiv(a, s) >= CeilDiv(a, t)
  {
    var c := CeilDiv(a, s);
    CeilDivBounds(a, s);
    CeilDivBounds(a, t);
    MulMonotone(c, s, t);
    Between(t, CeilDiv(a, t), c);
  }

  // ----- Counts -----

  lemma {:induction false} CountWords(sizes: seq<nat>, s: nat)
    requires s > 0
    ensures Count(Words(sizes), s) == Count(sizes, 4 * s)
    decreases |sizes|
  {
    if |sizes| > 0 {
      var n := |sizes| - 1;
      CountWords(sizes[..n], s);
      assert Words(sizes)[..n] == Words(sizes[..n]);
      CeilDivTwice(sizes[n], s);
    }
  }

  /** Larger blocks, fewer of them. */
  lemma {:induction false} CountMono(words: seq<nat>, s: nat, t: nat)
    requires 0 < s <= t
    ensures Count(words, s) >= Count(words, t)
    decreases |words|
  {
    if |words| > 0 {
      CountMono(words[..|words| - 1], s, t);
      CeilDivMono(words[|words| - 1], s, t);
    }
  }

  /** The blocks hold everything, and each file wastes less than one block. */
  lemma {:induction false} CountBounds(words: seq<nat>, s: nat)
    requires s > 0
    ensures Sum(words) <= s * Count(words, s) <= Sum(words) + |words| * (s - 1)
    decreases |words|
  {
    if |words| > 0 {
      var n := |words| - 1;
      var a, b := Count(words[..n], s), CeilDiv(words[n], s);
      CountBounds(words[..n], s);
      CeilDivBounds(words[n], s);
      SumTimes(s, a, b);
      SumTimes(s - 1, n, 1);
    }
  }

  /** The lower bound on the size gives at least the requested number of blocks ... */
  lemma {:induction false} LowerBracket(words: seq<nat>, s: nat, wanted: nat)
    requires 0 < s && s * wanted <= Sum(words)
    ensures Count(words, s) >= wanted
  {
    CountBounds(words, s);
    Between(s, wanted, Count(words, s));
  }

  /** ... and the upper bound at most that number. */
  lemma {:induction false} UpperBracket(words: seq<nat>, s: nat, wanted: nat)
    requires 0 < s && |words| < wanted && Sum(words) <= s * (wanted - |words|)
    ensures Count(words, s) <= wanted
  {
    var f, c := |words|, Count(words, s);
    CountBounds(words, s);
    assert s * (wanted - f) == s * wanted - s * f;
    assert f * (s - 1) == s * f - f;
    Between(s, c, wanted);
  }

  /** The distance from the lower bound is less than any the search starts from. */
  lemma {:induction false} LowerDistance(words: seq<nat>, s: nat, wanted: nat)
    requires 0 < wanted && |words| < wanted && s == Sum(words) / wanted && 0 < s
    ensures Count(words, s) <= 2 * wanted
  {
    hide *;
    CountBounds(words, s);
    Quotient(Sum(words), wanted);
    MulMonotone(s - 1, |words|, wanted);
    SumTimes(wanted, s - 1, 1);
    SumTimes(s, wanted, wanted);
    Between(s, Count(words, s), wanted + wanted);
  }

  // ----- The search -----

  /** The size found so far: its distance from the requested count, and its count. */
  datatype Best = Best(size: nat, distance: nat, count: nat)

  /** The best of the sizes tried so far. */
  ghost predicate IsBest(words: seq<nat>, wanted: nat, best: Best) {
    best.size > 0 && best.count == Count(words, best.size) && best.distance == Distance(best.count, wanted)
  }

  /** No size gives a count closer to the requested one. */
  ghost predicate Closest(words: seq<nat>, wanted: nat, size: nat) {
    size > 0 && forall s :: s > 0 ==> Distance(Count(words, size), wanted) <= Distance(Count(words, s), wanted)
  }

  /** With adjacent bounds on either side of the requested count, no size is better than both. */
  lemma {:induction false} BracketsDecide(words: seq<nat>, wanted: nat, lower: nat, upper: nat, best: Best)
    requires 0 < lower && upper <= lower + 1 && 0 < upper
    requires Count(words, lower) >= wanted >= Count(words, upper)
    requires IsBest(words, wanted, best)
    requires best.distance <= Distance(Count(words, lower), wanted)
    requires best.distance <= Distance(Count(words, upper), wanted)
    ensures Closest(words, wanted, best.size)
  {
    forall s | s > 0
      ensures best.distance <= Distance(Count(words, s), wanted)
    {
      if s <= lower {
        CountMono(words, s, lower);
      } else {
        CountMono(words, upper, s);
      }
    }
  }

  lemma {:induction false} CountOnes(files: seq<nat>, size: nat)
    requires forall i :: 0 <= i < |files| ==> 0 < files[i] <= size
    requires size > 0
    ensures Count(files, size) == |files|
    decreases |files|
  {
    if |files| > 0 {
      var n := |files| - 1;
      CountOnes(files[..n], size);
      assert files[n] <= size * 1 < files[n] + size;
      CeilDivUnique(files[n], size, 1);
    }
  }

  lemma {:induction false} CountFours(files: seq<nat>)
    ensures Count(files, 4) == Sum(Words(files))
    decreases |files|
  {
    if |files| > 0 {
      CountFours(files[..|files| - 1]);
      assert Words(files)[..|files| - 1] == Words(files[..|files| - 1]);
    }
  }

  lemma {:induction false} WordsCover(files: seq<nat>, n: nat)
    requires n <= |files|
    requires forall i :: 0 <= i < |files| ==> files[i] > 0
    ensures Sum(Words(files[..n])) >= n
    decreases n
  {
    if n > 0 {
      WordsCover(files, n - 1);
      assert files[..n][..n - 1] == files[..n - 1];
      assert Words(files[..n])[..n - 1] == Words(files[..n - 1]);
    }
  }

  /** The greatest file size, as a multiple of four. */
  ghost predicate LargestRoundedUp(files: seq<nat>, size: nat) {
    exists i :: 0 <= i < |files| && size == 4 * CeilDiv(files[i], 4) && Largest(files, files[i])
  }

  ghost predicate Largest(files: seq<nat>, n: nat) {
    forall j :: 0 <= j < |files| ==> files[j] <= n
  }

  /** If the lower bound is among the closest sizes, it is chosen, and otherwise the upper bound if it is. */
  ghost predicate Prefers(words: seq<nat>, wanted: nat, lower: nat, upper: nat, size: nat) {
    if Closest(words, wanted, lower) then size == lower
    else Closest(words, wanted, upper) ==> size == upper
  }

  /** The bounds are what all words together and what all but one block to a file would need. */
  ghost predicate PrefersBounds(words: seq<nat>, wanted: nat, size: nat)
    requires |words| < wanted
  {
    Prefers(words, wanted, Sum(words) / wanted, CeilDiv(Sum(words), wanted - |words|), size)
  }

  lemma {:induction false} PreferenceKept(words: seq<nat>, wanted: nat, lower: nat, upper: nat, best0: Best, best: Best)
    requires IsBest(words, wanted, best0) && IsBest(words, wanted, best)
    requires best == best0 || best.distance < best0.distance
    requires Prefers(words, wanted, lower, upper, best0.size)
    ensures Prefers(words, wanted, lower, upper, best.size)
  {
  }

  lemma {:induction false} PreferenceStarts(words: seq<nat>, wanted: nat, lower: nat, upper: nat, first: Best,
                                            best: Best)
    requires IsBest(words, wanted, first) && first.size == lower && IsBest(words, wanted, best)
    requires best == first || (best.size == upper && best.distance < first.distance)
    requires 0 < upper && best.distance <= Distance(Count(words, upper), wanted)
    ensures Prefers(words, wanted, lower, upper, best.size)
  {
  }

  class Par2Creator {
    var blocksize: nat
    var sourceblockcount: nat

    constructor (blocksize: nat, sourceblockcount: nat)
      ensures this.blocksize == blocksize && this.sourceblockcount == sourceblockcount
    {
      this.blocksize, this.sourceblockcount := blocksize, sourceblockcount;
    }

    /** The largest file size, and the total size in words. */
    method Measure(files: seq<nat>) returns (largest: nat, total: nat)
      requires |files| > 0
      ensures largest in files && Largest(files, largest)
      ensures total == Sum(Words(files))
    {
      largest, total := files[0], 0;
      for i := 0 to |files|
        invariant largest in files && forall j :: 0 <= j < i ==> files[j] <= largest
        invariant total == Sum(Words(files[..i]))
      {
        if largest < files[i] {
          largest := files[i];
        }
        assert files[..i + 1][..i] == files[..i];
        assert Words(files[..i + 1])[..i] == Words(files[..i]);
        total := total + (files[i] + 3) / 4;
      }
      assert files[..|files|] == files;
    }

    /** The number of blocks that a size gives. */
    method CountBlocks(sizes: seq<nat>, size: nat) returns (count: nat)
      requires size > 0
      ensures count == Count(sizes, size)
    {
      count := 0;
      for i := 0 to |sizes|
        invariant count == Count(sizes[..i], size)
      {
        assert sizes[..i + 1][..i] == sizes[..i];
        count := count + (sizes[i] + size - 1) / size;
      }
      assert sizes[..|sizes|] == sizes;
    }

    /** Try a size: it becomes the best one only if it is closer to the requested count. */
    method Try(words: seq<nat>, wanted: nat, size: nat, best0: Best) returns (count: nat, best: Best)
      requires size > 0 && (IsBest(words, wanted, best0) || Distance(Count(words, size), wanted) < best0.distance)
      ensures count == Count(words, size)
      ensures IsBest(words, wanted, best) && best.distance <= best0.distance
      ensures best.distance <= Distance(count, wanted)
      ensures best == best0 || (best.size == size && Distance(count, wanted) < best0.distance)
    {
      count := CountBlocks(words, size);
      var distance := if count > wanted then count - wanted else wanted - count;
      best := best0;
      if best.distance > distance {
        best := Best(size, distance, count);
      }
    }

    /** Binary search for the block size, in words, whose count is closest to the requested one; of several such sizes
        the first bound is preferred, and then the second one. */
    method Search(words: seq<nat>, wanted: nat) returns (best: Best)
      requires 0 < |words| < wanted <= Sum(words) && wanted <= MAX_BLOCKS
      ensures IsBest(words, wanted, best) && Closest(words, wanted, best.size)
      ensures PrefersBounds(words, wanted, best.size)
    {
      hide Count;
      hide IsBest;
      hide Closest;
      var total := Sum(words);
      var lowerBound := total / wanted;
      var upperBound := (total + wanted - |words| - 1) / (wanted - |words|);
      Bounds(words, wanted, lowerBound, upperBound);
      ghost var lowerCount, upperCount;
      ghost var lower, upper := lowerBound, upperBound;
      best := Best(lowerBound, 1000000, 0);
      lowerCount, best := Try(words, wanted, lowerBound, best);
      ghost var first := best;
      upperCount, best := Try(words, wanted, upperBound, best);
      PreferenceStarts(words, wanted, lower, upper, first, best);
      while lowerBound + 1 < upperBound
        invariant 0 < lowerBound && 0 < upperBound
        invariant Count(words, lowerBound) >= wanted >= Count(words, upperBound)
        invariant IsBest(words, wanted, best)
        invariant best.distance <= Distance(Count(words, lowerBound), wanted)
        invariant best.distance <= Distance(Count(words, upperBound), wanted)
        invariant Prefers(words, wanted, lower, upper, best.size)
        decreases upperBound - lowerBound
      {
        var size := (lowerBound + upperBound) / 2;
        var count;
        ghost var best0 := best;
        count, best := Try(words, wanted, size, best);
        PreferenceKept(words, wanted, lower, upper, best0, best);
        if count < wanted {
          upperBound := size;
        } else if count > wanted {
          lowerBound := size;
        } else {
          upperBound := size;
        }
      }
      BracketsDecide(words, wanted, lowerBound, upperBound, best);
    }

    /** Settle the block size and the number of blocks, of which one was given. */
    method ComputeBlockSizeAndBlockCount(files: seq<nat>) returns (ok: bool)
      requires |files| > 0 && forall i :: 0 <= i < |files| ==> files[i] > 0
      requires sourceblockcount <= MAX_BLOCKS
      modifies this
      ensures ok && blocksize > 0 ==> sourceblockcount == Count(files, blocksize) <= MAX_BLOCKS
      // The size was given.
      ensures old(blocksize) > 0 ==> blocksize == old(blocksize) && (ok <==> Count(files, blocksize) <= MAX_BLOCKS)
      // The count was given: the size is a multiple of four ...
      ensures old(blocksize) == 0 && ok ==> blocksize % 4 == 0 && (blocksize > 0 <==> old(sourceblockcount) > 0)
      ensures old(blocksize) == 0 && 0 < old(sourceblockcount) < |files| ==> !ok
      // ... big enough for the largest file if there is to be one block per file ...
      ensures old(blocksize) == 0 && old(sourceblockcount) == |files| ==>
                ok && sourceblockcount == |files| && LargestRoundedUp(files, blocksize)
      // ... four bytes if more blocks are asked for than there are words ...
      ensures old(blocksize) == 0 && old(sourceblockcount) > |files| && old(sourceblockcount) > Sum(Words(files)) ==>
                ok && blocksize == 4
      // ... and otherwise the size whose count is closest to the requested one, unless that is too many.
      ensures old(blocksize) == 0 && |files| < old(sourceblockcount) <= Sum(Words(files)) ==>
                exists size: nat :: size > 0 && Closest(Words(files), old(sourceblockcount), size) &&
                               PrefersBounds(Words(files), old(sourceblockcount), size) &&
                               (ok <==> Count(Words(files), size) <= MAX_BLOCKS) && (ok ==> blocksize == 4 * size)
    {
      hide Count;
      hide Closest;
      hide Sum;
      if blocksize > 0 {
        var count := CountBlocks(files, blocksize);
        if count > MAX_BLOCKS {
          return false;
        }
        sourceblockcount := count;
      } else if sourceblockcount > 0 {
        if sourceblockcount < |files| {
          return false;
        }
        var largest, totalsize := Measure(files);
        if sourceblockcount == |files| {
          blocksize := (largest + 3) / 4 * 4;
          CountOnes(files, blocksize);
        } else if sourceblockcount > totalsize {
          WordsCover(files, |files|);
          assert files[..|files|] == files;
          CountFours(files);
          sourceblockcount := totalsize;
          blocksize := 4;
        } else {
          var best := Search(Words(files), sourceblockcount);
          CountWords(files, best.size);
          if best.count > MAX_BLOCKS {
            return false;
          }
          sourceblockcount := best.count;
          blocksize := best.size * 4;
        }
      }
      return true;
    }
  }

  /** The initial bounds of the search. */
  lemma {:induction false} Bounds(words: seq<nat>, wanted: nat, lower: nat, upper: nat)
    requires 0 < |words| < wanted <= Sum(words) && wanted <= MAX_BLOCKS
    requires lower == Sum(words) / wanted && upper == CeilDiv(Sum(words), wanted - |words|)
    ensures 0 < lower && 0 < upper
    ensures Count(words, lower) >= wanted >= Count(words, upper)
    ensures Distance(Count(words, lower), wanted) < 1000000
  {
    var w, d := Sum(words), wanted - |words|;
    assert w == wanted * lower + w % wanted;
    if lower == 0 {
      assert false;
    }
    assert lower * wanted == wanted * lower;
    LowerBracket(words, lower, wanted);
    LowerDistance(words, lower, wanted);
    CeilDivBounds(w, d);
    if upper == 0 {
      assert false;
    }
    assert upper * d == d * upper;
    UpperBracket(words, upper, wanted);
  }
}
