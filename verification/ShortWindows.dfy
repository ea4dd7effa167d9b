/** What the window of the scanner holds near the end of a file.  Fill returns early once the file is used up, so
    that a window reaching past the end is not always padded with zeros: this module says what pads it after
    any steps and jumps, and so exactly when it is zeros. */
module ShortWindows {
  import opened Arithmetic
  import opened Bytes
  import opened Md5
  import opened FileCheckSummers
  import opened Windows

  // ----- Where the bytes of the buffer come from -----

  /** A byte of the buffer that was laid out several times, each time from some offset of the file on: the last
      layout that has a byte of the file there counts, and without any it is zero. */
  function Byte(file: seq<byte>, origins: seq<nat>, j: nat): byte
    decreases |origins|
  {
    if |origins| == 0 then 0
    else
      var n := |origins| - 1;
      if origins[n] + j < |file| then file[origins[n] + j] else Byte(file, origins[..n], j)
  }

  /** What the sizes alone say of the buffer: where the window is, how far the file has been read, and from which
      offsets the first and the second half of the buffer were laid out. */
  datatype Trail = Trail(out: nat, read: nat, first: seq<nat>, second: seq<nat>)

  function Shifted(origins: seq<nat>, size: nat): (r: seq<nat>)
    ensures |r| == |origins| && forall i :: 0 <= i < |r| ==> r[i] == origins[i] + size
  {
    seq(|origins|, i requires 0 <= i < |origins| => origins[i] + size)
  }

  /** A move to an offset: nothing is laid out by a step inside the buffer; everything is, once, as long as there
      is more to read; then a step over the middle lays the second half over the first one, and a jump lays
      out what is left over what is there. */
  function Followed(filesize: nat, blocksize: nat, t: Trail, distance: nat, offset: nat): Trail {
    if distance == 1 && t.out + 1 < blocksize then t.(out := t.out + 1)
    else if t.read < filesize then Trail(0, Min(filesize, offset + 2 * blocksize), [offset], [offset])
    else if distance == 1 then Trail(0, t.read, Shifted(t.second, blocksize), t.second)
    else Trail(0, t.read, t.first + [offset], t.second + [offset])
  }

  function Follow(filesize: nat, blocksize: nat, moves: seq<nat>): Trail
    decreases |moves|
  {
    if |moves| == 0 then Trail(0, Min(filesize, 2 * blocksize), [0], [0])
    else
      var n := |moves| - 1;
      Followed(filesize, blocksize, Follow(filesize, blocksize, moves[..n]), moves[n], Total(moves))
  }

  function ByteAt(file: seq<byte>, blocksize: nat, t: Trail, j: nat): byte {
    Byte(file, if j < blocksize then t.first else t.second, j)
  }

  /** The buffer is laid out as the trail says. */
  ghost predicate LaidOut(file: seq<byte>, blocksize: nat, v: View, t: Trail) {
    && v.out == t.out && v.read == t.read && |v.bytes| == 2 * blocksize
    && forall j :: 0 <= j < 2 * blocksize ==> v.bytes[j] == ByteAt(file, blocksize, t, j)
  }

  lemma {:induction false} ByteShifted(file: seq<byte>, origins: seq<nat>, size: nat, j: nat)
    ensures Byte(file, Shifted(origins, size), j) == Byte(file, origins, size + j)
    decreases |origins|
  {
    if |origins| > 0 {
      var n := |origins| - 1;
      ByteShifted(file, origins[..n], size, j);
      assert Shifted(origins, size)[..n] == Shifted(origins[..n], size);
    }
  }

  lemma {:induction false} ByteOne(file: seq<byte>, origin: nat, j: nat)
    ensures Byte(file, [origin], j) == if origin + j < |file| then file[origin + j] else 0
  {
    assert [origin][..0] == [];
  }

  lemma {:induction false} ByteMore(file: seq<byte>, origins: seq<nat>, origin: nat, j: nat)
    ensures Byte(file, origins + [origin], j) ==
            if origin + j < |file| then file[origin + j] else Byte(file, origins, j)
  {
    assert (origins + [origin])[..|origins|] == origins;
  }

  lemma {:induction false} PaddedLaidOut(file: seq<byte>, blocksize: nat, offset: nat)
    requires offset <= |file|
    ensures LaidOut(file, blocksize,
                    View(offset, 0, Min(|file|, offset + 2 * blocksize), PaddedFrom(file, offset, 2 * blocksize)),
                    Trail(0, Min(|file|, offset + 2 * blocksize), [offset], [offset]))
  {
    forall j | 0 <= j < 2 * blocksize
      ensures PaddedFrom(file, offset, 2 * blocksize)[j] == Byte(file, [offset], j)
    {
      ByteOne(file, offset, j);
    }
  }

  /** A jump once the file is used up. */
  lemma {:induction false} JumpLaidOut(file: seq<byte>, blocksize: nat, v: View, t: Trail, distance: nat)
    requires Fits(file, blocksize, v) && 1 < distance <= blocksize && v.offset + distance < |file|
    requires LaidOut(file, blocksize, v, t) && v.read == |file|
    ensures LaidOut(file, blocksize, Moved(file, blocksize, v, distance),
                    Followed(|file|, blocksize, t, distance, v.offset + distance))
  {
    var offset := v.offset + distance;
    KeptFront(file, blocksize, v, distance);
    MovedFar(file, blocksize, v, distance);
    var w, u := Moved(file, blocksize, v, distance), Followed(|file|, blocksize, t, distance, offset);
    hide Moved, Fits;
    forall j | 0 <= j < 2 * blocksize
      ensures w.bytes[j] == ByteAt(file, blocksize, u, j)
    {
      ByteMore(file, if j < blocksize then t.first else t.second, offset, j);
      assert v.bytes[j] == ByteAt(file, blocksize, t, j);
      if j < |file| - offset {
        assert Kept(v, distance)[..|file| - offset][j] == file[offset..][j];
      }
    }
  }

  /** A step over the middle of the buffer once the file is used up. */
  lemma {:induction false} CrossLaidOut(file: seq<byte>, blocksize: nat, v: View, t: Trail)
    requires Fits(file, blocksize, v) && v.offset + 1 < |file| && v.out + 1 == blocksize
    requires LaidOut(file, blocksize, v, t) && v.read == |file|
    ensures LaidOut(file, blocksize, Moved(file, blocksize, v, 1), Followed(|file|, blocksize, t, 1, v.offset + 1))
  {
    var w, u := Moved(file, blocksize, v, 1), Followed(|file|, blocksize, t, 1, v.offset + 1);
    var half := v.bytes[blocksize..];
    assert w.bytes == half + half;
    hide Moved, Fits;
    forall j | 0 <= j < 2 * blocksize
      ensures w.bytes[j] == ByteAt(file, blocksize, u, j)
    {
      if j < blocksize {
        ByteShifted(file, t.second, blocksize, j);
        assert v.bytes[blocksize + j] == ByteAt(file, blocksize, t, blocksize + j);
      } else {
        assert v.bytes[j] == ByteAt(file, blocksize, t, j);
      }
    }
  }

  lemma {:induction false} MoveLaidOut(file: seq<byte>, blocksize: nat, v: View, t: Trail, distance: nat)
    requires Fits(file, blocksize, v) && 0 < distance <= blocksize && v.offset + distance < |file|
    requires LaidOut(file, blocksize, v, t)
    ensures LaidOut(file, blocksize, Moved(file, blocksize, v, distance),
                    Followed(|file|, blocksize, t, distance, v.offset + distance))
  {
    if distance == 1 && v.out + 1 < blocksize {
    } else if v.read < |file| {
      hide LaidOut, PaddedFrom;
      PaddedLaidOut(file, blocksize, v.offset + distance);
      assert v.read == t.read by { SameRead(file, blocksize, v, t); }
    } else if distance == 1 {
      CrossLaidOut(file, blocksize, v, t);
    } else {
      JumpLaidOut(file, blocksize, v, t, distance);
    }
  }

  lemma {:induction false} SameRead(file: seq<byte>, blocksize: nat, v: View, t: Trail)
    requires LaidOut(file, blocksize, v, t)
    ensures v.read == t.read && v.out == t.out
  {
  }

  /** After any steps and jumps the buffer is laid out as the sizes say. */
  lemma {:induction false} AllLaidOut(file: seq<byte>, blocksize: nat, moves: seq<nat>)
    requires 0 < blocksize && Inside(|file|, blocksize, moves)
    ensures LaidOut(file, blocksize, Viewed(file, blocksize, moves), Follow(|file|, blocksize, moves))
    decreases |moves|
  {
    hide LaidOut, Fits, Followed, Moved, PaddedFrom;
    if |moves| == 0 {
      PaddedLaidOut(file, blocksize, 0);
    } else {
      var n := |moves| - 1;
      InsideBefore(|file|, blocksize, moves);
      AllLaidOut(file, blocksize, moves[..n]);
      MoveLaidOut(file, blocksize, Viewed(file, blocksize, moves[..n]), Follow(|file|, blocksize, moves[..n]),
                  moves[n]);
    }
  }

  // ----- What pads a window -----

  /** The bytes of the file that a window at some offset should hold. */
  function Wanted(file: seq<byte>, blocksize: nat, offset: nat): (r: seq<byte>)
    requires offset <= |file|
    ensures |r| <= blocksize
  {
    file[offset..offset + Min(blocksize, |file| - offset)]
  }

  /** The bytes behind the end of the file in a window at some offset, if the buffer is laid out like this. */
  function BehindAt(file: seq<byte>, blocksize: nat, t: Trail, offset: nat): (r: seq<byte>)
    requires offset <= |file|
    ensures |r| == blocksize - Min(blocksize, |file| - offset)
  {
    var n := Min(blocksize, |file| - offset);
    seq<byte>(blocksize - n, i requires 0 <= i => ByteAt(file, blocksize, t, t.out + n + i))
  }

  /** The bytes of the window behind the end of the file, after some moves. */
  function Behind(file: seq<byte>, blocksize: nat, moves: seq<nat>): (r: seq<byte>)
    requires Inside(|file|, blocksize, moves)
    ensures |r| == blocksize - Min(blocksize, |file| - Total(moves))
  {
    BehindAt(file, blocksize, Follow(|file|, blocksize, moves), Total(moves))
  }

  lemma {:induction false} ViewHolds(file: seq<byte>, blocksize: nat, v: View, t: Trail)
    requires Fits(file, blocksize, v) && LaidOut(file, blocksize, v, t)
    ensures v.bytes[v.out..v.out + blocksize] ==
              Wanted(file, blocksize, v.offset) + BehindAt(file, blocksize, t, v.offset)
  {
    WindowInView(file, blocksize, v);
    var n, window := Min(blocksize, |file| - v.offset), v.bytes[v.out..v.out + blocksize];
    var behind := BehindAt(file, blocksize, t, v.offset);
    BehindHolds(file, blocksize, v, t);
    hide Fits, LaidOut, BehindAt;
    assert window == window[..n] + window[n..];
  }

  lemma {:induction false} BehindHolds(file: seq<byte>, blocksize: nat, v: View, t: Trail)
    requires v.out < blocksize && v.offset <= |file| && LaidOut(file, blocksize, v, t)
    ensures v.bytes[v.out..v.out + blocksize][Min(blocksize, |file| - v.offset)..] ==
              BehindAt(file, blocksize, t, v.offset)
  {
    var n := Min(blocksize, |file| - v.offset);
    var rest, behind := v.bytes[v.out..v.out + blocksize][n..], BehindAt(file, blocksize, t, v.offset);
    hide ByteAt;
    forall i | 0 <= i < blocksize - n
      ensures rest[i] == behind[i]
    {
      assert rest[i] == v.bytes[v.out + n + i];
    }
  }

  /** After any steps and jumps the window holds the bytes of the file, and these. */
  lemma {:induction false} WindowIs(file: seq<byte>, blocksize: nat, moves: seq<nat>)
    requires 0 < blocksize && Inside(|file|, blocksize, moves)
    ensures Window(file, blocksize, moves) == Wanted(file, blocksize, Total(moves)) + Behind(file, blocksize, moves)
  {
    hide Inside, Total, LaidOut, Fits, Viewed, Follow, BehindAt, Wanted;
    AllLaidOut(file, blocksize, moves);
    ViewHolds(file, blocksize, Viewed(file, blocksize, moves), Follow(|file|, blocksize, moves));
  }

  /** Exactly when a window is the bytes of the file and zeros, after any steps and jumps. */
  lemma {:induction false} PaddedExactly(file: seq<byte>, blocksize: nat, moves: seq<nat>)
    requires 0 < blocksize && Inside(|file|, blocksize, moves)
    ensures var behind := Behind(file, blocksize, moves);
            Window(file, blocksize, moves) == PaddedTo(Wanted(file, blocksize, Total(moves)), blocksize) <==>
            behind == Zeros(|behind|)
  {
    hide Inside, Total, Behind, Window;
    WindowIs(file, blocksize, moves);
    var wanted, behind := Wanted(file, blocksize, Total(moves)), Behind(file, blocksize, moves);
    assert (wanted + behind)[|wanted|..] == behind;
    assert PaddedTo(wanted, blocksize)[|wanted|..] == Zeros(|behind|);
  }

  /** It is as long as the buffer has not been laid out again since the file was used up. */
  lemma {:induction false} LaidOutOnce(file: seq<byte>, blocksize: nat, moves: seq<nat>, origin: nat)
    requires 0 < blocksize && Inside(|file|, blocksize, moves)
    requires var t := Follow(|file|, blocksize, moves);
             t.first == t.second == [origin] && origin + t.out == Total(moves)
    ensures Window(file, blocksize, moves) == PaddedTo(Wanted(file, blocksize, Total(moves)), blocksize)
  {
    hide Total, Window, Follow, BehindAt;
    PaddedExactly(file, blocksize, moves);
    NothingStale(file, blocksize, Follow(|file|, blocksize, moves), Total(moves), origin);
  }

  lemma {:induction false} NothingStale(file: seq<byte>, blocksize: nat, t: Trail, offset: nat, origin: nat)
    requires offset <= |file| && t.first == t.second == [origin] && origin + t.out == offset
    ensures var behind := BehindAt(file, blocksize, t, offset); behind == Zeros(|behind|)
  {
    var behind, n := BehindAt(file, blocksize, t, offset), Min(blocksize, |file| - offset);
    forall i | 0 <= i < |behind|
      ensures behind[i] == 0
    {
      ByteOne(file, origin, t.out + n + i);
      assert n == |file| - offset;
      assert behind[i] == ByteAt(file, blocksize, t, t.out + n + i) == Byte(file, [origin], t.out + n + i);
    }
  }

  // ----- Single steps -----

  /** Where the last block of a file starts. */
  function LastStart(filesize: nat, blocksize: nat): (s: nat)
    requires 0 < blocksize && 0 < filesize
    ensures s < filesize <= s + blocksize
  {
    Quotient(filesize - 1, blocksize);
    (filesize - 1) / blocksize * blocksize
  }

  /** Whatever starts at a multiple of the block size and reaches the end within a block is the last block. */
  lemma {:induction false} LastStartIs(filesize: nat, blocksize: nat, k: nat, base: nat)
    requires 0 < blocksize && base == Times(k, blocksize) && base < filesize <= base + blocksize
    ensures LastStart(filesize, blocksize) == base
  {
    var q := (filesize - 1) / blocksize;
    Quotient(filesize - 1, blocksize);
    Squeeze(q, k, blocksize, 0) by {
      if q < k {
        MulMonotone(blocksize, q + 1, k);
        SumTimes(blocksize, q, 1);
      } else if q > k {
        MulMonotone(blocksize, k + 1, q);
        SumTimes(blocksize, k, 1);
      }
    }
  }

  /** If more than a block remains behind a multiple of the block size, the last block is further on. */
  lemma {:induction false} LastStartAfter(filesize: nat, blocksize: nat, k: nat, base: nat)
    requires 0 < blocksize && base == Times(k, blocksize) && base + blocksize < filesize
    ensures base + blocksize <= LastStart(filesize, blocksize)
  {
    var q := (filesize - 1) / blocksize;
    Quotient(filesize - 1, blocksize);
    if q <= k {
      MulMonotone(blocksize, q, k);
    } else {
      MulMonotone(blocksize, k + 1, q);
      SumTimes(blocksize, k, 1);
    }
  }

  /** The bytes that a window holds after stepping there from the start of the file. */
  function Held(file: seq<byte>, blocksize: nat, offset: nat): (r: seq<byte>)
    requires 0 < blocksize && offset < |file|
    ensures |r| == blocksize
  {
    var s := LastStart(|file|, blocksize);
    if offset <= s || s == 0 then PaddedTo(Wanted(file, blocksize, offset), blocksize)
    else file[offset..] + Zeros(blocksize - (|file| - s)) + file[s..offset]
  }

  /** That is the bytes of the file and zeros exactly if the window starts no later than the last block, or that
      is the only block, or the part of the last block before the window consists of zeros. */
  lemma {:induction false} HeldExactly(file: seq<byte>, blocksize: nat, offset: nat)
    requires 0 < blocksize && offset < |file|
    ensures var s := LastStart(|file|, blocksize);
            Held(file, blocksize, offset) == PaddedTo(Wanted(file, blocksize, offset), blocksize) <==>
            offset <= s || s == 0 || file[s..offset] == Zeros(offset - s)
  {
    var s, n := LastStart(|file|, blocksize), |file|;
    if offset > s && s != 0 {
      var held, padded := Held(file, blocksize, offset), PaddedTo(Wanted(file, blocksize, offset), blocksize);
      assert Wanted(file, blocksize, offset) == file[offset..];
      var at := n - offset + (blocksize - (n - s));
      assert held[at..] == file[s..offset];
      assert padded[at..] == Zeros(offset - s);
      assert held[..at] == padded[..at];
      assert held == held[..at] + held[at..] && padded == padded[..at] + padded[at..];
    }
  }

  /** The buffer while the window is in its first half, the buffer starting at `base` in the file: data and
      zeros, unless the file was already used up when the window last went back to the start. */
  ghost function BufferAt(file: seq<byte>, blocksize: nat, base: nat): (r: seq<byte>)
    requires 0 < blocksize && base < |file|
    ensures |r| == 2 * blocksize
  {
    if base + blocksize < |file| || base == 0 then PaddedTo(Wanted(file, 2 * blocksize, base), 2 * blocksize)
    else PaddedTo(file[base..], blocksize) + PaddedTo(file[base..], blocksize)
  }

  /** The second half of the buffer before the window goes back. */
  lemma {:induction false} SecondHalf(file: seq<byte>, blocksize: nat, base: nat)
    requires 0 < blocksize && base + blocksize < |file|
    ensures BufferAt(file, blocksize, base)[blocksize..] ==
            PaddedTo(Wanted(file, blocksize, base + blocksize), blocksize)
  {
  }

  /** The window in the two cases. */
  lemma {:induction false} HeldBefore(file: seq<byte>, blocksize: nat, base: nat, offset: nat)
    requires 0 < blocksize && base <= offset < base + blocksize && offset < |file|
    requires base + blocksize < |file| || base == 0
    ensures var out := offset - base;
            BufferAt(file, blocksize, base)[out..out + blocksize] ==
              PaddedTo(Wanted(file, blocksize, offset), blocksize)
  {
    var out, buffer := offset - base, BufferAt(file, blocksize, base);
    var t, u := buffer[out..out + blocksize], PaddedTo(Wanted(file, blocksize, offset), blocksize);
    forall i | 0 <= i < blocksize
      ensures t[i] == u[i]
    {
      PaddedAt(Wanted(file, 2 * blocksize, base), 2 * blocksize, out + i);
      PaddedAt(Wanted(file, blocksize, offset), blocksize, i);
    }
  }

  lemma {:induction false} PaddedAt(s: seq<byte>, n: nat, i: nat)
    requires |s| <= n && i < n
    ensures PaddedTo(s, n)[i] == if i < |s| then s[i] else 0
  {
  }

  lemma {:induction false} HeldAfter(file: seq<byte>, blocksize: nat, base: nat, offset: nat)
    requires 0 < blocksize && base <= offset < base + blocksize && offset < |file| <= base + blocksize && base > 0
    ensures var out := offset - base;
            BufferAt(file, blocksize, base)[out..out + blocksize] ==
            file[offset..] + Zeros(blocksize - (|file| - base)) + file[base..offset]
  {
    var out, half := offset - base, PaddedTo(file[base..], blocksize);
    assert half[..out] == file[base..offset];
    assert half[out..] == file[offset..] + Zeros(blocksize - (|file| - base));
    assert (half + half)[out..out + blocksize] == half[out..] + half[..out];
  }

  lemma {:induction false} HeldInBuffer(file: seq<byte>, blocksize: nat, k: nat, base: nat, offset: nat)
    requires 0 < blocksize && base == Times(k, blocksize) && base <= offset < base + blocksize && offset < |file|
    ensures var out := offset - base;
            BufferAt(file, blocksize, base)[out..out + blocksize] == Held(file, blocksize, offset)
  {
    if base + blocksize < |file| || base == 0 {
      HeldBefore(file, blocksize, base, offset);
      if base + blocksize < |file| {
        LastStartAfter(|file|, blocksize, k, base);
      } else {
        LastStartIs(|file|, blocksize, k, base);
      }
      hide BufferAt;
      hide Wanted;
      hide LastStart;
      hide Times;
    } else {
      HeldAfter(file, blocksize, base, offset);
      LastStartIs(|file|, blocksize, k, base);
      hide BufferAt;
      hide LastStart;
      hide Times;
      if offset == base {
        assert file[offset..] + Zeros(blocksize - (|file| - base)) + [] ==
          PaddedTo(Wanted(file, blocksize, offset), blocksize);
        assert file[base..offset] == [];
      }
    }
  }

  lemma {:induction false} BufferWhole(file: seq<byte>, blocksize: nat, base: nat)
    requires 0 < blocksize && base + blocksize < |file|
    ensures BufferAt(file, blocksize, base) == PaddedTo(Wanted(file, 2 * blocksize, base), 2 * blocksize)
  {
  }

  lemma {:induction false} BufferTwice(file: seq<byte>, blocksize: nat, base: nat)
    requires 0 < blocksize && 0 < base < |file| <= base + blocksize
    ensures var half := PaddedTo(Wanted(file, blocksize, base), blocksize);
            BufferAt(file, blocksize, base) == half + half
  {
    assert Wanted(file, blocksize, base) == file[base..];
  }

  /** Where single steps lead: the buffer starts at `base`, block k of the file. */
  ghost predicate At(file: seq<byte>, blocksize: nat, v: View, k: nat, base: nat) {
    && 0 < blocksize && base <= v.offset < |file| && base == Times(k, blocksize) && v.offset < base + blocksize
    && v.out == v.offset - base && v.read == Min(|file|, base + 2 * blocksize)
    && v.bytes == BufferAt(file, blocksize, base)
  }

  function Ones(n: nat): (r: seq<nat>)
    ensures |r| == n && forall i :: 0 <= i < n ==> r[i] == 1
  {
    seq(n, i => 1)
  }

  lemma {:induction false} OnesInside(filesize: nat, blocksize: nat, n: nat)
    requires 0 < blocksize && n < filesize
    ensures Inside(filesize, blocksize, Ones(n)) && Total(Ones(n)) == n
  {
    if n > 0 {
      OnesInside(filesize, blocksize, n - 1);
      assert Ones(n)[..n - 1] == Ones(n - 1);
    }
  }

  /** After stepping to an offset the window holds what Held says. */
  lemma {:induction false} SteppedHolds(file: seq<byte>, blocksize: nat, offset: nat)
    requires 0 < blocksize && offset < |file|
    ensures Inside(|file|, blocksize, Ones(offset))
    ensures Window(file, blocksize, Ones(offset)) == Held(file, blocksize, offset)
  {
    hide Held, BufferAt, Viewed, Inside, Total, Ones;
    OnesInside(|file|, blocksize, offset);
    var k, base := SteppedAt(file, blocksize, offset);
    HeldInBuffer(file, blocksize, k, base, offset);
  }

  /** So after single steps only, the window is the bytes of the file and zeros exactly if it starts no later than
      the last block, or that is the only block, or the part of the last block before it consists of zeros. */
  lemma {:induction false} SteppedExactly(file: seq<byte>, blocksize: nat, offset: nat)
    requires 0 < blocksize && offset < |file|
    ensures Inside(|file|, blocksize, Ones(offset)) && Total(Ones(offset)) == offset
    ensures var s := LastStart(|file|, blocksize);
            Window(file, blocksize, Ones(offset)) == PaddedTo(Wanted(file, blocksize, offset), blocksize) <==>
            offset <= s || s == 0 || file[s..offset] == Zeros(offset - s)
  {
    hide Window, Held, Inside, Total, Ones;
    OnesInside(|file|, blocksize, offset);
    SteppedHolds(file, blocksize, offset);
    HeldExactly(file, blocksize, offset);
  }

  lemma {:induction false} SteppedAt(file: seq<byte>, blocksize: nat, offset: nat) returns (k: nat, base: nat)
    requires 0 < blocksize && offset < |file|
    ensures Inside(|file|, blocksize, Ones(offset)) && Total(Ones(offset)) == offset
    ensures At(file, blocksize, Viewed(file, blocksize, Ones(offset)), k, base)
  {
    OnesInside(|file|, blocksize, offset);
    if offset == 0 {
      return 0, 0;
    }
    OnesInside(|file|, blocksize, offset - 1);
    assert Ones(offset)[..offset - 1] == Ones(offset - 1);
    hide At, Ones, Total, Inside;
    k, base := SteppedAt(file, blocksize, offset - 1);
    k, base := StepAt(file, blocksize, Viewed(file, blocksize, Ones(offset - 1)), k, base);
  }

  /** One step. */
  lemma {:induction false} StepAt(file: seq<byte>, blocksize: nat, v: View, k: nat, base: nat)
    returns (k': nat, base': nat)
    requires Fits(file, blocksize, v) && At(file, blocksize, v, k, base) && v.offset + 1 < |file|
    ensures At(file, blocksize, Moved(file, blocksize, v, 1), k', base')
  {
    hide BufferAt, Times;
    k', base' := k, base;
    if v.out + 1 == blocksize {
      k', base' := k + 1, base + blocksize;
      TimesNext(k, blocksize);
      if base' + blocksize < |file| {
        BufferWhole(file, blocksize, base');
      } else {
        SecondHalf(file, blocksize, base);
        BufferTwice(file, blocksize, base');
      }
    }
  }

  // ----- Whole blocks -----

  function Blocks(blocksize: nat, k: nat): (r: seq<nat>)
    ensures |r| == k && forall i :: 0 <= i < k ==> r[i] == blocksize
  {
    seq(k, i => blocksize)
  }

  lemma {:induction false} MoreBlocks(blocksize: nat, k: nat)
    requires 0 < k
    ensures Blocks(blocksize, k) == Blocks(blocksize, k - 1) + [blocksize]
  {
  }

  /** Where a jump of a block leads from a buffer that is the file and zeros. */
  lemma {:induction false} BlockMoved(file: seq<byte>, blocksize: nat, v: View)
    requires 1 < blocksize && v.offset + blocksize < |file| && Fits(file, blocksize, v)
    requires v == View(v.offset, 0, Min(|file|, v.offset + 2 * blocksize), PaddedFrom(file, v.offset, 2 * blocksize))
    ensures var base := v.offset + blocksize;
            && (base + blocksize < |file| ==>
                  Moved(file, blocksize, v, blocksize) ==
                  View(base, 0, Min(|file|, base + 2 * blocksize), PaddedFrom(file, base, 2 * blocksize)))
            && (|file| <= base + blocksize ==>
                  Moved(file, blocksize, v, blocksize).out == 0 &&
                  Moved(file, blocksize, v, blocksize).bytes[..blocksize] ==
                    file[base..] + file[|file| - blocksize..base])
  {
    var base := v.offset + blocksize;
    MovedFar(file, blocksize, v, blocksize);
    if |file| <= base + blocksize {
      hide PaddedFrom, Moved, Fits;
      StaleBlock(file, blocksize, v);
    }
  }

  lemma {:induction false} StaleBlock(file: seq<byte>, blocksize: nat, v: View)
    requires var base := v.offset + blocksize; 0 < blocksize && base < |file| <= base + blocksize
    requires v.out == 0 && v.read == |file| && v.bytes == PaddedFrom(file, v.offset, 2 * blocksize)
    ensures |Kept(v, blocksize)| == 2 * blocksize
    ensures Kept(v, blocksize)[..blocksize] ==
            file[v.offset + blocksize..] + file[|file| - blocksize..v.offset + blocksize]
  {
    var base := v.offset + blocksize;
    var kept, want := Kept(v, blocksize)[..blocksize], file[base..] + file[|file| - blocksize..base];
    hide PaddedFrom;
    forall j | 0 <= j < blocksize
      ensures kept[j] == want[j]
    {
      if j < |file| - base {
        assert kept[j] == v.bytes[blocksize + j];
      } else {
        assert kept[j] == v.bytes[j];
      }
    }
  }

  /** Jumping block by block, the buffer is the file and zeros as long as there is more to read. */
  lemma {:induction false} BlocksClean(file: seq<byte>, blocksize: nat, k: nat, base: nat)
    requires 1 < blocksize && base == Times(k, blocksize) && (k == 0 || base + blocksize < |file|) && base < |file|
    ensures Inside(|file|, blocksize, Blocks(blocksize, k)) && Total(Blocks(blocksize, k)) == base
    ensures Viewed(file, blocksize, Blocks(blocksize, k)) ==
            View(base, 0, Min(|file|, base + 2 * blocksize), PaddedFrom(file, base, 2 * blocksize))
    decreases k
  {
    TimesNext(k - 1, blocksize);
    hide Times;
    if k > 0 {
      hide Inside, Total, PaddedFrom, Fits, Moved, Viewed, Blocks;
      MulMonotone(blocksize, 0, k - 1);
      TimesNonnegative(k - 1, blocksize);
      BlocksClean(file, blocksize, k - 1, base - blocksize);
      BlockMoved(file, blocksize, Viewed(file, blocksize, Blocks(blocksize, k - 1)));
      OneMore(file, blocksize, Blocks(blocksize, k - 1), blocksize);
      MoreBlocks(blocksize, k);
    }
  }

  lemma {:induction false} TimesNonnegative(k: nat, blocksize: nat)
    ensures Times(k, blocksize) >= 0
  {
    MulMonotone(blocksize, 0, k);
  }

  /** Jumping block by block to the last block, as a scan of an undamaged file does: behind the bytes of the
      file the window holds bytes of the block before it. */
  lemma {:induction false} LastBlockHolds(file: seq<byte>, blocksize: nat, k: nat, base: nat)
    requires 1 < blocksize && 0 < k && base == Times(k, blocksize) && base < |file| <= base + blocksize
    ensures Inside(|file|, blocksize, Blocks(blocksize, k)) && Total(Blocks(blocksize, k)) == base && blocksize <= base
    ensures Window(file, blocksize, Blocks(blocksize, k)) == file[base..] + file[|file| - blocksize..base]
  {
    hide Inside, Total, Times, Viewed, Fits, Moved, PaddedFrom, Window, Blocks;
    TimesNext(k - 1, blocksize);
    TimesNonnegative(k - 1, blocksize);
    BlocksClean(file, blocksize, k - 1, base - blocksize);
    BlockMoved(file, blocksize, Viewed(file, blocksize, Blocks(blocksize, k - 1)));
    OneMore(file, blocksize, Blocks(blocksize, k - 1), blocksize);
    MoreBlocks(blocksize, k);
    WindowInFront(file, blocksize, Blocks(blocksize, k));
  }

  lemma {:induction false} WindowInFront(file: seq<byte>, blocksize: nat, moves: seq<nat>)
    requires 0 < blocksize && Inside(|file|, blocksize, moves) && Viewed(file, blocksize, moves).out == 0
    ensures Window(file, blocksize, moves) == Viewed(file, blocksize, moves).bytes[..blocksize]
  {
    hide Viewed, Inside;
    var v := Viewed(file, blocksize, moves);
    assert v.bytes[0..blocksize] == v.bytes[..blocksize];
  }

  /** So the last window of an undamaged file is padded with zeros exactly if those bytes are zeros. */
  lemma {:induction false} LastBlockExactly(file: seq<byte>, blocksize: nat, k: nat, base: nat)
    requires 1 < blocksize && 0 < k && base == Times(k, blocksize) && base < |file| <= base + blocksize
    ensures Inside(|file|, blocksize, Blocks(blocksize, k)) && blocksize <= base
    ensures Window(file, blocksize, Blocks(blocksize, k)) == PaddedTo(file[base..], blocksize) <==>
            file[|file| - blocksize..base] == Zeros(base + blocksize - |file|)
  {
    LastBlockHolds(file, blocksize, k, base);
    hide Inside, Window, Blocks;
    var data, rest := file[base..], file[|file| - blocksize..base];
    assert PaddedTo(data, blocksize) == data + Zeros(|rest|);
    assert (data + rest)[|data|..] == rest && (data + Zeros(|rest|))[|data|..] == Zeros(|rest|);
  }

  // ----- Windows that are not padded with zeros -----

  /** After one jump. */
  lemma {:induction false} JumpLeavesStale()
    ensures Inside(6, 4, [4])
    ensures Window([1, 2, 3, 4, 5, 6], 4, [4]) == [5, 6, 3, 4] != PaddedTo([5, 6], 4)
  {
    var file: seq<byte> := [1, 2, 3, 4, 5, 6];
    assert Times(1, 4) == 4;
    LastBlockHolds(file, 4, 1, 4);
    assert Blocks(4, 1) == [4];
    hide Window, Inside;
    assert file[4..] + file[2..4] == [5, 6, 3, 4];
    assert PaddedTo([5, 6], 4)[2] == 0;
  }

  /** After steps alone. */
  lemma {:induction false} StepsLeaveStale()
    ensures Inside(6, 4, [1, 1, 1, 1, 1])
    ensures Window([1, 2, 3, 4, 5, 6], 4, [1, 1, 1, 1, 1]) == [6, 0, 0, 5] != PaddedTo([6], 4)
  {
    hide Window, Inside;
    var file: seq<byte> := [1, 2, 3, 4, 5, 6];
    SteppedHolds(file, 4, 5);
    assert Ones(5) == [1, 1, 1, 1, 1];
    assert LastStart(6, 4) == 4;
    assert file[5..] + Zeros(2) + file[4..5] == [6, 0, 0, 5];
    assert PaddedTo([6], 4)[3] == 0;
  }

  // ----- The class -----

  /** Start, step and jump: after any moves inside the file, the buffer of the program is the one followed here. */
  method MoveAlong<S>(h: Compression<S>, file: seq<byte>, blocksize: nat, windowtable: seq<nat>, windowmask: nat,
                      moves: seq<nat>) returns (f: FileCheckSummer<S>)
    requires 0 < blocksize && TablesFor(windowtable, windowmask, blocksize) && Inside(|file|, blocksize, moves)
    ensures f.Valid() && f.file == file && f.blocksize == blocksize
    ensures f.Current() == Viewed(file, blocksize, moves)
    ensures f.outpointer + blocksize <= f.buffer.Length
    ensures f.buffer[f.outpointer..f.outpointer + blocksize] == Window(file, blocksize, moves)
  {
    hide *;
    f := new FileCheckSummer(h, file, blocksize, windowtable, windowmask);
    var ok := f.Start();
    StartViewed(f, moves);
    for i := 0 to |moves|
      invariant f.file == file && f.blocksize == blocksize && fresh(f) && fresh(f.Repr) && Along(f, moves[..i])
    {
      InsidePrefix(|file|, blocksize, moves, i + 1);
      NextPrefix(moves, i);
      MoveOn(f, moves[..i], moves[i]);
    }
    assert moves[..|moves|] == moves;
    CurrentWindow(f, moves);
  }

  /** The object is where the moves lead. */
  ghost predicate Along<S>(f: FileCheckSummer<S>, moves: seq<nat>)
    reads f.Repr
  {
    && f.Valid() && 0 < f.blocksize && Inside(|f.file|, f.blocksize, moves)
    && f.Current() == Viewed(f.file, f.blocksize, moves)
  }

  lemma {:induction false} StartViewed<S>(f: FileCheckSummer<S>, moves: seq<nat>)
    requires f.Valid() && 0 < f.blocksize && Inside(|f.file|, f.blocksize, moves)
    requires |f.file| > 0 ==> f.Current() == Started(f.file, f.blocksize)
    ensures Along(f, moves[..0])
  {
    hide FileCheckSummer.Valid, Started, Fits;
    InsidePrefix(|f.file|, f.blocksize, moves, 0);
  }

  lemma {:induction false} NextPrefix(moves: seq<nat>, i: nat)
    requires i < |moves|
    ensures moves[..i] + [moves[i]] == moves[..i + 1]
  {
  }

  /** Where a move inside the file leads. */
  lemma {:induction false} AlongNext<S>(f: FileCheckSummer<S>, moves: seq<nat>, distance: nat)
    requires f.Valid() && 0 < f.blocksize && Inside(|f.file|, f.blocksize, moves) && 0 < distance <= f.blocksize
    requires var v := Viewed(f.file, f.blocksize, moves);
             v.offset + distance < |f.file| && f.Current() == Moved(f.file, f.blocksize, v, distance)
    ensures Along(f, moves + [distance])
  {
    hide FileCheckSummer.Valid, Fits, Moved, Viewed, Inside, Total;
    OneMore(f.file, f.blocksize, moves, distance);
  }

  /** One step or jump. */
  method MoveOn<S>(f: FileCheckSummer<S>, ghost moves: seq<nat>, distance: nat)
    requires Along(f, moves) && Inside(|f.file|, f.blocksize, moves + [distance])
    modifies f.Repr
    ensures Along(f, moves + [distance])
  {
    hide FileCheckSummer.Valid, Fits, Moved, Viewed;
    NextMove(f.file, f.blocksize, moves, distance);
    hide Inside;
    var ok;
    if distance == 1 {
      ok := f.Step();
    } else {
      ok := f.Jump(distance);
    }
    AlongNext(f, moves, distance);
  }

  lemma {:induction false} InsidePrefix(filesize: nat, blocksize: nat, moves: seq<nat>, n: nat)
    requires Inside(filesize, blocksize, moves) && n <= |moves|
    ensures Inside(filesize, blocksize, moves[..n])
    decreases |moves| - n
  {
    if n == |moves| {
      assert moves[..n] == moves;
    } else {
      InsidePrefix(filesize, blocksize, moves, n + 1);
      InsideBefore(filesize, blocksize, moves[..n + 1]);
      assert moves[..n + 1][..n] == moves[..n];
    }
  }

  lemma {:induction false} NextMove(file: seq<byte>, blocksize: nat, moves: seq<nat>, distance: nat)
    requires 0 < blocksize && Inside(|file|, blocksize, moves) && Inside(|file|, blocksize, moves + [distance])
    ensures 0 < distance <= blocksize && Viewed(file, blocksize, moves).offset + distance < |file|
  {
    hide Moved, Fits, Viewed;
    InsideBefore(|file|, blocksize, moves + [distance]);
    assert (moves + [distance])[..|moves|] == moves && (moves + [distance])[|moves|] == distance;
  }

  lemma {:induction false} CurrentWindow<S>(f: FileCheckSummer<S>, moves: seq<nat>)
    requires Along(f, moves)
    ensures f.Valid() && Inside(|f.file|, f.blocksize, moves) && f.Current() == Viewed(f.file, f.blocksize, moves)
    ensures f.outpointer + f.blocksize <= f.buffer.Length
    ensures f.buffer[f.outpointer..f.outpointer + f.blocksize] == Window(f.file, f.blocksize, moves)
  {
    hide Viewed, Inside, FileCheckSummer.Valid;
    assert f.buffer[f.outpointer..f.outpointer + f.blocksize] == f.buffer[..][f.outpointer..f.outpointer + f.blocksize];
  }
}
