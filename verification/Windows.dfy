/** The buffer of the scanner as a value: what starting, stepping and jumping do to it (filechecksummer.h,
    filechecksummer.cpp), for a file given as a byte sequence. */
module Windows {
  import opened Arithmetic
  import opened Bytes

  /** The buffer of two blocks: the window starts at `out` in it and at `offset` in the file, and the file has
      been read up to `read`. */
  datatype View = View(offset: nat, out: nat, read: nat, bytes: seq<byte>)

  /** The bytes of the file from an offset on that fit into `size`, and zeros. */
  function PaddedFrom(file: seq<byte>, offset: nat, size: nat): (r: seq<byte>)
    requires offset <= |file|
    ensures |r| == size
    ensures forall j :: 0 <= j < size ==> r[j] == if offset + j < |file| then file[offset + j] else 0
  {
    PaddedTo(file[offset..Min(|file|, offset + size)], size)
  }

  /** The window is in the first half of the buffer, which holds the file from the window on up to `read`. */
  ghost predicate Fits(file: seq<byte>, blocksize: nat, v: View) {
    && v.offset < |file| && v.out < blocksize && |v.bytes| == 2 * blocksize
    && v.offset <= v.read <= |file| && v.out + v.read - v.offset <= 2 * blocksize
    && (v.read < |file| ==> v.out + v.read - v.offset == 2 * blocksize)
    && v.bytes[v.out..v.out + v.read - v.offset] == file[v.offset..v.read]
  }

  /** The buffer is filled up behind what is kept at its start; once the file is used up nothing is read, and
      nothing is blanked. */
  function Refilled(file: seq<byte>, blocksize: nat, offset: nat, read: nat, bytes: seq<byte>): View
    requires offset <= |file|
  {
    if read < |file| then View(offset, 0, Min(|file|, offset + 2 * blocksize), PaddedFrom(file, offset, 2 * blocksize))
    else View(offset, 0, read, bytes)
  }

  /** The buffer after a start. */
  function Started(file: seq<byte>, blocksize: nat): View {
    View(0, 0, Min(|file|, 2 * blocksize), PaddedFrom(file, 0, 2 * blocksize))
  }

  /** The buffer after a move of the window: a single step slides, and duplicates the second half of the buffer
      when it gets there; a jump moves what is left to the front, over what was there. */
  ghost function Moved(file: seq<byte>, blocksize: nat, v: View, distance: nat): View
    requires Fits(file, blocksize, v) && 0 < distance <= blocksize && v.offset + distance < |file|
  {
    var offset := v.offset + distance;
    if distance > 1 then
      Refilled(file, blocksize, offset, v.read, Kept(v, distance))
    else if v.out + 1 < blocksize then
      View(offset, v.out + 1, v.read, v.bytes)
    else
      Refilled(file, blocksize, offset, v.read, v.bytes[blocksize..] + v.bytes[blocksize..])
  }

  /** What a jump leaves in the buffer: what is behind the new offset at the front, over what was there. */
  function Kept(v: View, distance: nat): seq<byte>
    requires v.offset + distance <= v.read && v.out + v.read - v.offset <= |v.bytes|
  {
    v.bytes[v.out + distance..v.out + v.read - v.offset] + v.bytes[v.read - v.offset - distance..]
  }

  /** A jump, also by a block of one byte. */
  lemma {:induction false} MovedFar(file: seq<byte>, blocksize: nat, v: View, distance: nat)
    requires Fits(file, blocksize, v) && 0 < distance <= blocksize && v.offset + distance < |file|
    requires distance > 1 || blocksize == 1
    ensures v.offset + distance <= v.read && v.out + v.read - v.offset <= |v.bytes|
    ensures Moved(file, blocksize, v, distance) ==
            Refilled(file, blocksize, v.offset + distance, v.read, Kept(v, distance))
  {
    hide Refilled;
    if distance == 1 {
      assert v.bytes[1..] == v.bytes[1..2] && v.read - v.offset == 2;
    }
  }

  /** At the front of the buffer there is the file then. */
  lemma {:induction false} KeptFront(file: seq<byte>, blocksize: nat, v: View, distance: nat)
    requires Fits(file, blocksize, v) && 0 < distance <= blocksize && v.offset + distance < |file|
    ensures v.offset + distance <= v.read && v.out + v.read - v.offset <= |v.bytes| == |Kept(v, distance)|
    ensures Kept(v, distance)[..v.read - v.offset - distance] == file[v.offset + distance..v.read]
  {
    DataLeft(file, blocksize, v, distance);
    FrontOf(v.bytes[v.out + distance..v.out + v.read - v.offset], v.bytes[v.read - v.offset - distance..],
            v.read - v.offset - distance);
  }

  lemma {:induction false} StartFits(file: seq<byte>, blocksize: nat)
    requires 0 < blocksize && 0 < |file|
    ensures Fits(file, blocksize, Started(file, blocksize))
  {
    PaddedPart(file, 0, 2 * blocksize);
  }

  lemma {:induction false} PaddedPart(file: seq<byte>, offset: nat, size: nat)
    requires offset <= |file|
    ensures var end := Min(|file|, offset + size); PaddedFrom(file, offset, size)[..end - offset] == file[offset..end]
  {
  }

  lemma {:induction false} RefillFits(file: seq<byte>, blocksize: nat, offset: nat, read: nat, bytes: seq<byte>)
    requires 0 < blocksize && offset < |file| && |bytes| == 2 * blocksize && offset <= read <= |file|
    requires read - offset <= 2 * blocksize && bytes[..read - offset] == file[offset..read]
    ensures Fits(file, blocksize, Refilled(file, blocksize, offset, read, bytes))
  {
    hide PaddedFrom;
    PaddedPart(file, offset, 2 * blocksize);
    var v := Refilled(file, blocksize, offset, read, bytes);
    assert v.bytes[0..v.read - offset] == v.bytes[..v.read - offset];
  }

  /** The window always starts with the bytes of the file. */
  lemma {:induction false} MoveFits(file: seq<byte>, blocksize: nat, v: View, distance: nat)
    requires Fits(file, blocksize, v) && 0 < distance <= blocksize && v.offset + distance < |file|
    ensures Fits(file, blocksize, Moved(file, blocksize, v, distance))
    ensures Moved(file, blocksize, v, distance).offset == v.offset + distance
  {
    hide Refilled;
    var offset, tail := v.offset + distance, v.out + v.read - v.offset;
    DataLeft(file, blocksize, v, distance);
    if distance > 1 {
      MovedFar(file, blocksize, v, distance);
      FrontOf(v.bytes[v.out + distance..tail], v.bytes[v.read - offset..], v.read - offset);
      RefillFits(file, blocksize, offset, v.read, Kept(v, distance));
    } else if v.out + 1 == blocksize {
      TwiceFront(file, blocksize, v);
      RefillFits(file, blocksize, offset, v.read, v.bytes[blocksize..] + v.bytes[blocksize..]);
    }
    OffsetMoved(file, blocksize, v, distance);
  }

  /** The second half of the buffer, twice. */
  lemma {:induction false} TwiceFront(file: seq<byte>, blocksize: nat, v: View)
    requires Fits(file, blocksize, v) && v.out + 1 == blocksize && v.offset + 1 < |file|
    ensures var n := v.read - v.offset - 1;
            && 0 <= n <= blocksize
            && (v.bytes[blocksize..] + v.bytes[blocksize..])[..n] == file[v.offset + 1..v.read]
  {
    DataLeft(file, blocksize, v, 1);
    hide Fits;
    var n, half := v.read - v.offset - 1, v.bytes[blocksize..];
    FrontOf(half, half, n);
    assert half[..n] == v.bytes[blocksize..blocksize + n];
  }

  /** What a move leaves of the data in the buffer. */
  lemma {:induction false} DataLeft(file: seq<byte>, blocksize: nat, v: View, distance: nat)
    requires Fits(file, blocksize, v) && 0 < distance <= blocksize && v.offset + distance < |file|
    ensures v.offset + distance <= v.read
    ensures v.bytes[v.out + distance..v.out + v.read - v.offset] == file[v.offset + distance..v.read]
  {
    var length := v.read - v.offset;
    SubSlice(v.bytes, v.out, v.out + length, distance, length);
    SubSlice(file, v.offset, v.read, distance, length);
  }

  lemma {:induction false} OffsetMoved(file: seq<byte>, blocksize: nat, v: View, distance: nat)
    requires Fits(file, blocksize, v) && 0 < distance <= blocksize && v.offset + distance < |file|
    ensures Moved(file, blocksize, v, distance).offset == v.offset + distance
  {
    hide PaddedFrom;
  }

  /** The offset after some moves. */
  function Total(moves: seq<nat>): nat
    decreases |moves|
  {
    if |moves| == 0 then 0 else Total(moves[..|moves| - 1]) + moves[|moves| - 1]
  }

  /** The moves never reach the end of the file, and none is longer than a block. */
  predicate Inside(filesize: nat, blocksize: nat, moves: seq<nat>) {
    Total(moves) < filesize && forall i :: 0 <= i < |moves| ==> 0 < moves[i] <= blocksize
  }

  lemma {:induction false} InsideBefore(filesize: nat, blocksize: nat, moves: seq<nat>)
    requires Inside(filesize, blocksize, moves) && |moves| > 0
    ensures var n := |moves| - 1;
            Inside(filesize, blocksize, moves[..n]) && Total(moves[..n]) + moves[n] == Total(moves)
  {
  }

  /** The buffer after a start and some moves. */
  ghost function Viewed(file: seq<byte>, blocksize: nat, moves: seq<nat>): (v: View)
    requires 0 < blocksize && Inside(|file|, blocksize, moves)
    ensures Fits(file, blocksize, v) && v.offset == Total(moves)
    decreases |moves|
  {
    if |moves| == 0 then
      StartFits(file, blocksize);
      Started(file, blocksize)
    else
      InsideBefore(|file|, blocksize, moves);
      var v := Viewed(file, blocksize, moves[..|moves| - 1]);
      MoveFits(file, blocksize, v, moves[|moves| - 1]);
      Moved(file, blocksize, v, moves[|moves| - 1])
  }

  /** One more move. */
  lemma {:induction false} OneMore(file: seq<byte>, blocksize: nat, moves: seq<nat>, distance: nat)
    requires 0 < blocksize && Inside(|file|, blocksize, moves) && 0 < distance <= blocksize
    requires Total(moves) + distance < |file|
    ensures Inside(|file|, blocksize, moves + [distance]) && Total(moves + [distance]) == Total(moves) + distance
    ensures Viewed(file, blocksize, moves + [distance]) ==
              Moved(file, blocksize, Viewed(file, blocksize, moves), distance)
  {
    hide Moved, Fits;
    assert (moves + [distance])[..|moves|] == moves;
  }

  /** The window after a start and some moves. */
  ghost function Window(file: seq<byte>, blocksize: nat, moves: seq<nat>): (w: seq<byte>)
    requires 0 < blocksize && Inside(|file|, blocksize, moves)
    ensures |w| == blocksize
  {
    var v := Viewed(file, blocksize, moves);
    v.bytes[v.out..v.out + blocksize]
  }

  /** The window starts with the bytes of the file, as many as there are. */
  lemma {:induction false} WindowStarts(file: seq<byte>, blocksize: nat, moves: seq<nat>)
    requires 0 < blocksize && Inside(|file|, blocksize, moves)
    ensures var offset := Total(moves); var n := Min(blocksize, |file| - offset);
            Window(file, blocksize, moves)[..n] == file[offset..offset + n]
  {
    hide Total, Inside;
    WindowInView(file, blocksize, Viewed(file, blocksize, moves));
  }

  lemma {:induction false} WindowInView(file: seq<byte>, blocksize: nat, v: View)
    requires Fits(file, blocksize, v)
    ensures var n := Min(blocksize, |file| - v.offset);
            v.bytes[v.out..v.out + blocksize][..n] == file[v.offset..v.offset + n]
  {
    var n := Min(blocksize, |file| - v.offset);
    SubSlice(v.bytes, v.out, v.out + v.read - v.offset, 0, n);
    SubSlice(v.bytes, v.out, v.out + blocksize, 0, n);
    SubSlice(file, v.offset, v.read, 0, n);
  }
}
