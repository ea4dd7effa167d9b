/** The sliding window of filechecksummer.h and filechecksummer.cpp.  The file is a byte sequence
    and reads of it succeed. */
module FileCheckSummers {
  import opened Arithmetic
  import opened Bits
  import opened Bytes
  import opened Crc
  import opened Md5
  import Windows

  /** The checksum of some bytes and as many zeros as are missing from a block. */
  method PaddedChecksum(data: seq<byte>, blocksize: nat) returns (crc: nat)
    requires |data| <= blocksize
    ensures crc == Checksum(PaddedTo(data, blocksize))
  {
    hide Xor;
    crc := UpdateBlock(ALL_ONES, data);
    if blocksize > |data| {
      crc := UpdateBlock(crc, Zeros(blocksize - |data|));
    } else {
      assert PaddedTo(data, blocksize) == data;
    }
    crc := Xor(ALL_ONES, crc);
    UpdateBlockSplit(ALL_ONES, data, Zeros(blocksize - |data|));
  }

  /** A window table and mask as GenerateWindowTable and ComputeWindowMask make them. */
  ghost predicate TablesFor(windowtable: seq<nat>, windowmask: nat, window: nat) {
    && |windowtable| == 256 && (forall i :: 0 <= i < 256 ==> windowtable[i] == WindowTable(window, i))
    && windowmask == WindowMask(window)
  }

  class FileCheckSummer<S> {
    const h: Compression<S>
    const file: seq<byte>
    const blocksize: nat
    const windowtable: seq<nat>
    const windowmask: nat

    const buffer: array<byte>
    var currentoffset: nat
    var outpointer: nat
    var inpointer: nat
    var tailpointer: nat
    var readoffset: nat
    var checksum: nat
    const contextfull: MD5Context<S>
    const context16k: MD5Context<S>

    ghost const Repr: set<object> := {this, buffer, contextfull, contextfull.block, context16k, context16k.block}

    /** The fixed parts: table and mask belong to the block size, nothing is shared. */
    ghost predicate Shape() {
      && 0 < blocksize && buffer.Length == 2 * blocksize
      && TablesFor(windowtable, windowmask, blocksize)
      && contextfull.h == h && context16k.h == h && contextfull != context16k
      && contextfull.block != context16k.block && buffer != contextfull.block && buffer != context16k.block
    }

    /** The contexts hold the bytes read so far, the 16k context at most the first 16k of them. */
    ghost predicate HashedTo(n: nat)
      reads contextfull, contextfull.block, context16k, context16k.block
    {
      && contextfull.Valid() && context16k.Valid() && n <= |file|
      && context16k.Contents() == After(h, file[..Min(n, FIRST)])
      && (n >= FIRST ==> contextfull.Contents() == After(h, file[..n]))
    }

    ghost predicate Hashed()
      reads Repr
    {
      HashedTo(readoffset)
    }

    /** The window is at outpointer, and the bytes up to tailpointer are those of the file. */
    ghost predicate Loaded()
      reads Repr
    {
      && outpointer <= tailpointer <= 2 * blocksize == buffer.Length
      && inpointer == outpointer + blocksize < 2 * blocksize
      && currentoffset <= readoffset <= |file|
      && tailpointer - outpointer == readoffset - currentoffset
      && buffer[outpointer..tailpointer] == file[currentoffset..readoffset]
    }

    /** The window slides over the file; the buffer is full unless the file is used up. */
    ghost predicate Scanning()
      reads Repr
    {
      && Loaded()
      && (readoffset < |file| ==> tailpointer == 2 * blocksize)
      && checksum == Checksum(buffer[outpointer..inpointer])
    }

    /** The whole file has been passed. */
    ghost predicate AtEnd()
      reads Repr
    {
      && currentoffset == readoffset == |file| && outpointer == tailpointer == 0 && checksum == 0
      && blocksize <= buffer.Length && buffer[..blocksize] == Zeros(blocksize)
    }

    ghost predicate Valid()
      reads Repr
    {
      Shape() && Hashed() && (Scanning() || AtEnd())
    }

    constructor (h: Compression<S>, file: seq<byte>, blocksize: nat, windowtable: seq<nat>, windowmask: nat)
      requires 0 < blocksize && TablesFor(windowtable, windowmask, blocksize)
      ensures Shape() && fresh(Repr) && this.h == h && this.file == file && this.blocksize == blocksize
      ensures contextfull.Valid() && contextfull.Contents() == After(h, [])
      ensures context16k.Valid() && context16k.Contents() == After(h, [])
    {
      hide TablesFor;
      hide After;
      this.h, this.file, this.blocksize := h, file, blocksize;
      this.windowtable, this.windowmask := windowtable, windowmask;
      buffer := new byte[2 * blocksize];
      contextfull := new MD5Context(h);
      context16k := new MD5Context(h);
      currentoffset := 0;
      outpointer, inpointer, tailpointer, readoffset, checksum := 0, 0, 0, 0, 0;
    }

    /** The number of file bytes in the window. */
    function BlockLength(): nat
      requires currentoffset <= |file|
      reads this
    {
      Min(blocksize, |file| - currentoffset)
    }

    predicate ShortBlock()
      requires currentoffset <= |file|
      reads this
    {
      BlockLength() < blocksize
    }

    /** The file bytes in the window. */
    ghost function Block(): (b: seq<byte>)
      requires currentoffset <= |file|
      reads this
      ensures |b| == BlockLength()
    {
      file[currentoffset..currentoffset + BlockLength()]
    }

    /** The buffer as a value. */
    ghost function Current(): Windows.View
      reads this, buffer
    {
      Windows.View(currentoffset, outpointer, readoffset, buffer[..])
    }

    lemma {:induction false} CurrentFits()
      requires Valid() && currentoffset < |file|
      ensures Windows.Fits(file, blocksize, Current())
    {
      hide After;
      hide Checksum;
      hide TablesFor;
      assert buffer[outpointer..tailpointer] == buffer[..][outpointer..outpointer + (readoffset - currentoffset)];
    }

    /** In every reachable state the window starts with the file bytes at the current offset. */
    lemma {:induction false} WindowHoldsBlock()
      requires Valid()
      ensures currentoffset <= |file| && outpointer + BlockLength() <= tailpointer <= buffer.Length
      ensures buffer[outpointer..outpointer + BlockLength()] == Block()
    {
      hide After;
      hide Checksum;
      hide TablesFor;
      if Scanning() {
        var n := BlockLength();
        assert buffer[outpointer..outpointer + n] == buffer[outpointer..tailpointer][..n];
        assert Block() == file[currentoffset..readoffset][..n];
      }
    }

    /** Before the end of the file the checksum is that of the bytes in the window, whatever they are. */
    lemma {:induction false} WindowChecksum()
      requires Valid() && currentoffset < |file|
      ensures outpointer + blocksize <= buffer.Length
      ensures checksum == Checksum(buffer[outpointer..outpointer + blocksize])
    {
      hide Checksum;
      hide TablesFor;
      hide After;
    }

    /** The rolling checksum is a fresh CRC of the window, wherever that lies in the file. */
    lemma {:induction false} RollingChecksum()
      requires Valid() && currentoffset + blocksize <= |file|
      ensures checksum == Checksum(file[currentoffset..currentoffset + blocksize])
    {
      hide After;
      hide Checksum;
      hide TablesFor;
      WindowHoldsBlock();
    }

    /** Past the last byte the whole file has been read. */
    lemma {:induction false} EndMeansRead()
      requires Valid() && currentoffset == |file|
      ensures readoffset == |file|
    {
      hide TablesFor;
      hide After;
    }

    lemma {:induction false} InFile()
      requires Valid()
      ensures readoffset <= |file| && buffer.Length == 2 * blocksize
    {
      hide TablesFor;
      hide After;
      hide Checksum;
    }

    /** Move bytes to the front, as memmove does. */
    method MoveBack(from: nat, count: nat)
      requires from + count <= buffer.Length
      modifies buffer
      ensures buffer[..] == old(buffer[..])[from..from + count] + old(buffer[..])[count..]
    {
      ghost var was := buffer[..];
      forall i | 0 <= i < count {
        buffer[i] := buffer[from + i];
      }
      assert buffer[..count] == was[from..from + count] && buffer[count..] == was[count..];
      assert buffer[..] == buffer[..count] + buffer[count..];
    }

    /** memset to zero. */
    method Blank(from: nat, to: nat)
      requires from <= to <= buffer.Length
      modifies buffer
      ensures buffer[from..to] == Zeros(to - from)
      ensures buffer[..from] == old(buffer[..from]) && buffer[to..] == old(buffer[to..])
    {
      forall i | from <= i < to {
        buffer[i] := 0;
      }
    }

    /** Read the next bytes behind the data. */
    method Read(want: nat)
      requires tailpointer + want <= buffer.Length && readoffset + want <= |file|
      modifies buffer
      ensures buffer[..tailpointer] == old(buffer[..tailpointer])
      ensures buffer[tailpointer..tailpointer + want] == file[readoffset..readoffset + want]
    {
      forall i | tailpointer <= i < tailpointer + want {
        buffer[i] := file[readoffset + (i - tailpointer)];
      }
    }

    /** Feed the data just read to the 16k hash, the full hash, or one after the other. */
    method UpdateHashes(offset: nat, data: seq<byte>)
      requires Shape() && HashedTo(offset)
      requires offset + |data| <= |file| && data == file[offset..offset + |data|]
      modifies contextfull, contextfull.block, context16k, context16k.block
      ensures HashedTo(offset + |data|)
    {
      hide After;
      hide TablesFor;
      var length := |data|;
      assert file[..offset] + data == file[..offset + length];
      if offset >= FIRST {
        contextfull.Update(data, file[..offset]);
      } else if offset + length >= FIRST {
        var first := FIRST - offset;
        assert file[..offset] + data[..first] == file[..FIRST];
        context16k.Update(data[..first], file[..offset]);
        contextfull.CopyFrom(context16k);
        if offset + length > FIRST {
          assert file[..FIRST] + data[first..] == file[..offset + length];
          contextfull.Update(data[first..], file[..FIRST]);
        }
      } else {
        context16k.Update(data, file[..offset]);
      }
    }

    /** Read the next bytes of the file behind the data in the buffer, and hash them. */
    method Append(want: nat)
      requires Shape() && Hashed() && Loaded() && outpointer == 0
      requires tailpointer + want <= 2 * blocksize && readoffset + want <= |file|
      modifies `readoffset, `tailpointer, buffer, contextfull, contextfull.block, context16k, context16k.block
      ensures Hashed() && Loaded() && buffer[..old(tailpointer)] == old(buffer[..tailpointer])
      ensures tailpointer == old(tailpointer) + want && readoffset == old(readoffset) + want
    {
      hide After;
      hide TablesFor;
      Read(want);
      assert buffer[0..tailpointer + want] == file[currentoffset..readoffset + want] by {
        assert buffer[..tailpointer] == old(buffer[..tailpointer]) == old(buffer[0..tailpointer]);
        assert buffer[0..tailpointer + want] == buffer[..tailpointer] + buffer[tailpointer..tailpointer + want];
        assert file[currentoffset..readoffset] + file[readoffset..readoffset + want] ==
               file[currentoffset..readoffset + want];
      }
      UpdateHashes(readoffset, buffer[tailpointer..tailpointer + want]);
      readoffset := readoffset + want;
      tailpointer := tailpointer + want;
    }

    /** Fill up the buffer.  If the file has already been read nothing happens, and nothing is blanked. */
    method Fill() returns (ok: bool)
      requires Shape() && Hashed() && Loaded() && outpointer == 0
      modifies `readoffset, `tailpointer, buffer, contextfull, contextfull.block, context16k, context16k.block
      ensures ok && Hashed() && Loaded() && readoffset >= old(readoffset)
      ensures readoffset < |file| ==> tailpointer == 2 * blocksize
      ensures tailpointer >= old(tailpointer) && buffer[..old(tailpointer)] == old(buffer[..tailpointer])
      ensures Current() == Windows.Refilled(file, blocksize, currentoffset, old(readoffset), old(buffer[..]))
    {
      hide After;
      hide TablesFor;
      if readoffset >= |file| {
        return true;
      }
      var want := Min(|file| - readoffset, 2 * blocksize - tailpointer);
      if want > 0 {
        Append(want);
      }
      want := 2 * blocksize - tailpointer;
      if want > 0 {
        ghost var kept := buffer[..tailpointer];
        Blank(tailpointer, 2 * blocksize);
        assert buffer[..tailpointer] == kept;
        assert buffer[tailpointer..] == buffer[tailpointer..2 * blocksize];
      }
      AllFilled();
      return true;
    }

    /** A buffer that holds the file from the current offset on, and zeros behind it. */
    lemma {:induction false} AllFilled()
      requires Loaded() && outpointer == 0 && buffer[tailpointer..] == Zeros(2 * blocksize - tailpointer)
      requires readoffset < |file| ==> tailpointer == 2 * blocksize
      ensures readoffset == Min(|file|, currentoffset + 2 * blocksize)
      ensures buffer[..] == Windows.PaddedFrom(file, currentoffset, 2 * blocksize)
    {
      assert buffer[..] == buffer[0..tailpointer] + buffer[tailpointer..];
    }

    /** Fill up the buffer, and take the checksum of the window at its front. */
    method FillWindow() returns (ok: bool)
      requires Shape() && Hashed() && Loaded() && outpointer == 0
      modifies Repr
      ensures ok && Valid() && Scanning() && outpointer == 0
      ensures currentoffset == old(currentoffset) && readoffset >= old(readoffset)
      ensures Current() == Windows.Refilled(file, blocksize, currentoffset, old(readoffset), old(buffer[..]))
    {
      hide After;
      hide Checksum;
      hide TablesFor;
      ok := Fill();
      checksum := Checksum(buffer[..blocksize]);
      assert buffer[..blocksize] == buffer[outpointer..inpointer];
    }

    /** Put the window on the first byte. */
    method Start() returns (ok: bool)
      requires Shape() && contextfull.Valid()
      requires context16k.Valid() && context16k.Contents() == After(h, [])
      modifies Repr
      ensures ok && Valid() && currentoffset == 0 && Scanning() && outpointer == 0
      ensures |file| > 0 ==> Current() == Windows.Started(file, blocksize)
    {
      hide After;
      hide Checksum;
      hide TablesFor;
      currentoffset, readoffset := 0, 0;
      tailpointer, outpointer := 0, 0;
      inpointer := blocksize;
      assert file[..Min(0, FIRST)] == [];
      assert buffer[0..0] == file[0..0];
      ok := FillWindow();
    }

    /** Nothing is left: the window is empty. */
    method Finish()
      requires Shape() && Hashed() && readoffset == |file|
      modifies this, buffer
      ensures Valid() && AtEnd() && currentoffset == |file| && readoffset == old(readoffset)
    {
      hide After;
      hide TablesFor;
      currentoffset := |file|;
      tailpointer, outpointer := 0, 0;
      Blank(0, blocksize);
      assert buffer[..blocksize] == buffer[0..blocksize];
      checksum := 0;
    }

    /** The window is the second half of the buffer. */
    ghost predicate Crossed()
      reads Repr
    {
      && outpointer == blocksize && inpointer == 2 * blocksize == buffer.Length
      && blocksize <= tailpointer <= 2 * blocksize && currentoffset <= readoffset <= |file|
      && tailpointer - outpointer == readoffset - currentoffset
      && buffer[blocksize..tailpointer] == file[currentoffset..readoffset]
      && checksum == Checksum(buffer[blocksize..])
      && (readoffset < |file| ==> tailpointer == 2 * blocksize)
    }

    /** Move what is left of the data to the front. */
    method CopyBack()
      requires Shape() && Crossed()
      modifies buffer, `inpointer, `outpointer, `tailpointer
      ensures Loaded() && outpointer == 0 && checksum == Checksum(buffer[..blocksize])
      ensures buffer[..] == old(buffer[blocksize..]) + old(buffer[blocksize..])
      ensures readoffset < |file| ==> tailpointer == blocksize
    {
      hide Checksum;
      hide TablesFor;
      hide After;
      ghost var window := buffer[blocksize..];
      assert buffer[outpointer..outpointer + blocksize] == window;
      assert buffer[blocksize..tailpointer] == window[..tailpointer - blocksize];
      MoveBack(outpointer, blocksize);
      assert buffer[..] == buffer[..blocksize] + buffer[blocksize..];
      inpointer := outpointer;
      outpointer := 0;
      tailpointer := tailpointer - blocksize;
      assert buffer[0..tailpointer] == window[..tailpointer];
    }

    /** The window has reached the second half of the buffer: move it back and read on. */
    method Rewind() returns (ok: bool)
      requires Shape() && Hashed() && Crossed()
      modifies Repr
      ensures ok && Valid() && Scanning() && currentoffset == old(currentoffset) && outpointer == 0
      ensures readoffset >= old(readoffset)
      ensures Current() == Windows.Refilled(file, blocksize, currentoffset, old(readoffset),
                                            old(buffer[blocksize..]) + old(buffer[blocksize..]))
    {
      hide After;
      hide Checksum;
      hide TablesFor;
      CopyBack();
      ghost var window, tail := buffer[..blocksize], tailpointer;
      ok := Fill();
      assert buffer[outpointer..inpointer] == buffer[..blocksize];
      if old(readoffset) < |file| {
        assert buffer[..tail] == window;
      } else {
        assert buffer[..blocksize] == buffer[..][..blocksize];
      }
    }

    /** Move the window on by one byte inside the buffer, and its checksum with it. */
    method Slide()
      requires Valid() && Scanning() && currentoffset + 1 < |file|
      modifies `currentoffset, `inpointer, `outpointer, `checksum
      ensures currentoffset == old(currentoffset) + 1 <= readoffset
      ensures outpointer == old(outpointer) + 1 <= tailpointer && inpointer == old(inpointer) + 1
      ensures tailpointer - outpointer == readoffset - currentoffset
      ensures buffer[outpointer..tailpointer] == file[currentoffset..readoffset]
      ensures checksum == Checksum(buffer[outpointer..inpointer])
    {
      hide After;
      hide Checksum;
      hide TablesFor;
      hide SlideChar;
      var inch, outch := buffer[inpointer], buffer[outpointer];
      SlidesTo(buffer[outpointer..inpointer], inch);
      assert buffer[outpointer..inpointer][1..] + [inch] == buffer[outpointer + 1..inpointer + 1];
      assert buffer[outpointer + 1..tailpointer] == buffer[outpointer..tailpointer][1..];
      assert file[currentoffset + 1..readoffset] == file[currentoffset..readoffset][1..];
      currentoffset := currentoffset + 1;
      inpointer, outpointer := inpointer + 1, outpointer + 1;
      checksum := Xor(windowmask, SlideChar(Xor(windowmask, checksum), inch, windowtable[outch]));
    }

    /** Step forward one byte. */
    method Step() returns (ok: bool)
      requires Valid()
      modifies Repr
      ensures Valid()
      ensures ok == (old(currentoffset) < |file|)
      ensures currentoffset == if ok then old(currentoffset) + 1 else old(currentoffset)
      ensures readoffset >= old(readoffset)
      ensures old(currentoffset) + 1 < |file| ==>
                && Windows.Fits(file, blocksize, old(Current()))
                && Current() == Windows.Moved(file, blocksize, old(Current()), 1)
    {
      hide After;
      hide Checksum;
      hide TablesFor;
      hide SlideChar;
      if currentoffset >= |file| {
        return false;
      }
      if currentoffset + 1 >= |file| {
        Finish();
        return true;
      }
      CurrentFits();
      Slide();
      if outpointer < blocksize {
        return true;
      }
      assert buffer[outpointer..inpointer] == buffer[blocksize..];
      ok := Rewind();
    }

    lemma {:induction false} SlidesTo(window: seq<byte>, inch: byte)
      requires Shape() && |window| == blocksize
      ensures |windowtable| == 256
      ensures Xor(windowmask, SlideChar(Xor(windowmask, Checksum(window)), inch, windowtable[window[0]])) ==
              Checksum(window[1..] + [inch])
    {
      hide Checksum;
      hide SlideChar;
      hide WindowTable;
      hide WindowMask;
      hide Xor;
      SlideIsChecksum(window, inch);
    }

    /** Move the bytes behind the new offset to the front of the buffer. */
    method Shift(distance: nat)
      requires outpointer + distance <= tailpointer <= buffer.Length && currentoffset + distance <= readoffset
      requires tailpointer - outpointer == readoffset - currentoffset
      modifies buffer
      ensures buffer[..] == Windows.Kept(old(Current()), distance)
    {
      var keep := tailpointer - (outpointer + distance);
      MoveBack(outpointer + distance, keep);
    }

    /** Drop the bytes before the new offset. */
    method Discard(distance: nat)
      requires Shape() && Hashed() && Valid() && Scanning()
      requires 0 < distance <= blocksize && currentoffset + distance < |file|
      modifies `currentoffset, `outpointer, `inpointer, `tailpointer, buffer
      ensures Hashed() && Loaded() && outpointer == 0
      ensures currentoffset == old(currentoffset) + distance <= old(readoffset)
      ensures var was := old(Current());
              && was.offset + distance <= was.read && was.out + was.read - was.offset <= |was.bytes|
              && buffer[..] == Windows.Kept(was, distance)
    {
      hide After, Checksum, TablesFor, Windows.Fits, Windows.Kept, HashedTo, AtEnd, Valid;
      CurrentFits();
      Windows.KeptFront(file, blocksize, Current(), distance);
      Shift(distance);
      tailpointer := tailpointer - (outpointer + distance);
      currentoffset := currentoffset + distance;
      outpointer := 0;
      inpointer := blocksize;
      assert buffer[0..tailpointer] == buffer[..][..readoffset - currentoffset];
    }

    /** Drop what is passed, and fill up the buffer. */
    method Skip(distance: nat) returns (ok: bool)
      requires Valid() && Scanning() && (1 < distance || blocksize == 1)
      requires 0 < distance <= blocksize && currentoffset + distance < |file|
      modifies Repr
      ensures ok && Valid() && currentoffset == old(currentoffset) + distance
      ensures Windows.Fits(file, blocksize, old(Current()))
      ensures Current() == Windows.Moved(file, blocksize, old(Current()), distance)
    {
      hide After, Checksum, TablesFor, Windows.Refilled, Windows.Fits, Windows.Moved, Windows.Kept, Loaded, Hashed,
           Scanning;
      CurrentFits();
      Windows.MovedFar(file, blocksize, Current(), distance);
      Discard(distance);
      ok := FillWindow();
    }

    /** Jump ahead the given distance, at most one block. */
    method Jump(distance: nat) returns (ok: bool)
      requires Valid()
      modifies Repr
      ensures Valid()
      ensures ok == (old(currentoffset) < |file| && distance != 0)
      ensures currentoffset ==
              if ok then Min(old(currentoffset) + Min(distance, blocksize), |file|) else old(currentoffset)
      ensures ok && currentoffset < |file| ==>
                && Windows.Fits(file, blocksize, old(Current()))
                && Current() == Windows.Moved(file, blocksize, old(Current()), Min(distance, blocksize))
    {
      hide After, Checksum, TablesFor, Windows.Fits, Windows.Moved;
      if currentoffset >= |file| {
        return false;
      }
      if distance == 0 {
        return false;
      }
      if distance == 1 {
        ok := Step();
        return;
      }
      var distance := if distance > blocksize then blocksize else distance;
      if currentoffset + distance >= |file| {
        Finish();
        return true;
      }
      ok := Skip(distance);
    }

    /** Both hashes, when everything has been read. */
    method GetFileHashes() returns (hashfull: seq<byte>, hash16k: seq<byte>)
      requires Valid() && currentoffset == |file|
      ensures hashfull == Md5.Hash(h, file)
      ensures hash16k == Md5.Hash(h, file[..Min(|file|, FIRST)])
    {
      hide After;
      hide Md5.Hash;
      hide TablesFor;
      EndMeansRead();
      assert file[..|file|] == file;
      var context := new MD5Context(h);
      context.CopyFrom(context16k);
      hash16k := context.Final(file[..Min(|file|, FIRST)]);
      if |file| < FIRST {
        hashfull := hash16k;
      } else {
        context := new MD5Context(h);
        context.CopyFrom(contextfull);
        hashfull := context.Final(file);
      }
    }

    /** The hash of the window. */
    method Hash() returns (hash: seq<byte>)
      requires Valid()
      ensures hash == Md5.Hash(h, buffer[outpointer..outpointer + blocksize])
      ensures currentoffset + blocksize <= |file| ==>
                hash == Md5.Hash(h, file[currentoffset..currentoffset + blocksize])
    {
      hide After;
      hide Md5.Hash;
      hide TablesFor;
      hide Checksum;
      var context := new MD5Context(h);
      var window := buffer[outpointer..outpointer + blocksize];
      context.Update(window, []);
      assert [] + window == window;
      hash := context.Final(window);
      WindowHoldsBlock();
    }

    /** The checksum of the first bytes of the window, padded with zeros.  They are bytes of the file as
        long as no more of them are asked for than the window holds. */
    method ShortChecksum(blocklength: nat) returns (crc: nat)
      requires Valid() && blocklength <= blocksize
      ensures outpointer + blocklength <= buffer.Length
      ensures crc == Checksum(PaddedTo(buffer[outpointer..outpointer + blocklength], blocksize))
      ensures blocklength <= BlockLength() ==>
                crc == Checksum(PaddedTo(file[currentoffset..currentoffset + blocklength], blocksize))
    {
      hide *;
      ShortBytes(blocklength);
      crc := PaddedChecksum(buffer[outpointer..outpointer + blocklength], blocksize);
    }

    /** The hash of the first bytes of the window, padded with zeros. */
    method ShortHash(blocklength: nat) returns (hash: seq<byte>)
      requires Valid() && blocklength <= blocksize
      ensures outpointer + blocklength <= buffer.Length
      ensures hash == Md5.Hash(h, PaddedTo(buffer[outpointer..outpointer + blocklength], blocksize))
      ensures blocklength <= BlockLength() ==>
                hash == Md5.Hash(h, PaddedTo(file[currentoffset..currentoffset + blocklength], blocksize))
    {
      hide TablesFor;
      hide After;
      hide Checksum;
      hide Md5.Hash;
      ShortBytes(blocklength);
      hide FileCheckSummer.Valid;
      var data := buffer[outpointer..outpointer + blocklength];
      var context := new MD5Context(h);
      context.Update(data, []);
      assert [] + data == data;
      if blocksize > blocklength {
        context.UpdateZeros(blocksize - blocklength, data);
      } else {
        assert data + Zeros(blocksize - blocklength) == data;
      }
      hash := context.Final(PaddedTo(data, blocksize));
    }

    lemma {:induction false} ShortBytes(blocklength: nat)
      requires Valid() && blocklength <= blocksize
      ensures outpointer + blocklength <= buffer.Length && currentoffset <= |file|
      ensures blocklength <= BlockLength() ==>
                buffer[outpointer..outpointer + blocklength] == file[currentoffset..currentoffset + blocklength]
    {
      hide TablesFor;
      hide After;
      hide Checksum;
      WindowHoldsBlock();
      if blocklength <= BlockLength() {
        assert buffer[outpointer..outpointer + blocklength] ==
               buffer[outpointer..outpointer + BlockLength()][..blocklength];
      }
    }
  }
}
