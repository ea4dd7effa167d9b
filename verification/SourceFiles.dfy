/** The hashes of a source file (par2creatorsourcefile.cpp): of the whole file, of its first 16k, and the
    hash and CRC of every block, padded with zeros.  They are computed either when the file is opened, in
    pieces of any size, or later, one whole block at a time (datablock.cpp); both ways agree. */
module SourceFiles {
  import opened Arithmetic
  import opened Bits
  import BlockSizes
  import opened Bytes
  import opened Crc
  import opened Md5

  const READ_SIZE := 1048576

  /** Where block i starts. */
  function Start(blocksize: nat, i: nat): nat {
    i * blocksize
  }

  lemma {:induction false} StartNext(blocksize: nat, i: nat)
    ensures Start(blocksize, 0) == 0
    ensures Start(blocksize, i + 1) == Start(blocksize, i) + blocksize
  {
  }

  function BlockCount(filesize: nat, blocksize: nat): nat
    requires blocksize > 0
  {
    CeilDiv(filesize, blocksize)
  }

  /** Exactly the blocks below the block count start inside the file. */
  lemma {:induction false} BlockStarts(filesize: nat, blocksize: nat, i: nat)
    requires blocksize > 0
    ensures i < BlockCount(filesize, blocksize) <==> Start(blocksize, i) < filesize
  {
    var n, x := BlockCount(filesize, blocksize), filesize + blocksize - 1;
    assert n * blocksize <= x < n * blocksize + blocksize by { Quotient(x, blocksize); }
    if i < n {
      MulMonotone(blocksize, i + 1, n);
      SumTimes(blocksize, i, 1);
    } else {
      MulMonotone(blocksize, n, i);
    }
  }

  /** The bytes of block i, and the block padded with zeros. */
  ghost function BlockBytes(file: seq<byte>, blocksize: nat, i: nat): (b: seq<byte>)
    requires Start(blocksize, i) <= |file|
    ensures |b| <= blocksize
  {
    file[Start(blocksize, i)..Min(Start(blocksize, i) + blocksize, |file|)]
  }

  ghost function PaddedBlock(file: seq<byte>, blocksize: nat, i: nat): (b: seq<byte>)
    requires Start(blocksize, i) <= |file|
    ensures |b| == blocksize
  {
    PaddedTo(BlockBytes(file, blocksize, i), blocksize)
  }

  /** An entry of the verification packet. */
  datatype Entry = Entry(hash: seq<byte>, crc: nat)

  ghost function EntryFor<S>(h: Compression<S>, file: seq<byte>, blocksize: nat, i: nat): Entry
    requires Start(blocksize, i) <= |file|
  {
    Entry(Hash(h, PaddedBlock(file, blocksize, i)), Checksum(PaddedBlock(file, blocksize, i)))
  }

  /** The first n blocks have been given the entries that belong to them. */
  ghost predicate EntriesUpTo<S>(h: Compression<S>, file: seq<byte>, blocksize: nat, entries: seq<Entry>, n: nat) {
    && n <= |entries|
    && forall i :: 0 <= i < n ==> Start(blocksize, i) <= |file| && entries[i] == EntryFor(h, file, blocksize, i)
  }

  lemma {:induction false} EntryStored<S>(h: Compression<S>, file: seq<byte>, blocksize: nat, entries: seq<Entry>,
                                          n: nat, e: Entry)
    requires EntriesUpTo(h, file, blocksize, entries, n) && n < |entries|
    requires Start(blocksize, n) <= |file| && e == EntryFor(h, file, blocksize, n)
    ensures EntriesUpTo(h, file, blocksize, entries[n := e], n + 1)
  {
    hide EntryFor;
    hide Start;
  }

  lemma {:induction false} ChecksumMore(s: seq<byte>, t: seq<byte>)
    ensures Xor(ALL_ONES, UpdateBlock(Xor(ALL_ONES, Checksum(s)), t)) == Checksum(s + t)
  {
    hide Xor;
    UpdateBlockSplit(ALL_ONES, s, t);
    XorCancel(UpdateBlock(ALL_ONES, s), ALL_ONES);
  }

  lemma {:induction false} ChecksumEmpty()
    ensures Checksum([]) == 0
  {
    hide Xor;
    XorSelf(ALL_ONES);
  }

  // ----- Data blocks -----

  /** A part of a file. */
  datatype DataBlock = DataBlock(offset: nat, length: nat)
  {
    /** How much of `size` bytes from `position` on is inside the block. */
    function Inside(position: nat, size: nat): nat {
      if length > position then Min(size, length - position) else 0
    }
  }

  /** Read data at a position within a block; what lies beyond the block reads as zeros. */
  method ReadData(file: seq<byte>, block: DataBlock, position: nat, buffer: array<byte>)
    requires block.offset + block.length <= |file|
    modifies buffer
    ensures var want := block.Inside(position, buffer.Length);
            && want <= buffer.Length && (want > 0 ==> block.offset + position + want <= |file|)
            && buffer[..] == (if want > 0 then file[block.offset + position..block.offset + position + want] else []) +
                             Zeros(buffer.Length - want)
  {
    if block.length > position {
      var fileoffset, want := block.offset + position, Min(buffer.Length, block.length - position);
      forall i | 0 <= i < buffer.Length {
        buffer[i] := if i < want then file[fileoffset + i] else 0;
      }
    } else {
      forall i | 0 <= i < buffer.Length {
        buffer[i] := 0;
      }
    }
  }

  /** Write data at a position within a block; what lies beyond the block is dropped. */
  method WriteData(file: array<byte>, block: DataBlock, position: nat, buffer: seq<byte>) returns (wrote: nat)
    requires block.offset + block.length <= file.Length
    modifies file
    ensures wrote == block.Inside(position, |buffer|)
    ensures wrote > 0 ==> block.offset + position + wrote <= file.Length &&
                          file[block.offset + position..block.offset + position + wrote] == buffer[..wrote]
    ensures forall i :: 0 <= i < file.Length && !(block.offset + position <= i < block.offset + position + wrote) ==>
                          file[i] == old(file[i])
  {
    wrote := 0;
    if block.length > position {
      var fileoffset, have := block.offset + position, Min(|buffer|, block.length - position);
      forall i | fileoffset <= i < fileoffset + have {
        file[i] := buffer[i - fileoffset];
      }
      wrote := have;
    }
  }

  /** A block of a source file. */
  datatype SourceBlock = SourceBlock(file: nat, block: DataBlock)

  /** Block i of a file. */
  function BlockOf(filesize: nat, blocksize: nat, i: nat): DataBlock
    requires Start(blocksize, i) < filesize
  {
    DataBlock(Start(blocksize, i), Min(blocksize, filesize - Start(blocksize, i)))
  }

  /** The blocks of a file follow each other without gap, from its first byte to its last. */
  lemma {:induction false} BlocksTile(filesize: nat, blocksize: nat, i: nat)
    requires blocksize > 0 && i < BlockCount(filesize, blocksize)
    ensures Start(blocksize, 0) == 0 && Start(blocksize, i) < filesize
    ensures 0 < BlockOf(filesize, blocksize, i).length <= blocksize
    ensures BlockOf(filesize, blocksize, i).offset + BlockOf(filesize, blocksize, i).length ==
            if i + 1 < BlockCount(filesize, blocksize) then Start(blocksize, i + 1) else filesize
  {
    BlockStarts(filesize, blocksize, i);
    BlockStarts(filesize, blocksize, i + 1);
    StartNext(blocksize, i);
    hide Start;
    hide BlockCount;
  }

  /** Set up the blocks of one file. */
  method InitialiseFileBlocks(file: nat, filesize: nat, blocksize: nat) returns (blocks: seq<SourceBlock>)
    requires blocksize > 0
    ensures |blocks| == BlockCount(filesize, blocksize)
    ensures forall i :: 0 <= i < |blocks| ==>
              Start(blocksize, i) < filesize && blocks[i] == SourceBlock(file, BlockOf(filesize, blocksize, i))
  {
    hide Start;
    hide BlockCount;
    blocks := [];
    for blocknum := 0 to BlockCount(filesize, blocksize)
      invariant |blocks| == blocknum
      invariant forall i :: 0 <= i < blocknum ==>
        Start(blocksize, i) < filesize && blocks[i] == SourceBlock(file, BlockOf(filesize, blocksize, i))
    {
      BlockStarts(filesize, blocksize, blocknum);
      var offset := Start(blocksize, blocknum);
      blocks := blocks + [SourceBlock(file, DataBlock(offset, Min(blocksize, filesize - offset)))];
    }
  }

  /** The part of the source blocks that belongs to file f is the blocks of that file, in order. */
  ghost predicate FileBlocks(filesizes: seq<nat>, blocksize: nat, sourceblocks: seq<SourceBlock>, f: nat)
    requires blocksize > 0 && f < |filesizes|
  {
    var first, n := BlockSizes.Count(filesizes[..f], blocksize), BlockCount(filesizes[f], blocksize);
    && first + n <= |sourceblocks|
    && forall i :: 0 <= i < n ==>
         Start(blocksize, i) < filesizes[f] &&
         sourceblocks[first..first + n][i] == SourceBlock(f, BlockOf(filesizes[f], blocksize, i))
  }

  /** The blocks of all files, in the order of the files, are exactly as many as were planned. */
  method InitialiseSourceBlocks(filesizes: seq<nat>, blocksize: nat) returns (sourceblocks: seq<SourceBlock>)
    requires blocksize > 0
    ensures |sourceblocks| == BlockSizes.Count(filesizes, blocksize)
    ensures forall f :: 0 <= f < |filesizes| ==> FileBlocks(filesizes, blocksize, sourceblocks, f)
  {
    hide Start;
    sourceblocks := [];
    for f := 0 to |filesizes|
      invariant |sourceblocks| == BlockSizes.Count(filesizes[..f], blocksize)
      invariant forall g :: 0 <= g < f ==> FileBlocks(filesizes, blocksize, sourceblocks, g)
    {
      ghost var before := sourceblocks;
      var blocks := InitialiseFileBlocks(f, filesizes[f], blocksize);
      assert filesizes[..f + 1][..f] == filesizes[..f];
      sourceblocks := sourceblocks + blocks;
      forall g | 0 <= g <= f
        ensures FileBlocks(filesizes, blocksize, sourceblocks, g)
      {
        if g < f {
          assert FileBlocks(filesizes, blocksize, before, g);
          var first, n := BlockSizes.Count(filesizes[..g], blocksize), BlockCount(filesizes[g], blocksize);
          assert sourceblocks[first..first + n] == before[first..first + n];
        } else {
          assert sourceblocks[|before|..|before| + |blocks|] == blocks;
        }
      }
    }
    assert filesizes[..|filesizes|] == filesizes;
  }

  /** The hash of a buffer. */
  method HashOf<S>(h: Compression<S>, buffer: seq<byte>) returns (hash: seq<byte>)
    ensures hash == Hash(h, buffer)
  {
    hide Hash;
    hide After;
    var context := new MD5Context(h);
    context.Update(buffer, []);
    assert [] + buffer == buffer;
    hash := context.Final(buffer);
  }

  /** The part of a padded block that is in the file continues the file. */
  lemma {:induction false} PaddedPrefix(file: seq<byte>, blocksize: nat, i: nat)
    requires Start(blocksize, i) <= |file|
    ensures var start := Start(blocksize, i); var length := Min(blocksize, |file| - start);
            && length <= |PaddedBlock(file, blocksize, i)|
            && file[..start] + PaddedBlock(file, blocksize, i)[..length] == file[..Min(start + blocksize, |file|)]
  {
    hide Start;
    var start := Start(blocksize, i);
    var length := Min(blocksize, |file| - start);
    assert PaddedBlock(file, blocksize, i)[..length] == BlockBytes(file, blocksize, i);
  }

  class Par2CreatorSourceFile<S> {
    const h: Compression<S>
    const file: seq<byte>
    const blocksize: nat
    const blockcount: nat
    var entries: seq<Entry>
    var hashfull: seq<byte>
    var hash16k: seq<byte>
    const contextfull: MD5Context<S>

    ghost predicate Valid()
      reads this
    {
      && 0 < blocksize && 0 < |file| && blockcount == BlockCount(|file|, blocksize) && |entries| == blockcount
      && contextfull.h == h
    }

    constructor (h: Compression<S>, file: seq<byte>, blocksize: nat)
      requires 0 < blocksize && 0 < |file|
      ensures Valid() && this.h == h && this.file == file && this.blocksize == blocksize
      ensures fresh(contextfull) && fresh(contextfull.block)
      ensures contextfull.Valid() && contextfull.Contents() == After(h, [])
    {
      this.h, this.file, this.blocksize := h, file, blocksize;
      blockcount := BlockCount(|file|, blocksize);
      entries := seq(BlockCount(|file|, blocksize), i => Entry([], 0));
      hashfull, hash16k := [], [];
      contextfull := new MD5Context(h);
    }

    /** Everything the packets of this file contain. */
    ghost predicate Complete()
      reads this
    {
      && Valid() && EntriesUpTo(h, file, blocksize, entries, blockcount)
      && hashfull == Hash(h, file) && hash16k == Hash(h, file[..Min(FIRST, |file|)])
    }

    // ----- Hashing at once -----

    /** The current block (`need` bytes of which are missing) has been hashed up to file position pos. */
    ghost predicate InBlock(context: MD5Context<S>, blockcrc: nat, blocknumber: nat, need: nat, pos: nat)
      reads this, context, context.block
    {
      && Valid() && context.Valid() && context.h == h && pos <= |file|
      && EntriesUpTo(h, file, blocksize, entries, blocknumber)
      && if need == 0 then blocknumber == blockcount && pos == |file|
         else
           var start := Start(blocksize, blocknumber);
           && need <= blocksize && start < |file| && start + blocksize - need == pos
           && context.Contents() == After(h, file[start..pos]) && blockcrc == Checksum(file[start..pos])
    }

    /** Fill in the entry of the block. */
    method StoreBlock(context: MD5Context<S>, blockcrc: nat, blocknumber: nat, ghost data: seq<byte>)
      requires Valid() && context.Valid() && context.h == h
      requires Start(blocksize, blocknumber) < |file| && data == PaddedBlock(file, blocksize, blocknumber)
      requires EntriesUpTo(h, file, blocksize, entries, blocknumber)
      requires context.Contents() == After(h, data) && blockcrc == Checksum(data)
      modifies `entries, context, context.block
      ensures Valid() && context.Valid() && EntriesUpTo(h, file, blocksize, entries, blocknumber + 1)
      ensures blocknumber < blockcount
    {
      hide After;
      hide Hash;
      hide Checksum;
      hide BlockCount;
      hide PaddedBlock;
      hide EntriesUpTo;
      hide Start;
      BlockStarts(|file|, blocksize, blocknumber);
      var blockhash := context.Final(data);
      EntryStored(h, file, blocksize, entries, blocknumber, Entry(blockhash, blockcrc));
      entries := entries[blocknumber := Entry(blockhash, blockcrc)];
    }

    /** The end of the current block is reached: store its entry and start the next block, if any. */
    method FinishBlock(context: MD5Context<S>, blockcrc: nat, blocknumber: nat, ghost data: seq<byte>)
      returns (blockcrc': nat, blocknumber': nat, need: nat)
      requires Valid() && context.Valid() && context.h == h
      requires Start(blocksize, blocknumber) < |file| && data == PaddedBlock(file, blocksize, blocknumber)
      requires EntriesUpTo(h, file, blocksize, entries, blocknumber)
      requires context.Contents() == After(h, data) && blockcrc == Checksum(data)
      modifies `entries, context, context.block
      ensures InBlock(context, blockcrc', blocknumber', need, Min(Start(blocksize, blocknumber) + blocksize, |file|))
      ensures blocknumber' == blocknumber + 1
    {
      hide *;
      StoreBlock(context, blockcrc, blocknumber, data);
      blocknumber' := blocknumber + 1;
      blockcrc', need := blockcrc, 0;
      if blocknumber' < blockcount {
        need := blocksize;
        context.Reset();
        blockcrc' := 0;
        NextBlock(context, blocknumber');
      } else {
        NoMoreBlocks(context, blockcrc, blocknumber');
      }
    }

    lemma {:induction false} NextBlock(context: MD5Context<S>, blocknumber: nat)
      requires Valid() && context.Valid() && context.h == h && context.Contents() == After(h, [])
      requires 0 < blocknumber < blockcount && EntriesUpTo(h, file, blocksize, entries, blocknumber)
      ensures InBlock(context, 0, blocknumber, blocksize, Min(Start(blocksize, blocknumber - 1) + blocksize, |file|))
    {
      hide After;
      hide Checksum;
      hide EntriesUpTo;
      hide Start;
      hide BlockCount;
      BlockStarts(|file|, blocksize, blocknumber);
      StartNext(blocksize, blocknumber - 1);
      ChecksumEmpty();
      var start := Start(blocksize, blocknumber);
      assert file[start..start] == [];
      assert Min(Start(blocksize, blocknumber - 1) + blocksize, |file|) == start;
    }

    lemma {:induction false} NoMoreBlocks(context: MD5Context<S>, blockcrc: nat, blocknumber: nat)
      requires Valid() && context.Valid() && context.h == h
      requires 0 < blocknumber == blockcount && EntriesUpTo(h, file, blocksize, entries, blocknumber)
      ensures InBlock(context, blockcrc, blocknumber, 0, Min(Start(blocksize, blocknumber - 1) + blocksize, |file|))
    {
      hide EntriesUpTo;
      hide Start;
      hide BlockCount;
      BlockStarts(|file|, blocksize, blocknumber);
      StartNext(blocksize, blocknumber - 1);
    }

    /** Hash more data of the current block. */
    method HashData(context: MD5Context<S>, data: seq<byte>, blockcrc: nat, blocknumber: nat, need: nat, pos: nat)
      returns (blockcrc': nat, need': nat)
      requires InBlock(context, blockcrc, blocknumber, need, pos) && 0 < |data| <= need
      requires pos + |data| <= |file| && data == file[pos..pos + |data|]
      modifies context, context.block
      ensures Valid() && context.Valid() && context.h == h
      ensures var start := Start(blocksize, blocknumber);
              && start <= pos + |data| && context.Contents() == After(h, file[start..pos + |data|])
              && blockcrc' == Checksum(file[start..pos + |data|])
      ensures need' == need - |data|
    {
      hide After;
      hide Checksum;
      hide EntriesUpTo;
      hide BlockCount;
      hide Start;
      hide UpdateBlock;
      hide Xor;
      ghost var start := Start(blocksize, blocknumber);
      ChecksumMore(file[start..pos], data);
      assert file[start..pos] + data == file[start..pos + |data|];
      blockcrc' := Xor(ALL_ONES, UpdateBlock(Xor(ALL_ONES, blockcrc), data));
      context.Update(data, file[start..pos]);
      need' := need - |data|;
    }

    /** Hash a piece of the current block, and finish the block if that was the rest of it. */
    method UsePiece(context: MD5Context<S>, data: seq<byte>, blockcrc0: nat, blocknumber0: nat, need0: nat, pos: nat)
      returns (blockcrc: nat, blocknumber: nat, need: nat)
      requires InBlock(context, blockcrc0, blocknumber0, need0, pos) && 0 < |data| <= need0
      requires pos + |data| <= |file| && data == file[pos..pos + |data|]
      modifies `entries, context, context.block
      ensures InBlock(context, blockcrc, blocknumber, need, pos + |data|)
    {
      hide After;
      hide Checksum;
      hide EntriesUpTo;
      hide BlockCount;
      hide Start;
      ghost var start := Start(blocksize, blocknumber0);
      blocknumber := blocknumber0;
      blockcrc, need := HashData(context, data, blockcrc0, blocknumber0, need0, pos);
      if need == 0 {
        FullBlock(file, blocksize, blocknumber, pos + |data|);
        blockcrc, blocknumber, need := FinishBlock(context, blockcrc, blocknumber, file[start..pos + |data|]);
      }
    }

    /** Hash data just read, block by block. */
    method UseData(context: MD5Context<S>, data: seq<byte>, blockcrc0: nat, blocknumber0: nat, need0: nat, pos: nat)
      returns (blockcrc: nat, blocknumber: nat, need: nat)
      requires InBlock(context, blockcrc0, blocknumber0, need0, pos)
      requires pos + |data| <= |file| && data == file[pos..pos + |data|]
      modifies `entries, context, context.block
      ensures InBlock(context, blockcrc, blocknumber, need, pos + |data|)
    {
      hide After;
      hide Checksum;
      hide EntriesUpTo;
      hide BlockCount;
      hide Start;
      blockcrc, blocknumber, need := blockcrc0, blocknumber0, need0;
      var used := 0;
      while used < |data|
        invariant 0 <= used <= |data|
        invariant InBlock(context, blockcrc, blocknumber, need, pos + used)
      {
        var use := Min(need, |data| - used);
        SubSlice(file, pos, pos + |data|, used, used + use);
        blockcrc, blocknumber, need := UsePiece(context, data[used..used + use], blockcrc, blocknumber, need,
                                                pos + used);
        used := used + use;
      }
    }

    /** A last block that is not full is filled up with zeros. */
    method FinishLast(context: MD5Context<S>, blockcrc0: nat, blocknumber: nat, need: nat)
      requires InBlock(context, blockcrc0, blocknumber, need, |file|)
      modifies `entries, context, context.block
      ensures Valid() && EntriesUpTo(h, file, blocksize, entries, blockcount)
    {
      hide After;
      hide Checksum;
      hide BlockCount;
      hide Start;
      hide UpdateBlock;
      hide Xor;
      if need > 0 {
        ghost var data := file[Start(blocksize, blocknumber)..|file|];
        ChecksumMore(data, Zeros(need));
        var blockcrc := Xor(ALL_ONES, UpdateBlock(Xor(ALL_ONES, blockcrc0), Zeros(need)));
        context.UpdateZeros(need, data);
        LastBlock(file, blocksize, blocknumber, need);
        BlockStarts(|file|, blocksize, blocknumber + 1);
        StartNext(blocksize, blocknumber);
        hide EntriesUpTo;
        var crc, n, rest := FinishBlock(context, blockcrc, blocknumber, data + Zeros(need));
        assert n == blockcount;
      }
    }

    /** Hash one more piece; the 16k hash is taken in passing. */
    method HashWhole(context: MD5Context<S>, data: seq<byte>, offset: nat)
      requires Valid() && context.Valid() && context.h == h
      requires context.Contents() == After(h, file[..Min(offset, |file|)])
      requires offset + |data| <= |file| && data == file[offset..offset + |data|]
      requires offset >= FIRST ==> hash16k == Hash(h, file[..FIRST])
      modifies `hash16k, context, context.block
      ensures Valid() && context.Valid() && context.Contents() == After(h, file[..offset + |data|])
      ensures offset + |data| >= FIRST ==> hash16k == Hash(h, file[..FIRST])
    {
      hide After;
      hide Hash;
      hide BlockCount;
      var want := |data|;
      assert file[..offset] + data == file[..offset + want];
      if offset < FIRST && offset + want >= FIRST {
        var first := FIRST - offset;
        assert file[..offset] + data[..first] == file[..FIRST];
        context.Update(data[..first], file[..offset]);
        var temp := new MD5Context(h);
        temp.CopyFrom(context);
        hash16k := temp.Final(file[..FIRST]);
        if offset + want > FIRST {
          assert file[..FIRST] + data[first..] == file[..offset + want];
          context.Update(data[first..], file[..FIRST]);
        }
      } else {
        context.Update(data, file[..offset]);
      }
    }

    /** Both hashes have got as far as `offset`. */
    ghost predicate HashedTo(filecontext: MD5Context<S>, blockcontext: MD5Context<S>, blockcrc: nat, blocknumber: nat,
                             need: nat, offset: nat)
      reads this, filecontext, filecontext.block, blockcontext, blockcontext.block
    {
      && Valid() && offset <= |file|
      && filecontext.Valid() && filecontext.h == h && filecontext.Contents() == After(h, file[..offset])
      && InBlock(blockcontext, blockcrc, blocknumber, need, offset)
      && (offset >= FIRST ==> hash16k == Hash(h, file[..FIRST]))
    }

    /** Hash a piece just read, both for the file and for its blocks. */
    method HashPiece(filecontext: MD5Context<S>, blockcontext: MD5Context<S>, buffer: seq<byte>, offset: nat,
                     blockcrc0: nat, blocknumber0: nat, need0: nat) returns (blockcrc: nat, blocknumber: nat, need: nat)
      requires HashedTo(filecontext, blockcontext, blockcrc0, blocknumber0, need0, offset)
      requires filecontext != blockcontext && filecontext.block != blockcontext.block
      requires offset + |buffer| <= |file| && buffer == file[offset..offset + |buffer|]
      modifies `entries, `hash16k, filecontext, filecontext.block, blockcontext, blockcontext.block
      ensures HashedTo(filecontext, blockcontext, blockcrc, blocknumber, need, offset + |buffer|)
    {
      hide After;
      hide Hash;
      hide BlockCount;
      HashWhole(filecontext, buffer, offset);
      assert InBlock(blockcontext, blockcrc0, blocknumber0, need0, offset);
      hide Par2CreatorSourceFile.InBlock;
      blockcrc, blocknumber, need := UseData(blockcontext, buffer, blockcrc0, blocknumber0, need0, offset);
    }

    /** Finish the last block and the hash of the file. */
    method FinishFile(filecontext: MD5Context<S>, blockcontext: MD5Context<S>, blockcrc: nat, blocknumber: nat,
                      need: nat)
      requires HashedTo(filecontext, blockcontext, blockcrc, blocknumber, need, |file|)
      requires filecontext != blockcontext && filecontext.block != blockcontext.block
      modifies `entries, `hashfull, `hash16k, filecontext, filecontext.block, blockcontext, blockcontext.block
      ensures Complete()
    {
      hide After;
      hide Hash;
      hide BlockCount;
      hide EntriesUpTo;
      assert InBlock(blockcontext, blockcrc, blocknumber, need, |file|);
      hide Par2CreatorSourceFile.InBlock;
      FinishLast(blockcontext, blockcrc, blocknumber, need);
      assert file[..|file|] == file;
      hashfull := filecontext.Final(file);
      if |file| < FIRST {
        hash16k := hashfull;
      }
    }

    /** Hash the file while it is opened, reading it in pieces. */
    method HashAtOnce()
      requires Valid()
      modifies this
      ensures Complete()
    {
      hide After;
      hide Hash;
      hide BlockCount;
      hide EntriesUpTo;
      hide Par2CreatorSourceFile.HashedTo;
      hide Par2CreatorSourceFile.InBlock;
      hide Par2CreatorSourceFile.Complete;
      var buffersize := Min(READ_SIZE, Min(blocksize, |file|));
      var filecontext := new MD5Context(h);
      var blockcontext := new MD5Context(h);
      var offset, blocknumber, need, blockcrc := 0, 0, blocksize, 0;
      NothingHashed(filecontext, blockcontext);
      while offset < |file|
        invariant 0 <= offset <= |file|
        invariant fresh(filecontext) && fresh(filecontext.block) && fresh(blockcontext) && fresh(blockcontext.block)
        invariant filecontext != blockcontext && filecontext.block != blockcontext.block
        invariant HashedTo(filecontext, blockcontext, blockcrc, blocknumber, need, offset)
      {
        var want := Min(|file| - offset, buffersize);
        blockcrc, blocknumber, need :=
          HashPiece(filecontext, blockcontext, file[offset..offset + want], offset, blockcrc, blocknumber, need);
        offset := offset + want;
      }
      FinishFile(filecontext, blockcontext, blockcrc, blocknumber, need);
    }

    lemma {:induction false} NothingHashed(filecontext: MD5Context<S>, blockcontext: MD5Context<S>)
      requires Valid() && filecontext.Valid() && filecontext.h == h && filecontext.Contents() == After(h, [])
      requires blockcontext.Valid() && blockcontext.h == h && blockcontext.Contents() == After(h, [])
      ensures HashedTo(filecontext, blockcontext, 0, 0, blocksize, 0)
    {
      hide After;
      hide Par2CreatorSourceFile.InBlock;
      FirstBlock(blockcontext);
      assert file[..0] == [];
    }

    // ----- Hashing later -----

    /** The entry of one block, and the hash of the file so far, without the padding. */
    method UpdateHashes(blocknumber: nat, buffer: seq<byte>)
      requires Valid() && contextfull.Valid() && blocknumber < blockcount && Start(blocksize, blocknumber) <= |file|
      requires buffer == PaddedBlock(file, blocksize, blocknumber)
      requires contextfull.Contents() == After(h, file[..Start(blocksize, blocknumber)])
      modifies `entries, contextfull, contextfull.block
      ensures Valid() && contextfull.Valid()
      ensures entries == old(entries)[blocknumber := EntryFor(h, file, blocksize, blocknumber)]
      ensures contextfull.Contents() == After(h, file[..Min(Start(blocksize, blocknumber + 1), |file|)])
    {
      hide After;
      hide Hash;
      hide Checksum;
      hide BlockCount;
      hide Start;
      var blockcrc := Checksum(buffer);
      var blockhash := HashOf(h, buffer);
      entries := entries[blocknumber := Entry(blockhash, blockcrc)];
      var start := Start(blocksize, blocknumber);
      StartNext(blocksize, blocknumber);
      var length := Min(|buffer|, |file| - start);
      PaddedPrefix(file, blocksize, blocknumber);
      hide PaddedBlock;
      contextfull.Update(buffer[..length], file[..start]);
    }

    /** Give the hash of the file. */
    method FinishHashes()
      requires Valid() && contextfull.Valid() && contextfull.Contents() == After(h, file)
      modifies `hashfull, contextfull, contextfull.block
      ensures Valid() && hashfull == Hash(h, file)
    {
      hide After;
      hide Hash;
      hide BlockCount;
      hashfull := contextfull.Final(file);
    }

    /** The first 16k are hashed when the file is opened. */
    method Hash16k()
      requires Valid()
      modifies `hash16k
      ensures hash16k == Hash(h, file[..Min(FIRST, |file|)])
    {
      hide Hash;
      hash16k := HashOf(h, file[..Min(FIRST, |file|)]);
    }

    /** Hash the file later, block by block as the blocks are read for other purposes. */
    method HashLater()
      requires Valid() && contextfull.Valid() && contextfull.Contents() == After(h, [])
      modifies this, contextfull, contextfull.block
      ensures Complete()
    {
      hide After;
      hide Hash;
      hide Checksum;
      hide BlockCount;
      hide Start;
      hide EntriesUpTo;
      hide EntryFor;
      hide PaddedBlock;
      Hash16k();
      StartNext(blocksize, 0);
      assert file[..0] == [];
      assert EntriesUpTo(h, file, blocksize, entries, 0) by { NoEntries(); }
      for blocknumber := 0 to blockcount
        invariant Valid() && contextfull.Valid() && hash16k == Hash(h, file[..Min(FIRST, |file|)])
        invariant EntriesUpTo(h, file, blocksize, entries, blocknumber)
        invariant contextfull.Contents() == After(h, file[..Min(Start(blocksize, blocknumber), |file|)])
      {
        BlockStarts(|file|, blocksize, blocknumber);
        var buffer := new byte[blocksize];
        ReadBlock(blocknumber, buffer);
        EntryStored(h, file, blocksize, entries, blocknumber, EntryFor(h, file, blocksize, blocknumber));
        UpdateHashes(blocknumber, buffer[..]);
      }
      BlockStarts(|file|, blocksize, blockcount);
      assert file[..|file|] == file;
      FinishHashes();
    }

    lemma {:induction false} NoEntries()
      ensures EntriesUpTo(h, file, blocksize, entries, 0)
    {
    }

    /** Read a whole block of the file. */
    method ReadBlock(blocknumber: nat, buffer: array<byte>)
      requires Valid() && blocknumber < blockcount && buffer.Length == blocksize
      requires Start(blocksize, blocknumber) < |file|
      modifies buffer
      ensures buffer[..] == PaddedBlock(file, blocksize, blocknumber)
    {
      hide BlockCount;
      hide Start;
      var start := Start(blocksize, blocknumber);
      ReadData(file, DataBlock(start, Min(blocksize, |file| - start)), 0, buffer);
      assert file[start..start + Min(blocksize, |file| - start)] == BlockBytes(file, blocksize, blocknumber);
    }

    lemma {:induction false} FirstBlock(context: MD5Context<S>)
      requires Valid() && context.Valid() && context.h == h && context.Contents() == After(h, [])
      ensures InBlock(context, 0, 0, blocksize, 0)
    {
      StartNext(blocksize, 0);
      ChecksumEmpty();
      assert file[0..0] == [];
    }
  }

  lemma {:induction false} FullBlock(file: seq<byte>, blocksize: nat, i: nat, end: nat)
    requires end == Start(blocksize, i) + blocksize <= |file|
    ensures PaddedBlock(file, blocksize, i) == file[Start(blocksize, i)..end]
  {
  }

  lemma {:induction false} LastBlock(file: seq<byte>, blocksize: nat, i: nat, need: nat)
    requires Start(blocksize, i) < |file| == Start(blocksize, i) + blocksize - need && need <= blocksize
    ensures PaddedBlock(file, blocksize, i) == file[Start(blocksize, i)..|file|] + Zeros(need)
  {
  }

  /** However the hashes of a file were computed, the packets contain the same. */
  lemma {:induction false} RoutesAgree<S>(a: Par2CreatorSourceFile<S>, b: Par2CreatorSourceFile<S>)
    requires a.Complete() && b.Complete() && a.h == b.h && a.file == b.file && a.blocksize == b.blocksize
    ensures a.entries == b.entries && a.hashfull == b.hashfull && a.hash16k == b.hash16k
  {
    hide EntryFor;
    hide Start;
    hide BlockCount;
    hide Hash;
    assert forall i :: 0 <= i < |a.entries| ==> a.entries[i] == b.entries[i];
  }
}
