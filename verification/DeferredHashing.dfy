/** Deferred hashing from the pipeline to the packets (par2creator.cpp, par2creatorsourcefile.cpp): the calls of
    UpdateHashes that the pipeline has made, in whatever order buffers arrived, complete the description of the file. */
module DeferredHashing {
  import opened Arithmetic
  import opened Bytes
  import opened Crc
  import opened Md5
  import opened SourceFiles
  import opened HashOrder

  /** The blocks of a file as they are read, padded with zeros. */
  ghost function PaddedBlocks(file: seq<byte>, blocksize: nat): (r: seq<seq<byte>>)
    requires 0 < blocksize
    ensures |r| == BlockCount(|file|, blocksize)
    ensures forall i :: 0 <= i < |r| ==> Start(blocksize, i) < |file| && r[i] == PaddedBlock(file, blocksize, i)
  {
    var n := BlockCount(|file|, blocksize);
    AllStarts(|file|, blocksize);
    seq(n, i requires 0 <= i < n => PaddedBlock(file, blocksize, i))
  }

  lemma {:induction false} AllStarts(filesize: nat, blocksize: nat)
    requires 0 < blocksize
    ensures forall i :: 0 <= i < BlockCount(filesize, blocksize) ==> Start(blocksize, i) < filesize
  {
    hide BlockCount, Start;
    forall i | 0 <= i < BlockCount(filesize, blocksize)
      ensures Start(blocksize, i) < filesize
    {
      BlockStarts(filesize, blocksize, i);
    }
  }

  /** The calls of UpdateHashes, one after the other. */
  method MakeCalls<S>(source: Par2CreatorSourceFile<S>, calls: seq<Call<seq<byte>>>)
    requires source.Valid() && source.contextfull.Valid() && source.contextfull.Contents() == After(source.h, [])
    requires calls == Calls(PaddedBlocks(source.file, source.blocksize), source.blockcount)
    modifies source, source.contextfull, source.contextfull.block
    ensures source.Complete()
  {
    hide After, Hash, Checksum, BlockCount, Start, EntriesUpTo, SourceFiles.EntryFor, PaddedBlock;
    var file, blocksize := source.file, source.blocksize;
    source.Hash16k();
    StartNext(blocksize, 0);
    assert file[..0] == [];
    source.NoEntries();
    for k := 0 to |calls|
      invariant source.Valid() && source.contextfull.Valid()
      invariant source.hash16k == Hash(source.h, file[..Min(FIRST, |file|)])
      invariant EntriesUpTo(source.h, file, blocksize, source.entries, k)
      invariant source.contextfull.Contents() == After(source.h, file[..Min(Start(blocksize, k), |file|)])
    {
      BlockStarts(|file|, blocksize, k);
      EntryStored(source.h, file, blocksize, source.entries, k, SourceFiles.EntryFor(source.h, file, blocksize, k));
      source.UpdateHashes(calls[k].index, calls[k].data);
    }
    BlockStarts(|file|, blocksize, |calls|);
    assert file[..|file|] == file;
    source.FinishHashes();
  }

  /** When the pipeline is done, the calls that it has made for a file give its complete description. */
  method HashedByPipeline<S>(state: CreatePipelineState<seq<byte>>, f: nat, source: Par2CreatorSourceFile<S>)
    requires state.Valid() && state.sourcefile == |state.blocks| && f < |state.blocks|
    requires forall b :: 0 <= b < |state.inputbuffers| ==> state.inputbuffers[b].stage != Queued
    requires forall g :: g in state.shm ==> state.shm[g].turn == NoTurn
    requires source.Valid() && source.contextfull.Valid() && source.contextfull.Contents() == After(source.h, [])
    requires state.blocks[f] == PaddedBlocks(source.file, source.blocksize)
    modifies source, source.contextfull, source.contextfull.block
    ensures source.Complete()
  {
    hide After, BlockCount, Start, PaddedBlock, Calls;
    Completed(state, f);
    MakeCalls(source, state.record[f]);
  }

  lemma {:induction false} Completed(state: CreatePipelineState<seq<byte>>, f: nat)
    requires state.Valid() && state.sourcefile == |state.blocks| && f < |state.blocks|
    requires forall b :: 0 <= b < |state.inputbuffers| ==> state.inputbuffers[b].stage != Queued
    requires forall g :: g in state.shm ==> state.shm[g].turn == NoTurn
    ensures |state.record| == |state.blocks| && state.record[f] == Calls(state.blocks[f], |state.blocks[f]|)
  {
    hide Calls, Consistent, Conserved;
    state.Complete();
  }
}
