/** The create pipeline does not get stuck: from every state that it can be in, whatever the threads have done so far,
    there are steps that lead to its end (pipeline.h, buffer.cpp, par2creator.cpp). */
module HashProgress {
  import opened HashOrder

  /** No thread is at work on an entry below f. */
  ghost predicate NoTurnsBelow(shm: map<nat, Entry>, f: nat) {
    forall g :: g in shm && g < f ==> shm[g].turn == NoTurn
  }

  ghost predicate NoTurns(shm: map<nat, Entry>) {
    forall g :: g in shm ==> shm[g].turn == NoTurn
  }

  ghost predicate NoAttempts<D>(bufs: seq<InputBuffer<D>>, n: nat) {
    forall b :: 0 <= b < |bufs| && b < n ==> bufs[b].attempts == 0
  }

  /** A buffer that is idle, or kept for reading at the end of the input. */
  ghost predicate AtRest<D>(x: InputBuffer<D>, ended: bool) {
    x.stage.Idle? || (x.stage.Reading? && ended)
  }

  ghost predicate AllAtRest<D>(bufs: seq<InputBuffer<D>>, n: nat, ended: bool) {
    forall b :: 0 <= b < |bufs| && b < n ==> AtRest(bufs[b], ended)
  }

  // ----- A free buffer -----

  /** If every block read so far has arrived, and no thread is at work, nothing is deferred. */
  lemma {:induction false} NothingDeferred<D>(blocks: seq<seq<D>>, bufs: seq<InputBuffer<D>>, shm: map<nat, Entry>,
                                              record: seq<seq<Call<D>>>, sf: nat, si: nat, f: nat)
    requires Ordered(blocks, bufs, shm, record) && Conserved(blocks, bufs, shm, record, sf, si)
    requires NoTurns(shm) && f in shm && forall b :: 0 <= b < |bufs| ==> !bufs[b].stage.Queued?
    ensures shm[f].deferred == map[]
  {
    hide Conserved;
    OpenEntry(blocks, bufs, shm, record, f);
    forall i | i in shm[f].deferred
      ensures false
    {
      DeferredBehind(blocks, bufs, shm, record, sf, si, f, i);
    }
    assert forall i :: i in shm[f].deferred ==> false;
  }

  /** A deferred block has been read, and so have all blocks of its file before it. */
  lemma {:induction false} DeferredBehind<D>(blocks: seq<seq<D>>, bufs: seq<InputBuffer<D>>, shm: map<nat, Entry>,
                                             record: seq<seq<Call<D>>>, sf: nat, si: nat, f: nat, i: nat)
    requires Ordered(blocks, bufs, shm, record) && Conserved(blocks, bufs, shm, record, sf, si)
    requires f in shm && i in shm[f].deferred && forall b :: 0 <= b < |bufs| ==> !bufs[b].stage.Queued?
    ensures f < |record| && Arrived(shm, record, f, shm[f].next)
  {
    hide Calls;
    assert EntryFor(blocks, bufs, record, f, shm[f]);
    assert Arrived(shm, record, f, i);
    assert Before(f, i, sf, si);
    assert Before(f, shm[f].next, sf, si);
    assert !Waiting(bufs, f, shm[f].next);
  }

  /** Then an idle buffer is free. */
  lemma {:induction false} FreeBuffer<D>(blocks: seq<seq<D>>, bufs: seq<InputBuffer<D>>, shm: map<nat, Entry>,
                                         record: seq<seq<Call<D>>>, sf: nat, si: nat, b: nat)
    requires Consistent(blocks, bufs, shm, record) && Conserved(blocks, bufs, shm, record, sf, si)
    requires NoTurns(shm) && forall c :: 0 <= c < |bufs| ==> !bufs[c].stage.Queued?
    requires b < |bufs| && bufs[b].stage.Idle? && bufs[b].attempts == 0
    ensures bufs[b].refcount == 0
  {
    hide Calls, Conserved, Intact, Ordered;
    if Deferred(bufs, shm, b) {
      NothingDeferred(blocks, bufs, shm, record, sf, si, bufs[b].file);
      assert false;
    }
  }

  // ----- Steps -----

  /** Undo all attempts. */
  method UndoAttempts<D>(s: CreatePipelineState<D>)
    requires s.Valid()
    modifies s`inputbuffers
    ensures s.Valid() && |s.inputbuffers| == old(|s.inputbuffers|)
    ensures NoAttempts(s.inputbuffers, |s.inputbuffers|)
  {
    hide CreatePipelineState.Valid;
    for b := 0 to |s.inputbuffers|
      invariant s.Valid() && |s.inputbuffers| == old(|s.inputbuffers|) && NoAttempts(s.inputbuffers, b)
    {
      while s.inputbuffers[b].attempts > 0
        invariant s.Valid() && |s.inputbuffers| == old(|s.inputbuffers|) && NoAttempts(s.inputbuffers, b)
        decreases s.inputbuffers[b].attempts
      {
        s.BackOff(b);
      }
    }
  }

  lemma {:induction false} EntriesBelow<D>(s: CreatePipelineState<D>)
    requires s.Valid() && NoTurnsBelow(s.shm, |s.blocks|)
    ensures NoTurns(s.shm)
  {
    hide Calls, Conserved;
    forall f | f in s.shm
      ensures f < |s.blocks|
    {
      assert EntryFor(s.blocks, s.inputbuffers, s.record, f, s.shm[f]);
    }
  }

  lemma {:induction false} TurnsKept(shm: map<nat, Entry>, shm': map<nat, Entry>, f: nat)
    requires OthersKept(shm, shm', f) && NoTurnsBelow(shm, f)
    ensures NoTurnsBelow(shm', f)
  {
  }

  lemma {:induction false} SameEntries(shm: map<nat, Entry>, f: nat)
    ensures OthersKept(shm, shm, f)
  {
  }

  /** Let every thread at work on an entry do all it has to do. */
  method FlushAll<D>(s: CreatePipelineState<D>)
    requires s.Valid() && NoAttempts(s.inputbuffers, |s.inputbuffers|)
    modifies s`inputbuffers, s`inputbuffersidx, s`shm, s`record
    ensures s.Valid() && |s.inputbuffers| == old(|s.inputbuffers|)
    ensures NoAttempts(s.inputbuffers, |s.inputbuffers|) && NoTurns(s.shm)
  {
    hide CreatePipelineState.Valid, OthersKept, Turned, Arrived;
    for f := 0 to |s.blocks|
      invariant s.Valid() && |s.inputbuffers| == old(|s.inputbuffers|)
      invariant NoAttempts(s.inputbuffers, |s.inputbuffers|) && NoTurnsBelow(s.shm, f)
    {
      RecordFits(s, f);
      while f in s.shm && s.shm[f].turn.Turn?
        invariant s.Valid() && |s.inputbuffers| == old(|s.inputbuffers|)
        invariant NoAttempts(s.inputbuffers, |s.inputbuffers|) && NoTurnsBelow(s.shm, f)
        invariant f < |s.record| && |s.record[f]| <= |s.blocks[f]|
        decreases |s.blocks[f]| - |s.record[f]|
      {
        ghost var shm := s.shm;
        SameEntries(shm, f);
        TurnedOthers(shm, shm, f, |s.blocks[f]|);
        s.FlushTurn(f);
        TurnsKept(shm, s.shm, f);
      }
    }
    EntriesBelow(s);
  }

  lemma {:induction false} RecordFits<D>(s: CreatePipelineState<D>, f: nat)
    requires s.Valid() && f < |s.blocks|
    ensures f < |s.record| && |s.record[f]| <= |s.blocks[f]|
  {
    hide Calls, Conserved;
  }

  /** Let the pipeline do everything there is to do for buffer b, up to releasing it; a buffer that is being read into
      gets the next block, if there is one. */
  method FinishBuffer<D>(s: CreatePipelineState<D>, b: nat)
    requires s.Valid() && b < |s.inputbuffers| && NoTurns(s.shm)
    modifies s`inputbuffers, s`inputbuffersidx, s`shm, s`record, s`sourcefile, s`sourceindex
    ensures s.Valid() && |s.inputbuffers| == old(|s.inputbuffers|) && NoTurns(s.shm)
    ensures AtRest(s.inputbuffers[b], s.sourcefile == |s.blocks|)
    ensures s.inputbuffers[b].attempts == old(s.inputbuffers[b].attempts)
    ensures forall c :: 0 <= c < |s.inputbuffers| && c != b ==>
              s.inputbuffers[c] == old(s.inputbuffers[c]).(refcount := s.inputbuffers[c].refcount)
    ensures if old(s.inputbuffers[b].stage.Reading?) && old(s.sourcefile) < |s.blocks| then
              Further(old(s.sourcefile), old(s.sourceindex), s.sourcefile, s.sourceindex, s.blocks)
            else s.sourcefile == old(s.sourcefile) && s.sourceindex == old(s.sourceindex)
  {
    hide CreatePipelineState.Valid, ArrivedToo, Arrived, Deferred, Held;
    if s.inputbuffers[b].stage.Reading? {
      var ok := s.Read(b);
    }
    if s.inputbuffers[b].stage.Queued? {
      s.TryToUpdateHashes(b);
    }
    if s.inputbuffers[b].stage.Hashed? {
      s.Release(b);
    }
  }

  /** The reader has gone on by one block. */
  predicate Further<D>(sf: nat, si: nat, sf': nat, si': nat, blocks: seq<seq<D>>) {
    && sf < |blocks| && si < |blocks[sf]|
    && if si + 1 < |blocks[sf]| then sf' == sf && si' == si + 1 else sf' == sf + 1 && si' == 0
  }

  method FinishBuffers<D>(s: CreatePipelineState<D>)
    requires s.Valid() && NoTurns(s.shm) && NoAttempts(s.inputbuffers, |s.inputbuffers|)
    modifies s
    ensures s.Valid() && |s.inputbuffers| == old(|s.inputbuffers|) && NoTurns(s.shm)
    ensures NoAttempts(s.inputbuffers, |s.inputbuffers|)
    ensures AllAtRest(s.inputbuffers, |s.inputbuffers|, s.sourcefile == |s.blocks|)
  {
    hide CreatePipelineState.Valid, NoTurns;
    for b := 0 to |s.inputbuffers|
      invariant s.Valid() && |s.inputbuffers| == old(|s.inputbuffers|) && NoTurns(s.shm)
      invariant NoAttempts(s.inputbuffers, |s.inputbuffers|)
      invariant AllAtRest(s.inputbuffers, b, s.sourcefile == |s.blocks|)
    {
      FinishBuffer(s, b);
    }
  }

  lemma {:induction false} BufferFree<D>(s: CreatePipelineState<D>)
    requires s.Valid() && NoTurns(s.shm) && 0 < |s.inputbuffers| && s.sourcefile < |s.blocks|
    requires NoAttempts(s.inputbuffers, |s.inputbuffers|) && AllAtRest(s.inputbuffers, |s.inputbuffers|, false)
    ensures s.inputbuffers[0].refcount == 0 && s.sourceindex < |s.blocks[s.sourcefile]|
  {
    hide Consistent, Waiting, Arrived, NoTurns;
    FreeBuffer(s.blocks, s.inputbuffers, s.shm, s.record, s.sourcefile, s.sourceindex, 0);
  }

  /** When nothing is going on a buffer is free, and the next block goes through the pipeline in it. */
  method NextBlock<D>(s: CreatePipelineState<D>)
    requires s.Valid() && NoTurns(s.shm) && 0 < |s.inputbuffers| && s.sourcefile < |s.blocks|
    requires NoAttempts(s.inputbuffers, |s.inputbuffers|) && AllAtRest(s.inputbuffers, |s.inputbuffers|, false)
    modifies s
    ensures s.Valid() && NoTurns(s.shm) && |s.inputbuffers| == old(|s.inputbuffers|)
    ensures NoAttempts(s.inputbuffers, |s.inputbuffers|)
    ensures AllAtRest(s.inputbuffers, |s.inputbuffers|, s.sourcefile == |s.blocks|)
    ensures Further(old(s.sourcefile), old(s.sourceindex), s.sourcefile, s.sourceindex, s.blocks)
  {
    hide CreatePipelineState.Valid, NoTurns;
    BufferFree(s);
    var acquired := s.TryToAcquire(0);
    FinishBuffer(s, 0);
  }

  /** From any state the pipeline can come to its end: every block of every file has then been hashed, in order and
      once each. */
  method RunToEnd<D>(s: CreatePipelineState<D>)
    requires s.Valid() && 0 < |s.inputbuffers|
    modifies s
    ensures s.Valid() && s.sourcefile == |s.blocks| && s.shm == map[] && |s.record| == |s.blocks|
    ensures forall f :: 0 <= f < |s.blocks| ==> s.record[f] == Calls(s.blocks[f], |s.blocks[f]|)
  {
    hide CreatePipelineState.Valid, NoTurns, NoAttempts, AllAtRest;
    UndoAttempts(s);
    FlushAll(s);
    FinishBuffers(s);
    SourceFits(s);
    while s.sourcefile < |s.blocks|
      invariant s.Valid() && 0 < |s.inputbuffers| && NoTurns(s.shm) && s.sourcefile <= |s.blocks|
      invariant NoAttempts(s.inputbuffers, |s.inputbuffers|)
      invariant AllAtRest(s.inputbuffers, |s.inputbuffers|, s.sourcefile == |s.blocks|)
      decreases |s.blocks| - s.sourcefile,
                if s.sourcefile < |s.blocks| then |s.blocks[s.sourcefile]| - s.sourceindex else 0
    {
      NextBlock(s);
    }
    AtEnd(s);
    s.Complete();
  }

  lemma {:induction false} SourceFits<D>(s: CreatePipelineState<D>)
    requires s.Valid()
    ensures s.sourcefile <= |s.blocks|
  {
    hide Consistent, Arrived, Waiting;
  }

  lemma {:induction false} AtEnd<D>(s: CreatePipelineState<D>)
    requires NoTurns(s.shm) && AllAtRest(s.inputbuffers, |s.inputbuffers|, true)
    ensures forall b :: 0 <= b < |s.inputbuffers| ==> s.inputbuffers[b].stage != Queued
    ensures forall f :: f in s.shm ==> s.shm[f].turn == NoTurn
  {
  }
}
