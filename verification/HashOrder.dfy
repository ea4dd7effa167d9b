/** Deferred hashing in the create pipeline.  Blocks are read in order into reference-counted buffers,
    which reach the hashing stage in any order; a reorder buffer per source file passes them to
    UpdateHashes in block order.  Each method, except the loop TryToUpdateHashes, is one atomic step of some
    thread; the threads may take their steps in any order, except that only one thread at a time is at work on
    the entry of a file. */
module HashOrder {

  /** What the pipeline is doing with a buffer: nothing, reading into it, passing it on, or
      processing it after the hashing stage. */
  datatype Stage = Idle | Reading | Queued | Hashed

  /** `attempts` counts the threads that have found the buffer in use and not yet undone their
      increment of `refcount`. */
  datatype InputBuffer<D> = InputBuffer(refcount: int, attempts: nat, stage: Stage, file: nat, index: nat, data: D)

  /** What the thread that is at work on an entry is to do next, if there is one: hash the block in buffer ib,
      which is its own, or was deferred and is to be released then. */
  datatype Turn = NoTurn | Turn(ib: nat, deferred: bool)

  /** The next block of a file to hash, and the buffers that arrived too early. */
  datatype Entry = Entry(next: nat, deferred: map<nat, nat>, turn: Turn)

  /** A call of UpdateHashes. */
  datatype Call<D> = Call(index: nat, data: D)

  /** The calls for the first n blocks of a file. */
  function Calls<D>(blocks: seq<D>, n: nat): (r: seq<Call<D>>)
    requires n <= |blocks|
    ensures |r| == n
  {
    seq(n, i requires 0 <= i < n => Call(i, blocks[i]))
  }

  /** The reorder buffer refers to buffer b. */
  predicate Deferred<D>(bufs: seq<InputBuffer<D>>, shm: map<nat, Entry>, b: nat)
    requires b < |bufs|
  {
    var x := bufs[b];
    x.file in shm && x.index in shm[x.file].deferred && shm[x.file].deferred[x.index] == b
  }

  /** Buffer b has been taken out of the reorder buffer, to be hashed and released. */
  predicate Held<D>(bufs: seq<InputBuffer<D>>, shm: map<nat, Entry>, b: nat)
    requires b < |bufs|
  {
    bufs[b].file in shm && shm[bufs[b].file].turn == Turn(b, true)
  }

  /** Block i of file f has been given to the reorder buffer. */
  predicate Arrived<D>(shm: map<nat, Entry>, record: seq<seq<Call<D>>>, f: nat, i: nat)
    requires f < |record|
  {
    i < |record[f]| || (f in shm && (i in shm[f].deferred || (shm[f].turn.Turn? && i == shm[f].next)))
  }

  // ----- The invariant -----

  /** The reference count of a buffer is the number of attempts, plus one for the pipeline, plus one for
      the reorder buffer, plus one for being taken out of it. */
  ghost predicate Counted<D>(bufs: seq<InputBuffer<D>>, shm: map<nat, Entry>) {
    forall b :: 0 <= b < |bufs| ==>
      bufs[b].refcount == bufs[b].attempts + (if bufs[b].stage.Idle? then 0 else 1) +
                          (if Deferred(bufs, shm, b) then 1 else 0) + (if Held(bufs, shm, b) then 1 else 0)
  }

  ghost predicate Holds<D>(blocks: seq<seq<D>>, x: InputBuffer<D>) {
    x.file < |blocks| && x.index < |blocks[x.file]| && x.data == blocks[x.file][x.index]
  }

  /** Buffers that are still needed hold the data of their block, and are not being read into. */
  ghost predicate Intact<D>(blocks: seq<seq<D>>, bufs: seq<InputBuffer<D>>, shm: map<nat, Entry>) {
    forall b :: 0 <= b < |bufs| ==>
      && (bufs[b].stage.Queued? || bufs[b].stage.Hashed? || Deferred(bufs, shm, b) || Held(bufs, shm, b) ==>
            Holds(blocks, bufs[b]))
      && (bufs[b].stage.Reading? ==> !Deferred(bufs, shm, b) && !Held(bufs, shm, b))
  }

  ghost predicate EntryFor<D>(blocks: seq<seq<D>>, bufs: seq<InputBuffer<D>>, record: seq<seq<Call<D>>>, f: nat,
                              e: Entry) {
    && f < |blocks| == |record| && e.next == |record[f]| < |blocks[f]| && e.next !in e.deferred
    && (forall i :: i in e.deferred ==>
          && e.next < i < |blocks[f]| && e.deferred[i] < |bufs|
          && bufs[e.deferred[i]].file == f && bufs[e.deferred[i]].index == i)
    && (e.turn.Turn? ==>
          && e.turn.ib < |bufs| && bufs[e.turn.ib].file == f && bufs[e.turn.ib].index == e.next
          && (e.turn.deferred || bufs[e.turn.ib].stage.Hashed?))
  }

  /** UpdateHashes has been called for the blocks of each file in order, and a file has an entry only
      while it is neither untouched nor finished. */
  ghost predicate Ordered<D>(blocks: seq<seq<D>>, bufs: seq<InputBuffer<D>>, shm: map<nat, Entry>,
                             record: seq<seq<Call<D>>>) {
    && |record| == |blocks|
    && (forall f :: 0 <= f < |blocks| ==> |record[f]| <= |blocks[f]| && record[f] == Calls(blocks[f], |record[f]|))
    && (forall f :: f in shm ==> EntryFor(blocks, bufs, record, f, shm[f]))
    && (forall f :: 0 <= f < |blocks| && f !in shm ==> |record[f]| == 0 || |record[f]| == |blocks[f]|)
  }

  /** Block i of file f comes before the position (sf, si) of the reader. */
  predicate Before(f: nat, i: nat, sf: nat, si: nat) {
    f < sf || (f == sf && i < si)
  }

  ghost predicate Waiting<D>(bufs: seq<InputBuffer<D>>, f: nat, i: nat) {
    exists b :: 0 <= b < |bufs| && bufs[b].stage.Queued? && bufs[b].file == f && bufs[b].index == i
  }

  /** Every block read so far is waiting in one buffer or has arrived at the reorder buffer, not both. */
  ghost predicate Conserved<D>(blocks: seq<seq<D>>, bufs: seq<InputBuffer<D>>, shm: map<nat, Entry>,
                               record: seq<seq<Call<D>>>, sf: nat, si: nat) {
    && |record| == |blocks| && sf <= |blocks| && (sf < |blocks| ==> si < |blocks[sf]|) && (sf == |blocks| ==> si == 0)
    && (forall f, i :: 0 <= f < |blocks| && 0 <= i < |blocks[f]| ==>
          (Before(f, i, sf, si) <==> Arrived(shm, record, f, i) || Waiting(bufs, f, i)))
    && (forall b :: 0 <= b < |bufs| && bufs[b].stage.Queued? && bufs[b].file < |blocks| ==>
          !Arrived(shm, record, bufs[b].file, bufs[b].index))
    && (forall b, c :: 0 <= b < c < |bufs| && bufs[b].stage.Queued? && bufs[c].stage.Queued? ==>
          bufs[b].file != bufs[c].file || bufs[b].index != bufs[c].index)
  }

  /** Deferral depends only on which blocks the buffers are for. */
  lemma {:induction false} SameBlocks<D>(bufs: seq<InputBuffer<D>>, bufs': seq<InputBuffer<D>>, shm: map<nat, Entry>,
                                         b: nat)
    requires b < |bufs| == |bufs'| && bufs' == bufs[b := bufs'[b]]
    requires bufs'[b].file == bufs[b].file && bufs'[b].index == bufs[b].index
    requires bufs[b].stage.Queued? == bufs'[b].stage.Queued?
    ensures forall c :: 0 <= c < |bufs| ==> (Deferred(bufs', shm, c) <==> Deferred(bufs, shm, c))
    ensures forall c :: 0 <= c < |bufs| ==> (Held(bufs', shm, c) <==> Held(bufs, shm, c))
    ensures forall f, i :: Waiting(bufs', f, i) <==> Waiting(bufs, f, i)
  {
    forall f, i | Waiting(bufs, f, i)
      ensures Waiting(bufs', f, i)
    {
      var c :| 0 <= c < |bufs| && bufs[c].stage.Queued? && bufs[c].file == f && bufs[c].index == i;
      assert bufs'[c].stage.Queued? && bufs'[c].file == f && bufs'[c].index == i;
    }
    forall f, i | Waiting(bufs', f, i)
      ensures Waiting(bufs, f, i)
    {
      var c :| 0 <= c < |bufs| && bufs'[c].stage.Queued? && bufs'[c].file == f && bufs'[c].index == i;
      assert bufs[c].stage.Queued? && bufs[c].file == f && bufs[c].index == i;
    }
  }

  ghost predicate Consistent<D>(blocks: seq<seq<D>>, bufs: seq<InputBuffer<D>>, shm: map<nat, Entry>,
                                record: seq<seq<Call<D>>>) {
    Counted(bufs, shm) && Intact(blocks, bufs, shm) && Ordered(blocks, bufs, shm, record)
  }

  /** The thread of buffer b is at work on the entry of its file, and has not yet hashed its own block. */
  predicate OwnTurn<D>(bufs: seq<InputBuffer<D>>, shm: map<nat, Entry>, b: nat)
    requires b < |bufs|
  {
    bufs[b].file in shm && shm[bufs[b].file].turn == Turn(b, false)
  }

  /** Counting, and stages that are not about to be hashed, change nothing else. */
  lemma {:induction false} Recount<D>(blocks: seq<seq<D>>, bufs: seq<InputBuffer<D>>, bufs': seq<InputBuffer<D>>,
                                      shm: map<nat, Entry>, record: seq<seq<Call<D>>>, sf: nat, si: nat, b: nat)
    requires b < |bufs| == |bufs'| && bufs' == bufs[b := bufs'[b]]
    requires Consistent(blocks, bufs, shm, record) && Conserved(blocks, bufs, shm, record, sf, si)
    requires bufs'[b].file == bufs[b].file && bufs'[b].index == bufs[b].index && bufs'[b].data == bufs[b].data
    requires bufs'[b].stage == bufs[b].stage ||
             (bufs[b].stage.Hashed? && bufs'[b].stage.Idle? && !OwnTurn(bufs, shm, b)) ||
             (bufs[b].stage.Idle? && bufs'[b].stage.Reading? && bufs[b].refcount == 0)
    requires bufs'[b].refcount - bufs'[b].attempts - (if bufs'[b].stage.Idle? then 0 else 1) ==
             bufs[b].refcount - bufs[b].attempts - (if bufs[b].stage.Idle? then 0 else 1)
    ensures Consistent(blocks, bufs', shm, record)
    ensures Conserved(blocks, bufs', shm, record, sf, si)
  {
    SameBlocks(bufs, bufs', shm, b);
    hide Deferred, Held, Holds, Ordered, Conserved, Waiting;
    SameOrder(blocks, bufs, bufs', shm, record, b);
    SameWaiting(blocks, bufs, bufs', shm, record, sf, si, b);
  }

  lemma {:induction false} SameOrder<D>(blocks: seq<seq<D>>, bufs: seq<InputBuffer<D>>, bufs': seq<InputBuffer<D>>,
                                        shm: map<nat, Entry>, record: seq<seq<Call<D>>>, b: nat)
    requires b < |bufs| == |bufs'| && bufs' == bufs[b := bufs'[b]] && Ordered(blocks, bufs, shm, record)
    requires bufs'[b].file == bufs[b].file && bufs'[b].index == bufs[b].index
    requires bufs'[b].stage == bufs[b].stage || !bufs[b].stage.Hashed? || !OwnTurn(bufs, shm, b)
    ensures Ordered(blocks, bufs', shm, record)
  {
    hide Calls;
  }

  lemma {:induction false} SameWaiting<D>(blocks: seq<seq<D>>, bufs: seq<InputBuffer<D>>, bufs': seq<InputBuffer<D>>,
                                          shm: map<nat, Entry>, record: seq<seq<Call<D>>>, sf: nat, si: nat, b: nat)
    requires b < |bufs| == |bufs'| && bufs' == bufs[b := bufs'[b]] && Conserved(blocks, bufs, shm, record, sf, si)
    requires bufs'[b].file == bufs[b].file && bufs'[b].index == bufs[b].index
    requires bufs[b].stage.Queued? == bufs'[b].stage.Queued?
    ensures Conserved(blocks, bufs', shm, record, sf, si)
  {
    SameBlocks(bufs, bufs', shm, b);
    hide Waiting, Arrived;
  }

  // ----- The reorder buffer -----

  /** The record after hashing buffer x. */
  function Recorded<D>(record: seq<seq<Call<D>>>, x: InputBuffer<D>): seq<seq<Call<D>>>
    requires x.file < |record|
  {
    record[x.file := record[x.file] + [Call(x.index, x.data)]]
  }

  /** The buffers after a turn: one that had been deferred is released. */
  function Released<D>(bufs: seq<InputBuffer<D>>, turn: Turn): (r: seq<InputBuffer<D>>)
    requires turn.Turn? ==> turn.ib < |bufs|
    ensures |r| == |bufs|
    ensures forall c :: 0 <= c < |bufs| ==> r[c] == bufs[c].(refcount := r[c].refcount)
    ensures forall c :: 0 <= c < |bufs| ==> r[c].refcount == bufs[c].refcount - if turn == Turn(c, true) then 1 else 0
  {
    if turn.Turn? && turn.deferred then bufs[turn.ib := bufs[turn.ib].(refcount := bufs[turn.ib].refcount - 1)]
    else bufs
  }

  /** The entries after a turn for file f: the file is finished, or the next block had been deferred and is
      taken out, or has still to arrive. */
  function Turned(shm: map<nat, Entry>, f: nat, blockcount: nat): map<nat, Entry>
    requires f in shm
  {
    var e, next := shm[f], shm[f].next + 1;
    if next == blockcount then shm - {f}
    else if next in e.deferred then shm[f := Entry(next, e.deferred - {next}, Turn(e.deferred[next], true))]
    else shm[f := Entry(next, e.deferred, NoTurn)]
  }

  lemma {:induction false} RecordedOrder<D>(blocks: seq<seq<D>>, record: seq<seq<Call<D>>>, x: InputBuffer<D>)
    requires |record| == |blocks| && Holds(blocks, x)
    requires forall f :: 0 <= f < |blocks| ==> |record[f]| <= |blocks[f]| && record[f] == Calls(blocks[f], |record[f]|)
    requires x.index == |record[x.file]|
    ensures forall f :: 0 <= f < |blocks| ==>
              |Recorded(record, x)[f]| <= |blocks[f]| &&
                Recorded(record, x)[f] == Calls(blocks[f], |Recorded(record, x)[f]|)
  {
  }

  /** What a turn finds: the buffer holds the next block. */
  lemma {:induction false} TurnFacts<D>(blocks: seq<seq<D>>, bufs: seq<InputBuffer<D>>, shm: map<nat, Entry>,
                                        record: seq<seq<Call<D>>>, f: nat)
    requires Consistent(blocks, bufs, shm, record) && f in shm && shm[f].turn.Turn?
    ensures f < |blocks| == |record| && shm[f].next == |record[f]| < |blocks[f]|
    ensures var ib := shm[f].turn.ib;
            && ib < |bufs| && bufs[ib].file == f && bufs[ib].index == shm[f].next && Holds(blocks, bufs[ib])
            && (shm[f].turn.deferred ==> Held(bufs, shm, ib))
  {
    hide Calls;
    assert EntryFor(blocks, bufs, record, f, shm[f]);
  }

  /** When the last block of a file is hashed nothing is deferred. */
  lemma {:induction false} LastTurn<D>(blocks: seq<seq<D>>, bufs: seq<InputBuffer<D>>, shm: map<nat, Entry>,
                                       record: seq<seq<Call<D>>>, f: nat)
    requires Consistent(blocks, bufs, shm, record) && f in shm && f < |blocks| && shm[f].next + 1 == |blocks[f]|
    ensures shm[f].deferred == map[]
  {
    hide Calls;
    assert EntryFor(blocks, bufs, record, f, shm[f]);
    assert forall i :: i in shm[f].deferred ==> false;
  }

  /** A turn keeps the state consistent. */
  lemma {:induction false} TurnKeeps<D>(blocks: seq<seq<D>>, bufs: seq<InputBuffer<D>>, shm: map<nat, Entry>,
                                        record: seq<seq<Call<D>>>, f: nat)
    requires Consistent(blocks, bufs, shm, record) && f in shm && shm[f].turn.Turn?
    ensures f < |blocks| == |record| && shm[f].turn.ib < |bufs| && bufs[shm[f].turn.ib].file == f
    ensures Consistent(blocks, Released(bufs, shm[f].turn), Turned(shm, f, |blocks[f]|),
                       Recorded(record, bufs[shm[f].turn.ib]))
  {
    TurnFacts(blocks, bufs, shm, record, f);
    TurnCounts(blocks, bufs, shm, record, f);
    TurnOrders(blocks, bufs, shm, record, f);
    hide *;
    var bufs', shm', record' := Released(bufs, shm[f].turn), Turned(shm, f, |blocks[f]|),
                                Recorded(record, bufs[shm[f].turn.ib]);
    assert Consistent(blocks, bufs', shm', record') by {
      ConsistentIf(blocks, bufs', shm', record');
    }
  }

  lemma {:induction false} ConsistentIf<D>(blocks: seq<seq<D>>, bufs: seq<InputBuffer<D>>, shm: map<nat, Entry>,
                                           record: seq<seq<Call<D>>>)
    requires Counted(bufs, shm) && Intact(blocks, bufs, shm) && Ordered(blocks, bufs, shm, record)
    ensures Consistent(blocks, bufs, shm, record)
  {
  }

  /** Which buffers the reorder buffer refers to after a turn. */
  lemma {:induction false} TurnRefers<D>(blocks: seq<seq<D>>, bufs: seq<InputBuffer<D>>, shm: map<nat, Entry>,
                                         record: seq<seq<Call<D>>>, f: nat, c: nat)
    requires Consistent(blocks, bufs, shm, record) && f in shm && shm[f].turn.Turn? && c < |bufs|
    ensures f < |blocks| && shm[f].turn.ib < |bufs|
    ensures var bufs', shm' := Released(bufs, shm[f].turn), Turned(shm, f, |blocks[f]|);
            var next := shm[f].next + 1;
            var taken := next != |blocks[f]| && next in shm[f].deferred && shm[f].deferred[next] == c;
            && (Deferred(bufs', shm', c) <==> Deferred(bufs, shm, c) && !taken)
            && (Held(bufs', shm', c) <==> (Held(bufs, shm, c) && shm[f].turn != Turn(c, true)) || taken)
            && (taken ==> Deferred(bufs, shm, c) && !Held(bufs, shm, c))
  {
    hide Calls;
    TurnFacts(blocks, bufs, shm, record, f);
    assert EntryFor(blocks, bufs, record, f, shm[f]);
    if shm[f].next + 1 == |blocks[f]| {
      LastTurn(blocks, bufs, shm, record, f);
    }
    hide Holds, Counted, Intact;
  }

  lemma {:induction false} TurnCounts<D>(blocks: seq<seq<D>>, bufs: seq<InputBuffer<D>>, shm: map<nat, Entry>,
                                         record: seq<seq<Call<D>>>, f: nat)
    requires Consistent(blocks, bufs, shm, record) && f in shm && shm[f].turn.Turn?
    ensures f < |blocks| && shm[f].turn.ib < |bufs|
    ensures Counted(Released(bufs, shm[f].turn), Turned(shm, f, |blocks[f]|))
    ensures Intact(blocks, Released(bufs, shm[f].turn), Turned(shm, f, |blocks[f]|))
  {
    hide Ordered, Deferred, Held, Turned, Released;
    TurnFacts(blocks, bufs, shm, record, f);
    var bufs', shm' := Released(bufs, shm[f].turn), Turned(shm, f, |blocks[f]|);
    forall c | 0 <= c < |bufs'|
      ensures bufs'[c].refcount == bufs'[c].attempts + (if bufs'[c].stage.Idle? then 0 else 1) +
                                   (if Deferred(bufs', shm', c) then 1 else 0) + (if Held(bufs', shm', c) then 1 else 0)
      ensures bufs'[c].stage.Queued? || bufs'[c].stage.Hashed? || Deferred(bufs', shm', c) || Held(bufs', shm', c) ==>
                Holds(blocks, bufs'[c])
      ensures bufs'[c].stage.Reading? ==> !Deferred(bufs', shm', c) && !Held(bufs', shm', c)
    {
      TurnRefers(blocks, bufs, shm, record, f, c);
    }
  }

  lemma {:induction false} TurnOrders<D>(blocks: seq<seq<D>>, bufs: seq<InputBuffer<D>>, shm: map<nat, Entry>,
                                         record: seq<seq<Call<D>>>, f: nat)
    requires Consistent(blocks, bufs, shm, record) && f in shm && shm[f].turn.Turn?
    ensures f < |blocks| == |record| && shm[f].turn.ib < |bufs| && bufs[shm[f].turn.ib].file == f
    ensures Ordered(blocks, Released(bufs, shm[f].turn), Turned(shm, f, |blocks[f]|),
                    Recorded(record, bufs[shm[f].turn.ib]))
  {
    TurnFacts(blocks, bufs, shm, record, f);
    var x := bufs[shm[f].turn.ib];
    RecordedOrder(blocks, record, x);
    var shm', record' := Turned(shm, f, |blocks[f]|), Recorded(record, x);
    forall g | g in shm'
      ensures EntryFor(blocks, Released(bufs, shm[f].turn), record', g, shm'[g])
    {
      TurnEntry(blocks, bufs, shm, record, f, g);
    }
    hide Calls, Holds, Counted, Intact, Released, EntryFor;
  }

  /** The entry of a file after a turn for file f. */
  lemma {:induction false} TurnEntry<D>(blocks: seq<seq<D>>, bufs: seq<InputBuffer<D>>, shm: map<nat, Entry>,
                                        record: seq<seq<Call<D>>>, f: nat, g: nat)
    requires Consistent(blocks, bufs, shm, record) && f in shm && shm[f].turn.Turn?
    ensures f < |blocks| == |record| && shm[f].turn.ib < |bufs| && bufs[shm[f].turn.ib].file == f
    ensures var shm' := Turned(shm, f, |blocks[f]|);
            g in shm' ==>
              EntryFor(blocks, Released(bufs, shm[f].turn), Recorded(record, bufs[shm[f].turn.ib]), g, shm'[g])
  {
    hide Calls, Holds, Counted, Intact, EntryFor;
    TurnFacts(blocks, bufs, shm, record, f);
    var bufs', shm' := Released(bufs, shm[f].turn), Turned(shm, f, |blocks[f]|);
    var record' := Recorded(record, bufs[shm[f].turn.ib]);
    if g in shm' {
      EntryFile(blocks, bufs, record, g, shm[g]);
      if g == f {
        EntryTurned(blocks, bufs, bufs', record, record', f, shm[f], shm'[f]);
      } else {
        EntryKept(blocks, bufs, bufs', record, record', g, shm[g]);
      }
    }
  }

  lemma {:induction false} EntryFile<D>(blocks: seq<seq<D>>, bufs: seq<InputBuffer<D>>, record: seq<seq<Call<D>>>,
                                        f: nat, e: Entry)
    requires EntryFor(blocks, bufs, record, f, e)
    ensures f < |blocks| == |record|
  {
  }

  lemma {:induction false} EntryKept<D>(blocks: seq<seq<D>>, bufs: seq<InputBuffer<D>>, bufs': seq<InputBuffer<D>>,
                                        record: seq<seq<Call<D>>>, record': seq<seq<Call<D>>>, f: nat, e: Entry)
    requires EntryFor(blocks, bufs, record, f, e) && Alike(bufs, bufs')
    requires |record'| == |record| && f < |record| && record'[f] == record[f]
    ensures EntryFor(blocks, bufs', record', f, e)
  {
  }

  lemma {:induction false} EntryTurned<D>(blocks: seq<seq<D>>, bufs: seq<InputBuffer<D>>, bufs': seq<InputBuffer<D>>,
                                          record: seq<seq<Call<D>>>, record': seq<seq<Call<D>>>, f: nat, e: Entry,
                                          e': Entry)
    requires EntryFor(blocks, bufs, record, f, e) && Alike(bufs, bufs') && f < |blocks| && e.next + 1 != |blocks[f]|
    requires |record'| == |record| && f < |record| && |record'[f]| == |record[f]| + 1
    requires e' == (if e.next + 1 in e.deferred then
                      Entry(e.next + 1, e.deferred - {e.next + 1}, Turn(e.deferred[e.next + 1], true))
                    else Entry(e.next + 1, e.deferred, NoTurn))
    ensures EntryFor(blocks, bufs', record', f, e')
  {
  }

  /** A turn changes nothing about which blocks have arrived. */
  lemma {:induction false} TurnArrives<D>(blocks: seq<seq<D>>, bufs: seq<InputBuffer<D>>, shm: map<nat, Entry>,
                                          record: seq<seq<Call<D>>>, f: nat, g: nat, i: nat)
    requires Consistent(blocks, bufs, shm, record) && f in shm && shm[f].turn.Turn? && g < |record|
    ensures f < |blocks| && shm[f].turn.ib < |bufs| && bufs[shm[f].turn.ib].file == f < |record|
    ensures Arrived(Turned(shm, f, |blocks[f]|), Recorded(record, bufs[shm[f].turn.ib]), g, i) <==>
              Arrived(shm, record, g, i)
  {
    TurnFacts(blocks, bufs, shm, record, f);
    if shm[f].next + 1 == |blocks[f]| {
      LastTurn(blocks, bufs, shm, record, f);
    }
    hide Consistent;
  }

  /** Nor about which are waiting. */
  lemma {:induction false} AlikeConserved<D>(blocks: seq<seq<D>>, bufs: seq<InputBuffer<D>>, bufs': seq<InputBuffer<D>>,
                                             shm: map<nat, Entry>, shm': map<nat, Entry>, record: seq<seq<Call<D>>>,
                                             record': seq<seq<Call<D>>>, sf: nat, si: nat)
    requires Conserved(blocks, bufs, shm, record, sf, si) && Alike(bufs, bufs') && |record'| == |record|
    requires forall g, i :: 0 <= g < |record| && 0 <= i ==>
               (Arrived(shm', record', g, i) <==> Arrived(shm, record, g, i))
    ensures Conserved(blocks, bufs', shm', record', sf, si)
  {
    hide Arrived;
    forall f, i
      ensures Waiting(bufs, f, i) <==> Waiting(bufs', f, i)
    {
      if Waiting(bufs, f, i) {
        var c :| 0 <= c < |bufs| && bufs[c].stage.Queued? && bufs[c].file == f && bufs[c].index == i;
        assert bufs'[c].stage.Queued? && bufs'[c].file == f && bufs'[c].index == i;
      }
      if Waiting(bufs', f, i) {
        var c :| 0 <= c < |bufs| && bufs'[c].stage.Queued? && bufs'[c].file == f && bufs'[c].index == i;
        assert bufs[c].stage.Queued? && bufs[c].file == f && bufs[c].index == i;
      }
    }
    hide Waiting;
  }

  /** Buffer b is put into the reorder buffer, with a reference of its own. */
  lemma {:induction false} PutIn<D>(blocks: seq<seq<D>>, bufs: seq<InputBuffer<D>>, bufs': seq<InputBuffer<D>>,
                                    shm: map<nat, Entry>, shm': map<nat, Entry>, record: seq<seq<Call<D>>>, b: nat)
    requires Consistent(blocks, bufs, shm, record) && b < |bufs|
    requires bufs[b].file in shm && Holds(blocks, bufs[b]) && bufs[b].stage.Hashed?
    requires shm[bufs[b].file].next < bufs[b].index && bufs[b].index !in shm[bufs[b].file].deferred
    requires shm[bufs[b].file].turn == NoTurn
    requires bufs' == bufs[b := bufs[b].(refcount := bufs[b].refcount + 1)]
    requires var x := bufs[b]; var e := shm[x.file]; shm' == shm[x.file := e.(deferred := e.deferred[x.index := b])]
    ensures Consistent(blocks, bufs', shm', record)
  {
    hide Ordered;
    forall c | 0 <= c < |bufs|
      ensures Deferred(bufs', shm', c) <==> Deferred(bufs, shm, c) || c == b
      ensures Held(bufs', shm', c) <==> Held(bufs, shm, c)
    {
    }
    assert !Deferred(bufs, shm, b);
    PutInOrder(blocks, bufs, bufs', shm, shm', record, b);
    hide Deferred, Held, Holds;
  }

  lemma {:induction false} PutInOrder<D>(blocks: seq<seq<D>>, bufs: seq<InputBuffer<D>>, bufs': seq<InputBuffer<D>>,
                                         shm: map<nat, Entry>, shm': map<nat, Entry>, record: seq<seq<Call<D>>>, b: nat)
    requires Ordered(blocks, bufs, shm, record) && b < |bufs|
    requires bufs[b].file in shm && Holds(blocks, bufs[b]) && shm[bufs[b].file].next < bufs[b].index
    requires bufs' == bufs[b := bufs[b].(refcount := bufs[b].refcount + 1)]
    requires var x := bufs[b]; var e := shm[x.file]; shm' == shm[x.file := e.(deferred := e.deferred[x.index := b])]
    ensures Ordered(blocks, bufs', shm', record)
  {
    hide Calls;
  }

  /** The thread of buffer b, whose block is the next one, starts to work on the entry. */
  lemma {:induction false} StartTurn<D>(blocks: seq<seq<D>>, bufs: seq<InputBuffer<D>>, shm: map<nat, Entry>,
                                        shm': map<nat, Entry>, record: seq<seq<Call<D>>>, b: nat)
    requires Consistent(blocks, bufs, shm, record) && b < |bufs|
    requires bufs[b].file in shm && shm[bufs[b].file].turn == NoTurn && bufs[b].stage.Hashed?
    requires shm[bufs[b].file].next == bufs[b].index
    requires shm' == shm[bufs[b].file := shm[bufs[b].file].(turn := Turn(b, false))]
    ensures Consistent(blocks, bufs, shm', record)
  {
    hide Calls;
    forall c | 0 <= c < |bufs|
      ensures Deferred(bufs, shm', c) <==> Deferred(bufs, shm, c)
      ensures Held(bufs, shm', c) <==> Held(bufs, shm, c)
    {
    }
    hide Deferred, Held, Holds;
  }

  lemma {:induction false} PutInArrives<D>(blocks: seq<seq<D>>, shm0: map<nat, Entry>, shm: map<nat, Entry>,
                                           shm': map<nat, Entry>, record: seq<seq<Call<D>>>, x: InputBuffer<D>, b: nat)
    requires |record| == |blocks| && x.file in shm
    requires forall g, i :: 0 <= g < |record| ==> (Arrived(shm, record, g, i) <==> Arrived(shm0, record, g, i))
    requires shm[x.file].turn == NoTurn
    requires var e := shm[x.file];
             shm' == shm[x.file := if e.next == x.index then e.(turn := Turn(b, false))
                                   else e.(deferred := e.deferred[x.index := b])]
    ensures ArrivedToo(shm0, record, shm', record, blocks, x.file, x.index)
  {
  }

  /** A block that has not arrived is the next one, or one to be deferred. */
  lemma {:induction false} NotYet<D>(blocks: seq<seq<D>>, bufs: seq<InputBuffer<D>>, shm: map<nat, Entry>,
                                     record: seq<seq<Call<D>>>, x: InputBuffer<D>)
    requires Consistent(blocks, bufs, shm, record) && x.file in shm && Holds(blocks, x)
    requires x.file < |record| && !Arrived(shm, record, x.file, x.index)
    ensures |record| == |blocks| && shm[x.file].next <= x.index && x.index !in shm[x.file].deferred
  {
    hide Calls;
    assert EntryFor(blocks, bufs, record, x.file, shm[x.file]);
  }

  /** A file without an entry gets an empty one. */
  lemma {:induction false} EmptyEntry<D>(blocks: seq<seq<D>>, bufs: seq<InputBuffer<D>>, shm: map<nat, Entry>,
                                         record: seq<seq<Call<D>>>, f: nat)
    requires Consistent(blocks, bufs, shm, record) && f !in shm && f < |blocks|
    requires |record[f]| < |blocks[f]|
    ensures Consistent(blocks, bufs, shm[f := Entry(0, map[], NoTurn)], record)
    ensures forall g, i :: 0 <= g < |record| ==>
              (Arrived(shm[f := Entry(0, map[], NoTurn)], record, g, i) <==> Arrived(shm, record, g, i))
  {
    hide Calls;
    forall c | 0 <= c < |bufs|
      ensures Deferred(bufs, shm[f := Entry(0, map[], NoTurn)], c) <==> Deferred(bufs, shm, c)
      ensures Held(bufs, shm[f := Entry(0, map[], NoTurn)], c) <==> Held(bufs, shm, c)
    {
    }
    hide Deferred, Held, Holds;
  }

  /** A queued buffer goes on to be hashed. */
  lemma {:induction false} Dequeued<D>(blocks: seq<seq<D>>, bufs: seq<InputBuffer<D>>, bufs': seq<InputBuffer<D>>,
                                       shm: map<nat, Entry>, record: seq<seq<Call<D>>>, b: nat)
    requires Consistent(blocks, bufs, shm, record) && b < |bufs| && bufs[b].stage.Queued?
    requires bufs' == bufs[b := bufs[b].(stage := Hashed)]
    ensures Consistent(blocks, bufs', shm, record)
  {
    hide Calls;
    forall c | 0 <= c < |bufs|
      ensures Deferred(bufs', shm, c) <==> Deferred(bufs, shm, c)
      ensures Held(bufs', shm, c) <==> Held(bufs, shm, c)
    {
    }
    hide Deferred, Held, Holds;
  }

  /** What a queued buffer is: one that holds a block which has not arrived yet. */
  lemma {:induction false} QueuedFacts<D>(blocks: seq<seq<D>>, bufs: seq<InputBuffer<D>>, shm: map<nat, Entry>,
                                          record: seq<seq<Call<D>>>, sf: nat, si: nat, b: nat)
    requires Consistent(blocks, bufs, shm, record) && Conserved(blocks, bufs, shm, record, sf, si)
    requires b < |bufs| && bufs[b].stage.Queued?
    ensures var x := bufs[b];
            && Holds(blocks, x) && x.file < |blocks| == |record| && !Arrived(shm, record, x.file, x.index)
            && |record[x.file]| <= |blocks[x.file]|
            && (x.file !in shm ==> |record[x.file]| < |blocks[x.file]|)
    ensures forall c :: 0 <= c < |bufs| && bufs[c].stage.Queued? ==> Holds(blocks, bufs[c])
  {
    hide Calls, Waiting;
  }

  /** The buffers differ in their counts only. */
  ghost predicate Alike<D>(bufs: seq<InputBuffer<D>>, bufs': seq<InputBuffer<D>>) {
    |bufs'| == |bufs| && forall c :: 0 <= c < |bufs| ==> bufs'[c] == bufs[c].(refcount := bufs'[c].refcount)
  }

  lemma {:induction false} AlikeFile<D>(bufs: seq<InputBuffer<D>>, bufs': seq<InputBuffer<D>>, b: nat)
    requires Alike(bufs, bufs') && b < |bufs|
    ensures |bufs'| == |bufs| && bufs'[b].file == bufs[b].file
  {
  }

  /** The entries of other files are as before. */
  ghost predicate OthersKept(shm: map<nat, Entry>, shm': map<nat, Entry>, f: nat) {
    forall g :: g != f ==> (g in shm' <==> g in shm) && (g in shm ==> shm'[g] == shm[g])
  }

  lemma {:induction false} OthersStillKept(shm: map<nat, Entry>, shm': map<nat, Entry>, f: nat, e: Entry)
    requires OthersKept(shm[f := e], shm', f) || OthersKept(shm, shm', f)
    ensures OthersKept(shm, shm', f)
  {
  }

  lemma {:induction false} TurnedOthers(shm: map<nat, Entry>, shm1: map<nat, Entry>, f: nat, blockcount: nat)
    requires OthersKept(shm, shm1, f) && f in shm1
    ensures OthersKept(shm, Turned(shm1, f, blockcount), f)
  {
  }

  /** Exactly block i of file f has arrived in addition. */
  ghost predicate ArrivedToo<D>(shm: map<nat, Entry>, record: seq<seq<Call<D>>>, shm': map<nat, Entry>,
                                record': seq<seq<Call<D>>>, blocks: seq<seq<D>>, f: nat, i: nat) {
    && |record| == |record'| == |blocks|
    && forall g, j :: 0 <= g < |blocks| && 0 <= j < |blocks[g]| ==>
         (Arrived(shm', record', g, j) <==> Arrived(shm, record, g, j) || (g == f && j == i))
  }

  /** All that is to be said of a turn. */
  lemma {:induction false} TurnDone<D>(blocks: seq<seq<D>>, bufs: seq<InputBuffer<D>>, shm: map<nat, Entry>,
                                       record: seq<seq<Call<D>>>, sf: nat, si: nat, f: nat)
    requires Consistent(blocks, bufs, shm, record) && Conserved(blocks, bufs, shm, record, sf, si)
    requires f in shm && shm[f].turn.Turn?
    ensures f < |blocks| == |record| && shm[f].next < |blocks[f]| && shm[f].turn.ib < |bufs|
    ensures bufs[shm[f].turn.ib].file == f
    ensures var bufs', shm' := Released(bufs, shm[f].turn), Turned(shm, f, |blocks[f]|);
            var record' := Recorded(record, bufs[shm[f].turn.ib]);
            && Consistent(blocks, bufs', shm', record') && Conserved(blocks, bufs', shm', record', sf, si)
            && Alike(bufs, bufs') && |record'| == |record|
            && |record'[f]| <= |blocks[f]|
            && record' == record[f := record[f] + [Call(shm[f].next, blocks[f][shm[f].next])]]
            && forall g, i :: 0 <= g < |record| && 0 <= i ==>
              (Arrived(shm', record', g, i) <==> Arrived(shm, record, g, i))
  {
    TurnFacts(blocks, bufs, shm, record, f);
    TurnKeeps(blocks, bufs, shm, record, f);
    var bufs', shm' := Released(bufs, shm[f].turn), Turned(shm, f, |blocks[f]|);
    var record' := Recorded(record, bufs[shm[f].turn.ib]);
    assert Alike(bufs, bufs');
    hide Consistent, Conserved, Arrived, Turned, Released, Alike;
    forall g, i | 0 <= g < |record| && 0 <= i
      ensures Arrived(shm', record', g, i) <==> Arrived(shm, record, g, i)
    {
      TurnArrives(blocks, bufs, shm, record, f, g, i);
    }
    AlikeConserved(blocks, bufs, bufs', shm, shm', record, record', sf, si);
  }

  /** What a turn does not change, seen from the arrival that started the thread. */
  lemma {:induction false} StillArrived<D>(shm: map<nat, Entry>, record: seq<seq<Call<D>>>, shm1: map<nat, Entry>,
                                           record1: seq<seq<Call<D>>>, shm2: map<nat, Entry>,
                                           record2: seq<seq<Call<D>>>, blocks: seq<seq<D>>, f: nat, i: nat)
    requires ArrivedToo(shm, record, shm1, record1, blocks, f, i) && |record2| == |record1|
    requires forall g, j :: 0 <= g < |blocks| && 0 <= j && g < |record1| ==>
                              (Arrived(shm2, record2, g, j) <==> Arrived(shm1, record1, g, j))
    ensures ArrivedToo(shm, record, shm2, record2, blocks, f, i)
  {
    hide Arrived;
  }

  lemma {:induction false} ArrivalConserves<D>(blocks: seq<seq<D>>, bufs: seq<InputBuffer<D>>,
                                               bufs': seq<InputBuffer<D>>, shm: map<nat, Entry>, shm': map<nat, Entry>,
                                               record: seq<seq<Call<D>>>, record': seq<seq<Call<D>>>, sf: nat, si: nat,
                                               b: nat)
    requires Conserved(blocks, bufs, shm, record, sf, si) && b < |bufs| && bufs[b].stage.Queued?
    requires Holds(blocks, bufs[b])
    requires forall c :: 0 <= c < |bufs| && bufs[c].stage.Queued? ==> Holds(blocks, bufs[c])
    requires Alike(bufs[b := bufs[b].(stage := Hashed)], bufs')
    requires ArrivedToo(shm, record, shm', record', blocks, bufs[b].file, bufs[b].index)
    ensures Conserved(blocks, bufs', shm', record', sf, si)
  {
    hide Arrived;
    var x := bufs[b];
    forall f, i | 0 <= f < |blocks| && 0 <= i < |blocks[f]|
      ensures Waiting(bufs, f, i) <==> Waiting(bufs', f, i) || (f == x.file && i == x.index)
    {
      if Waiting(bufs, f, i) {
        var c :| 0 <= c < |bufs| && bufs[c].stage.Queued? && bufs[c].file == f && bufs[c].index == i;
        assert c == b || (bufs'[c].stage.Queued? && bufs'[c].file == f && bufs'[c].index == i);
      }
      if Waiting(bufs', f, i) {
        var c :| 0 <= c < |bufs| && bufs'[c].stage.Queued? && bufs'[c].file == f && bufs'[c].index == i;
        assert bufs[c].stage.Queued? && bufs[c].file == f && bufs[c].index == i;
      }
    }
  }

  /** The next block is read into an acquired buffer. */
  lemma {:induction false} ReadConserves<D>(blocks: seq<seq<D>>, bufs: seq<InputBuffer<D>>, bufs': seq<InputBuffer<D>>,
                                            shm: map<nat, Entry>, record: seq<seq<Call<D>>>, sf: nat, si: nat, b: nat)
    requires Consistent(blocks, bufs, shm, record) && Conserved(blocks, bufs, shm, record, sf, si)
    requires forall f :: 0 <= f < |blocks| ==> |blocks[f]| > 0
    requires b < |bufs| && bufs[b].stage.Reading? && sf < |blocks|
    requires bufs' == bufs[b := bufs[b].(stage := Queued, file := sf, index := si, data := blocks[sf][si])]
    ensures Consistent(blocks, bufs', shm, record)
    ensures if si + 1 < |blocks[sf]| then Conserved(blocks, bufs', shm, record, sf, si + 1)
            else Conserved(blocks, bufs', shm, record, sf + 1, 0)
  {
    assert !Before(sf, si, sf, si);
    assert !Arrived(shm, record, sf, si) && !Waiting(bufs, sf, si);
    ReadConsistent(blocks, bufs, bufs', shm, record, sf, si, b);
    hide Consistent;
    ReadWaits(blocks, bufs, bufs', shm, record, sf, si, b);
  }

  lemma {:induction false} ReadWaits<D>(blocks: seq<seq<D>>, bufs: seq<InputBuffer<D>>, bufs': seq<InputBuffer<D>>,
                                        shm: map<nat, Entry>, record: seq<seq<Call<D>>>, sf: nat, si: nat, b: nat)
    requires Conserved(blocks, bufs, shm, record, sf, si) && !Waiting(bufs, sf, si)
    requires forall f :: 0 <= f < |blocks| ==> |blocks[f]| > 0
    requires b < |bufs| && bufs[b].stage.Reading? && sf < |blocks|
    requires sf < |record| && !Arrived(shm, record, sf, si)
    requires bufs' == bufs[b := bufs[b].(stage := Queued, file := sf, index := si, data := blocks[sf][si])]
    ensures if si + 1 < |blocks[sf]| then Conserved(blocks, bufs', shm, record, sf, si + 1)
            else Conserved(blocks, bufs', shm, record, sf + 1, 0)
  {
    forall f, i | 0 <= f < |blocks| && 0 <= i < |blocks[f]|
      ensures Waiting(bufs', f, i) <==> Waiting(bufs, f, i) || (f == sf && i == si)
    {
      if Waiting(bufs, f, i) {
        var c :| 0 <= c < |bufs| && bufs[c].stage.Queued? && bufs[c].file == f && bufs[c].index == i;
        assert bufs'[c].stage.Queued? && bufs'[c].file == f && bufs'[c].index == i;
      }
      if Waiting(bufs', f, i) {
        var c :| 0 <= c < |bufs| && bufs'[c].stage.Queued? && bufs'[c].file == f && bufs'[c].index == i;
        assert c == b || (bufs[c].stage.Queued? && bufs[c].file == f && bufs[c].index == i);
      }
      if f == sf && i == si {
        assert bufs'[b].stage.Queued? && bufs'[b].file == f && bufs'[b].index == i;
      }
    }
    forall c | 0 <= c < |bufs| && c != b && bufs[c].stage.Queued?
      ensures bufs[c].file != sf || bufs[c].index != si
    {
    }
    hide Arrived, Waiting;
  }

  lemma {:induction false} ReadConsistent<D>(blocks: seq<seq<D>>, bufs: seq<InputBuffer<D>>, bufs': seq<InputBuffer<D>>,
                                             shm: map<nat, Entry>, record: seq<seq<Call<D>>>, sf: nat, si: nat, b: nat)
    requires Consistent(blocks, bufs, shm, record) && b < |bufs| && bufs[b].stage.Reading?
    requires sf < |blocks| && si < |blocks[sf]| && sf < |record| && !Arrived(shm, record, sf, si)
    requires bufs' == bufs[b := bufs[b].(stage := Queued, file := sf, index := si, data := blocks[sf][si])]
    ensures Consistent(blocks, bufs', shm, record)
  {
    hide Calls;
    assert !Deferred(bufs, shm, b) && !Held(bufs, shm, b);
    forall c | 0 <= c < |bufs|
      ensures Deferred(bufs', shm, c) <==> Deferred(bufs, shm, c)
      ensures Held(bufs', shm, c) <==> Held(bufs, shm, c)
    {
    }
  }

  /** The next block of a file with an entry that no thread is at work on has not arrived. */
  lemma {:induction false} OpenEntry<D>(blocks: seq<seq<D>>, bufs: seq<InputBuffer<D>>, shm: map<nat, Entry>,
                                        record: seq<seq<Call<D>>>, f: nat)
    requires Ordered(blocks, bufs, shm, record) && f in shm && shm[f].turn == NoTurn
    ensures f < |blocks| == |record| && shm[f].next < |blocks[f]| && !Arrived(shm, record, f, shm[f].next)
  {
    hide Calls;
    assert EntryFor(blocks, bufs, record, f, shm[f]);
  }

  /** Once every block has been read and passed on, every file has been hashed completely and in order. */
  lemma {:induction false} AllHashed<D>(blocks: seq<seq<D>>, bufs: seq<InputBuffer<D>>, shm: map<nat, Entry>,
                                        record: seq<seq<Call<D>>>)
    requires Consistent(blocks, bufs, shm, record) && Conserved(blocks, bufs, shm, record, |blocks|, 0)
    requires forall f :: 0 <= f < |blocks| ==> |blocks[f]| > 0
    requires forall b :: 0 <= b < |bufs| ==> !bufs[b].stage.Queued?
    requires forall f :: f in shm ==> shm[f].turn == NoTurn
    ensures shm == map[]
    ensures forall f :: 0 <= f < |blocks| ==> record[f] == Calls(blocks[f], |blocks[f]|)
  {
    hide Calls;
    forall f, i | 0 <= f < |blocks| && 0 <= i < |blocks[f]|
      ensures Arrived(shm, record, f, i)
    {
      assert Before(f, i, |blocks|, 0);
    }
    forall f | f in shm
      ensures false
    {
      OpenEntry(blocks, bufs, shm, record, f);
      assert false;
    }
    assert shm == map[];
    forall f | 0 <= f < |blocks|
      ensures |record[f]| == |blocks[f]|
    {
      assert Arrived(shm, record, f, 0);
    }
  }

  class CreatePipelineState<D> {
    /** The blocks of every source file. */
    const blocks: seq<seq<D>>

    var inputbuffers: seq<InputBuffer<D>>
    var inputbuffersidx: nat
    var sourcefile: nat
    var sourceindex: nat
    var shm: map<nat, Entry>
    /** The calls of UpdateHashes so far, per file. */
    var record: seq<seq<Call<D>>>

    ghost predicate Valid()
      reads this
    {
      && (forall f :: 0 <= f < |blocks| ==> |blocks[f]| > 0)
      && Consistent(blocks, inputbuffers, shm, record)
      && Conserved(blocks, inputbuffers, shm, record, sourcefile, sourceindex)
    }

    constructor (blocks: seq<seq<D>>, maxTokens: nat, blank: D)
      requires forall f :: 0 <= f < |blocks| ==> |blocks[f]| > 0
      ensures Valid() && this.blocks == blocks && |inputbuffers| == maxTokens
      ensures sourcefile == sourceindex == 0 && shm == map[]
    {
      this.blocks := blocks;
      inputbuffers := seq(maxTokens, i => InputBuffer(0, 0, Idle, 0, 0, blank));
      inputbuffersidx, sourcefile, sourceindex := 0, 0, 0;
      shm := map[];
      record := seq(|blocks|, f => []);
    }

    /** The first half of try_to_acquire: increment the count; the buffer is acquired if it was free. */
    method TryToAcquire(b: nat) returns (acquired: bool)
      requires Valid() && b < |inputbuffers|
      modifies `inputbuffers
      ensures Valid() && |inputbuffers| == old(|inputbuffers|)
      ensures acquired <==> old(inputbuffers[b].refcount) == 0
      ensures acquired ==> old(inputbuffers[b].stage) == Idle && !old(Deferred(inputbuffers, shm, b)) &&
                             !old(Held(inputbuffers, shm, b))
      ensures var x := old(inputbuffers[b]);
              inputbuffers == old(inputbuffers)[b := if acquired then x.(refcount := x.refcount + 1, stage := Reading)
                                                     else x.(refcount := x.refcount + 1, attempts := x.attempts + 1)]
    {
      var x := inputbuffers[b];
      acquired := 1 == x.refcount + 1;
      if acquired {
        inputbuffers := inputbuffers[b := x.(refcount := x.refcount + 1, stage := Reading)];
      } else {
        inputbuffers := inputbuffers[b := x.(refcount := x.refcount + 1, attempts := x.attempts + 1)];
      }
      Recount(blocks, old(inputbuffers), inputbuffers, shm, record, sourcefile, sourceindex, b);
    }

    /** The second half of a failed try_to_acquire. */
    method BackOff(b: nat)
      requires Valid() && b < |inputbuffers| && inputbuffers[b].attempts > 0
      modifies `inputbuffers
      ensures Valid()
      ensures var x := old(inputbuffers[b]);
              inputbuffers == old(inputbuffers)[b := x.(refcount := x.refcount - 1, attempts := x.attempts - 1)]
    {
      var x := inputbuffers[b];
      inputbuffers := inputbuffers[b := x.(refcount := x.refcount - 1, attempts := x.attempts - 1)];
      Recount(blocks, old(inputbuffers), inputbuffers, shm, record, sourcefile, sourceindex, b);
    }

    /** The pipeline is done with a buffer. */
    method Release(b: nat)
      requires Valid() && b < |inputbuffers| && inputbuffers[b].stage == Hashed && !OwnTurn(inputbuffers, shm, b)
      modifies `inputbuffers, `inputbuffersidx
      ensures Valid()
      ensures var x := old(inputbuffers[b]);
              && inputbuffers == old(inputbuffers)[b := x.(refcount := x.refcount - 1, stage := Idle)]
              && inputbuffersidx == if x.refcount == 1 then b else old(inputbuffersidx)
    {
      var x := inputbuffers[b];
      assert x.refcount > 0;
      inputbuffers := inputbuffers[b := x.(refcount := x.refcount - 1, stage := Idle)];
      if inputbuffers[b].refcount == 0 {
        inputbuffersidx := b;
      }
      Recount(blocks, old(inputbuffers), inputbuffers, shm, record, sourcefile, sourceindex, b);
    }

    /** The serial reading stage: the next block goes into the acquired buffer.  At the end of the
        input the buffer is kept. */
    method Read(b: nat) returns (ok: bool)
      requires Valid() && b < |inputbuffers| && inputbuffers[b].stage == Reading
      modifies `inputbuffers, `sourcefile, `sourceindex
      ensures Valid() && |inputbuffers| == old(|inputbuffers|)
      ensures ok <==> old(sourcefile) < |blocks|
      ensures ok ==> && old(sourceindex) < |blocks[old(sourcefile)]|
                     && inputbuffers == old(inputbuffers)[b := old(inputbuffers[b]).(stage := Queued,
                        file := old(sourcefile), index := old(sourceindex),
                        data := blocks[old(sourcefile)][old(sourceindex)])]
                     && (if old(sourceindex) + 1 < |blocks[old(sourcefile)]| then
                           sourcefile == old(sourcefile) && sourceindex == old(sourceindex) + 1
                         else sourcefile == old(sourcefile) + 1 && sourceindex == 0)
      ensures !ok ==> inputbuffers == old(inputbuffers) && sourcefile == old(sourcefile) == |blocks|
      ensures !ok ==> sourceindex == old(sourceindex)
    {
      if sourcefile == |blocks| {
        return false;
      }
      ReadConserves(blocks, inputbuffers,
                    inputbuffers[b := inputbuffers[b].(stage := Queued, file := sourcefile, index := sourceindex,
                                                       data := blocks[sourcefile][sourceindex])],
                    shm, record, sourcefile, sourceindex, b);
      hide Consistent;
      inputbuffers := inputbuffers[b := inputbuffers[b].(stage := Queued, file := sourcefile, index := sourceindex,
                                                         data := blocks[sourcefile][sourceindex])];
      sourceindex := sourceindex + 1;
      if sourceindex >= |blocks[sourcefile]| {
        sourceindex := 0;
        sourcefile := sourcefile + 1;
      }
      return true;
    }

    /** A buffer reaches the hashing stage: its block is hashed next, or deferred. */
    method Arrive(b: nat)
      requires Valid() && b < |inputbuffers| && inputbuffers[b].stage == Queued
      requires inputbuffers[b].file in shm ==> shm[inputbuffers[b].file].turn == NoTurn
      modifies `inputbuffers, `shm
      ensures Valid() && |inputbuffers| == old(|inputbuffers|) && record == old(record)
      ensures Alike(old(inputbuffers)[b := old(inputbuffers[b]).(stage := Hashed)], inputbuffers)
      ensures inputbuffers[b].file < |blocks| == |record|
      ensures |record[inputbuffers[b].file]| <= |blocks[inputbuffers[b].file]|
      ensures ArrivedToo(old(shm), old(record), shm, record, blocks, old(inputbuffers[b].file),
                         old(inputbuffers[b].index))
      ensures OthersKept(old(shm), shm, old(inputbuffers[b].file))
    {
      ghost var bufs0, shm0 := inputbuffers, shm;
      var x := inputbuffers[b];
      QueuedFacts(blocks, inputbuffers, shm, record, sourcefile, sourceindex, b);
      Dequeued(blocks, inputbuffers, inputbuffers[b := x.(stage := Hashed)], shm, record, b);
      hide Consistent, Conserved, Arrived, ArrivedToo, OthersKept, Holds, Alike;
      inputbuffers := inputbuffers[b := x.(stage := Hashed)];
      if x.file !in shm {
        EmptyEntry(blocks, inputbuffers, shm, record, x.file);
        shm := shm[x.file := Entry(0, map[], NoTurn)];
      }
      Pass(b, shm0);
      OthersStillKept(shm0, shm, x.file, Entry(0, map[], NoTurn));
      AlikeFile(bufs0[b := x.(stage := Hashed)], inputbuffers, b);
      ArrivalConserves(blocks, bufs0, inputbuffers, shm0, shm, record, record, sourcefile, sourceindex, b);
    }

    /** Start to hash the block, or defer it. */
    method Pass(b: nat, ghost shm0: map<nat, Entry>)
      requires Consistent(blocks, inputbuffers, shm, record) && b < |inputbuffers|
      requires Holds(blocks, inputbuffers[b]) && inputbuffers[b].stage == Hashed
      requires inputbuffers[b].file in shm && shm[inputbuffers[b].file].turn == NoTurn
      requires inputbuffers[b].file < |record| == |blocks|
      requires !Arrived(shm, record, inputbuffers[b].file, inputbuffers[b].index)
      requires forall g, i :: 0 <= g < |record| ==> (Arrived(shm, record, g, i) <==> Arrived(shm0, record, g, i))
      modifies `inputbuffers, `shm
      ensures Consistent(blocks, inputbuffers, shm, record) && Alike(old(inputbuffers), inputbuffers)
      ensures ArrivedToo(shm0, record, shm, record, blocks, old(inputbuffers[b].file), old(inputbuffers[b].index))
      ensures OthersKept(old(shm), shm, old(inputbuffers[b].file))
    {
      hide Consistent, Arrived, Holds, ArrivedToo;
      var x := inputbuffers[b];
      var e := shm[x.file];
      NotYet(blocks, inputbuffers, shm, record, x);
      ghost var shm1 := shm[x.file := if e.next == x.index then e.(turn := Turn(b, false))
                                      else e.(deferred := e.deferred[x.index := b])];
      PutInArrives(blocks, shm0, shm, shm1, record, x, b);
      if e.next == x.index {
        StartTurn(blocks, inputbuffers, shm, shm1, record, b);
        shm := shm[x.file := e.(turn := Turn(b, false))];
      } else {
        PutIn(blocks, inputbuffers, inputbuffers[b := x.(refcount := x.refcount + 1)], shm, shm1, record, b);
        inputbuffers := inputbuffers[b := x.(refcount := x.refcount + 1)];
        shm := shm[x.file := e.(deferred := e.deferred[x.index := b])];
      }
    }

    /** One turn of the loop of the thread that is at work on the entry of file f: hash the block at hand, and
        see whether the next one had been deferred. */
    method FlushTurn(f: nat)
      requires Valid() && f in shm && shm[f].turn.Turn?
      modifies `inputbuffers, `inputbuffersidx, `shm, `record
      ensures Valid() && Alike(old(inputbuffers), inputbuffers)
      ensures f < |blocks| == |record| && old(shm[f].next) < |blocks[f]| && |record[f]| <= |blocks[f]|
      ensures record == old(record)[f := old(record)[f] + [Call(old(shm[f].next), blocks[f][old(shm[f].next)])]]
      ensures shm == Turned(old(shm), f, |blocks[f]|)
      ensures forall g, i :: 0 <= g < |blocks| && 0 <= i ==>
                (Arrived(shm, record, g, i) <==> old(Arrived(shm, record, g, i)))
    {
      hide Consistent, Conserved, Arrived, Alike, Turned, Released, Recorded;
      TurnDone(blocks, inputbuffers, shm, record, sourcefile, sourceindex, f);
      var turn := shm[f].turn;
      record := Recorded(record, inputbuffers[turn.ib]);
      inputbuffers := Released(inputbuffers, turn);
      if turn.deferred && inputbuffers[turn.ib].refcount == 0 {
        inputbuffersidx := turn.ib;
      }
      shm := Turned(shm, f, |blocks[f]|);
    }

    /** A buffer reaches the hashing stage, and its thread does everything there is to do without being interrupted. */
    method TryToUpdateHashes(b: nat)
      requires Valid() && b < |inputbuffers| && inputbuffers[b].stage == Queued
      requires inputbuffers[b].file in shm ==> shm[inputbuffers[b].file].turn == NoTurn
      modifies `inputbuffers, `inputbuffersidx, `shm, `record
      ensures Valid() && Alike(old(inputbuffers)[b := old(inputbuffers[b]).(stage := Hashed)], inputbuffers)
      ensures OthersKept(old(shm), shm, old(inputbuffers[b].file))
      ensures var f := old(inputbuffers[b].file); f in shm ==> shm[f].turn == NoTurn
      ensures ArrivedToo(old(shm), old(record), shm, record, blocks, old(inputbuffers[b].file),
                         old(inputbuffers[b].index))
    {
      hide Consistent, Conserved, ArrivedToo, Arrived, Turned, OthersKept;
      var f := inputbuffers[b].file;
      ghost var i := inputbuffers[b].index;
      ghost var bufs := inputbuffers[b := inputbuffers[b].(stage := Hashed)];
      Arrive(b);
      while f in shm && shm[f].turn.Turn?
        invariant Valid() && Alike(bufs, inputbuffers) && OthersKept(old(shm), shm, f)
        invariant ArrivedToo(old(shm), old(record), shm, record, blocks, f, i)
        invariant f < |blocks| == |record| && |record[f]| <= |blocks[f]|
        decreases |blocks[f]| - |record[f]|
      {
        ghost var shm1, record1 := shm, record;
        TurnedOthers(old(shm), shm, f, |blocks[f]|);
        FlushTurn(f);
        StillArrived(old(shm), old(record), shm1, record1, shm, record, blocks, f, i);
      }
    }

    /** When the input is used up and every buffer has passed the hashing stage and is done with it,
        UpdateHashes has been called for every block of every file, in order and once each, and no entry is
        left. */
    lemma {:induction false} Complete()
      requires Valid() && sourcefile == |blocks|
      requires forall b :: 0 <= b < |inputbuffers| ==> inputbuffers[b].stage != Queued
      requires forall f :: f in shm ==> shm[f].turn == NoTurn
      ensures shm == map[] && |record| == |blocks|
      ensures forall f :: 0 <= f < |blocks| ==> record[f] == Calls(blocks[f], |blocks[f]|)
    {
      AllHashed(blocks, inputbuffers, shm, record);
    }
  }
}
