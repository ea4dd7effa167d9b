/** Progress of the concurrent loop: an attempt at a row that nobody is at work on succeeds, an attempt at any other row
    goes on to the next one, and from every state the workers can come to the end, whatever has happened before. */
module PipelineProgress {
  import opened Pipeline

  // ----- Runs, one after the other -----

  lemma {:induction false} RunJoin<V>(s: State<V>, process: (V, nat, nat) -> V, a: seq<nat>, b: seq<nat>)
    ensures Run(s, process, a + b) == Run(Run(s, process, a), process, b)
    decreases |b|
  {
    hide Step, Enabled;
    if |b| == 0 {
      assert a + b == a;
    } else {
      var n := |b| - 1;
      assert (a + b)[..|a| + n] == a + b[..n];
      RunJoin(s, process, a, b[..n]);
    }
  }

  lemma {:induction false} RunOne<V>(s: State<V>, process: (V, nat, nat) -> V, k: nat)
    ensures Run(s, process, [k]) == if Enabled(s, k) then Step(s, k, process) else s
  {
    hide Step, Enabled;
    assert [k][..0] == [];
    assert Run(s, process, [k][..0]) == s;
  }

  /** A step of task k in a state with the invariant. */
  lemma {:induction false} Stepped<V>(s: State<V>, k: nat, process: (V, nat, nat) -> V, n: nat, m: nat, init: V)
    requires Inv(s, n, m, process, init) && k < |s.tasks| && s.tasks[k].Active()
    ensures s.tasks[k].Row() < m == |s.word| == |s.row| == |s.order| && s.tasks[k].Valid()
    ensures Run(s, process, [k]) == Step(s, k, process)
    ensures Inv(Step(s, k, process), n, m, process, init)
    ensures Step(s, k, process).tasks == s.tasks[k := Step(s, k, process).tasks[k]]
  {
    InvStep(s, k, process, n, m, init);
    OrderStep(s, k, process);
    RunOne(s, process, k);
    hide Step, Words, Exclusive, Copies, Once, Contents;
  }

  lemma {:induction false} CountUntouched<V>(tasks: seq<Task<V>>, r: nat)
    requires forall l :: 0 <= l < |tasks| ==> !tasks[l].Touches(r)
    ensures Count(tasks, r) == 0
    decreases |tasks|
  {
    if |tasks| > 0 {
      CountUntouched(tasks[1..], r);
    }
  }

  /** What task k has left to do. */
  function Left<V>(t: Task<V>): nat {
    (if t.cursor < t.hi then t.hi - t.cursor else 0) + (if t.i < |t.v| then |t.v| - t.i else 0) + |t.d|
  }

  // ----- Attempts -----

  /** The row is free: nobody else is at work on it. */
  ghost predicate Free<V>(s: State<V>, k: nat) {
    k < |s.tasks| && forall l :: 0 <= l < |s.tasks| && l != k ==> !s.tasks[l].Touches(s.tasks[k].Row())
  }

  /** What four steps of a task do to a free row: the row takes in the input, its lock word is as before, and the row,
      and no other, is no longer to be done. */
  ghost predicate RowDone<V>(s: State<V>, s': State<V>, k: nat, process: (V, nat, nat) -> V)
    requires k < |s.tasks|
  {
    var t := s.tasks[k];
    var r := t.Row();
    && r < |s.row| && r < |s.order| && k < |s'.tasks| && t.Valid()
    && s'.row == s.row[r := process(s.row[r], t.input, r)] && s'.order == s.order[r := s.order[r] + [t.input]]
    && s'.word == s.word && s'.tasks == s.tasks[k := s'.tasks[k]]
    && var u := s'.tasks[k];
       && u.pc == Attempt && u.Valid() && u.input == t.input && Left(u) + 1 == Left(t)
       && forall q :: u.Pending(q) <==> t.Pending(q) && q != r
  }

  /** An attempt at a free row succeeds. */
  lemma {:induction false} FreeRowTaken<V>(s: State<V>, k: nat, process: (V, nat, nat) -> V, n: nat, m: nat, init: V)
    requires Inv(s, n, m, process, init) && Free(s, k) && s.tasks[k].Active() && s.tasks[k].pc == Attempt
    ensures var s' := Run(s, process, [k, k, k, k]);
            Inv(s', n, m, process, init) && RowDone(s, s', k, process)
  {
    var s1 := Taken(s, k, process, n, m, init);
    var s2 := Read(s1, k, process, n, m, init);
    var s3 := Written(s2, k, process, n, m, init);
    var s4 := Released(s3, k, process, n, m, init);
    RunFour(s, process, k);
    hide *;
    FourSteps(s, s1, s2, s3, s4, k, process);
  }

  lemma {:induction false} RunFour<V>(s: State<V>, process: (V, nat, nat) -> V, k: nat)
    ensures Run(s, process, [k, k, k, k]) ==
            Run(Run(Run(Run(s, process, [k]), process, [k]), process, [k]), process, [k])
  {
    hide Run;
    assert [k] + [k] == [k, k] && [k, k] + [k] == [k, k, k] && [k, k, k] + [k] == [k, k, k, k];
    RunJoin(s, process, [k], [k]);
    RunJoin(s, process, [k, k], [k]);
    RunJoin(s, process, [k, k, k], [k]);
  }

  lemma {:induction false} Taken<V>(s: State<V>, k: nat, process: (V, nat, nat) -> V, n: nat, m: nat, init: V)
    returns (s': State<V>)
    requires Inv(s, n, m, process, init) && Free(s, k) && s.tasks[k].Active() && s.tasks[k].pc == Attempt
    ensures s' == Run(s, process, [k]) && Inv(s', n, m, process, init) && |s'.tasks| == |s.tasks|
    ensures var r := s.tasks[k].Row();
            r < |s.word| && s' == s.(word := s.word[r := s.word[r] - 2], tasks := s.tasks[k := s.tasks[k].(pc := Held)])
  {
    Stepped(s, k, process, n, m, init);
    CountUntouched(s.tasks, s.tasks[k].Row());
    s' := Step(s, k, process);
    hide Shape, Exclusive, Copies, Once, Contents;
  }

  lemma {:induction false} Read<V>(s: State<V>, k: nat, process: (V, nat, nat) -> V, n: nat, m: nat, init: V)
    returns (s': State<V>)
    requires Inv(s, n, m, process, init) && k < |s.tasks| && s.tasks[k].Active() && s.tasks[k].pc == Held
    ensures s' == Run(s, process, [k]) && Inv(s', n, m, process, init)
    ensures var r := s.tasks[k].Row();
            r < |s.row| && s' == s.(tasks := s.tasks[k := s.tasks[k].(pc := Loaded(s.row[r]))])
  {
    Stepped(s, k, process, n, m, init);
    s' := Step(s, k, process);
    hide Inv;
  }

  lemma {:induction false} Written<V>(s: State<V>, k: nat, process: (V, nat, nat) -> V, n: nat, m: nat, init: V)
    returns (s': State<V>)
    requires Inv(s, n, m, process, init) && k < |s.tasks| && s.tasks[k].Active() && s.tasks[k].pc.Loaded?
    ensures s' == Run(s, process, [k]) && Inv(s', n, m, process, init)
    ensures var t, r := s.tasks[k], s.tasks[k].Row();
            && r < |s.row| == |s.order|
            && s' == s.(row := s.row[r := process(t.pc.copy, t.input, r)],
                        order := s.order[r := s.order[r] + [t.input]], tasks := s.tasks[k := t.(pc := Stored)])
  {
    Stepped(s, k, process, n, m, init);
    s' := Step(s, k, process);
    hide Inv;
  }

  lemma {:induction false} Released<V>(s: State<V>, k: nat, process: (V, nat, nat) -> V, n: nat, m: nat, init: V)
    returns (s': State<V>)
    requires Inv(s, n, m, process, init) && k < |s.tasks| && s.tasks[k].Active() && s.tasks[k].pc == Stored
    ensures s' == Run(s, process, [k]) && Inv(s', n, m, process, init)
    ensures var t, r := s.tasks[k], s.tasks[k].Row();
            && r < |s.word| && s' == s.(word := s.word[r := s.word[r] + 2], tasks := s.tasks[k := t.Advance()])
            && t.Valid() && t.Advance().Valid() && t.Advance().pc == Attempt && t.Advance().input == t.input
            && Left(t.Advance()) + 1 == Left(t)
            && forall q :: t.Advance().Pending(q) <==> t.Pending(q) && q != r
  {
    Stepped(s, k, process, n, m, init);
    AdvanceFacts(s.tasks[k]);
    s' := Step(s, k, process);
    hide Inv;
  }

  lemma {:induction false} FourSteps<V>(s: State<V>, s1: State<V>, s2: State<V>, s3: State<V>, s4: State<V>, k: nat,
                                        process: (V, nat, nat) -> V)
    requires k < |s.tasks| && s.tasks[k].pc == Attempt && s.tasks[k].Valid()
    requires var t, r := s.tasks[k], s.tasks[k].Row();
             && r < |s.word| == |s.row| == |s.order|
             && s1 == s.(word := s.word[r := s.word[r] - 2], tasks := s.tasks[k := t.(pc := Held)])
    requires s2 == s1.(tasks := s1.tasks[k := s1.tasks[k].(pc := Loaded(s1.row[s1.tasks[k].Row()]))])
    requires var t, r := s2.tasks[k], s2.tasks[k].Row();
             && t.pc.Loaded?
             && s3 == s2.(row := s2.row[r := process(t.pc.copy, t.input, r)],
                          order := s2.order[r := s2.order[r] + [t.input]], tasks := s2.tasks[k := t.(pc := Stored)])
    requires var t, r := s3.tasks[k], s3.tasks[k].Row();
             && s4 == s3.(word := s3.word[r := s3.word[r] + 2], tasks := s3.tasks[k := t.Advance()])
             && t.Advance().Valid() && t.Advance().pc == Attempt && t.Advance().input == t.input
             && Left(t.Advance()) + 1 == Left(t)
             && forall q :: t.Advance().Pending(q) <==> t.Pending(q) && q != r
    ensures RowDone(s, s4, k, process)
  {
    hide Task.Advance;
    var t, r := s.tasks[k], s.tasks[k].Row();
    assert t.i <= |t.v|;
    hide Task.Valid;
    assert s1.tasks[k].Row() == s2.tasks[k].Row() == s3.tasks[k].Row() == r;
    assert forall q :: s3.tasks[k].Pending(q) <==> t.Pending(q);
    assert s4.word == s.word && s4.tasks == s.tasks[k := s4.tasks[k]];
  }

  /** What two steps do if somebody else is at work on the row: everything but the task is as before, the row is still
      to be done, and the task goes on to another row if it has one left. */
  ghost predicate RowPutOff<V>(s: State<V>, s': State<V>, k: nat)
    requires k < |s.tasks|
  {
    var t := s.tasks[k];
    && k < |s'.tasks| && t.Valid()
    && s'.row == s.row && s'.order == s.order && s'.word == s.word && s'.tasks == s.tasks[k := s'.tasks[k]]
    && var u := s'.tasks[k];
       && u.pc == Attempt && u.Valid() && u.input == t.input && (forall q :: u.Pending(q) <==> t.Pending(q))
       && ((exists q :: t.Pending(q) && q != t.Row()) ==> u.Row() != t.Row())
  }

  /** An attempt at a row that is not free fails, and is undone. */
  lemma {:induction false} BusyRowPutOff<V>(s: State<V>, k: nat, process: (V, nat, nat) -> V, n: nat, m: nat, init: V)
    requires Inv(s, n, m, process, init) && k < |s.tasks| && !Free(s, k)
    requires s.tasks[k].Active() && s.tasks[k].pc == Attempt
    ensures var s' := Run(s, process, [k, k]);
            Inv(s', n, m, process, init) && RowPutOff(s, s', k)
  {
    hide Inv, Run, Step, Task.Defer, Task.Pending, Free;
    var s1 := Refused(s, k, process, n, m, init);
    var s2 := Undone(s1, k, process, n, m, init);
    assert [k] + [k] == [k, k];
    RunJoin(s, process, [k], [k]);
    Stepped(s, k, process, n, m, init);
    PutOff(s.tasks[k]);
    hide Task.Valid;
    assert s2.word == s.word && s2.tasks == s.tasks[k := s2.tasks[k]];
  }

  lemma {:induction false} Refused<V>(s: State<V>, k: nat, process: (V, nat, nat) -> V, n: nat, m: nat, init: V)
    returns (s': State<V>)
    requires Inv(s, n, m, process, init) && k < |s.tasks| && !Free(s, k)
    requires s.tasks[k].Active() && s.tasks[k].pc == Attempt
    ensures s' == Run(s, process, [k]) && Inv(s', n, m, process, init)
    ensures var r := s.tasks[k].Row();
            r < |s.word| &&
            s' == s.(word := s.word[r := s.word[r] - 2], tasks := s.tasks[k := s.tasks[k].(pc := BackOff)])
  {
    Stepped(s, k, process, n, m, init);
    var r := s.tasks[k].Row();
    var l :| 0 <= l < |s.tasks| && l != k && s.tasks[l].Touches(r);
    if Count(s.tasks, r) == 0 {
      CountZero(s.tasks, r, l);
    }
    s' := Step(s, k, process);
    hide Shape, Exclusive, Copies, Once, Contents;
  }

  lemma {:induction false} Undone<V>(s: State<V>, k: nat, process: (V, nat, nat) -> V, n: nat, m: nat, init: V)
    returns (s': State<V>)
    requires Inv(s, n, m, process, init) && k < |s.tasks| && s.tasks[k].Active() && s.tasks[k].pc == BackOff
    ensures s' == Run(s, process, [k]) && Inv(s', n, m, process, init)
    ensures var r := s.tasks[k].Row();
            && r < |s.word| && s.tasks[k].Valid()
            && s' == s.(word := s.word[r := s.word[r] + 2], tasks := s.tasks[k := s.tasks[k].Defer()])
  {
    Stepped(s, k, process, n, m, init);
    s' := Step(s, k, process);
    hide Inv;
  }

  /** A task that puts a row off. */
  lemma {:induction false} PutOff<V>(t: Task<V>)
    requires t.Valid() && t.Active() && t.pc == Attempt
    ensures var u := t.(pc := BackOff).Defer();
            && u.pc == Attempt && u.Valid() && u.input == t.input && (forall q :: u.Pending(q) <==> t.Pending(q))
            && ((exists q :: t.Pending(q) && q != t.Row()) ==> u.Row() != t.Row())
  {
    var b := t.(pc := BackOff);
    assert b.Rest() == t.Rest();
    DeferFacts(b);
    if exists q :: t.Pending(q) && q != t.Row() {
      PutOffRow(t);
    }
  }

  lemma {:induction false} PutOffRow<V>(t: Task<V>)
    requires t.Valid() && t.Active() && t.pc == Attempt && exists q :: t.Pending(q) && q != t.Row()
    ensures t.(pc := BackOff).Defer().Row() != t.Row()
  {
    var q :| t.Pending(q) && q != t.Row();
    if t.cursor == t.hi {
      PutOffAgain(t, q);
    } else {
      PutOffFirst(t, q);
    }
  }

  /** In the first pass the next row is that behind the cursor, or the first one put off. */
  lemma {:induction false} PutOffFirst<V>(t: Task<V>, q: nat)
    requires t.Valid() && t.cursor < t.hi && t.Pending(q) && q != t.cursor
    ensures t.(pc := BackOff).Defer().Row() != t.cursor
  {
    hide Distinct;
    assert t.Rest() == t.v;
    if t.cursor + 1 == t.hi {
      assert |t.v| > 0 && t.v[0] in t.Rest();
      assert (t.v + [t.cursor])[0] == t.v[0];
    }
  }

  /** In any other pass it is the next one that had been put off, or the first one of the pass after that. */
  lemma {:induction false} PutOffAgain<V>(t: Task<V>, q: nat)
    requires t.Valid() && t.Active() && t.cursor == t.hi && t.Pending(q) && q != t.Row()
    ensures t.(pc := BackOff).Defer().Row() != t.Row()
  {
    var rest, n, x := t.Rest(), |t.d|, t.v[t.i];
    assert rest[n] == x;
    var u := t.(pc := BackOff).Defer();
    if t.i + 1 < |t.v| {
      assert rest[n + 1] == t.v[t.i + 1] == u.Row();
    } else {
      assert t.v[t.i..] == [x];
      assert n > 0;
      assert u.Row() == (t.d + [x])[0] == t.d[0] == rest[0];
    }
  }

  // ----- Coming to the end -----

  /** No task is in the middle of an attempt. */
  ghost predicate Quiet<V>(s: State<V>) {
    forall l :: 0 <= l < |s.tasks| ==> s.tasks[l].pc == Attempt
  }

  /** A task in the middle of an attempt can complete it; the others are as before. */
  lemma {:induction false} Settle<V>(s: State<V>, k: nat, process: (V, nat, nat) -> V, n: nat, m: nat, init: V)
    returns (schedule: seq<nat>)
    requires Inv(s, n, m, process, init) && k < |s.tasks|
    ensures var s' := Run(s, process, schedule);
            && Inv(s', n, m, process, init) && |s'.tasks| == |s.tasks|
            && s'.tasks == s.tasks[k := s'.tasks[k]] && s'.tasks[k].pc == Attempt
    decreases if s.tasks[k].pc.Held? then 3 else if s.tasks[k].pc.Loaded? then 2 else if s.tasks[k].pc == Attempt then 0
              else 1
  {
    var t := s.tasks[k];
    if t.pc == Attempt {
      schedule := [];
      assert s.tasks == s.tasks[k := t];
    } else {
      IsActive(s, k, process, n, m, init);
      Stepped(s, k, process, n, m, init);
      var s1 := Step(s, k, process);
      PcAfter(s, k, process);
      hide Inv, Step;
      var rest := Settle(s1, k, process, n, m, init);
      schedule := [k] + rest;
      RunJoin(s, process, [k], rest);
    }
  }

  lemma {:induction false} IsActive<V>(s: State<V>, k: nat, process: (V, nat, nat) -> V, n: nat, m: nat, init: V)
    requires Inv(s, n, m, process, init) && k < |s.tasks| && s.tasks[k].pc != Attempt
    ensures s.tasks[k].Active()
  {
    hide Words, Exclusive, Copies, Once, Contents;
  }

  lemma {:induction false} PcAfter<V>(s: State<V>, k: nat, process: (V, nat, nat) -> V)
    requires k < |s.tasks| && |s.word| == |s.row| == |s.order| && s.tasks[k].Active() && s.tasks[k].Row() < |s.row|
    requires s.tasks[k].pc != Attempt
    ensures var pc, pc' := s.tasks[k].pc, Step(s, k, process).tasks[k].pc;
            && (pc.Held? ==> pc'.Loaded?) && (pc.Loaded? ==> pc' == Stored)
            && (pc == Stored || pc == BackOff ==> pc' == Attempt)
  {
  }

  lemma {:induction false} SettleAll<V>(s: State<V>, j: nat, process: (V, nat, nat) -> V, n: nat, m: nat, init: V)
    returns (schedule: seq<nat>)
    requires Inv(s, n, m, process, init) && j <= |s.tasks| && forall l :: 0 <= l < j ==> s.tasks[l].pc == Attempt
    ensures var s' := Run(s, process, schedule);
            Inv(s', n, m, process, init) && |s'.tasks| == |s.tasks| && Quiet(s')
    decreases |s.tasks| - j
  {
    hide Inv;
    if j == |s.tasks| {
      schedule := [];
    } else {
      var first := Settle(s, j, process, n, m, init);
      var s1 := Run(s, process, first);
      var rest := SettleAll(s1, j + 1, process, n, m, init);
      schedule := first + rest;
      RunJoin(s, process, first, rest);
    }
  }

  /** If nobody is in the middle of an attempt, a task can do all that it has left. */
  lemma {:induction false} FinishTask<V>(s: State<V>, k: nat, process: (V, nat, nat) -> V, n: nat, m: nat, init: V)
    returns (schedule: seq<nat>)
    requires Inv(s, n, m, process, init) && Quiet(s) && k < |s.tasks|
    ensures var s' := Run(s, process, schedule);
            && Inv(s', n, m, process, init) && Quiet(s') && |s'.tasks| == |s.tasks|
            && s'.tasks == s.tasks[k := s'.tasks[k]] && !s'.tasks[k].Active()
    decreases Left(s.tasks[k])
  {
    hide Inv;
    if !s.tasks[k].Active() {
      schedule := [];
      assert s.tasks == s.tasks[k := s.tasks[k]];
    } else {
      FreeRowTaken(s, k, process, n, m, init);
      var s1 := Run(s, process, [k, k, k, k]);
      var rest := FinishTask(s1, k, process, n, m, init);
      schedule := [k, k, k, k] + rest;
      RunJoin(s, process, [k, k, k, k], rest);
    }
  }

  lemma {:induction false} FinishAll<V>(s: State<V>, j: nat, process: (V, nat, nat) -> V, n: nat, m: nat, init: V)
    returns (schedule: seq<nat>)
    requires Inv(s, n, m, process, init) && Quiet(s) && j <= |s.tasks|
    requires forall l :: 0 <= l < j ==> !s.tasks[l].Active()
    ensures Finished(Run(s, process, schedule))
    decreases |s.tasks| - j
  {
    hide Inv;
    if j == |s.tasks| {
      schedule := [];
    } else {
      var first := FinishTask(s, j, process, n, m, init);
      var s1 := Run(s, process, first);
      var rest := FinishAll(s1, j + 1, process, n, m, init);
      schedule := first + rest;
      RunJoin(s, process, first, rest);
    }
  }

  /** After any steps of any tasks, there are further steps with which all tasks finish: nobody can be locked out. */
  lemma {:induction false} CanFinish<V>(s: State<V>, process: (V, nat, nat) -> V, schedule: seq<nat>, n: nat, m: nat,
                                        init: V) returns (rest: seq<nat>)
    requires Initial(s, n, m, init)
    ensures Finished(Run(s, process, schedule + rest))
  {
    InvAlways(s, process, schedule, n, m, init);
    hide Inv, Initial;
    var s0 := Run(s, process, schedule);
    var settle := SettleAll(s0, 0, process, n, m, init);
    var s1 := Run(s0, process, settle);
    var finish := FinishAll(s1, 0, process, n, m, init);
    rest := settle + finish;
    RunJoin(s0, process, settle, finish);
    RunJoin(s, process, schedule, rest);
  }
}
