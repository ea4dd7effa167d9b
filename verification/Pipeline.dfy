/** The concurrent main loop of create and repair.  Every output row has an atomic lock word.  A task
    adds one input block to a range of rows: it subtracts 2 from the word of a row, and if the row was
    free processes the row and adds the 2 back, otherwise adds the 2 back at once and comes back to
    the row later.  Tasks run on any number of threads; each atomic operation is one step. */
module Pipeline {

  /** Where a task is: about to try a row, holding it, with the row's content read, with the new
      content written, or about to undo a failed attempt. */
  datatype Pc<V> = Attempt | Held | Loaded(copy: V) | Stored | BackOff

  /** ProcessDataForOutputIndex: first the rows lo..hi in order (`cursor`), then the deferred rows `v`
      (`i` is the position in it), with those deferred once more collected in `d`. */
  datatype Task<V> = Task(input: nat, lo: nat, hi: nat, cursor: nat, v: seq<nat>, i: nat, d: seq<nat>, pc: Pc<V>)
  {
    predicate Active() {
      cursor < hi || i < |v|
    }

    /** The row being worked on. */
    function Row(): nat {
      if cursor < hi then cursor else if i < |v| then v[i] else 0
    }

    function Rest(): seq<nat>
      requires i <= |v|
    {
      d + v[i..]
    }

    /** Row r is still to be done. */
    predicate Pending(r: nat)
      requires i <= |v|
    {
      cursor <= r < hi || r in Rest()
    }

    /** Row r has received the input block. */
    predicate Done(r: nat)
      requires i <= |v|
    {
      lo <= r < hi && (!Pending(r) || (pc.Stored? && r == Row()))
    }

    /** The lock word of row r is 2 lower because of this task. */
    predicate Touches(r: nat) {
      pc != Attempt && Row() == r
    }

    predicate Holding() {
      pc.Held? || pc.Loaded? || pc.Stored?
    }

    ghost predicate Valid() {
      && lo <= cursor <= hi && i <= |v|
      && (cursor < hi ==> i == 0 && d == [])
      && (cursor == hi && i == |v| ==> v == [] && d == [])
      && Distinct(Rest())
      && (forall r :: r in Rest() ==> lo <= r < cursor)
      && (pc != Attempt ==> Active())
    }

    /** At the end of a pass over the deferred rows the next pass starts. */
    function NextPass(): Task<V> {
      if cursor == hi && i == |v| then this.(v := d, i := 0, d := []) else this
    }

    /** The row has been processed. */
    function Advance(): Task<V> {
      if cursor < hi then this.(cursor := cursor + 1, pc := Attempt).NextPass()
      else this.(i := i + 1, pc := Attempt).NextPass()
    }

    /** The row was in use. */
    function Defer(): Task<V> {
      if cursor < hi then this.(v := v + [cursor], cursor := cursor + 1, pc := Attempt).NextPass()
      else this.(d := d + [Row()], i := i + 1, pc := Attempt).NextPass()
    }
  }

  ghost predicate Distinct(s: seq<nat>) {
    forall a, b :: 0 <= a < b < |s| ==> s[a] != s[b]
  }

  /** The lock words, the rows, for each row the inputs it has received, and the tasks. */
  datatype State<V> = State(word: seq<int>, row: seq<V>, order: seq<seq<nat>>, tasks: seq<Task<V>>)

  /** One atomic step of task k.  `process(content, input, row)` is ReedSolomon::Process. */
  function Step<V>(s: State<V>, k: nat, process: (V, nat, nat) -> V): State<V>
    requires k < |s.tasks|
    requires |s.word| == |s.row| == |s.order|
    requires s.tasks[k].Active() ==> s.tasks[k].Row() < |s.row|
  {
    var t := s.tasks[k];
    var r := t.Row();
    if !t.Active() then s
    else match t.pc {
      case Attempt =>
        var val := s.word[r] - 2;
        s.(word := s.word[r := val], tasks := s.tasks[k := t.(pc := if val < -2 then BackOff else Held)])
      case Held =>
        s.(tasks := s.tasks[k := t.(pc := Loaded(s.row[r]))])
      case Loaded(copy) =>
        s.(row := s.row[r := process(copy, t.input, r)], order := s.order[r := s.order[r] + [t.input]],
           tasks := s.tasks[k := t.(pc := Stored)])
      case Stored =>
        s.(word := s.word[r := s.word[r] + 2], tasks := s.tasks[k := t.Advance()])
      case BackOff =>
        s.(word := s.word[r := s.word[r] + 2], tasks := s.tasks[k := t.Defer()])
    }
  }

  /** The number of tasks that touch row r. */
  function Count<V>(tasks: seq<Task<V>>, r: nat): nat
    decreases |tasks|
  {
    if |tasks| == 0 then 0 else (if tasks[0].Touches(r) then 1 else 0) + Count(tasks[1..], r)
  }

  /** The content of row r after receiving some inputs one after the other. */
  function Folded<V>(process: (V, nat, nat) -> V, init: V, r: nat, order: seq<nat>): V
    decreases |order|
  {
    if |order| == 0 then init
    else process(Folded(process, init, r, order[..|order| - 1]), order[|order| - 1], r)
  }

  // ----- The invariant -----

  ghost predicate Shape<V>(s: State<V>, n: nat, m: nat) {
    && |s.word| == |s.row| == |s.order| == m
    && (forall k :: 0 <= k < |s.tasks| ==> s.tasks[k].Valid() && s.tasks[k].input < n && s.tasks[k].hi <= m)
    && (forall k, l :: 0 <= k < l < |s.tasks| && s.tasks[k].input == s.tasks[l].input ==>
          s.tasks[k].hi <= s.tasks[l].lo || s.tasks[l].hi <= s.tasks[k].lo)
  }

  /** Every lock word counts the tasks holding the row and the attempts being undone. */
  ghost predicate Words<V>(s: State<V>) {
    forall r :: 0 <= r < |s.word| ==> s.word[r] == -2 * Count(s.tasks, r)
  }

  /** At most one task holds a row ... */
  ghost predicate Exclusive<V>(tasks: seq<Task<V>>) {
    forall k, l :: 0 <= k < l < |tasks| && tasks[k].Holding() && tasks[l].Holding() ==> tasks[k].Row() != tasks[l].Row()
  }

  /** ... so what it has read of the row is still there. */
  ghost predicate Copies<V>(s: State<V>) {
    forall k :: 0 <= k < |s.tasks| && s.tasks[k].pc.Loaded? && s.tasks[k].Row() < |s.row| ==>
      s.tasks[k].pc.copy == s.row[s.tasks[k].Row()]
  }

  /** Every row has received, once each, the inputs whose task is done with it. */
  ghost predicate Once<V>(s: State<V>, n: nat) {
    && (forall r :: 0 <= r < |s.order| ==>
          Distinct(s.order[r]) && forall a :: 0 <= a < |s.order[r]| ==> s.order[r][a] < n)
    && (forall k, r :: 0 <= k < |s.tasks| && 0 <= r < |s.order| && s.tasks[k].lo <= r < s.tasks[k].hi &&
                       s.tasks[k].i <= |s.tasks[k].v| ==>
          (s.tasks[k].input in s.order[r] <==> s.tasks[k].Done(r)))
  }

  ghost predicate Contents<V>(s: State<V>, process: (V, nat, nat) -> V, init: V) {
    |s.row| == |s.order| && forall r :: 0 <= r < |s.row| ==> s.row[r] == Folded(process, init, r, s.order[r])
  }

  ghost predicate Inv<V>(s: State<V>, n: nat, m: nat, process: (V, nat, nat) -> V, init: V) {
    Shape(s, n, m) && Words(s) && Exclusive(s.tasks) && Copies(s) && Once(s, n) && Contents(s, process, init)
  }

  // ----- Tasks -----

  lemma {:induction false} RowPending<V>(t: Task<V>)
    requires t.Valid() && t.Active()
    ensures t.Pending(t.Row()) && t.lo <= t.Row() < t.hi
  {
    if t.cursor == t.hi {
      assert t.Rest()[|t.d|] == t.Row();
    }
  }

  /** A deferred row stays to be done. */
  lemma {:induction false} DeferFacts<V>(t: Task<V>)
    requires t.Valid() && t.Active()
    ensures t.Defer().Valid()
    ensures forall r :: t.Defer().Pending(r) <==> t.Pending(r)
  {
    var u := t.Defer();
    if t.cursor < t.hi {
      assert u.Rest() == t.Rest() + [t.cursor];
      assert forall a :: 0 <= a < |t.Rest()| ==> t.Rest()[a] in t.Rest();
    } else {
      assert u.Rest() == t.Rest();
    }
  }

  lemma {:induction false} RemoveAt(s: seq<nat>, n: nat)
    requires n < |s| && Distinct(s)
    ensures var u := s[..n] + s[n + 1..];
            Distinct(u) && forall r :: r in u <==> r in s && r != s[n]
  {
    var u := s[..n] + s[n + 1..];
    forall a, b | 0 <= a < b < |u|
      ensures u[a] != u[b]
    {
      assert u[a] == s[if a < n then a else a + 1] && u[b] == s[if b < n then b else b + 1];
    }
    forall r
      ensures r in u <==> r in s && r != s[n]
    {
      if r in u {
        var a :| 0 <= a < |u| && u[a] == r;
        assert s[if a < n then a else a + 1] == r;
      }
      if r in s && r != s[n] {
        var a :| 0 <= a < |s| && s[a] == r;
        assert u[if a < n then a else a - 1] == r;
      }
    }
  }

  lemma {:induction false} AdvanceRest<V>(t: Task<V>)
    requires t.Valid() && t.Active()
    ensures t.Advance().i <= |t.Advance().v|
    ensures Distinct(t.Advance().Rest())
    ensures forall r :: r in t.Advance().Rest() <==> r in t.Rest() && r != t.Row()
  {
    if t.cursor < t.hi {
      assert t.Advance().Rest() == t.Rest();
    } else {
      assert t.Rest()[|t.d|] == t.Row();
      assert t.Advance().Rest() == t.Rest()[..|t.d|] + t.Rest()[|t.d| + 1..];
      RemoveAt(t.Rest(), |t.d|);
    }
  }

  /** A processed row, and no other, is no longer to be done. */
  lemma {:induction false} AdvanceFacts<V>(t: Task<V>)
    requires t.Valid() && t.Active()
    ensures t.Advance().Valid()
    ensures forall r :: t.Advance().Pending(r) <==> t.Pending(r) && r != t.Row()
  {
    AdvanceRest(t);
    hide Distinct;
    hide Task.Rest;
  }

  lemma {:induction false} CountUpdate<V>(tasks: seq<Task<V>>, k: nat, t: Task<V>, r: nat)
    requires k < |tasks|
    ensures Count(tasks[k := t], r) ==
            Count(tasks, r) + (if t.Touches(r) then 1 else 0) - (if tasks[k].Touches(r) then 1 else 0)
    decreases |tasks|
  {
    if k == 0 {
      assert tasks[k := t][1..] == tasks[1..];
    } else {
      assert tasks[k := t][1..] == tasks[1..][k - 1 := t];
      CountUpdate(tasks[1..], k - 1, t, r);
    }
  }

  lemma {:induction false} CountZero<V>(tasks: seq<Task<V>>, r: nat, k: nat)
    requires Count(tasks, r) == 0 && k < |tasks|
    ensures !tasks[k].Touches(r)
    decreases |tasks|
  {
    if k > 0 {
      CountZero(tasks[1..], r, k - 1);
    }
  }

  // ----- Every step keeps the invariant -----

  function Weight<V>(t: Task<V>, r: nat): int {
    if t.Touches(r) then 1 else 0
  }

  /** A step changes the lock words by what it changes about its own task. */
  lemma {:induction false} WeightStep<V>(s: State<V>, k: nat, process: (V, nat, nat) -> V, r: nat)
    requires k < |s.tasks| && r < |s.word| == |s.row| == |s.order|
    requires s.tasks[k].Active() && s.tasks[k].Row() < |s.row|
    ensures var s' := Step(s, k, process);
            && s'.word[r] - s.word[r] == -2 * (Weight(s'.tasks[k], r) - Weight(s.tasks[k], r))
            && s'.tasks == s.tasks[k := s'.tasks[k]] && |s'.word| == |s.word|
  {
  }

  lemma {:induction false} WordsStep<V>(s: State<V>, k: nat, process: (V, nat, nat) -> V, n: nat, m: nat)
    requires Shape(s, n, m) && Words(s) && k < |s.tasks| && s.tasks[k].Active()
    ensures s.tasks[k].Row() < m
    ensures Words(Step(s, k, process))
  {
    RowPending(s.tasks[k]);
    var s' := Step(s, k, process);
    hide Task.Valid;
    hide Step;
    hide Task.Touches;
    assert |s'.word| == m by {
      if m > 0 {
        WeightStep(s, k, process, 0);
      }
    }
    forall r | 0 <= r < m
      ensures s'.word[r] == -2 * Count(s'.tasks, r)
    {
      WeightStep(s, k, process, r);
      CountUpdate(s.tasks, k, s'.tasks[k], r);
    }
  }

  /** A step of a task keeps it valid, and its input and range. */
  lemma {:induction false} TaskStep<V>(s: State<V>, k: nat, process: (V, nat, nat) -> V)
    requires k < |s.tasks| && |s.word| == |s.row| == |s.order|
    requires s.tasks[k].Active() && s.tasks[k].Valid() && s.tasks[k].hi <= |s.row|
    ensures s.tasks[k].Row() < |s.row|
    ensures var t, u := s.tasks[k], Step(s, k, process).tasks[k];
            u.Valid() && u.input == t.input && u.lo == t.lo && u.hi == t.hi
  {
    var t := s.tasks[k];
    RowPending(t);
    match t.pc {
      case Stored => AdvanceFacts(t);
      case BackOff => DeferFacts(t);
      case _ =>
        assert Step(s, k, process).tasks[k].Rest() == t.Rest();
    }
  }

  lemma {:induction false} ShapeStep<V>(s: State<V>, k: nat, process: (V, nat, nat) -> V, n: nat, m: nat)
    requires Shape(s, n, m) && k < |s.tasks| && s.tasks[k].Active()
    ensures s.tasks[k].Row() < m
    ensures Shape(Step(s, k, process), n, m)
  {
    TaskStep(s, k, process);
    var s' := Step(s, k, process);
    hide Task.Valid;
    assert s'.tasks == s.tasks[k := s'.tasks[k]];
  }

  /** Who holds a row after a step held it before, or has found it untouched. */
  lemma {:induction false} HoldStep<V>(s: State<V>, k: nat, process: (V, nat, nat) -> V)
    requires k < |s.tasks| && |s.word| == |s.row| == |s.order| && Words(s)
    requires s.tasks[k].Active() && s.tasks[k].Row() < |s.row|
    ensures var t, u := s.tasks[k], Step(s, k, process).tasks[k];
            u.Holding() ==> u.Row() == t.Row() && (t.Holding() || Count(s.tasks, t.Row()) == 0)
  {
  }

  lemma {:induction false} ExclusiveStep<V>(s: State<V>, k: nat, process: (V, nat, nat) -> V, n: nat, m: nat)
    requires Shape(s, n, m) && Words(s) && Exclusive(s.tasks) && k < |s.tasks| && s.tasks[k].Active()
    ensures s.tasks[k].Row() < m
    ensures Exclusive(Step(s, k, process).tasks)
  {
    var t, r := s.tasks[k], s.tasks[k].Row();
    RowPending(t);
    HoldStep(s, k, process);
    WeightStep(s, k, process, r);
    var u := Step(s, k, process).tasks[k];
    hide *;
    if u.Holding() {
      forall l | 0 <= l < |s.tasks| && l != k
        ensures s.tasks[l].Holding() ==> s.tasks[l].Row() != u.Row()
      {
        Alone(s.tasks, k, l);
      }
    }
    ExclusiveUpdate(s.tasks, k, u);
  }

  lemma {:induction false} Alone<V>(tasks: seq<Task<V>>, k: nat, l: nat)
    requires k < |tasks| && l < |tasks| && k != l && Exclusive(tasks)
    requires tasks[k].Holding() || Count(tasks, tasks[k].Row()) == 0
    ensures tasks[l].Holding() ==> tasks[l].Row() != tasks[k].Row()
  {
    if Count(tasks, tasks[k].Row()) == 0 {
      CountZero(tasks, tasks[k].Row(), l);
    }
  }

  lemma {:induction false} ExclusiveUpdate<V>(tasks: seq<Task<V>>, k: nat, u: Task<V>)
    requires k < |tasks| && Exclusive(tasks)
    requires u.Holding() ==> forall l :: 0 <= l < |tasks| && l != k && tasks[l].Holding() ==> tasks[l].Row() != u.Row()
    ensures Exclusive(tasks[k := u])
  {
    hide Task.Row;
    hide Task.Holding;
  }

  lemma {:induction false} CopiesStep<V>(s: State<V>, k: nat, process: (V, nat, nat) -> V, n: nat, m: nat)
    requires Shape(s, n, m) && Exclusive(s.tasks) && Copies(s) && k < |s.tasks| && s.tasks[k].Active()
    ensures s.tasks[k].Row() < m
    ensures Copies(Step(s, k, process))
  {
    var t, r := s.tasks[k], s.tasks[k].Row();
    RowPending(t);
    hide Task.Valid;
    hide Task.NextPass;
  }

  lemma {:induction false} ContentsStep<V>(s: State<V>, k: nat, process: (V, nat, nat) -> V, init: V, n: nat, m: nat)
    requires Shape(s, n, m) && Copies(s) && Contents(s, process, init) && k < |s.tasks| && s.tasks[k].Active()
    ensures s.tasks[k].Row() < m
    ensures Contents(Step(s, k, process), process, init)
  {
    var t, r := s.tasks[k], s.tasks[k].Row();
    RowPending(t);
    if t.pc.Loaded? {
      assert (s.order[r] + [t.input])[..|s.order[r]|] == s.order[r];
    }
    hide Task.Valid;
    hide Task.NextPass;
  }

  /** Storing a row, and nothing else, makes it done. */
  lemma {:induction false} DoneStep<V>(s: State<V>, k: nat, process: (V, nat, nat) -> V, r: nat)
    requires k < |s.tasks| && |s.word| == |s.row| == |s.order|
    requires s.tasks[k].Active() && s.tasks[k].Valid() && s.tasks[k].hi <= |s.row|
    requires s.tasks[k].lo <= r < s.tasks[k].hi
    ensures s.tasks[k].Row() < |s.row|
    ensures var t, u := s.tasks[k], Step(s, k, process).tasks[k];
            && u.i <= |u.v|
            && (u.Done(r) <==> t.Done(r) || (t.pc.Loaded? && r == t.Row()))
            && (t.pc.Loaded? && r == t.Row() ==> !t.Done(r))
  {
    var t := s.tasks[k];
    RowPending(t);
    match t.pc {
      case Stored => AdvanceFacts(t);
      case BackOff => DeferFacts(t);
      case _ =>
        assert Step(s, k, process).tasks[k].Rest() == t.Rest();
    }
    hide Task.Rest;
  }

  lemma {:induction false} OrderStep<V>(s: State<V>, k: nat, process: (V, nat, nat) -> V)
    requires k < |s.tasks| && |s.word| == |s.row| == |s.order|
    requires s.tasks[k].Active() && s.tasks[k].Row() < |s.row|
    ensures var t, s' := s.tasks[k], Step(s, k, process);
            && s'.order == (if t.pc.Loaded? then s.order[t.Row() := s.order[t.Row()] + [t.input]] else s.order)
            && s'.tasks == s.tasks[k := s'.tasks[k]]
  {
  }

  lemma {:induction false} OnceStep<V>(s: State<V>, k: nat, process: (V, nat, nat) -> V, n: nat, m: nat)
    requires Shape(s, n, m) && Once(s, n) && k < |s.tasks| && s.tasks[k].Active()
    ensures s.tasks[k].Row() < m
    ensures Once(Step(s, k, process), n)
  {
    var t, w := s.tasks[k], s.tasks[k].Row();
    RowPending(t);
    var s' := Step(s, k, process);
    OrderStep(s, k, process);
    TaskStep(s, k, process);
    forall r | t.lo <= r < t.hi
      ensures s'.tasks[k].Done(r) <==> t.Done(r) || (t.pc.Loaded? && r == w)
      ensures t.pc.Loaded? && r == w ==> !t.Done(r)
    {
      DoneStep(s, k, process, r);
    }
    hide Task.Done;
    hide Task.Row;
    hide Step;
    forall l, r | 0 <= l < |s.tasks| && 0 <= r < m && s.tasks[l].lo <= r < s.tasks[l].hi && l != k
      ensures s.tasks[l].input in s'.order[r] <==> s.tasks[l].input in s.order[r]
    {
      assert t.pc.Loaded? && r == w ==> s.tasks[l].input != t.input;
    }
  }

  /** Any step of any task keeps the invariant. */
  lemma {:induction false} InvStep<V>(s: State<V>, k: nat, process: (V, nat, nat) -> V, n: nat, m: nat, init: V)
    requires Inv(s, n, m, process, init) && k < |s.tasks|
    ensures s.tasks[k].Active() ==> s.tasks[k].Row() < m
    ensures Inv(Step(s, k, process), n, m, process, init)
  {
    if s.tasks[k].Active() {
      ShapeStep(s, k, process, n, m);
      WordsStep(s, k, process, n, m);
      ExclusiveStep(s, k, process, n, m);
      CopiesStep(s, k, process, n, m);
      OnceStep(s, k, process, n, m);
      ContentsStep(s, k, process, init, n, m);
    }
  }

  // ----- Runs -----

  ghost predicate Enabled<V>(s: State<V>, k: nat) {
    && k < |s.tasks| && |s.word| == |s.row| == |s.order|
    && s.tasks[k].Active() && s.tasks[k].Row() < |s.row|
  }

  /** The state after the scheduler has let the listed tasks take a step each, in that order. */
  ghost function Run<V>(s: State<V>, process: (V, nat, nat) -> V, schedule: seq<nat>): State<V>
    decreases |schedule|
  {
    if |schedule| == 0 then s
    else
      var n := |schedule| - 1;
      var s' := Run(s, process, schedule[..n]);
      if Enabled(s', schedule[n]) then Step(s', schedule[n], process) else s'
  }

  /** A task as parallel_for creates it. */
  function NewTask<V>(input: nat, lo: nat, hi: nat): Task<V> {
    Task(input, lo, hi, lo, [], 0, [], Attempt)
  }

  /** Before the loop: the words are zero, the rows clear, and each of n inputs has tasks that
      divide up some of the m rows. */
  ghost predicate Initial<V>(s: State<V>, n: nat, m: nat, init: V) {
    && |s.word| == |s.row| == |s.order| == m
    && (forall r :: 0 <= r < m ==> s.word[r] == 0 && s.row[r] == init && s.order[r] == [])
    && (forall k :: 0 <= k < |s.tasks| ==>
          var t := s.tasks[k];
          t.input < n && t.lo <= t.hi <= m && t == NewTask(t.input, t.lo, t.hi))
    && (forall k, l :: 0 <= k < l < |s.tasks| && s.tasks[k].input == s.tasks[l].input ==>
          s.tasks[k].hi <= s.tasks[l].lo || s.tasks[l].hi <= s.tasks[k].lo)
  }

  lemma {:induction false} CountNone<V>(tasks: seq<Task<V>>, r: nat)
    requires forall k :: 0 <= k < |tasks| ==> tasks[k].pc == Attempt
    ensures Count(tasks, r) == 0
    decreases |tasks|
  {
    if |tasks| > 0 {
      CountNone(tasks[1..], r);
    }
  }

  lemma {:induction false} InvInitial<V>(s: State<V>, process: (V, nat, nat) -> V, n: nat, m: nat, init: V)
    requires Initial(s, n, m, init)
    ensures Inv(s, n, m, process, init)
  {
    ShapeInitial(s, n, m, init);
    OnceInitial(s, n, m, init);
    hide Task.Valid;
    hide Task.Done;
    forall r | 0 <= r < m
      ensures Count(s.tasks, r) == 0
    {
      CountNone(s.tasks, r);
    }
  }

  lemma {:induction false} ShapeInitial<V>(s: State<V>, n: nat, m: nat, init: V)
    requires Initial(s, n, m, init)
    ensures Shape(s, n, m)
  {
    forall k | 0 <= k < |s.tasks|
      ensures s.tasks[k].Valid()
    {
      assert s.tasks[k].Rest() == [];
    }
  }

  lemma {:induction false} OnceInitial<V>(s: State<V>, n: nat, m: nat, init: V)
    requires Initial(s, n, m, init)
    ensures Once(s, n)
  {
    forall k, r | 0 <= k < |s.tasks| && s.tasks[k].lo <= r < s.tasks[k].hi
      ensures s.tasks[k].i <= |s.tasks[k].v| && !s.tasks[k].Done(r)
    {
    }
    hide Task.Done;
  }

  /** The invariant holds in every state of every run, under every scheduling. */
  lemma {:induction false} InvAlways<V>(s: State<V>, process: (V, nat, nat) -> V, schedule: seq<nat>, n: nat, m: nat,
                                        init: V)
    requires Initial(s, n, m, init)
    ensures Inv(Run(s, process, schedule), n, m, process, init)
    decreases |schedule|
  {
    hide Inv;
    hide Initial;
    hide Step;
    if |schedule| == 0 {
      InvInitial(s, process, n, m, init);
    } else {
      var l := |schedule| - 1;
      InvAlways(s, process, schedule[..l], n, m, init);
      var s' := Run(s, process, schedule[..l]);
      if Enabled(s', schedule[l]) {
        InvStep(s', schedule[l], process, n, m, init);
      }
    }
  }

  /** At any time at most one thread is between taking and releasing a row, and the lock word of
      the row is -2 times the number of threads that hold it or are undoing an attempt. */
  lemma {:induction false} MutualExclusion<V>(s: State<V>, process: (V, nat, nat) -> V, schedule: seq<nat>, n: nat,
                                              m: nat, init: V, k: nat, l: nat)
    requires Initial(s, n, m, init)
    ensures var s' := Run(s, process, schedule);
            && |s'.word| == m
            && (k < l < |s'.tasks| && s'.tasks[k].Holding() && s'.tasks[l].Holding() ==>
                  s'.tasks[k].Row() != s'.tasks[l].Row())
            && (forall r :: 0 <= r < m ==> s'.word[r] == -2 * Count(s'.tasks, r))
  {
    InvAlways(s, process, schedule, n, m, init);
  }

  /** All numbers below n, once each. */
  ghost predicate Permutation(order: seq<nat>, n: nat) {
    && Distinct(order)
    && (forall a :: 0 <= a < |order| ==> order[a] < n)
    && (forall i :: 0 <= i < n ==> i in order)
  }

  ghost predicate Covered<V>(tasks: seq<Task<V>>, n: nat, m: nat) {
    forall i, r :: 0 <= i < n && 0 <= r < m ==> Covers(tasks, i, r)
  }

  ghost predicate Covers<V>(tasks: seq<Task<V>>, i: nat, r: nat) {
    exists k :: 0 <= k < |tasks| && tasks[k].input == i && tasks[k].lo <= r < tasks[k].hi
  }

  ghost predicate Finished<V>(s: State<V>) {
    forall k :: 0 <= k < |s.tasks| ==> !s.tasks[k].Active()
  }

  /** Steps do not change what the tasks are for. */
  lemma {:induction false} RangesKept<V>(s: State<V>, process: (V, nat, nat) -> V, schedule: seq<nat>, n: nat, m: nat,
                                         init: V)
    requires Initial(s, n, m, init)
    ensures var s' := Run(s, process, schedule);
            && |s'.tasks| == |s.tasks|
            && forall k :: 0 <= k < |s.tasks| ==>
                 && s'.tasks[k].input == s.tasks[k].input
                 && s'.tasks[k].lo == s.tasks[k].lo && s'.tasks[k].hi == s.tasks[k].hi
    decreases |schedule|
  {
    hide Initial;
    hide Step;
    if |schedule| > 0 {
      var l := |schedule| - 1;
      RangesKept(s, process, schedule[..l], n, m, init);
      var s' := Run(s, process, schedule[..l]);
      InvAlways(s, process, schedule[..l], n, m, init);
      var k := schedule[l];
      if Enabled(s', k) {
        TaskStep(s', k, process);
        OrderStep(s', k, process);
      }
    }
  }

  /** When all tasks have finished, every row has received every input exactly once, in some order
      and despite all deferrals, and every lock word is zero again. */
  lemma {:induction false} EveryInputOnce<V>(s: State<V>, process: (V, nat, nat) -> V, schedule: seq<nat>, n: nat,
                                             m: nat, init: V)
    requires Initial(s, n, m, init) && Covered(s.tasks, n, m)
    requires Finished(Run(s, process, schedule))
    ensures var s' := Run(s, process, schedule);
            && |s'.word| == |s'.order| == |s'.row| == m
            && forall r :: 0 <= r < m ==>
                 && s'.word[r] == 0 && Permutation(s'.order[r], n)
                 && s'.row[r] == Folded(process, init, r, s'.order[r])
  {
    var s' := Run(s, process, schedule);
    InvAlways(s, process, schedule, n, m, init);
    RangesKept(s, process, schedule, n, m, init);
    hide Run;
    hide Initial;
    forall r | 0 <= r < m
      ensures s'.word[r] == 0 && Permutation(s'.order[r], n)
    {
      CountNone(s'.tasks, r);
      forall i | 0 <= i < n
        ensures i in s'.order[r]
      {
        assert Covers(s.tasks, i, r);
        var k :| 0 <= k < |s.tasks| && s.tasks[k].input == i && s.tasks[k].lo <= r < s.tasks[k].hi;
        assert s'.tasks[k].Rest() == [];
        assert s'.tasks[k].Done(r);
      }
    }
  }
}
