/** The concurrent loop computes what the serial loop computes: whatever order the scheduler imposes,
    every output row ends as the matrix row applied to the input blocks. */
module ConcurrentRows {
  import opened Fields
  import opened Vectors
  import opened ReedSolomon
  import opened Pipeline

  /** u[o]*v[o] summed over the indices o of `order`, in that order. */
  function DotIn<T(!new)>(F: Field<T>, u: seq<T>, v: seq<T>, order: seq<nat>): T
    requires forall a :: 0 <= a < |order| ==> order[a] < |u| && order[a] < |v|
    decreases |order|
  {
    if |order| == 0 then F.zero
    else
      var n := |order| - 1;
      F.add(DotIn(F, u, v, order[..n]), F.mul(u[order[n]], v[order[n]]))
  }

  /** A term may be moved to the end of a sum. */
  lemma {:induction false} DotInMove<T(!new)>(F: Field<T>, u: seq<T>, v: seq<T>, order: seq<nat>, p: nat)
    requires F.Lawful() && p < |order|
    requires forall a :: 0 <= a < |order| ==> order[a] < |u| && order[a] < |v|
    ensures DotIn(F, u, v, order) ==
            F.add(DotIn(F, u, v, order[..p] + order[p + 1..]), F.mul(u[order[p]], v[order[p]]))
    decreases |order|
  {
    var n := |order| - 1;
    var rest := order[..p] + order[p + 1..];
    if p == n {
      assert rest == order[..n];
    } else {
      var front, x, y := order[..n], F.mul(u[order[p]], v[order[p]]), F.mul(u[order[n]], v[order[n]]);
      DotInMove(F, u, v, front, p);
      var less := front[..p] + front[p + 1..];
      assert less == order[..p] + order[p + 1..n];
      assert rest == less + [order[n]];
      assert rest[..n - 1] == less;
      var d := DotIn(F, u, v, less);
      AddAssoc(F, d, x, y);
      AddLaws(F, x, y);
      AddAssoc(F, d, y, x);
    }
  }

  /** Removing the largest index from a permutation. */
  lemma {:induction false} PermutationSmaller(order: seq<nat>, n: nat) returns (p: nat)
    requires Permutation(order, n + 1)
    ensures p < |order| && order[p] == n
    ensures Permutation(order[..p] + order[p + 1..], n)
  {
    assert n in order;
    p :| 0 <= p < |order| && order[p] == n;
    var rest := order[..p] + order[p + 1..];
    RemoveAt(order, p);
    forall a | 0 <= a < |rest|
      ensures rest[a] < n
    {
      assert rest[a] in rest;
    }
  }

  /** The order of the terms does not matter. */
  lemma {:induction false} DotInPermutation<T(!new)>(F: Field<T>, u: seq<T>, v: seq<T>, order: seq<nat>, n: nat)
    requires F.Lawful() && Permutation(order, n) && n <= |u| && n <= |v|
    ensures DotIn(F, u, v, order) == Dot(F, u, v, n)
    decreases n
  {
    if n == 0 {
      assert order == [];
    } else {
      var p := PermutationSmaller(order, n - 1);
      DotInMove(F, u, v, order, p);
      DotInPermutation(F, u, v, order[..p] + order[p + 1..], n - 1);
    }
  }

  /** The effect of ReedSolomon::Process on the content of an output row. */
  function Processed<T(!new)>(F: Field<T>, matrix: seq<seq<T>>, inputblocks: seq<seq<T>>, content: seq<T>, input: nat,
                              r: nat): seq<T> {
    if r < |matrix| && input < |matrix[r]| && input < |inputblocks| && |content| == |inputblocks[input]| then
      seq(|content|, c requires 0 <= c < |content| => F.add(content[c], F.mul(inputblocks[input][c], matrix[r][input])))
    else content
  }

  lemma {:induction false} FoldedLanes<T(!new)>(F: Field<T>, matrix: seq<seq<T>>, inputblocks: seq<seq<T>>,
                                                blocklength: nat, r: nat, order: seq<nat>,
                                                process: (seq<T>, nat, nat) -> seq<T>)
    requires forall content, input, r :: process(content, input, r) ==
               Processed(F, matrix, inputblocks, content, input, r)
    requires r < |matrix| && |matrix[r]| == |inputblocks|
    requires forall j :: 0 <= j < |inputblocks| ==> |inputblocks[j]| == blocklength
    requires forall a :: 0 <= a < |order| ==> order[a] < |inputblocks|
    ensures var content := Folded(process, seq(blocklength, c => F.zero), r, order);
            && |content| == blocklength
            && forall c :: 0 <= c < blocklength ==> content[c] == DotIn(F, Lane(inputblocks, c), matrix[r], order)
    decreases |order|
  {
    if |order| > 0 {
      FoldedLanes(F, matrix, inputblocks, blocklength, r, order[..|order| - 1], process);
    }
  }

  /** If every task finishes, each output row is exactly what the serial loop leaves in it. */
  lemma {:induction false} ConcurrentEqualsSerial<T(!new)>(
    F: Field<T>, matrix: seq<seq<T>>, inputblocks: seq<seq<T>>, blocklength: nat, process: (seq<T>, nat, nat) -> seq<T>,
    s: State<seq<T>>, schedule: seq<nat>, r: nat)
    requires F.Lawful() && r < |matrix|
    requires forall q :: 0 <= q < |matrix| ==> |matrix[q]| == |inputblocks|
    requires forall j :: 0 <= j < |inputblocks| ==> |inputblocks[j]| == blocklength
    requires forall content, input, r :: process(content, input, r) ==
               Processed(F, matrix, inputblocks, content, input, r)
    requires Initial(s, |inputblocks|, |matrix|, seq(blocklength, c => F.zero))
    requires Covered(s.tasks, |inputblocks|, |matrix|) && Finished(Run(s, process, schedule))
    ensures |Run(s, process, schedule).row| == |matrix|
    ensures Run(s, process, schedule).row[r] == Accumulated(F, matrix[r], inputblocks, blocklength, |inputblocks|)
  {
    var n, zeros := |inputblocks|, seq(blocklength, c => F.zero);
    var s' := Run(s, process, schedule);
    EveryInputOnce(s, process, schedule, n, |matrix|, zeros);
    hide Run;
    hide Initial;
    hide Finished;
    hide Covered;
    var order := s'.order[r];
    FoldedLanes(F, matrix, inputblocks, blocklength, r, order, process);
    forall c | 0 <= c < blocklength
      ensures s'.row[r][c] == Dot(F, Lane(inputblocks, c), matrix[r], n)
    {
      DotInPermutation(F, Lane(inputblocks, c), matrix[r], order, n);
    }
  }
}
