/** Repair undoes create: lost data blocks come back element for element. */
module Repair {
  import opened Fields
  import opened Vectors
  import opened Matrices
  import opened Codes
  import opened ReedSolomon

  ghost predicate Blocks<T>(blocks: seq<seq<T>>, blocklength: nat) {
    forall j :: 0 <= j < |blocks| ==> |blocks[j]| == blocklength
  }

  /** The rows that ProcessData leaves in the output buffer. */
  ghost function Applied<T(!new)>(F: Field<T>, left: seq<T>, rows: nat, inputs: seq<seq<T>>,
                                  blocklength: nat): (out: seq<seq<T>>)
    requires Shape(left, rows, |inputs|) && Blocks(inputs, blocklength)
    ensures |out| == rows && Blocks(out, blocklength)
  {
    seq(rows, r requires 0 <= r < rows =>
      Accumulated(F, Row(left, rows, |inputs|, r), inputs, blocklength, |inputs|))
  }

  /** The recovery block with exponent e. */
  ghost function RecoveryBlock<T(!new)>(F: Field<T>, bases: seq<T>, blocks: seq<seq<T>>, blocklength: nat,
                                        e: nat): (b: seq<T>)
    requires Blocks(blocks, blocklength) && |blocks| == |bases|
    ensures |b| == blocklength
  {
    seq(blocklength, i requires 0 <= i < blocklength => Recovery(F, bases, Lane(blocks, i), e))
  }

  ghost function RecoveryBlocks<T(!new)>(F: Field<T>, bases: seq<T>, blocks: seq<seq<T>>, blocklength: nat,
                                         exps: seq<nat>): (r: seq<seq<T>>)
    requires Blocks(blocks, blocklength) && |blocks| == |bases|
    ensures |r| == |exps| && Blocks(r, blocklength)
    ensures forall k :: 0 <= k < |exps| ==> r[k] == RecoveryBlock(F, bases, blocks, blocklength, exps[k])
  {
    seq(|exps|, k requires 0 <= k < |exps| => RecoveryBlock(F, bases, blocks, blocklength, exps[k]))
  }

  lemma {:induction false} DotComm<T(!new)>(F: Field<T>, u: seq<T>, v: seq<T>, n: nat)
    requires F.Lawful() && n <= |u| && n <= |v|
    ensures Dot(F, u, v, n) == Dot(F, v, u, n)
  {
    if n > 0 {
      DotComm(F, u, v, n - 1);
      MulLaws(F, u[n - 1], v[n - 1]);
    }
  }

  /** A matrix that reconstructs values reconstructs whole blocks, lane by lane. */
  lemma {:induction false} BlocksReconstructed<T(!new)>(F: Field<T>, P: Problem<T>, left: seq<T>, blocks: seq<seq<T>>,
                                                        inputs: seq<seq<T>>, blocklength: nat)
    requires F.Lawful() && Reconstructs(F, P, left) && |blocks| == |P.bases| && Blocks(blocks, blocklength)
    requires inputs == Pick(blocks, P.PresentIdx()) + RecoveryBlocks(F, P.bases, blocks, blocklength, P.used)
    ensures |inputs| == P.Cols() && Blocks(inputs, blocklength)
    ensures Applied(F, left, P.Rows(), inputs, blocklength) ==
            Pick(blocks, P.MissingIdx()) + RecoveryBlocks(F, P.bases, blocks, blocklength, P.wanted)
  {
    var out := Applied(F, left, P.Rows(), inputs, blocklength);
    var want := Pick(blocks, P.MissingIdx()) + RecoveryBlocks(F, P.bases, blocks, blocklength, P.wanted);
    forall r | 0 <= r < P.Rows()
      ensures out[r] == want[r]
    {
      forall i | 0 <= i < blocklength
        ensures out[r][i] == want[r][i]
      {
        var data := Lane(blocks, i);
        assert Lane(inputs, i) == Inputs(F, P, data);
        DotComm(F, Lane(inputs, i), Row(left, P.Rows(), P.Cols(), r), P.Cols());
        assert RowDot(F, left, P.Rows(), P.Cols(), r, Inputs(F, P, data)) == Outputs(F, P, data)[r];
      }
    }
  }

  /** Every created block is the recovery block of its exponent. */
  lemma {:induction false} CreatedBlocks<T(!new)>(F: Field<T>, C: Problem<T>, left: seq<T>, blocks: seq<seq<T>>,
                                                  blocklength: nat)
    requires F.Lawful() && Reconstructs(F, C, left) && |blocks| == |C.bases| && Blocks(blocks, blocklength)
    requires forall i :: 0 <= i < |C.present| ==> C.present[i]
    ensures |blocks| == C.Cols()
    ensures Applied(F, left, C.Rows(), blocks, blocklength) ==
            RecoveryBlocks(F, C.bases, blocks, blocklength, C.wanted)
  {
    AllPresent(C.present, |C.present|);
    assert Pick(blocks, C.PresentIdx()) == blocks;
    assert RecoveryBlocks(F, C.bases, blocks, blocklength, C.used) == [];
    BlocksReconstructed(F, C, left, blocks, blocks, blocklength);
    assert Pick(blocks, C.MissingIdx()) == [];
  }

  /** Repair undoes create.  C is the problem the creator solved (all data present), R the one a repair
      solved, with the same bases.  Whatever the data blocks were: feed the creator's matrix all of them,
      lose the blocks that R calls missing, feed the repairer's matrix the rest followed by created
      blocks with the exponents R uses, and its first rows are exactly the lost blocks, in order. */
  lemma {:induction false} RepairUndoesCreate<T(!new)>(
    F: Field<T>, C: Problem<T>, create: seq<T>, R: Problem<T>, repair: seq<T>, chosen: seq<nat>,
    blocks: seq<seq<T>>, blocklength: nat, created: seq<seq<T>>, inputs: seq<seq<T>>)
    requires F.Lawful() && Reconstructs(F, C, create) && Reconstructs(F, R, repair)
    requires C.bases == R.bases && forall i :: 0 <= i < |C.present| ==> C.present[i]
    requires |blocks| == |C.bases| == C.Cols() && Blocks(blocks, blocklength)
    requires |chosen| == |R.used|
    requires forall k :: 0 <= k < |chosen| ==> chosen[k] < |C.wanted| && R.used[k] == C.wanted[chosen[k]]
    requires created == Applied(F, create, C.Rows(), blocks, blocklength)
    requires |created| == |C.wanted|
    requires inputs == Pick(blocks, R.PresentIdx()) + Pick(created, chosen)
    ensures |inputs| == R.Cols() && Blocks(inputs, blocklength)
    ensures Applied(F, repair, R.Rows(), inputs, blocklength)[..|R.MissingIdx()|] == Pick(blocks, R.MissingIdx())
    ensures Applied(F, repair, R.Rows(), inputs, blocklength)[|R.MissingIdx()|..] ==
            RecoveryBlocks(F, C.bases, blocks, blocklength, R.wanted)
  {
    CreatedBlocks(F, C, create, blocks, blocklength);
    assert Pick(created, chosen) == RecoveryBlocks(F, R.bases, blocks, blocklength, R.used);
    BlocksReconstructed(F, R, repair, blocks, inputs, blocklength);
  }
}
