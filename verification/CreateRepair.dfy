/** The create and repair programs around the Reed-Solomon object: which blocks and exponents
    par2creator.cpp and par2repairer.cpp hand to it, and what comes out. */
module CreateRepair {
  import opened Fields
  import opened Matrices
  import opened Codes
  import opened Vandermonde
  import opened ReedSolomon
  import opened Repair
  import opened GaloisFields
  import GaloisTables
  import Polynomials
  import opened Bases

  /** A recovery packet: its exponent and its block. */
  datatype RecoveryPacket<T> = RecoveryPacket(exponent: nat, block: seq<T>)

  function Ascending(first: nat, count: nat): (r: seq<nat>)
    ensures |r| == count && forall i :: 0 <= i < count ==> r[i] == first + i
  {
    seq(count, i requires 0 <= i => first + i)
  }

  /** The exponents of the packets, as the matrix has them: a packet has 32 bits for it, and 16 are used. */
  function PacketExponents<T>(packets: seq<RecoveryPacket<T>>): (r: seq<nat>)
    ensures |r| == |packets| && forall i :: 0 <= i < |r| ==> r[i] == Truncated(packets[i].exponent)
  {
    seq(|packets|, i requires 0 <= i < |packets| => Truncated(packets[i].exponent))
  }

  /** Cut a buffer into its rows. */
  method SplitRows<T>(buffer: array<T>, rows: nat, cols: nat) returns (r: seq<seq<T>>)
    requires Shape(buffer[..], rows, cols)
    ensures |r| == rows && forall k :: 0 <= k < rows ==> r[k] == Row(buffer[..], rows, cols, k)
  {
    hide Off;
    r := [];
    var offset := 0;
    OffStep(0, cols);
    for k := 0 to rows
      invariant |r| == k && offset == Off(k, cols)
      invariant forall j :: 0 <= j < k ==> r[j] == Row(buffer[..], rows, cols, j)
    {
      OffOrder(k, rows, cols);
      OffStep(k, cols);
      r := r + [buffer[offset..offset + cols]];
      assert r[k] == buffer[..][offset..offset + cols];
      offset := offset + cols;
    }
  }

  /** The rows of outputs that are all present, or all to be computed. */
  function RowsFor(present: bool, exps: seq<nat>): (r: seq<RSOutputRow>)
    ensures |r| == |exps| && forall i :: 0 <= i < |r| ==> r[i] == RSOutputRow(present, exps[i])
  {
    seq(|exps|, i requires 0 <= i < |exps| => RSOutputRow(present, exps[i]))
  }

  lemma {:induction false} ExponentsOf(present: bool, exps: seq<nat>, n: nat)
    requires n <= |exps|
    ensures Exponents(RowsFor(present, exps), n, present) == exps[..n]
    ensures Exponents(RowsFor(present, exps), n, !present) == []
    decreases n
  {
    if n > 0 {
      ExponentsOf(present, exps, n - 1);
      assert exps[..n] == exps[..n - 1] + [exps[n - 1]];
    }
  }

  /** The problem described by outputs that are all of one kind. */
  lemma {:induction false} ProblemOf<T(!new, 0)>(rs: ReedSolomon<T>, present: bool, exps: seq<nat>)
    requires rs.Valid() && rs.outputrows == RowsFor(present, exps)
    requires rs.datamissing == if present then |exps| else 0
    ensures rs.datamissing <= rs.parpresent && rs.parmissing == (if present then 0 else |exps|)
    ensures rs.parpresent == if present then |exps| else 0
    ensures rs.TheProblem() ==
              Problem(rs.database[..], rs.present, if present then exps else [], if present then [] else exps)
  {
    hide Indices;
    ExponentsOf(present, exps, |exps|);
    assert exps[..|exps|] == exps;
  }

  /** Apply the matrix to blocks of data. */
  method Apply<T(!new, ==, 0)>(rs: ReedSolomon<T>, inputblocks: seq<seq<T>>, blocklength: nat)
    returns (rows: seq<seq<T>>)
    requires rs.Computed() && |inputblocks| == rs.TheProblem().Cols() && Blocks(inputblocks, blocklength)
    ensures rows == Applied(rs.F, rs.leftmatrix[..], rs.TheProblem().Rows(), inputblocks, blocklength)
  {
    hide Off;
    hide Indices;
    hide Exponents;
    ghost var n := rs.TheProblem().Rows();
    var buffer := rs.ProcessData(inputblocks, blocklength);
    rows := SplitRows(buffer, rs.datamissing + rs.parmissing, blocklength);
    assert forall k :: 0 <= k < n ==> rows[k] == Applied(rs.F, rs.leftmatrix[..], n, inputblocks, blocklength)[k];
  }

  /** A problem with nothing missing can always be solved. */
  lemma {:induction false} NothingToSolve<T(!new)>(F: Field<T>, P: Problem<T>)
    requires P.Valid() && P.used == []
    ensures Solvable(F, P)
  {
  }

  /** Set up the object for creating: all source blocks are present. */
  method ForCreate<T(!new, ==, 0)>(F: Field<T>, bases: seq<T>, first: nat, count: nat)
    returns (rs: ReedSolomon<T>)
    requires F.Lawful() && count > 0 && first + count < EXPONENTS
    ensures fresh(rs) && rs.F == F && rs.Computed() && rs.Valid() && rs.datamissing <= rs.parpresent
    ensures var P := rs.TheProblem();
            && P.bases == bases && P.used == [] && P.wanted == Ascending(first, count)
            && (forall i :: 0 <= i < |P.present| ==> P.present[i]) && Reconstructs(F, P, rs.leftmatrix[..])
  {
    hide Reconstructs;
    hide Solvable;
    hide Off;
    var present := seq(|bases|, i => true);
    rs := new ReedSolomon(F);
    rs.SetInput(present, bases);
    rs.SetOutputRange(false, first, first + (count - 1));
    assert rs.outputrows == RowsFor(false, Ascending(first, count));
    AllPresent(present, |present|);
    assert rs.datamissing == 0 by {
      assert |rs.datamissingindex[..rs.datamissing]| == 0;
    }
    ProblemOf(rs, false, Ascending(first, count));
    NothingToSolve(F, rs.TheProblem());
    hide Indices;
    hide Exponents;
    var ok := rs.Compute();
    assert ok;
    ComputedShape(rs);
  }

  lemma {:induction false} ComputedShape<T(!new, 0)>(rs: ReedSolomon<T>)
    requires rs.Valid() && rs.datamissing <= rs.parpresent && Reconstructs(rs.F, rs.TheProblem(), rs.leftmatrix[..])
    ensures rs.Computed()
  {
    hide Indices;
    hide Exponents;
    hide Off;
  }

  /** Create: all source blocks are present, and recovery blocks with the exponents first, first+1, ...
      are computed.  Every one of them is the recovery block of its exponent. */
  method CreateData<T(!new, ==, 0)>(F: Field<T>, bases: seq<T>, blocks: seq<seq<T>>, blocklength: nat, first: nat,
                                    count: nat) returns (packets: seq<RecoveryPacket<T>>)
    requires F.Lawful() && |bases| == |blocks| && Blocks(blocks, blocklength) && count > 0
    requires first + count < EXPONENTS
    ensures |packets| == count && forall k :: 0 <= k < count ==> packets[k].exponent == first + k
    ensures forall k :: 0 <= k < |packets| ==>
              packets[k].block == RecoveryBlock(F, bases, blocks, blocklength, packets[k].exponent)
  {
    hide Reconstructs;
    hide RecoveryBlock;
    hide ReedSolomon.Computed;
    var rs := ForCreate(F, bases, first, count);
    ghost var P := rs.TheProblem();
    CreatedBlocks(F, P, rs.leftmatrix[..], blocks, blocklength);
    var rows := Apply(rs, blocks, blocklength);
    packets := seq(count, k requires 0 <= k < count => RecoveryPacket(first + k, rows[k]));
  }

  /** Set up the object for repairing: as many recovery packets are used, in the order of the map they
      are kept in, as source blocks are missing. */
  method ForRepair<T(!new, ==, 0)>(F: Field<T>, bases: seq<T>, present: seq<bool>, packets: seq<RecoveryPacket<T>>)
    returns (rs: ReedSolomon<T>, ok: bool)
    requires F.Lawful() && |bases| == |present|
    requires 0 < |Indices(present, |present|, false)| <= |packets|
    ensures fresh(rs) && rs.F == F && rs.Valid() && rs.datamissing <= rs.parpresent
    ensures var m := |Indices(present, |present|, false)|;
            rs.TheProblem() == Problem(bases, present, PacketExponents(packets)[..m], [])
    ensures ok <==> Solvable(F, rs.TheProblem())
    ensures ok ==> rs.Computed() && Reconstructs(F, rs.TheProblem(), rs.leftmatrix[..])
  {
    hide Reconstructs;
    hide Solvable;
    hide Off;
    hide Indices;
    hide Exponents;
    rs := new ReedSolomon(F);
    rs.SetInput(present, bases);
    ghost var m := |Indices(present, |present|, false)|;
    assert rs.datamissing == m by {
      assert rs.datamissingindex[..rs.datamissing] == Indices(present, |present|, false);
    }
    ghost var exps := PacketExponents(packets);
    var rp := 0;
    while rp < rs.datamissing
      invariant 0 <= rp <= rs.datamissing == m && fresh(rs) && rs.F == F && rs.Valid()
      invariant rs.present == present && rs.database[..] == bases && rs.outputrows == RowsFor(true, exps[..rp])
    {
      rs.SetOutput(true, Truncated(packets[rp].exponent));
      rp := rp + 1;
    }
    ProblemOf(rs, true, exps[..m]);
    ok := rs.Compute();
    if ok {
      ComputedShape(rs);
    }
  }

  /** Repair: the present blocks, followed by recovery blocks, go through the matrix, and the missing
      blocks come out.  Whatever the data was, if the packets hold its recovery blocks then what comes
      out are the missing blocks, in order.  Repair fails exactly if the matrix cannot be solved. */
  method RepairData<T(!new, ==, 0)>(F: Field<T>, bases: seq<T>, present: seq<bool>, found: seq<seq<T>>,
                                packets: seq<RecoveryPacket<T>>, blocklength: nat, ghost data: seq<seq<T>>)
    returns (ok: bool, restored: seq<seq<T>>)
    requires F.Lawful() && |bases| == |present| == |data| && Blocks(data, blocklength)
    requires |Indices(present, |present|, false)| <= |packets|
    requires found == Pick(data, Indices(present, |present|, true))
    requires forall k :: 0 <= k < |packets| ==>
               packets[k].block == RecoveryBlock(F, bases, data, blocklength, Truncated(packets[k].exponent))
    ensures var missing := Indices(present, |present|, false);
            var P := Problem(bases, present, PacketExponents(packets)[..|missing|], []);
            && P.Valid() && (ok <==> Solvable(F, P))
            && (ok ==> restored == Pick(data, missing))
  {
    ghost var missing := Indices(present, |present|, false);
    IndicesCount(present, |present|);
    hide Reconstructs;
    hide RecoveryBlock;
    hide Indices;
    hide Exponents;
    var m := |present| - |found|;
    ghost var P := Problem(bases, present, PacketExponents(packets)[..m], []);
    if m == 0 {
      NothingToSolve(F, P);
      return true, [];
    }
    hide Solvable;
    var rs;
    rs, ok := ForRepair(F, bases, present, packets);
    if !ok {
      return false, [];
    }
    var inputs := found + seq(m, k requires 0 <= k < m => packets[k].block);
    RepairInputs(F, P, data, inputs, packets, blocklength);
    BlocksReconstructed(F, P, rs.leftmatrix[..], data, inputs, blocklength);
    var rows := Apply(rs, inputs, blocklength);
    assert RecoveryBlocks(F, bases, data, blocklength, []) == [];
    restored := rows;
  }

  lemma {:induction false} RepairInputs<T(!new)>(F: Field<T>, P: Problem<T>, data: seq<seq<T>>, inputs: seq<seq<T>>,
                                                 packets: seq<RecoveryPacket<T>>, blocklength: nat)
    requires P.Valid() && |data| == |P.bases| && Blocks(data, blocklength) && |P.used| <= |packets|
    requires P.used == PacketExponents(packets)[..|P.used|]
    requires forall k :: 0 <= k < |packets| ==>
               packets[k].block == RecoveryBlock(F, P.bases, data, blocklength, Truncated(packets[k].exponent))
    requires inputs == Pick(data, P.PresentIdx()) + seq(|P.used|, k requires 0 <= k < |P.used| => packets[k].block)
    ensures inputs == Pick(data, P.PresentIdx()) + RecoveryBlocks(F, P.bases, data, blocklength, P.used)
  {
    hide RecoveryBlock;
    hide Indices;
    var r := RecoveryBlocks(F, P.bases, data, blocklength, P.used);
    forall k | 0 <= k < |P.used|
      ensures packets[k].block == r[k]
    {
      assert P.used[k] == Truncated(packets[k].exponent);
    }
    assert r == seq(|P.used|, k requires 0 <= k < |P.used| => packets[k].block);
  }

  /** Create recovery blocks for some data, lose any of the data blocks, and repair with any of the
      recovery blocks, as many as data blocks are lost: what comes back is what was lost. */
  method CreateThenRepair<T(!new, ==, 0)>(F: Field<T>, bases: seq<T>, data: seq<seq<T>>, blocklength: nat, first: nat,
                                          count: nat, present: seq<bool>, kept: seq<nat>)
    returns (ok: bool, restored: seq<seq<T>>)
    requires F.Lawful() && |bases| == |present| == |data| && Blocks(data, blocklength) && count > 0
    requires first + count < EXPONENTS
    requires |kept| == |Indices(present, |present|, false)| && forall k :: 0 <= k < |kept| ==> kept[k] < count
    ensures ok ==> restored == Pick(data, Indices(present, |present|, false))
    ensures var P := Problem(bases, present, seq(|kept|, k requires 0 <= k < |kept| => first + kept[k]), []);
            P.Valid() && (ok <==> Solvable(F, P))
  {
    hide RecoveryBlock;
    hide Solvable;
    hide Indices;
    var created := CreateData(F, bases, data, blocklength, first, count);
    var packets := Pick(created, kept);
    assert PacketExponents(packets)[..|kept|] == seq(|kept|, k requires 0 <= k < |kept| => first + kept[k]);
    var found := PickPresent(data, present);
    ok, restored := RepairData(F, bases, present, found, packets, blocklength, data);
  }

  /** The blocks that are present. */
  method PickPresent<T>(blocks: seq<seq<T>>, present: seq<bool>) returns (found: seq<seq<T>>)
    requires |blocks| == |present|
    ensures found == Pick(blocks, Indices(present, |present|, true))
  {
    found := [];
    for i := 0 to |present|
      invariant found == Pick(blocks, Indices(present, i, true))
    {
      if present[i] {
        found := found + [blocks[i]];
      }
    }
  }

  /** In PAR2, repair with consecutive recovery blocks never fails: any number of lost blocks is restored. */
  method ConsecutiveRepair(table: GaloisTables.GaloisTable, data: seq<seq<Element16>>, blocklength: nat, first: nat,
                           count: nat, present: seq<bool>, from: nat) returns (restored: seq<seq<Element16>>)
    requires table.Valid() && table.g == Polynomials.GALOIS16
    requires |present| == |data| <= 32768 && Blocks(data, blocklength)
    requires count > 0 && first + count < EXPONENTS && from + |Indices(present, |present|, false)| <= count
    ensures restored == Pick(data, Indices(present, |present|, false))
  {
    hide Solvable;
    hide Blocks;
    var chosen, bases := ChooseBases16(table, |data|);
    ghost var m := |Indices(present, |present|, false)|;
    var found := PickPresent(data, present);
    IndicesCount(present, |present|);
    hide Indices;
    var kept := seq(|data| - |found|, k requires 0 <= k => from + k);
    Field16Lawful();
    ghost var P := Problem(bases, present, seq(|kept|, k requires 0 <= k < |kept| => first + kept[k]), []);
    Ascending16Succeeds(P);
    var ok;
    ok, restored := CreateThenRepair(FIELD16, bases, data, blocklength, first, count, present, kept);
  }
}
