/** Create and repair on files of bytes: what was lost comes back bit for bit. */
module FileRepair {
  import opened Arithmetic
  import opened Bytes
  import Matrices
  import opened Codes
  import opened Vandermonde
  import opened ReedSolomon
  import opened Repair
  import opened GaloisFields
  import opened LongMultiply
  import opened ByteLanes
  import opened Bases
  import GaloisTables
  import Polynomials
  import CreateRepair
  import opened SourceFiles
  import opened Chunks

  /** Block sizes are multiples of four, and so of the two bytes of a lane. */
  predicate IsBlockSize(n: nat) {
    0 < n && n % 4 == 0 && n % 2 == 0
  }

  /** A recovery packet on disk: its exponent, and where its data is. */
  datatype Packet = Packet(exponent: nat, input: InputBlock)

  /** The contents of source blocks, none longer than the block size. */
  predicate Contents(data: seq<seq<byte>>, blocksize: nat) {
    forall i :: 0 <= i < |data| ==> |data[i]| <= blocksize
  }

  /** The contents, padded with zeros, as field elements. */
  function PaddedLanes(data: seq<seq<byte>>, blocksize: nat): (r: seq<seq<Element16>>)
    requires IsBlockSize(blocksize) && Contents(data, blocksize)
    ensures |r| == |data| && Blocks(r, blocksize / 2)
    ensures forall i :: 0 <= i < |r| ==> r[i] == Lanes(PaddedTo(data[i], blocksize))
  {
    seq(|data|, i requires 0 <= i < |data| => Lanes(PaddedTo(data[i], blocksize)))
  }

  /** The bytes of the recovery block with exponent e. */
  ghost function RecoveryBytes(bases: seq<Element16>, data: seq<seq<byte>>, blocksize: nat, e: nat): (r: seq<byte>)
    requires IsBlockSize(blocksize) && Contents(data, blocksize) && |data| == |bases|
    ensures |r| == blocksize
  {
    LaneBytes(RecoveryBlock(FIELD16, bases, PaddedLanes(data, blocksize), blocksize / 2, e))
  }

  /** What a target holds. */
  ghost predicate Restored(target: Target, content: seq<byte>)
    reads if target.Target? then {target.file} else {}
  {
    target.Target? ==>
      && target.block.offset + target.block.length <= target.file.Length
      && target.file[target.block.offset..target.block.offset + target.block.length] == content
  }

  lemma {:induction false} LaneBytesOfLanes(b: seq<byte>)
    requires |b| % 2 == 0
    ensures LaneBytes(Lanes(b)) == b
  {
    LanesOfLaneBytes(Lanes(b));
    LanesDetermine(LaneBytes(Lanes(b)), b);
  }

  /** A target that has been written to the end of the block holds what it was to hold. */
  lemma {:induction false} WrittenToEnd(target: Target, content: seq<byte>, blocksize: nat)
    requires |content| <= blocksize && Written(target, PaddedTo(content, blocksize), blocksize)
    requires target.Target? ==> target.block.length == |content|
    ensures Restored(target, content)
  {
    assert PaddedTo(content, blocksize)[..|content|] == content;
  }

  /** Every row of a matrix that gives certain blocks gives their bytes. */
  lemma {:induction false} RowGives(matrix: seq<Element16>, rows: nat, cols: nat, wholes: seq<seq<byte>>,
                                    blocksize: nat, o: nat, block: seq<Element16>)
    requires Matrices.Shape(matrix, rows, cols) && |wholes| == cols && IsBlockSize(blocksize)
    requires Blocks(wholes, blocksize) && o < rows
    requires Applied(FIELD16, matrix, rows, LaneBlocks(wholes, blocksize), blocksize / 2)[o] == block
    ensures RowBytes(Matrices.Row(matrix, rows, cols, o), wholes, blocksize) == LaneBytes(block)
  {
    hide Accumulated;
    hide LaneBytes;
  }

  /** What the input blocks hold. */
  function ContentsOf(inputs: seq<InputBlock>, blocksize: nat): (r: seq<seq<byte>>)
    requires AllValid(inputs, blocksize)
    ensures |r| == |inputs| && forall j :: 0 <= j < |r| ==> r[j] == inputs[j].Content()
    ensures Contents(r, blocksize)
  {
    seq(|inputs|, j requires 0 <= j < |inputs| => inputs[j].Content())
  }

  lemma {:induction false} SameLanes(inputs: seq<InputBlock>, blocksize: nat)
    requires IsBlockSize(blocksize) && AllValid(inputs, blocksize)
    ensures LaneBlocks(Wholes(inputs, blocksize), blocksize) == PaddedLanes(ContentsOf(inputs, blocksize), blocksize)
  {
    hide Lanes;
  }

  /** A problem with all blocks present, asking for the exponents first, first+1, ... */
  ghost predicate Creates(C: Problem<Element16>, first: nat, count: nat) {
    && C.used == [] && C.wanted == CreateRepair.Ascending(first, count)
    && forall i :: 0 <= i < |C.present| ==> C.present[i]
  }

  /** The creator's matrix gives the recovery blocks, in bytes. */
  lemma {:induction false} CreateWants(C: Problem<Element16>, left: seq<Element16>, inputs: seq<InputBlock>,
                                       blocksize: nat, first: nat, count: nat, k: nat)
    requires Reconstructs(FIELD16, C, left) && |inputs| == |C.bases| && IsBlockSize(blocksize)
    requires AllValid(inputs, blocksize)
    requires Creates(C, first, count) && k < count
    ensures Matrices.Shape(left, count, |inputs|)
    ensures RowBytes(Matrices.Row(left, count, |inputs|, k), Wholes(inputs, blocksize), blocksize) ==
            RecoveryBytes(C.bases, ContentsOf(inputs, blocksize), blocksize, first + k)
  {
    Field16Lawful();
    hide LaneBytes;
    hide RowBytes;
    hide RecoveryBlock;
    SameLanes(inputs, blocksize);
    ghost var blocks := PaddedLanes(ContentsOf(inputs, blocksize), blocksize);
    CreatedBlocks(FIELD16, C, left, blocks, blocksize / 2);
    var out := RecoveryBlocks(FIELD16, C.bases, blocks, blocksize / 2, C.wanted);
    assert out[k] == RecoveryBlock(FIELD16, C.bases, blocks, blocksize / 2, first + k);
    RowGives(left, count, |inputs|, Wholes(inputs, blocksize), blocksize, k, out[k]);
  }

  /** Every target holds the recovery block of its exponent. */
  ghost predicate RecoveryWritten(outputs: seq<Target>, bases: seq<Element16>, data: seq<seq<byte>>, blocksize: nat,
                                  first: nat)
    requires IsBlockSize(blocksize) && Contents(data, blocksize) && |data| == |bases|
    reads Files(outputs)
  {
    forall k :: 0 <= k < |outputs| ==> Restored(outputs[k], RecoveryBytes(bases, data, blocksize, first + k))
  }

  /** The creator's matrix. */
  method CreateMatrix(bases: seq<Element16>, first: nat, count: nat)
    returns (left: seq<Element16>, ghost C: Problem<Element16>)
    requires count > 0 && first + count < EXPONENTS
    ensures C.bases == bases && Creates(C, first, count) && Reconstructs(FIELD16, C, left)
  {
    hide Reconstructs;
    Field16Lawful();
    var rs := CreateRepair.ForCreate(FIELD16, bases, first, count);
    left, C := rs.leftmatrix[..], rs.TheProblem();
  }

  /** Create recovery data: every target ends up with the recovery block of its exponent. */
  method CreateFiles(t: GaloisLongMultiplyTable, bases: seq<Element16>, inputs: seq<InputBlock>, first: nat, count: nat,
                     outputs: seq<Target>, blocksize: nat, memorylimit: nat)
    requires t.Valid() && t.bytes == 2 && t.g == Polynomials.GALOIS16 && Clear(t, outputs)
    requires IsBlockSize(blocksize) && AllValid(inputs, blocksize) && |bases| == |inputs|
    requires 0 < count == |outputs| && Separate(outputs, blocksize) && Times(4, count) <= memorylimit
    requires first + count < EXPONENTS
    requires forall k :: 0 <= k < count ==> outputs[k].Target? && outputs[k].block.length == blocksize
    modifies Files(outputs)
    ensures t.Valid() && Untouched(outputs)
    ensures RecoveryWritten(outputs, bases, ContentsOf(inputs, blocksize), blocksize, first)
  {
    hide GaloisLongMultiplyTable.Valid, Reconstructs, RecoveryBytes, Restored, Separate, Outside, Clear, Wanted,
         Progress, Setting, Matrices.Shape, AllValid, RecoveryWritten;
    var left, C := CreateMatrix(bases, first, count);
    CreateWants(C, left, inputs, blocksize, first, count, 0);
    var chunksize := ChunkSize(blocksize, count, memorylimit);
    ghost var wants := Wanted(left, count, |inputs|, Wholes(inputs, blocksize), blocksize, 0);
    assert [] + outputs == outputs;
    CreateSetting(t, C, left, inputs, outputs, first, count, blocksize, chunksize);
    ProcessBlocks(t, left, count, |inputs|, inputs, [], outputs, blocksize, chunksize, wants);
    Created(C, left, inputs, blocksize, first, count, outputs, wants);
  }

  lemma {:induction false} CreateSetting(t: GaloisLongMultiplyTable, C: Problem<Element16>, left: seq<Element16>,
                                         inputs: seq<InputBlock>, outputs: seq<Target>, first: nat, count: nat,
                                         blocksize: nat, chunksize: nat)
    requires t.bytes == 2 && t.g == Polynomials.GALOIS16 && Clear(t, outputs)
    requires 0 < chunksize <= blocksize && IsBlockSize(blocksize) && chunksize % 4 == 0 && AllValid(inputs, blocksize)
    requires Matrices.Shape(left, count, |inputs|) && count == |outputs| && Separate(outputs, blocksize)
    ensures Setting(t, left, count, |inputs|, inputs, 0, blocksize, 0, chunksize, outputs,
                    Wanted(left, count, |inputs|, Wholes(inputs, blocksize), blocksize, 0))
  {
    hide Separate;
    hide Clear;
    hide RowBytes;
  }

  lemma {:induction false} Created(C: Problem<Element16>, left: seq<Element16>, inputs: seq<InputBlock>, blocksize: nat,
                                   first: nat, count: nat, outputs: seq<Target>, wants: seq<seq<byte>>)
    requires Creates(C, first, count) && Reconstructs(FIELD16, C, left) && count == |outputs|
    requires |inputs| == |C.bases| && IsBlockSize(blocksize) && AllValid(inputs, blocksize)
    requires Matrices.Shape(left, count, |inputs|)
    requires wants == Wanted(left, count, |inputs|, Wholes(inputs, blocksize), blocksize, 0)
    requires Progress(outputs, wants, 0, blocksize, blocksize)
    requires forall k :: 0 <= k < count ==> outputs[k].Target? && outputs[k].block.length == blocksize
    ensures RecoveryWritten(outputs, C.bases, ContentsOf(inputs, blocksize), blocksize, first)
  {
    hide Reconstructs;
    hide RowBytes;
    hide RecoveryBytes;
    hide Written;
    hide Restored;
    SameLanes(inputs, blocksize);
    forall k | 0 <= k < count
      ensures Restored(outputs[k], RecoveryBytes(C.bases, ContentsOf(inputs, blocksize), blocksize, first + k))
    {
      CreateWants(C, left, inputs, blocksize, first, count, k);
      assert Written(outputs[k], wants[k], blocksize);
      var want := RecoveryBytes(C.bases, ContentsOf(inputs, blocksize), blocksize, first + k);
      assert PaddedTo(want, blocksize) == want;
      WrittenToEnd(outputs[k], want, blocksize);
    }
  }

  /** The source blocks that were found hold what they should. */
  ghost predicate Found(found: seq<InputBlock>, data: seq<seq<byte>>, idx: seq<nat>, blocksize: nat) {
    && |found| == |idx| && AllValid(found, blocksize)
    && forall k :: 0 <= k < |found| ==> idx[k] < |data| && found[k].Content() == data[idx[k]]
  }

  /** The recovery packets hold the recovery blocks of the data. */
  ghost predicate PacketsHold(packets: seq<Packet>, bases: seq<Element16>, data: seq<seq<byte>>, blocksize: nat) {
    && IsBlockSize(blocksize) && Contents(data, blocksize) && |data| == |bases|
    && forall k :: 0 <= k < |packets| ==>
         && packets[k].input.Valid(blocksize)
         && packets[k].input.Content() == RecoveryBytes(bases, data, blocksize, Truncated(packets[k].exponent))
  }

  /** The targets have the sizes of the blocks that are to be written to them. */
  ghost predicate TargetsFit(targets: seq<Target>, data: seq<seq<byte>>, idx: seq<nat>) {
    && |targets| == |idx|
    && forall k :: 0 <= k < |idx| ==>
      idx[k] < |data| && (targets[k].Target? ==> targets[k].block.length == |data[idx[k]]|)
  }

  /** The targets hold the blocks. */
  ghost predicate AllRestored(targets: seq<Target>, data: seq<seq<byte>>, idx: seq<nat>)
    requires TargetsFit(targets, data, idx)
    reads Files(targets)
  {
    forall k :: 0 <= k < |targets| ==> Restored(targets[k], data[idx[k]])
  }

  /** What repair reads: the blocks that were found, then the data of recovery packets. */
  function RepairInputs(found: seq<InputBlock>, packets: seq<Packet>, m: nat): (r: seq<InputBlock>)
    requires m <= |packets|
    ensures |r| == |found| + m
  {
    found + seq(m, k requires 0 <= k < m => packets[k].input)
  }

  function Exponents(packets: seq<Packet>, m: nat): (r: seq<nat>)
    requires m <= |packets|
    ensures |r| == m && forall k :: 0 <= k < m ==> r[k] == Truncated(packets[k].exponent)
  {
    seq(m, k requires 0 <= k < m => Truncated(packets[k].exponent))
  }

  /** What repair reads, as field elements. */
  lemma {:induction false} RepairReads(P: Problem<Element16>, data: seq<seq<byte>>, found: seq<InputBlock>,
                                       packets: seq<Packet>, blocksize: nat)
    requires P.Valid() && |data| == |P.bases| && PacketsHold(packets, P.bases, data, blocksize) && |P.used| <= |packets|
    requires Found(found, data, P.PresentIdx(), blocksize) && P.used == Exponents(packets, |P.used|)
    ensures var inputs := RepairInputs(found, packets, |P.used|);
            && AllValid(inputs, blocksize) && |inputs| == P.Cols()
            && LaneBlocks(Wholes(inputs, blocksize), blocksize) ==
               Pick(PaddedLanes(data, blocksize), P.PresentIdx()) +
               RecoveryBlocks(FIELD16, P.bases, PaddedLanes(data, blocksize), blocksize / 2, P.used)
  {
    hide Lanes;
    hide LaneBytes;
    hide RecoveryBlock;
    hide Indices;
    var inputs, blocks := RepairInputs(found, packets, |P.used|), PaddedLanes(data, blocksize);
    var a := LaneBlocks(Wholes(inputs, blocksize), blocksize);
    var b := Pick(blocks, P.PresentIdx()) + RecoveryBlocks(FIELD16, P.bases, blocks, blocksize / 2, P.used);
    forall j | 0 <= j < |inputs|
      ensures a[j] == b[j]
    {
      if j >= |found| {
        var k := j - |found|;
        var want := RecoveryBytes(P.bases, data, blocksize, Truncated(packets[k].exponent));
        assert PaddedTo(want, blocksize) == want;
        LanesOfLaneBytes(RecoveryBlock(FIELD16, P.bases, blocks, blocksize / 2, Truncated(packets[k].exponent)));
      }
    }
  }

  /** The repairer's matrix gives the missing blocks, in bytes. */
  lemma {:induction false} RepairWants(P: Problem<Element16>, left: seq<Element16>, data: seq<seq<byte>>,
                                       found: seq<InputBlock>, packets: seq<Packet>, blocksize: nat, o: nat)
    requires Reconstructs(FIELD16, P, left) && P.wanted == [] && o < |P.used|
    requires |data| == |P.bases| && PacketsHold(packets, P.bases, data, blocksize) && |P.used| <= |packets|
    requires Found(found, data, P.PresentIdx(), blocksize) && P.used == Exponents(packets, |P.used|)
    ensures var inputs := RepairInputs(found, packets, |P.used|);
            && Matrices.Shape(left, |P.used|, |inputs|) && AllValid(inputs, blocksize)
            && o < |P.MissingIdx()| && P.MissingIdx()[o] < |data|
            && RowBytes(Matrices.Row(left, |P.used|, |inputs|, o), Wholes(inputs, blocksize), blocksize) ==
               PaddedTo(data[P.MissingIdx()[o]], blocksize)
  {
    hide Lanes;
    hide LaneBytes;
    hide RecoveryBlock;
    hide RecoveryBytes;
    hide RowBytes;
    hide Indices;
    Field16Lawful();
    RepairReads(P, data, found, packets, blocksize);
    var inputs, blocks := RepairInputs(found, packets, |P.used|), PaddedLanes(data, blocksize);
    BlocksReconstructed(FIELD16, P, left, blocks, LaneBlocks(Wholes(inputs, blocksize), blocksize), blocksize / 2);
    var i := P.MissingIdx()[o];
    RowGives(left, |P.used|, |inputs|, Wholes(inputs, blocksize), blocksize, o, blocks[i]);
    LaneBytesOfLanes(PaddedTo(data[i], blocksize));
  }

  /** The problem that a repair solves: as many recovery packets are used as blocks are missing. */
  ghost function RepairProblem(bases: seq<Element16>, present: seq<bool>, packets: seq<Packet>): (P: Problem<Element16>)
    requires |bases| == |present| && |Indices(present, |present|, false)| <= |packets|
    ensures P.Valid() && P.bases == bases && P.present == present && P.wanted == []
    ensures |P.used| == |Indices(present, |present|, false)| && P.used == Exponents(packets, |P.used|)
  {
    Problem(bases, present, Exponents(packets, |Indices(present, |present|, false)|), [])
  }

  /** The repairer's matrix, if there is one. */
  method RepairMatrix(bases: seq<Element16>, present: seq<bool>, packets: seq<Packet>, m: nat)
    returns (ok: bool, left: seq<Element16>)
    requires |bases| == |present| && 0 < m == |Indices(present, |present|, false)| <= |packets|
    ensures ok <==> Solvable(FIELD16, RepairProblem(bases, present, packets))
    ensures ok ==> Reconstructs(FIELD16, RepairProblem(bases, present, packets), left)
  {
    hide Reconstructs;
    hide Solvable;
    hide Indices;
    Field16Lawful();
    var exponents: seq<CreateRepair.RecoveryPacket<Element16>> :=
      seq(|packets|,
          k requires 0 <= k < |packets| => CreateRepair.RecoveryPacket.RecoveryPacket(packets[k].exponent, []));
    var rs;
    rs, ok := CreateRepair.ForRepair(FIELD16, bases, present, exponents);
    assert CreateRepair.PacketExponents(exponents)[..m] == Exponents(packets, m);
    left := rs.leftmatrix[..];
  }

  /** With no missing block there is nothing to solve, and no row to the matrix. */
  lemma {:induction false} NothingMissing(P: Problem<Element16>)
    requires P.Valid() && P.used == [] && P.wanted == []
    ensures Solvable(FIELD16, P) && Reconstructs(FIELD16, P, [])
  {
    hide Indices;
  }

  /** What the targets of a repair are to hold. */
  ghost function RepairTargets(P: Problem<Element16>, left: seq<Element16>, data: seq<seq<byte>>,
                               found: seq<InputBlock>, packets: seq<Packet>, blocksize: nat): (w: seq<seq<byte>>)
    requires Reconstructs(FIELD16, P, left) && P.wanted == [] && |P.used| <= |packets|
    requires |data| == |P.bases| && PacketsHold(packets, P.bases, data, blocksize)
    requires P.used == Exponents(packets, |P.used|)
    requires Found(found, data, P.PresentIdx(), blocksize)
  {
    RepairReads(P, data, found, packets, blocksize);
    var inputs := RepairInputs(found, packets, |P.used|);
    Wanted(left, |P.used|, |inputs|, Wholes(inputs, blocksize), blocksize, |found|)
  }

  lemma {:induction false} RepairSetting(t: GaloisLongMultiplyTable, P: Problem<Element16>, left: seq<Element16>,
                                         data: seq<seq<byte>>, found: seq<InputBlock>, packets: seq<Packet>,
                                         all: seq<Target>, blocksize: nat, chunksize: nat)
    requires t.bytes == 2 && t.g == Polynomials.GALOIS16 && Clear(t, all)
    requires Reconstructs(FIELD16, P, left) && P.wanted == [] && |P.used| <= |packets|
    requires |data| == |P.bases| && PacketsHold(packets, P.bases, data, blocksize)
    requires P.used == Exponents(packets, |P.used|)
    requires Found(found, data, P.PresentIdx(), blocksize)
    requires 0 < chunksize <= blocksize && chunksize % 4 == 0 && |all| == |found| + |P.used| && Separate(all, blocksize)
    ensures var inputs := RepairInputs(found, packets, |P.used|);
            Setting(t, left, |P.used|, |inputs|, inputs, |found|, blocksize, 0, chunksize, all,
                    RepairTargets(P, left, data, found, packets, blocksize))
  {
    hide Separate, Clear, RowBytes, Lanes, LaneBytes, Indices, RecoveryBytes;
    RepairReads(P, data, found, packets, blocksize);
  }

  /** When all targets have been written to the end, they hold the blocks. */
  lemma {:induction false} Repaired(P: Problem<Element16>, left: seq<Element16>, data: seq<seq<byte>>,
                                    found: seq<InputBlock>, packets: seq<Packet>, copies: seq<Target>,
                                    outputs: seq<Target>, blocksize: nat)
    requires P.Valid() && Reconstructs(FIELD16, P, left) && P.wanted == [] && |P.used| <= |packets|
    requires |data| == |P.bases| && PacketsHold(packets, P.bases, data, blocksize)
    requires P.used == Exponents(packets, |P.used|)
    requires Found(found, data, P.PresentIdx(), blocksize)
    requires TargetsFit(copies, data, P.PresentIdx()) && TargetsFit(outputs, data, P.MissingIdx())
    requires Progress(copies + outputs, RepairTargets(P, left, data, found, packets, blocksize), 0, blocksize,
                      blocksize)
    ensures AllRestored(copies, data, P.PresentIdx()) && AllRestored(outputs, data, P.MissingIdx())
  {
    hide RowBytes, Lanes, LaneBytes, Indices, RecoveryBytes, Written, Restored, Reconstructs;
    RepairReads(P, data, found, packets, blocksize);
    var all, wants := copies + outputs, RepairTargets(P, left, data, found, packets, blocksize);
    forall k | 0 <= k < |copies|
      ensures Restored(copies[k], data[P.PresentIdx()[k]])
    {
      assert all[k] == copies[k];
      assert Written(all[k], wants[k], blocksize);
      WrittenToEnd(copies[k], data[P.PresentIdx()[k]], blocksize);
    }
    forall o | 0 <= o < |outputs|
      ensures Restored(outputs[o], data[P.MissingIdx()[o]])
    {
      assert all[|found| + o] == outputs[o];
      assert Written(all[|found| + o], wants[|found| + o], blocksize);
      RepairWants(P, left, data, found, packets, blocksize, o);
      WrittenToEnd(outputs[o], data[P.MissingIdx()[o]], blocksize);
    }
  }

  /** Repair: found blocks are copied to their targets, and missing blocks are computed and written to
      theirs.  Whatever the data was, it comes back bit for bit, unless the matrix cannot be solved. */
  method RepairFiles(t: GaloisLongMultiplyTable, bases: seq<Element16>, present: seq<bool>, found: seq<InputBlock>,
                     packets: seq<Packet>, copies: seq<Target>, outputs: seq<Target>, blocksize: nat, memorylimit: nat,
                     ghost data: seq<seq<byte>>) returns (ok: bool)
    requires t.Valid() && t.bytes == 2 && t.g == Polynomials.GALOIS16 && Clear(t, copies + outputs)
    requires |bases| == |present| == |data| && |Indices(present, |present|, false)| <= |packets|
    requires Found(found, data, Indices(present, |present|, true), blocksize)
    requires PacketsHold(packets, bases, data, blocksize)
    requires TargetsFit(copies, data, Indices(present, |present|, true))
    requires TargetsFit(outputs, data, Indices(present, |present|, false))
    requires IsBlockSize(blocksize) && Separate(copies + outputs, blocksize) && Times(4, |outputs|) <= memorylimit
    modifies Files(copies + outputs)
    ensures ok <==> Solvable(FIELD16, RepairProblem(bases, present, packets))
    ensures ok ==> AllRestored(copies, data, Indices(present, |present|, true))
    ensures ok ==> AllRestored(outputs, data, Indices(present, |present|, false))
    ensures Untouched(copies + outputs)
  {
    hide GaloisLongMultiplyTable.Valid, Reconstructs, AllRestored, Separate, Outside, Clear, Progress, Setting,
         RepairTargets, Matrices.Shape, PacketsHold, Indices, Solvable;
    var m := |outputs|;
    ghost var P := RepairProblem(bases, present, packets);
    var left := [];
    if m > 0 {
      ok, left := RepairMatrix(bases, present, packets, m);
      if !ok {
        return;
      }
    } else {
      ok := true;
      NothingMissing(P);
    }
    var inputs := RepairInputs(found, packets, m);
    var chunksize := ChunkSize(blocksize, m, memorylimit);
    RepairSetting(t, P, left, data, found, packets, copies + outputs, blocksize, chunksize);
    ProcessBlocks(t, left, m, |inputs|, inputs, copies, outputs, blocksize, chunksize,
                  RepairTargets(P, left, data, found, packets, blocksize));
    Repaired(P, left, data, found, packets, copies, outputs, blocksize);
  }

  /** A file is what its blocks make it: if every block of a file holds what it should, so does the file. */
  lemma {:induction false} FileRestored(original: seq<byte>, file: seq<byte>, blocksize: nat)
    requires 0 < blocksize && |file| == |original|
    requires forall i :: 0 <= i < BlockCount(|original|, blocksize) ==>
               && Start(blocksize, i) < |original|
               && var b := BlockOf(|original|, blocksize, i);
                  file[b.offset..b.offset + b.length] == original[b.offset..b.offset + b.length]
    ensures file == original
  {
    forall p | 0 <= p < |file|
      ensures file[p] == original[p]
    {
      var i := p / blocksize;
      BlockHolding(|original|, blocksize, p, i);
      var b := BlockOf(|original|, blocksize, i);
      assert file[b.offset..b.offset + b.length][p - b.offset] == original[b.offset..b.offset + b.length][p - b.offset];
    }
  }

  lemma {:induction false} BlockHolding(filesize: nat, blocksize: nat, p: nat, i: nat)
    requires 0 < blocksize && p < filesize && i == p / blocksize
    ensures i < BlockCount(filesize, blocksize) && Start(blocksize, i) <= p < Start(blocksize, i) + blocksize
  {
    Quotient(p, blocksize);
    BlockStarts(filesize, blocksize, i);
  }

  /** Some of the recovery packets that were created. */
  method KeptPackets(outputs: seq<Target>, first: nat, kept: seq<nat>, ghost bases: seq<Element16>,
                     ghost data: seq<seq<byte>>, blocksize: nat) returns (packets: seq<Packet>)
    requires forall k :: 0 <= k < |outputs| ==> outputs[k].Target? && outputs[k].block.length == blocksize
    requires forall k :: 0 <= k < |kept| ==> kept[k] < |outputs|
    requires IsBlockSize(blocksize) && Contents(data, blocksize) && |data| == |bases|
    requires RecoveryWritten(outputs, bases, data, blocksize, first) && first + |outputs| < EXPONENTS
    ensures |packets| == |kept| && PacketsHold(packets, bases, data, blocksize)
    ensures forall k :: 0 <= k < |kept| ==> packets[k].exponent == first + kept[k] < EXPONENTS
  {
    hide RecoveryBytes;
    packets := [];
    for k := 0 to |kept|
      invariant |packets| == k && PacketsHold(packets, bases, data, blocksize)
      invariant forall j :: 0 <= j < k ==> packets[j].exponent == first + kept[j]
    {
      var output := outputs[kept[k]];
      assert Restored(output, RecoveryBytes(bases, data, blocksize, first + kept[k]));
      packets := packets + [Packet(first + kept[k], InputBlock(output.file[..], output.block))];
    }
  }

  /** The blocks that were found. */
  method FoundBlocks(sources: seq<InputBlock>, present: seq<bool>, blocksize: nat) returns (found: seq<InputBlock>)
    requires |sources| == |present| && AllValid(sources, blocksize)
    ensures Found(found, ContentsOf(sources, blocksize), Indices(present, |present|, true), blocksize)
  {
    found := [];
    for i := 0 to |present|
      invariant Found(found, ContentsOf(sources, blocksize), Indices(present, i, true), blocksize)
    {
      if present[i] {
        found := found + [sources[i]];
      }
    }
  }

  /** The problem of repairing with some of the recovery blocks that were created. */
  ghost function KeptProblem(present: seq<bool>, first: nat, kept: seq<nat>): (P: Problem<Element16>)
    requires |present| <= |Logs()| && |kept| == |Indices(present, |present|, false)|
    ensures P.Valid()
  {
    Problem(ChosenBases(|present|), present, seq(|kept|, k requires 0 <= k < |kept| => first + kept[k]), [])
  }

  /** Create recovery data for source blocks, lose any of them, and repair with any of the recovery blocks,
      as many as blocks were lost: the targets end up with what was lost, and with copies of what was not,
      bit for bit, exactly if the matrix can be solved.  It can if the recovery blocks used are consecutive. */
  method CreateThenRepairFiles(table: GaloisTables.GaloisTable, t: GaloisLongMultiplyTable, sources: seq<InputBlock>,
                               first: nat, count: nat, recovery: seq<Target>, present: seq<bool>, kept: seq<nat>,
                               copies: seq<Target>, outputs: seq<Target>, blocksize: nat, memorylimit: nat)
    returns (ok: bool)
    requires table.Valid() && table.g == Polynomials.GALOIS16
    requires t.Valid() && t.bytes == 2 && t.g == Polynomials.GALOIS16 && Clear(t, recovery)
    requires Clear(t, copies + outputs)
    requires IsBlockSize(blocksize) && AllValid(sources, blocksize) && |present| == |sources| <= 32768
    requires 0 < count == |recovery| && Times(4, count) <= memorylimit && Separate(recovery, blocksize)
    requires first + count < EXPONENTS
    requires forall k :: 0 <= k < count ==> recovery[k].Target? && recovery[k].block.length == blocksize
    requires |kept| == |Indices(present, |present|, false)| && forall k :: 0 <= k < |kept| ==> kept[k] < count
    requires TargetsFit(copies, ContentsOf(sources, blocksize), Indices(present, |present|, true))
    requires TargetsFit(outputs, ContentsOf(sources, blocksize), Indices(present, |present|, false))
    requires Separate(copies + outputs, blocksize) && Times(4, |outputs|) <= memorylimit
    modifies Files(recovery), Files(copies + outputs)
    ensures ok ==> AllRestored(copies, ContentsOf(sources, blocksize), Indices(present, |present|, true))
    ensures ok ==> AllRestored(outputs, ContentsOf(sources, blocksize), Indices(present, |present|, false))
    ensures |present| <= |Logs()| && (ok <==> Solvable(FIELD16, KeptProblem(present, first, kept)))
    ensures Progression(kept, 1) ==> ok
  {
    hide GaloisLongMultiplyTable.Valid, AllRestored, Separate, RecoveryWritten, PacketsHold, Found, Indices, Solvable,
         Restored;
    var chosen, bases := ChooseBases16(table, |sources|);
    CreateFiles(t, bases, sources, first, count, recovery, blocksize, memorylimit);
    ghost var data := ContentsOf(sources, blocksize);
    var packets := KeptPackets(recovery, first, kept, bases, data, blocksize);
    var found := FoundBlocks(sources, present, blocksize);
    ok := RepairFiles(t, bases, present, found, packets, copies, outputs, blocksize, memorylimit, data);
    KeptSolvable(bases, present, packets, first, kept);
  }

  lemma {:induction false} KeptSolvable(bases: seq<Element16>, present: seq<bool>, packets: seq<Packet>, first: nat,
                                        kept: seq<nat>)
    requires |present| <= 32768 == |Logs()| && |kept| == |Indices(present, |present|, false)| == |packets|
    requires bases == ChosenBases(|present|)
    requires forall k :: 0 <= k < |kept| ==> packets[k].exponent == first + kept[k] < EXPONENTS
    ensures RepairProblem(bases, present, packets) == KeptProblem(present, first, kept)
    ensures Progression(kept, 1) ==> Solvable(FIELD16, KeptProblem(present, first, kept))
  {
    hide Indices, Solvable;
    var P := KeptProblem(present, first, kept);
    if Progression(kept, 1) {
      Ascending16Succeeds(P);
    }
  }
}
