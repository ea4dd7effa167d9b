/** The concurrent loop over one chunk of every block, on buffers of bytes: whatever the scheduler does, every row of
    the output buffer ends as what is to be written to its target (par2creator.cpp and par2repairer.cpp). */
module ConcurrentChunks {
  import opened Bytes
  import opened Vectors
  import Matrices
  import opened ReedSolomon
  import opened Repair
  import opened GaloisFields
  import opened LongMultiply
  import opened ByteLanes
  import opened SourceFiles
  import opened Chunks
  import opened ConcurrentRows
  import Pipeline

  /** What Process does to a row of the output buffer with an input buffer. */
  ghost predicate Processes(process: (seq<byte>, nat, nat) -> seq<byte>, matrix: seq<Element16>, rows: nat, cols: nat,
                            parts: seq<seq<byte>>, length: nat)
    requires Matrices.Shape(matrix, rows, cols) && |parts| == cols
  {
    forall content, input: nat, r: nat :: |content| == length && input < cols && r < rows ==>
      Processed16(content, process(content, input, r), parts[input], Matrices.Row(matrix, rows, cols, r)[input], length)
  }

  /** A row after some inputs, in any order. */
  lemma {:induction false} FoldedBytes(process: (seq<byte>, nat, nat) -> seq<byte>, matrix: seq<Element16>, rows: nat,
                                       cols: nat, parts: seq<seq<byte>>, length: nat, r: nat, order: seq<nat>)
    requires Matrices.Shape(matrix, rows, cols) && |parts| == cols && Blocks(parts, length) && length % 2 == 0
    requires Processes(process, matrix, rows, cols, parts, length) && r < rows
    requires forall a :: 0 <= a < |order| ==> order[a] < cols
    ensures var content := Pipeline.Folded(process, Zeros(length), r, order);
            && |content| == length
            && forall k :: 0 <= k < length / 2 ==>
                 Lanes(content)[k] == DotIn(FIELD16, Lane(LaneBlocks(parts, length), k),
                                            Matrices.Row(matrix, rows, cols, r), order)
    decreases |order|
  {
    hide Matrices.Off;
    if |order| == 0 {
      forall k | 0 <= k < length / 2
        ensures Lanes(Zeros(length))[k] == FIELD16.zero
      {
        assert Zeros(length)[2 * k] == 0 && Zeros(length)[2 * k + 1] == 0;
      }
    } else {
      var n := |order| - 1;
      FoldedBytes(process, matrix, rows, cols, parts, length, r, order[..n]);
      var before := Pipeline.Folded(process, Zeros(length), r, order[..n]);
      var after, input := process(before, order[n], r), parts[order[n]];
      assert Processed16(before, after, input, Matrices.Row(matrix, rows, cols, r)[order[n]], length);
      hide Processes, Lanes;
      assert before[..length] == before && after[..length] == after && input[..length] == input;
      forall k | 0 <= k < length / 2
        ensures Lane(LaneBlocks(parts, length), k)[order[n]] == Lanes(input)[k]
      {
      }
    }
  }

  /** If every task finishes, the rows of the output buffer are the parts of the blocks that are to be written, as the
      serial loop over the inputs leaves them. */
  lemma {:induction false} ConcurrentChunk(t: GaloisLongMultiplyTable, matrix: seq<Element16>, rows: nat, cols: nat,
                                           inputs: seq<InputBlock>, copies: nat, blocksize: nat, blockoffset: nat,
                                           blocklength: nat, all: seq<Target>, wants: seq<seq<byte>>,
                                           process: (seq<byte>, nat, nat) -> seq<byte>,
                                           s: Pipeline.State<seq<byte>>, schedule: seq<nat>, o: nat)
    requires Setting(t, matrix, rows, cols, inputs, copies, blocksize, blockoffset, blocklength, all, wants) && o < rows
    requires Processes(process, matrix, rows, cols, Parts(inputs, blocksize, blockoffset, blocklength), blocklength)
    requires Pipeline.Initial(s, cols, rows, Zeros(blocklength)) && Pipeline.Covered(s.tasks, cols, rows)
    requires Pipeline.Finished(Pipeline.Run(s, process, schedule))
    ensures var row := Pipeline.Run(s, process, schedule).row;
            && |row| == rows && copies + o < |wants| && blockoffset + blocklength <= |wants[copies + o]|
            && row[o] == wants[copies + o][blockoffset..blockoffset + blocklength]
  {
    hide Setting, Pipeline.Run, Pipeline.Initial, Pipeline.Finished, Pipeline.Covered, Processes, RowHolds,
         Matrices.Off, Parts;
    SettingFacts(t, matrix, rows, cols, inputs, copies, blocksize, blockoffset, blocklength, all, wants);
    Even(blocklength);
    Pipeline.EveryInputOnce(s, process, schedule, cols, rows, Zeros(blocklength));
    var s' := Pipeline.Run(s, process, schedule);
    var parts := Parts(inputs, blocksize, blockoffset, blocklength);
    RowAtEnd(process, matrix, rows, cols, parts, blocklength, o, s'.order[o]);
    OutputPart(t, matrix, rows, cols, inputs, copies, blocksize, blockoffset, blocklength, all, wants, o, s'.row[o]);
  }

  lemma {:induction false} RowAtEnd(process: (seq<byte>, nat, nat) -> seq<byte>, matrix: seq<Element16>, rows: nat,
                                    cols: nat, parts: seq<seq<byte>>, length: nat, r: nat, order: seq<nat>)
    requires Matrices.Shape(matrix, rows, cols) && |parts| == cols && Blocks(parts, length) && length % 2 == 0
    requires Processes(process, matrix, rows, cols, parts, length) && r < rows && Pipeline.Permutation(order, cols)
    ensures RowHolds(Pipeline.Folded(process, Zeros(length), r, order), Matrices.Row(matrix, rows, cols, r), parts,
                     length, cols)
  {
    hide Matrices.Off, Processes, Lanes;
    FoldedBytes(process, matrix, rows, cols, parts, length, r, order);
    hide Pipeline.Folded;
    Field16Lawful();
    var row, blocks := Matrices.Row(matrix, rows, cols, r), LaneBlocks(parts, length);
    forall k | 0 <= k < length / 2
      ensures DotIn(FIELD16, Lane(blocks, k), row, order) == Dot(FIELD16, Lane(blocks, k), row, cols)
    {
      DotInPermutation(FIELD16, Lane(blocks, k), row, order, cols);
    }
    assert Lanes(Pipeline.Folded(process, Zeros(length), r, order)) ==
      Accumulated(FIELD16, row, blocks, length / 2, cols);
  }
}
