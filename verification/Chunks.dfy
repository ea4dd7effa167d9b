/** Blocks of bytes on disk, put through the Reed-Solomon matrix one chunk at a time (Par2Creator and
    Par2Repairer::Process and ProcessData): however the blocks are cut into chunks, what is written is
    what the matrix gives for the whole blocks, padded with zeros. */
module Chunks {
  import opened Arithmetic
  import opened Bytes
  import opened Fields
  import Matrices
  import opened ReedSolomon
  import opened Repair
  import opened GaloisFields
  import Polynomials
  import opened LongMultiply
  import opened ByteLanes
  import opened SourceFiles

  /** A block on disk that is read. */
  datatype InputBlock = InputBlock(file: seq<byte>, block: DataBlock) {
    predicate Valid(blocksize: nat) {
      block.offset + block.length <= |file| && block.length <= blocksize
    }

    function Content(): (c: seq<byte>)
      requires block.offset + block.length <= |file|
      ensures |c| == block.length
    {
      file[block.offset..block.offset + block.length]
    }
  }

  /** A block on disk that is written, if its location is set. */
  datatype Target = Unset | Target(file: array<byte>, block: DataBlock)

  predicate AllValid(inputs: seq<InputBlock>, blocksize: nat) {
    forall j :: 0 <= j < |inputs| ==> inputs[j].Valid(blocksize)
  }

  /** The blocks as they are read, padded with zeros. */
  function Wholes(inputs: seq<InputBlock>, blocksize: nat): (r: seq<seq<byte>>)
    requires AllValid(inputs, blocksize)
    ensures |r| == |inputs| && Blocks(r, blocksize)
    ensures forall j :: 0 <= j < |r| ==> r[j] == PaddedTo(inputs[j].Content(), blocksize)
  {
    seq(|inputs|, j requires 0 <= j < |inputs| => PaddedTo(inputs[j].Content(), blocksize))
  }

  /** Parts of blocks. */
  function Slices<T>(blocks: seq<seq<T>>, length: nat, lo: nat, hi: nat): (r: seq<seq<T>>)
    requires forall j :: 0 <= j < |blocks| ==> |blocks[j]| == length
    requires lo <= hi <= length
    ensures |r| == |blocks|
    ensures forall j :: 0 <= j < |r| ==> |r[j]| == hi - lo && r[j] == blocks[j][lo..hi]
  {
    seq(|blocks|, j requires 0 <= j < |blocks| => blocks[j][lo..hi])
  }

  /** Blocks of bytes as blocks of field elements. */
  function LaneBlocks(blocks: seq<seq<byte>>, length: nat): (r: seq<seq<Element16>>)
    requires length % 2 == 0 && forall j :: 0 <= j < |blocks| ==> |blocks[j]| == length
    ensures |r| == |blocks| && forall j :: 0 <= j < |r| ==> |r[j]| == length / 2 && r[j] == Lanes(blocks[j])
  {
    seq(|blocks|, j requires 0 <= j < |blocks| => Lanes(blocks[j]))
  }

  /** Field elements as bytes. */
  function LaneBytes(lanes: seq<Element16>): (b: seq<byte>)
    ensures |b| == 2 * |lanes|
  {
    seq(2 * |lanes|, i requires 0 <= i < 2 * |lanes| => if i % 2 == 0 then lanes[i / 2] % 256 else lanes[i / 2] / 256)
  }

  /** Bytes and field elements stand for each other. */
  lemma {:induction false} LanesOfLaneBytes(lanes: seq<Element16>)
    ensures Lanes(LaneBytes(lanes)) == lanes
  {
    var b := LaneBytes(lanes);
    forall k | 0 <= k < |lanes|
      ensures Lanes(b)[k] == lanes[k]
    {
      assert b[2 * k] == lanes[k] % 256 && b[2 * k + 1] == lanes[k] / 256;
    }
  }

  lemma {:induction false} LanesOfSlice(b: seq<byte>, lo: nat, hi: nat)
    requires |b| % 2 == lo % 2 == hi % 2 == 0 && lo <= hi <= |b|
    ensures Lanes(b[lo..hi]) == Lanes(b)[lo / 2..hi / 2]
  {
    hide Lane16;
    var c := b[lo..hi];
    forall k | 0 <= k < (hi - lo) / 2
      ensures Lanes(c)[k] == Lanes(b)[lo / 2 + k]
    {
      LaneMoved(b, lo, hi, k);
    }
  }

  lemma {:induction false} LaneMoved(b: seq<byte>, lo: nat, hi: nat, k: nat)
    requires lo % 2 == hi % 2 == 0 && lo <= hi <= |b| && k < (hi - lo) / 2
    ensures Lane16(b[lo..hi], k) == Lane16(b, lo / 2 + k)
  {
    assert b[lo..hi][2 * k] == b[2 * (lo / 2 + k)];
  }

  /** Reading a part of a block gives that part of the padded block. */
  lemma {:induction false} ReadIsSlice(input: InputBlock, blocksize: nat, position: nat, buffer: seq<byte>)
    requires input.Valid(blocksize) && position + |buffer| <= blocksize
    requires var want := input.block.Inside(position, |buffer|); var start := input.block.offset + position;
             && want <= |buffer| && (want > 0 ==> start + want <= |input.file|)
             && buffer == (if want > 0 then input.file[start..start + want] else []) + Zeros(|buffer| - want)
    ensures buffer == PaddedTo(input.Content(), blocksize)[position..position + |buffer|]
  {
    var whole := PaddedTo(input.Content(), blocksize);
    forall i | 0 <= i < |buffer|
      ensures buffer[i] == whole[position + i]
    {
    }
  }

  /** The matrix applied to parts of blocks gives the same parts of what it gives for the blocks. */
  lemma {:induction false} AccumulatedSlice<T(!new)>(F: Field<T>, row: seq<T>, blocks: seq<seq<T>>, length: nat,
                                                     lo: nat, hi: nat, n: nat)
    requires n <= |row| && n <= |blocks| && lo <= hi <= length
    requires forall j :: 0 <= j < |blocks| ==> |blocks[j]| == length
    ensures Accumulated(F, row, Slices(blocks, length, lo, hi), hi - lo, n) ==
              Accumulated(F, row, blocks, length, n)[lo..hi]
  {
    var parts := Slices(blocks, length, lo, hi);
    var a, b := Accumulated(F, row, parts, hi - lo, n), Accumulated(F, row, blocks, length, n)[lo..hi];
    forall i | 0 <= i < hi - lo
      ensures a[i] == b[i]
    {
      assert Lane(parts, i) == Lane(blocks, lo + i);
    }
  }

  /** What a row of the matrix gives for whole blocks of bytes. */
  ghost function RowBytes(row: seq<Element16>, wholes: seq<seq<byte>>, blocksize: nat): (w: seq<byte>)
    requires blocksize % 2 == 0 && Blocks(wholes, blocksize) && |row| == |wholes|
    ensures |w| == blocksize
  {
    LaneBytes(Accumulated(FIELD16, row, LaneBlocks(wholes, blocksize), blocksize / 2, |wholes|))
  }

  /** A row of the output buffer after n inputs. */
  ghost predicate RowHolds(bytes: seq<byte>, row: seq<Element16>, parts: seq<seq<byte>>, length: nat, n: nat) {
    && length % 2 == 0 && |bytes| == length && n <= |row| && n <= |parts| && Blocks(parts, length)
    && Lanes(bytes) == Accumulated(FIELD16, row, LaneBlocks(parts, length), length / 2, n)
  }

  lemma {:induction false} RowCleared(bytes: seq<byte>, row: seq<Element16>, parts: seq<seq<byte>>, length: nat)
    requires length % 2 == 0 && Blocks(parts, length) && bytes == Zeros(length)
    ensures RowHolds(bytes, row, parts, length, 0)
  {
    var a := Accumulated(FIELD16, row, LaneBlocks(parts, length), length / 2, 0);
    forall k | 0 <= k < length / 2
      ensures Lanes(bytes)[k] == a[k]
    {
      assert bytes[2 * k] == 0 && bytes[2 * k + 1] == 0;
    }
  }

  lemma {:induction false} RowAdvanced(before: seq<byte>, after: seq<byte>, input: seq<byte>, row: seq<Element16>,
                                       parts: seq<seq<byte>>, length: nat, n: nat)
    requires RowHolds(before, row, parts, length, n) && n < |row| && n < |parts| && input == parts[n]
    requires Processed16(before, after, input, row[n], length)
    ensures RowHolds(after, row, parts, length, n + 1)
  {
    hide Lanes;
    assert before[..length] == before && after[..length] == after && input[..length] == input;
    var blocks := LaneBlocks(parts, length);
    var a := Accumulated(FIELD16, row, blocks, length / 2, n + 1);
    forall k | 0 <= k < length / 2
      ensures Lanes(after)[k] == a[k]
    {
      assert Lane(blocks, k)[n] == Lanes(input)[k];
    }
  }

  /** A finished row of the output buffer is the part of the whole row that belongs to the chunk. */
  lemma {:induction false} RowFinished(bytes: seq<byte>, row: seq<Element16>, wholes: seq<seq<byte>>, blocksize: nat,
                                       lo: nat, hi: nat)
    requires blocksize % 2 == lo % 2 == hi % 2 == 0 && lo <= hi <= blocksize
    requires Blocks(wholes, blocksize) && |row| == |wholes|
    requires RowHolds(bytes, row, Slices(wholes, blocksize, lo, hi), hi - lo, |wholes|)
    ensures bytes == RowBytes(row, wholes, blocksize)[lo..hi]
  {
    hide Lanes;
    hide LaneBytes;
    hide Accumulated;
    var parts, blocks := Slices(wholes, blocksize, lo, hi), LaneBlocks(wholes, blocksize);
    forall j | 0 <= j < |wholes|
      ensures LaneBlocks(parts, hi - lo)[j] == Slices(blocks, blocksize / 2, lo / 2, hi / 2)[j]
    {
      LanesOfSlice(wholes[j], lo, hi);
    }
    assert LaneBlocks(parts, hi - lo) == Slices(blocks, blocksize / 2, lo / 2, hi / 2);
    AccumulatedSlice(FIELD16, row, blocks, blocksize / 2, lo / 2, hi / 2, |wholes|);
    var w := RowBytes(row, wholes, blocksize);
    LanesOfLaneBytes(Accumulated(FIELD16, row, blocks, blocksize / 2, |wholes|));
    LanesOfSlice(w, lo, hi);
    LanesDetermine(bytes, w[lo..hi]);
  }

  /** The rows of the output buffer after n inputs. */
  ghost predicate AllHold(outputrows: seq<array<byte>>, matrix: seq<Element16>, rows: nat, cols: nat,
                          parts: seq<seq<byte>>, length: nat, n: nat)
    requires Matrices.Shape(matrix, rows, cols) && |outputrows| == rows
    reads outputrows
  {
    forall o :: 0 <= o < rows ==> RowHolds(outputrows[o][..], Matrices.Row(matrix, rows, cols, o), parts, length, n)
  }

  /** One input goes into every row of the output buffer. */
  method ProcessInput(t: GaloisLongMultiplyTable, matrix: seq<Element16>, rows: nat, cols: nat, inputindex: nat,
                      inputbuffer: array<byte>, outputrows: seq<array<byte>>, ghost parts: seq<seq<byte>>)
    requires t.Valid() && t.bytes == 2 && t.g == Polynomials.GALOIS16
    requires Matrices.Shape(matrix, rows, cols) && |outputrows| == rows && |parts| == cols && inputindex < cols
    requires inputbuffer.Length > 0 && inputbuffer.Length % 4 == 0 && inputbuffer[..] == parts[inputindex]
    requires Rows(outputrows, t, inputbuffer)
    requires AllHold(outputrows, matrix, rows, cols, parts, inputbuffer.Length, inputindex)
    modifies outputrows
    ensures AllHold(outputrows, matrix, rows, cols, parts, inputbuffer.Length, inputindex + 1)
  {
    hide RowHolds, Processed16, Matrices.Off, GaloisLongMultiplyTable.Valid;
    var length := inputbuffer.Length;
    for outputindex := 0 to rows
      invariant inputbuffer[..] == parts[inputindex]
      invariant t.Valid()
      invariant forall o :: 0 <= o < rows ==>
        RowHolds(outputrows[o][..], Matrices.Row(matrix, rows, cols, o), parts, length,
                 if o < outputindex then inputindex + 1 else inputindex)
    {
      Matrices.RowAt(matrix, rows, cols, outputindex, inputindex);
      var factor := matrix[Matrices.Off(outputindex, cols) + inputindex];
      var out := outputrows[outputindex];
      ghost var before := out[..];
      RowLength(before, Matrices.Row(matrix, rows, cols, outputindex), parts, length, inputindex);
      Process16(t, factor, inputbuffer, out, length);
      RowAdvanced(before, out[..], parts[inputindex], Matrices.Row(matrix, rows, cols, outputindex), parts, length,
                  inputindex);
    }
  }

  lemma {:induction false} RowLength(bytes: seq<byte>, row: seq<Element16>, parts: seq<seq<byte>>, length: nat, n: nat)
    requires RowHolds(bytes, row, parts, length, n)
    ensures |bytes| == length
  {
  }

  /** The rows of the output buffer are apart from each other and from everything else. */
  ghost predicate Rows(outputrows: seq<array<byte>>, t: GaloisLongMultiplyTable, inputbuffer: array<byte>) {
    && (forall o, q :: 0 <= o < q < |outputrows| ==> outputrows[o] != outputrows[q])
    && forall o :: 0 <= o < |outputrows| ==> outputrows[o] as object != t.tables && outputrows[o] != inputbuffer
  }

  /** Where the targets are. */
  function Files(all: seq<Target>): set<array<byte>> {
    set j | 0 <= j < |all| && all[j].Target? :: all[j].file
  }

  /** The targets lie in their files, apart from each other, and none is longer than a block. */
  ghost predicate Separate(all: seq<Target>, blocksize: nat) {
    && (forall j :: 0 <= j < |all| && all[j].Target? ==>
          all[j].block.offset + all[j].block.length <= all[j].file.Length && all[j].block.length <= blocksize)
    && forall i, j :: 0 <= i < |all| && 0 <= j < |all| && i != j && all[i].Target? && all[j].Target? ==>
         Apart(all[i], all[j])
  }

  predicate Apart(a: Target, b: Target)
    requires a.Target? && b.Target?
  {
    || a.file != b.file
    || a.block.offset + a.block.length <= b.block.offset
    || b.block.offset + b.block.length <= a.block.offset
  }

  /** A block holds the first bytes of what it is to hold, as far as they fit. */
  ghost predicate Holds(contents: seq<byte>, block: DataBlock, want: seq<byte>, upto: nat) {
    var n := Min(upto, block.length);
    && block.offset + n <= |contents| && n <= |want|
    && contents[block.offset..block.offset + n] == want[..n]
  }

  ghost predicate Written(target: Target, want: seq<byte>, upto: nat)
    reads if target.Target? then {target.file} else {}
  {
    target.Target? ==> Holds(target.file[..], target.block, want, upto)
  }

  lemma {:induction false} HoldsMore(before: seq<byte>, after: seq<byte>, block: DataBlock, want: seq<byte>,
                                     position: nat, buffer: seq<byte>)
    requires |before| == |after| && block.offset + block.length <= |before| && Holds(before, block, want, position)
    requires position + |buffer| <= |want| && buffer == want[position..position + |buffer|]
    requires var wrote := block.Inside(position, |buffer|); var start := block.offset + position;
             && (wrote > 0 ==> start + wrote <= |after| && after[start..start + wrote] == buffer[..wrote])
             && forall i :: 0 <= i < |before| && !(start <= i < start + wrote) ==> after[i] == before[i]
    ensures Holds(after, block, want, position + |buffer|)
  {
    var wrote, start := block.Inside(position, |buffer|), block.offset + position;
    var n := Min(position + |buffer|, block.length);
    var kept := Min(position, block.length);
    assert before[block.offset..block.offset + kept] == want[..kept];
    assert n == if wrote > 0 then position + wrote else kept;
    var a, b := after[block.offset..block.offset + n], want[..n];
    forall i | 0 <= i < n
      ensures a[i] == b[i]
    {
      if i < kept {
        assert after[block.offset + i] == before[block.offset + i] == before[block.offset..block.offset + kept][i];
      } else {
        assert a[i] == after[start..start + wrote][i - position] == buffer[i - position];
      }
    }
  }

  lemma {:induction false} HoldsStill(before: seq<byte>, after: seq<byte>, block: DataBlock, want: seq<byte>,
                                      upto: nat, other: DataBlock)
    requires |before| == |after| && Holds(before, block, want, upto)
    requires block.offset + block.length <= other.offset || other.offset + other.length <= block.offset
    requires forall i :: 0 <= i < |before| && !(other.offset <= i < other.offset + other.length) ==>
               after[i] == before[i]
    ensures Holds(after, block, want, upto)
  {
    var n := Min(upto, block.length);
    assert after[block.offset..block.offset + n] == before[block.offset..block.offset + n];
  }

  /** The first n targets have been written as far as `after`, the others as far as `before`. */
  ghost predicate Progress(all: seq<Target>, wants: seq<seq<byte>>, n: nat, before: nat, after: nat)
    reads Files(all)
  {
    |wants| == |all| && forall j :: 0 <= j < |all| ==> Written(all[j], wants[j], if j < n then after else before)
  }

  /** A byte that belongs to no target. */
  ghost predicate Outside(all: seq<Target>, file: array<byte>, i: nat) {
    forall j :: 0 <= j < |all| && all[j].Target? && all[j].file == file ==>
      !(all[j].block.offset <= i < all[j].block.offset + all[j].block.length)
  }

  /** The bytes that belong to no target are as they were. */
  twostate predicate Untouched(all: seq<Target>)
    reads Files(all)
  {
    forall file, i: nat :: file in Files(all) && i < file.Length && Outside(all, file, i) ==> file[i] == old(file[i])
  }

  /** Write the next bytes to a target, if it is set. */
  method WriteTo(target: Target, position: nat, buffer: seq<byte>, ghost all: seq<Target>, ghost blocksize: nat,
                 ghost wants: seq<seq<byte>>, ghost j: nat)
    requires j < |all| && all[j] == target && Separate(all, blocksize)
    requires |wants| == |all| && Progress(all, wants, j, position, position + |buffer|)
    requires position + |buffer| <= |wants[j]| && buffer == wants[j][position..position + |buffer|]
    modifies Files(all)
    ensures Progress(all, wants, j + 1, position, position + |buffer|)
    ensures Untouched(all)
  {
    hide Holds, DataBlock.Inside;
    if target.Target? {
      ghost var was := target.file[..];
      assert Written(target, wants[j], position);
      label before:
      var wrote := WriteData(target.file, target.block, position, buffer);
      InsideBlock(target.block, position, |buffer|);
      HoldsMore(was, target.file[..], target.block, wants[j], position, buffer);
      forall k | 0 <= k < |all| && k != j
        ensures Written(all[k], wants[k], if k < j then position + |buffer| else position)
      {
        assert old@before(Written(all[k], wants[k], if k < j then position + |buffer| else position));
        if all[k].Target? && all[k].file == target.file {
          assert Apart(all[k], all[j]);
          HoldsStill(was, target.file[..], all[k].block, wants[k], if k < j then position + |buffer| else position,
                     target.block);
        }
      }
    }
  }

  lemma {:induction false} InsideBlock(block: DataBlock, position: nat, size: nat)
    ensures block.Inside(position, size) > 0 ==> position + block.Inside(position, size) <= block.length
  {
  }

  /** What the targets are to hold: a copy of the first input blocks, then what the rows of the matrix give. */
  ghost function Wanted(matrix: seq<Element16>, rows: nat, cols: nat, wholes: seq<seq<byte>>, blocksize: nat,
                        copies: nat): (w: seq<seq<byte>>)
    requires Matrices.Shape(matrix, rows, cols) && |wholes| == cols && copies <= cols
    requires blocksize % 2 == 0 && Blocks(wholes, blocksize)
    ensures |w| == copies + rows && Blocks(w, blocksize)
    ensures forall j :: 0 <= j < copies ==> w[j] == wholes[j]
    ensures forall o :: 0 <= o < rows ==>
              w[copies + o] == RowBytes(Matrices.Row(matrix, rows, cols, o), wholes, blocksize)
  {
    wholes[..copies] + seq(rows,
                           o requires 0 <= o < rows => RowBytes(Matrices.Row(matrix, rows, cols, o), wholes, blocksize))
  }

  /** The rows of the output buffer, cleared. */
  method NewRows(rows: nat, length: nat) returns (outputrows: seq<array<byte>>)
    ensures |outputrows| == rows
    ensures forall o :: 0 <= o < rows ==> fresh(outputrows[o]) && outputrows[o][..] == Zeros(length)
    ensures forall o, q :: 0 <= o < q < rows ==> outputrows[o] != outputrows[q]
  {
    outputrows := [];
    for o := 0 to rows
      invariant |outputrows| == o
      invariant forall q :: 0 <= q < o ==> fresh(outputrows[q]) && outputrows[q][..] == Zeros(length)
      invariant forall q, r :: 0 <= q < r < o ==> outputrows[q] != outputrows[r]
    {
      var row := new byte[length](i => 0);
      assert row[..] == Zeros(length);
      outputrows := outputrows + [row];
    }
  }

  /** The targets are not part of the multiplication table. */
  ghost predicate Clear(t: GaloisLongMultiplyTable, all: seq<Target>) {
    forall j :: 0 <= j < |all| && all[j].Target? ==> all[j].file as object != t.tables
  }

  lemma {:induction false} Even(n: nat)
    requires n % 4 == 0
    ensures n % 2 == 0
  {
    var half := 2 * (n / 4);
    assert n == 2 * half;
  }

  lemma {:induction false} EvenEnd(offset: nat, length: nat)
    requires offset % 4 == length % 4 == 0
    ensures offset % 2 == (offset + length) % 2 == 0
  {
    Even(offset);
    var half := 2 * (offset / 4) + 2 * (length / 4);
    assert offset + length == 2 * half;
  }

  /** What the programs ask of blocks and buffers, before a chunk is processed. */
  ghost predicate Setting(t: GaloisLongMultiplyTable, matrix: seq<Element16>, rows: nat, cols: nat,
                          inputs: seq<InputBlock>, copies: nat, blocksize: nat, blockoffset: nat, blocklength: nat,
                          all: seq<Target>, wants: seq<seq<byte>>) {
    && t.bytes == 2 && t.g == Polynomials.GALOIS16 && Clear(t, all)
    && Matrices.Shape(matrix, rows, cols) && |inputs| == cols && copies <= cols && |all| == copies + rows
    && blocksize % 4 == blockoffset % 4 == blocklength % 4 == 0 && 0 < blocklength
    && blockoffset + blocklength <= blocksize && AllValid(inputs, blocksize)
    && Separate(all, blocksize)
    && (Even(blocksize); wants == Wanted(matrix, rows, cols, Wholes(inputs, blocksize), blocksize, copies))
  }

  /** The part of every block that belongs to the chunk. */
  function Parts(inputs: seq<InputBlock>, blocksize: nat, blockoffset: nat, blocklength: nat): (r: seq<seq<byte>>)
    requires AllValid(inputs, blocksize) && blockoffset + blocklength <= blocksize
    ensures |r| == |inputs| && Blocks(r, blocklength)
  {
    Slices(Wholes(inputs, blocksize), blocksize, blockoffset, blockoffset + blocklength)
  }

  /** The rows of the output buffer lie apart from each other, from the targets and from the table. */
  ghost predicate Buffers(t: GaloisLongMultiplyTable, outputrows: seq<array<byte>>, all: seq<Target>) {
    && (forall o :: 0 <= o < |outputrows| ==> outputrows[o] !in Files(all) && outputrows[o] as object != t.tables)
    && forall o, q :: 0 <= o < q < |outputrows| ==> outputrows[o] != outputrows[q]
  }

  /** Read a chunk of one input block, copy it if it needs to be copied, and process it. */
  method ReadInput(t: GaloisLongMultiplyTable, matrix: seq<Element16>, rows: nat, cols: nat, inputs: seq<InputBlock>,
                   inputindex: nat, copies: seq<Target>, blocksize: nat, blockoffset: nat, blocklength: nat,
                   outputrows: seq<array<byte>>, ghost all: seq<Target>, ghost wants: seq<seq<byte>>)
    requires t.Valid()
    requires Setting(t, matrix, rows, cols, inputs, |copies|, blocksize, blockoffset, blocklength, all, wants)
    requires |outputrows| == rows && Buffers(t, outputrows, all) && copies <= all && inputindex < cols
    requires Progress(all, wants, Min(inputindex, |copies|), blockoffset, blockoffset + blocklength)
    requires AllHold(outputrows, matrix, rows, cols, Parts(inputs, blocksize, blockoffset, blocklength), blocklength,
                     inputindex)
    modifies Files(all), outputrows
    ensures t.Valid() && Untouched(all)
    ensures Progress(all, wants, Min(inputindex + 1, |copies|), blockoffset, blockoffset + blocklength)
    ensures AllHold(outputrows, matrix, rows, cols, Parts(inputs, blocksize, blockoffset, blocklength), blocklength,
                    inputindex + 1)
  {
    hide RowHolds, Written, Separate, Matrices.Off, GaloisLongMultiplyTable.Valid, RowBytes, Setting, AllHold, Progress,
         Outside;
    SettingFacts(t, matrix, rows, cols, inputs, |copies|, blocksize, blockoffset, blocklength, all, wants);
    ghost var parts := Parts(inputs, blocksize, blockoffset, blocklength);
    var inputbuffer := new byte[blocklength];
    ReadData(inputs[inputindex].file, inputs[inputindex].block, blockoffset, inputbuffer);
    ReadIsSlice(inputs[inputindex], blocksize, blockoffset, inputbuffer[..]);
    if inputindex < |copies| {
      CopyWanted(t, matrix, rows, cols, inputs, |copies|, blocksize, blockoffset, blocklength, all, wants, inputindex);
      WriteTo(copies[inputindex], blockoffset, inputbuffer[..], all, blocksize, wants, inputindex);
    }
    ProcessInput(t, matrix, rows, cols, inputindex, inputbuffer, outputrows, parts);
  }

  /** Read one chunk of every input block. */
  method ReadInputs(t: GaloisLongMultiplyTable, matrix: seq<Element16>, rows: nat, cols: nat, inputs: seq<InputBlock>,
                    copies: seq<Target>, blocksize: nat, blockoffset: nat, blocklength: nat,
                    outputrows: seq<array<byte>>, ghost all: seq<Target>, ghost wants: seq<seq<byte>>)
    requires t.Valid()
    requires Setting(t, matrix, rows, cols, inputs, |copies|, blocksize, blockoffset, blocklength, all, wants)
    requires |outputrows| == rows && Buffers(t, outputrows, all) && copies <= all
    requires forall o :: 0 <= o < rows ==> outputrows[o][..] == Zeros(blocklength)
    requires Progress(all, wants, 0, blockoffset, blockoffset + blocklength)
    modifies Files(all), outputrows
    ensures Untouched(all)
    ensures Progress(all, wants, |copies|, blockoffset, blockoffset + blocklength)
    ensures AllHold(outputrows, matrix, rows, cols, Parts(inputs, blocksize, blockoffset, blocklength), blocklength,
                    cols)
  {
    hide RowHolds;
    hide Written;
    hide Separate;
    hide Matrices.Off;
    hide GaloisLongMultiplyTable.Valid;
    hide RowBytes;
    ghost var parts := Parts(inputs, blocksize, blockoffset, blocklength);
    Even(blocklength);
    forall o | 0 <= o < rows
      ensures RowHolds(outputrows[o][..], Matrices.Row(matrix, rows, cols, o), parts, blocklength, 0)
    {
      RowCleared(outputrows[o][..], Matrices.Row(matrix, rows, cols, o), parts, blocklength);
    }
    for inputindex := 0 to cols
      invariant t.Valid() && Untouched(all)
      invariant Progress(all, wants, Min(inputindex, |copies|), blockoffset, blockoffset + blocklength)
      invariant AllHold(outputrows, matrix, rows, cols, parts, blocklength, inputindex)
    {
      ReadInput(t, matrix, rows, cols, inputs, inputindex, copies, blocksize, blockoffset, blocklength, outputrows,
                all, wants);
    }
  }

  /** With nothing to reconstruct, read one chunk of the input blocks that are copied, and no others. */
  method CopyInputs(ghost t: GaloisLongMultiplyTable, ghost matrix: seq<Element16>, ghost cols: nat,
                    inputs: seq<InputBlock>, copies: seq<Target>, ghost blocksize: nat, blockoffset: nat,
                    blocklength: nat, ghost all: seq<Target>, ghost wants: seq<seq<byte>>)
    requires Setting(t, matrix, 0, cols, inputs, |copies|, blocksize, blockoffset, blocklength, all, wants)
    requires copies <= all
    requires Progress(all, wants, 0, blockoffset, blockoffset + blocklength)
    modifies Files(all)
    ensures Untouched(all)
    ensures Progress(all, wants, |copies|, blockoffset, blockoffset + blocklength)
  {
    hide Written, Separate, Setting, Progress, Outside, Wholes, Matrices.Shape;
    SettingFacts(t, matrix, 0, cols, inputs, |copies|, blocksize, blockoffset, blocklength, all, wants);
    for inputindex := 0 to |copies|
      invariant Untouched(all) && Progress(all, wants, inputindex, blockoffset, blockoffset + blocklength)
    {
      if copies[inputindex].Target? {
        var inputbuffer := new byte[blocklength];
        ReadData(inputs[inputindex].file, inputs[inputindex].block, blockoffset, inputbuffer);
        ReadIsSlice(inputs[inputindex], blocksize, blockoffset, inputbuffer[..]);
        CopyWanted(t, matrix, 0, cols, inputs, |copies|, blocksize, blockoffset, blocklength, all, wants, inputindex);
        WriteTo(copies[inputindex], blockoffset, inputbuffer[..], all, blocksize, wants, inputindex);
      } else {
        NotCopied(all, wants, inputindex, blockoffset, blockoffset + blocklength);
      }
    }
  }

  lemma {:induction false} NotCopied(all: seq<Target>, wants: seq<seq<byte>>, j: nat, before: nat, after: nat)
    requires j < |all| && all[j].Unset? && Progress(all, wants, j, before, after)
    ensures Progress(all, wants, j + 1, before, after)
  {
    hide Holds;
  }

  /** Write the finished rows to disk. */
  method WriteOutputs(ghost t: GaloisLongMultiplyTable, ghost matrix: seq<Element16>, rows: nat, ghost cols: nat,
                      ghost inputs: seq<InputBlock>, outputs: seq<Target>, ghost blocksize: nat, blockoffset: nat,
                      blocklength: nat, outputrows: seq<array<byte>>, ghost copies: nat, ghost all: seq<Target>,
                      ghost wants: seq<seq<byte>>)
    requires Setting(t, matrix, rows, cols, inputs, copies, blocksize, blockoffset, blocklength, all, wants)
    requires |outputrows| == rows && Buffers(t, outputrows, all) && all[copies..] == outputs
    requires Progress(all, wants, copies, blockoffset, blockoffset + blocklength)
    requires AllHold(outputrows, matrix, rows, cols, Parts(inputs, blocksize, blockoffset, blocklength), blocklength,
                     cols)
    modifies Files(all)
    ensures Untouched(all)
    ensures Progress(all, wants, |all|, blockoffset, blockoffset + blocklength)
  {
    hide RowHolds;
    hide Written;
    hide Setting;
    hide AllHold;
    hide Progress;
    hide Parts;
    hide Outside;
    SettingFacts(t, matrix, rows, cols, inputs, copies, blocksize, blockoffset, blocklength, all, wants);
    ghost var parts := Parts(inputs, blocksize, blockoffset, blocklength);
    for o := 0 to rows
      invariant Untouched(all)
      invariant Progress(all, wants, copies + o, blockoffset, blockoffset + blocklength)
      invariant AllHold(outputrows, matrix, rows, cols, parts, blocklength, cols)
    {
      AllHoldAt(outputrows, matrix, rows, cols, parts, blocklength, cols, o);
      OutputPart(t, matrix, rows, cols, inputs, copies, blocksize, blockoffset, blocklength, all, wants, o,
                 outputrows[o][..]);
      assert outputs[o] == all[copies + o];
      WriteTo(outputs[o], blockoffset, outputrows[o][..], all, blocksize, wants, copies + o);
    }
  }

  lemma {:induction false} SettingFacts(t: GaloisLongMultiplyTable, matrix: seq<Element16>, rows: nat, cols: nat,
                                        inputs: seq<InputBlock>, copies: nat, blocksize: nat, blockoffset: nat,
                                        blocklength: nat, all: seq<Target>, wants: seq<seq<byte>>)
    requires Setting(t, matrix, rows, cols, inputs, copies, blocksize, blockoffset, blocklength, all, wants)
    ensures |all| == |wants| == copies + rows && Separate(all, blocksize) && Matrices.Shape(matrix, rows, cols)
    ensures AllValid(inputs, blocksize) && |inputs| == cols && blockoffset + blocklength <= blocksize && 0 < blocklength
    ensures blocksize % 4 == blockoffset % 4 == blocklength % 4 == 0 && t.bytes == 2 && t.g == Polynomials.GALOIS16
    ensures copies <= cols
  {
    hide Separate;
    hide Clear;
    hide RowBytes;
  }

  lemma {:induction false} CopyWanted(t: GaloisLongMultiplyTable, matrix: seq<Element16>, rows: nat, cols: nat,
                                      inputs: seq<InputBlock>, copies: nat, blocksize: nat, blockoffset: nat,
                                      blocklength: nat, all: seq<Target>, wants: seq<seq<byte>>, j: nat)
    requires Setting(t, matrix, rows, cols, inputs, copies, blocksize, blockoffset, blocklength, all, wants)
    requires j < copies
    ensures |wants| == copies + rows && copies <= |inputs| && AllValid(inputs, blocksize)
    ensures wants[j] == Wholes(inputs, blocksize)[j]
  {
    hide Separate, Clear, RowBytes;
  }

  lemma {:induction false} AllHoldAt(outputrows: seq<array<byte>>, matrix: seq<Element16>, rows: nat, cols: nat,
                                     parts: seq<seq<byte>>, length: nat, n: nat, o: nat)
    requires Matrices.Shape(matrix, rows, cols) && |outputrows| == rows && o < rows
    requires AllHold(outputrows, matrix, rows, cols, parts, length, n)
    ensures RowHolds(outputrows[o][..], Matrices.Row(matrix, rows, cols, o), parts, length, n)
  {
    hide RowHolds;
  }

  lemma {:induction false} OutputPart(t: GaloisLongMultiplyTable, matrix: seq<Element16>, rows: nat, cols: nat,
                                      inputs: seq<InputBlock>, copies: nat, blocksize: nat, blockoffset: nat,
                                      blocklength: nat, all: seq<Target>, wants: seq<seq<byte>>, o: nat,
                                      bytes: seq<byte>)
    requires Setting(t, matrix, rows, cols, inputs, copies, blocksize, blockoffset, blocklength, all, wants) && o < rows
    requires RowHolds(bytes, Matrices.Row(matrix, rows, cols, o), Parts(inputs, blocksize, blockoffset, blocklength),
                      blocklength, cols)
    ensures |bytes| == blocklength && copies + o < |wants| == |all| && blockoffset + blocklength <= |wants[copies + o]|
    ensures bytes == wants[copies + o][blockoffset..blockoffset + blocklength]
  {
    hide Setting, RowBytes, Matrices.Off, Wholes, AllValid, Slices, Separate, RowHolds;
    SettingFacts(t, matrix, rows, cols, inputs, copies, blocksize, blockoffset, blocklength, all, wants);
    OutputWanted(t, matrix, rows, cols, inputs, copies, blocksize, blockoffset, blocklength, all, wants, o);
    Even(blocksize);
    EvenEnd(blockoffset, blocklength);
    RowLength(bytes, Matrices.Row(matrix, rows, cols, o), Parts(inputs, blocksize, blockoffset, blocklength),
              blocklength, cols);
    RowFinished(bytes, Matrices.Row(matrix, rows, cols, o), Wholes(inputs, blocksize), blocksize, blockoffset,
                blockoffset + blocklength);
  }

  lemma {:induction false} OutputWanted(t: GaloisLongMultiplyTable, matrix: seq<Element16>, rows: nat, cols: nat,
                                        inputs: seq<InputBlock>, copies: nat, blocksize: nat, blockoffset: nat,
                                        blocklength: nat, all: seq<Target>, wants: seq<seq<byte>>, o: nat)
    requires Setting(t, matrix, rows, cols, inputs, copies, blocksize, blockoffset, blocklength, all, wants) && o < rows
    ensures |wants| == copies + rows && Matrices.Shape(matrix, rows, cols) && |inputs| == cols
    ensures AllValid(inputs, blocksize)
    ensures blocksize % 2 == 0 && |wants[copies + o]| == blocksize
    ensures wants[copies + o] == RowBytes(Matrices.Row(matrix, rows, cols, o), Wholes(inputs, blocksize), blocksize)
  {
    hide Separate, Clear, RowBytes, Matrices.Off;
    Even(blocksize);
  }

  /** One chunk of every block goes through the matrix, from the inputs to the targets. */
  method ProcessData(t: GaloisLongMultiplyTable, matrix: seq<Element16>, rows: nat, cols: nat, inputs: seq<InputBlock>,
                     copies: seq<Target>, outputs: seq<Target>, blocksize: nat, blockoffset: nat, blocklength: nat,
                     ghost wants: seq<seq<byte>>)
    requires t.Valid()
    requires Setting(t, matrix, rows, cols, inputs, |copies|, blocksize, blockoffset, blocklength, copies + outputs,
                     wants)
    requires Progress(copies + outputs, wants, 0, blockoffset, blockoffset + blocklength)
    modifies Files(copies + outputs)
    ensures t.Valid() && Untouched(copies + outputs)
    ensures Progress(copies + outputs, wants, |copies| + |outputs|, blockoffset, blockoffset + blocklength)
  {
    hide RowHolds;
    hide Written;
    hide Separate;
    hide Matrices.Off;
    hide GaloisLongMultiplyTable.Valid;
    hide RowBytes;
    ghost var all := copies + outputs;
    var outputrows := NewRows(rows, blocklength);
    if rows > 0 {
      ReadInputs(t, matrix, rows, cols, inputs, copies, blocksize, blockoffset, blocklength, outputrows, all, wants);
    } else {
      CopyInputs(t, matrix, cols, inputs, copies, blocksize, blockoffset, blocklength, all, wants);
    }
    WriteOutputs(t, matrix, rows, cols, inputs, outputs, blocksize, blockoffset, blocklength, outputrows, |copies|,
                 all, wants);
  }

  /** How much of every block is processed at a time: as much as the memory limit allows. */
  method ChunkSize(blocksize: nat, count: nat, memorylimit: nat) returns (chunksize: nat)
    requires 0 < blocksize && blocksize % 4 == 0
    ensures chunksize % 4 == 0 && chunksize <= blocksize && Times(chunksize, count) <= memorylimit
    ensures chunksize == blocksize || Times(chunksize + 4, count) > memorylimit
    ensures Times(4, count) <= memorylimit ==> 0 < chunksize
  {
    if blocksize * count > memorylimit {
      chunksize := memorylimit / count / 4 * 4;
      LargestChunk(blocksize, count, memorylimit, chunksize);
    } else {
      chunksize := blocksize;
    }
  }

  lemma {:induction false} LargestChunk(blocksize: nat, count: nat, memorylimit: nat, chunksize: nat)
    requires 0 < blocksize && 0 < count && Times(blocksize, count) > memorylimit
    requires chunksize == memorylimit / count / 4 * 4
    ensures chunksize % 4 == 0 && chunksize <= blocksize && Times(chunksize, count) <= memorylimit
    ensures Times(chunksize + 4, count) > memorylimit
    ensures Times(4, count) <= memorylimit ==> 0 < chunksize
  {
    var most := memorylimit / count;
    Quotient(memorylimit, count);
    Quotient(most, 4);
    MulMonotone(count, chunksize, most);
    SumTimes(count, most, 1);
    MulMonotone(count, most + 1, chunksize + 4);
    if blocksize <= most {
      MulMonotone(count, blocksize, most);
    }
  }

  /** Process the blocks chunk by chunk, until the end of the block. */
  method ProcessBlocks(t: GaloisLongMultiplyTable, matrix: seq<Element16>, rows: nat, cols: nat,
                       inputs: seq<InputBlock>, copies: seq<Target>, outputs: seq<Target>, blocksize: nat,
                       chunksize: nat, ghost wants: seq<seq<byte>>)
    requires t.Valid() && 0 < chunksize <= blocksize && chunksize % 4 == 0
    requires Setting(t, matrix, rows, cols, inputs, |copies|, blocksize, 0, chunksize, copies + outputs, wants)
    modifies Files(copies + outputs)
    ensures t.Valid() && Untouched(copies + outputs)
    ensures Progress(copies + outputs, wants, 0, blocksize, blocksize)
  {
    hide Separate, Wanted, Written, GaloisLongMultiplyTable.Valid, Setting, Outside, Wholes, AllValid, Matrices.Shape;
    ghost var all := copies + outputs;
    SettingFacts(t, matrix, rows, cols, inputs, |copies|, blocksize, 0, chunksize, all, wants);
    NothingWritten(all, wants, blocksize);
    hide Progress;
    var blockoffset := 0;
    while blockoffset < blocksize
      invariant t.Valid() && blockoffset <= blocksize && blockoffset % 4 == 0 && Untouched(all)
      invariant Progress(all, wants, 0, blockoffset, blockoffset)
    {
      var blocklength := Min(chunksize, blocksize - blockoffset);
      SettingLater(t, matrix, rows, cols, inputs, |copies|, blocksize, 0, chunksize, all, wants, blockoffset,
                   blocklength);
      ProgressNext(all, wants, blockoffset, blockoffset + blocklength);
      ProcessData(t, matrix, rows, cols, inputs, copies, outputs, blocksize, blockoffset, blocklength, wants);
      ProgressDone(all, wants, blockoffset, blockoffset + blocklength);
      blockoffset := blockoffset + blocklength;
    }
  }

  lemma {:induction false} SettingLater(t: GaloisLongMultiplyTable, matrix: seq<Element16>, rows: nat, cols: nat,
                                        inputs: seq<InputBlock>, copies: nat, blocksize: nat, blockoffset: nat,
                                        blocklength: nat, all: seq<Target>, wants: seq<seq<byte>>, later: nat,
                                        length: nat)
    requires Setting(t, matrix, rows, cols, inputs, copies, blocksize, blockoffset, blocklength, all, wants)
    requires later % 4 == length % 4 == 0 && 0 < length && later + length <= blocksize
    ensures Setting(t, matrix, rows, cols, inputs, copies, blocksize, later, length, all, wants)
  {
    hide Separate;
    hide Clear;
    hide RowBytes;
  }

  lemma {:induction false} ProgressNext(all: seq<Target>, wants: seq<seq<byte>>, before: nat, after: nat)
    requires Progress(all, wants, 0, before, before)
    ensures Progress(all, wants, 0, before, after)
  {
  }

  lemma {:induction false} ProgressDone(all: seq<Target>, wants: seq<seq<byte>>, before: nat, after: nat)
    requires Progress(all, wants, |all|, before, after)
    ensures Progress(all, wants, 0, after, after)
  {
  }

  lemma {:induction false} NothingWritten(all: seq<Target>, wants: seq<seq<byte>>, blocksize: nat)
    requires Separate(all, blocksize) && |wants| == |all|
    ensures Progress(all, wants, 0, 0, 0)
  {
  }
}
