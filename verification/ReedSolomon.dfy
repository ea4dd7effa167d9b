/** The ReedSolomon object of reedsolomon.h: it records which blocks are present, builds and
    solves the matrix, and applies it to blocks of data. */
module ReedSolomon {
  import opened Fields
  import opened Vectors
  import opened Matrices
  import opened Elimination
  import opened Codes
  import opened Vandermonde

  /** An exponent has 16 bits. */
  const EXPONENTS := 65536

  function Truncated(exponent: nat): (r: nat)
    ensures r < EXPONENTS && (exponent < EXPONENTS ==> r == exponent)
  {
    exponent % EXPONENTS
  }

  datatype RSOutputRow = RSOutputRow(present: bool, exponent: nat)

  /** The exponents of the first n rows that are present (or missing), in order. */
  function Exponents(rows: seq<RSOutputRow>, n: nat, which: bool): seq<nat>
    requires n <= |rows|
    decreases n
  {
    if n == 0 then []
    else if rows[n - 1].present == which then Exponents(rows, n - 1, which) + [rows[n - 1].exponent]
    else Exponents(rows, n - 1, which)
  }

  lemma {:induction false} ExponentsPrefix(rows: seq<RSOutputRow>, m: nat, n: nat, which: bool)
    requires m <= n <= |rows|
    ensures |Exponents(rows, m, which)| <= |Exponents(rows, n, which)|
    ensures Exponents(rows, n, which)[..|Exponents(rows, m, which)|] == Exponents(rows, m, which)
    decreases n
  {
    if m < n {
      ExponentsPrefix(rows, m, n - 1, which);
    }
  }

  lemma {:induction false} ExponentsExtend(rows: seq<RSOutputRow>, row: RSOutputRow, n: nat, which: bool)
    requires n <= |rows|
    ensures Exponents(rows + [row], n, which) == Exponents(rows, n, which)
    decreases n
  {
    if n > 0 {
      ExponentsExtend(rows, row, n - 1, which);
    }
  }

  lemma {:induction false} NoExponents(rows: seq<RSOutputRow>)
    ensures |Exponents(rows, 0, true)| == |Exponents(rows, 0, false)| == 0
  {
  }

  /** Feeding the matrix what a repair reads produces what it wants, whatever the data was. */
  ghost predicate Reconstructs<T(!new)>(F: Field<T>, P: Problem<T>, left: seq<T>) {
    && P.Valid()
    && Shape(left, P.Rows(), P.Cols())
    && forall data: seq<T>, r: nat {:trigger RowDot(F, left, P.Rows(), P.Cols(), r, Inputs(F, P, data))}
         | |data| == |P.bases| && r < P.Rows() ::
         RowDot(F, left, P.Rows(), P.Cols(), r, Inputs(F, P, data)) == Outputs(F, P, data)[r]
  }

  ghost predicate IsLeftMatrix<T(!new)>(F: Field<T>, P: Problem<T>, s: seq<T>) {
    && P.Valid()
    && Shape(s, P.Rows(), P.Cols())
    && forall r :: 0 <= r < P.Rows() ==> Row(s, P.Rows(), P.Cols(), r) == LeftRow(F, P, r)
  }

  lemma {:induction false} DataSolves<T(!new)>(F: Field<T>, P: Problem<T>, left: seq<T>, right: seq<T>, data: seq<T>)
    requires F.Lawful() && IsLeftMatrix(F, P, left) && IsRightMatrix(F, P, right) && |data| == |P.bases|
    ensures Solves(F, left, right, P.Rows(), P.Cols(), P.Rows(), Inputs(F, P, data), Outputs(F, P, data))
  {
    forall r | 0 <= r < P.Rows()
      ensures Holds(F, left, right, P.Rows(), P.Cols(), r, Inputs(F, P, data), Outputs(F, P, data))
    {
      DataSolvesRow(F, P, data, r);
    }
  }

  lemma {:induction false} IdentityRowDot<T(!new)>(F: Field<T>, s: seq<T>, rows: nat, r: nat, y: seq<T>)
    requires F.Lawful() && Shape(s, rows, rows) && UnitColumns(F, s, rows, 0, rows) && r < rows && |y| == rows
    ensures RowDot(F, s, rows, rows, r, y) == y[r]
  {
    var u := Row(s, rows, rows, r);
    forall c | 0 <= c < rows
      ensures u[c] == if r == c then F.one else F.zero
    {
      assert UnitColumn(F, s, rows, c);
    }
    DotOne(F, u, y, rows, r);
    MulLaws(F, y[r], F.one);
  }

  /** Solving the system turns the initial matrices into one that reconstructs. */
  lemma {:induction false} SolvedReconstructs<T(!new)>(F: Field<T>, P: Problem<T>, left: seq<T>, right: seq<T>,
                                                       left': seq<T>, right': seq<T>)
    requires F.Lawful() && IsLeftMatrix(F, P, left) && IsRightMatrix(F, P, right)
    requires Shape(left', P.Rows(), P.Cols()) && Shape(right', P.Rows(), P.Rows())
    requires UnitColumns(F, right', P.Rows(), 0, P.Rows())
    requires Equivalent(F, left, right, left', right', P.Rows(), P.Cols(), P.Rows())
    ensures Reconstructs(F, P, left')
  {
    forall data: seq<T>, r: nat | |data| == |P.bases| && r < P.Rows()
      ensures RowDot(F, left', P.Rows(), P.Cols(), r, Inputs(F, P, data)) == Outputs(F, P, data)[r]
    {
      var x, y := Inputs(F, P, data), Outputs(F, P, data);
      DataSolves(F, P, left, right, data);
      assert Solves(F, left', right', P.Rows(), P.Cols(), P.Rows(), x, y);
      assert Holds(F, left', right', P.Rows(), P.Cols(), r, x, y);
      IdentityRowDot(F, right', P.Rows(), r, y);
    }
  }

  /** With no data block missing there is nothing to solve. */
  lemma {:induction false} NothingMissingReconstructs<T(!new)>(F: Field<T>, P: Problem<T>, left: seq<T>)
    requires F.Lawful() && IsLeftMatrix(F, P, left) && |P.used| == 0
    ensures Reconstructs(F, P, left)
  {
    forall data: seq<T>, r: nat | |data| == |P.bases| && r < P.Rows()
      ensures RowDot(F, left, P.Rows(), P.Cols(), r, Inputs(F, P, data)) == Outputs(F, P, data)[r]
    {
      DataSolvesRow(F, P, data, r);
      assert RightRow(F, P, r) == Unit(F, |P.wanted|, r);
      DotUnit(F, |P.wanted|, r, Outputs(F, P, data));
    }
  }

  lemma {:induction false} RightColumnsUnit<T(!new)>(F: Field<T>, P: Problem<T>, s: seq<T>)
    requires IsRightMatrix(F, P, s)
    ensures UnitColumns(F, s, P.Rows(), |P.used|, P.Rows())
  {
    forall c | |P.used| <= c < P.Rows()
      ensures UnitColumn(F, s, P.Rows(), c)
    {
    }
  }

  /** The loop of SetInput that sorts the block numbers into two index arrays. */
  method IndexBlocks(present: seq<bool>)
    returns (datapresentindex: array<nat>, datamissingindex: array<nat>, datapresent: nat, datamissing: nat)
    ensures fresh(datapresentindex) && fresh(datamissingindex)
    ensures datapresentindex.Length == datamissingindex.Length == |present|
    ensures datapresent <= |present| && datamissing <= |present|
    ensures datapresentindex[..datapresent] == Indices(present, |present|, true)
    ensures datamissingindex[..datamissing] == Indices(present, |present|, false)
  {
    datapresentindex, datamissingindex := new nat[|present|], new nat[|present|];
    datapresent, datamissing := 0, 0;
    for index := 0 to |present|
      invariant datapresent <= index && datamissing <= index
      invariant datapresentindex[..datapresent] == Indices(present, index, true)
      invariant datamissingindex[..datamissing] == Indices(present, index, false)
    {
      if present[index] {
        datapresentindex[datapresent] := index;
        datapresent := datapresent + 1;
      } else {
        datamissingindex[datamissing] := index;
        datamissing := datamissing + 1;
      }
    }
  }

  /** The base values in an array. */
  method NewArray<T(0)>(s: seq<T>) returns (a: array<T>)
    ensures fresh(a) && a[..] == s
  {
    a := new T[|s|](i requires 0 <= i < |s| => s[i]);
  }

  class ReedSolomon<T(!new, ==, 0)> {
    const F: Field<T>

    /** The input blocks: how many there are, how many of them are here and how many are to be found again,
        their positions in two lists, and the base of each. */
    var inputcount: nat
    var datapresent: nat
    var datamissing: nat
    var datapresentindex: array<nat>
    var datamissingindex: array<nat>
    var database: array<T>

    /** The recovery blocks: how many rows there are, how many of them are here and how many are wanted, and
        the rows. */
    var outputcount: nat
    var parpresent: nat
    var parmissing: nat
    var outputrows: seq<RSOutputRow>

    /** The matrix that is computed, row after row. */
    var leftmatrix: array<T>

    ghost var present: seq<bool>

    ghost predicate Valid()
      reads this, datapresentindex, datamissingindex, database
    {
      && F.Lawful()
      && inputcount == |present| == database.Length == datapresentindex.Length == datamissingindex.Length
      && datapresent <= inputcount && datamissing <= inputcount
      && datapresentindex[..datapresent] == Indices(present, inputcount, true)
      && datamissingindex[..datamissing] == Indices(present, inputcount, false)
      && outputcount == |outputrows|
      && parpresent == |Exponents(outputrows, outputcount, true)|
      && parmissing == |Exponents(outputrows, outputcount, false)|
    }

    /** The recovery problem described so far. */
    ghost function TheProblem(): (P: Problem<T>)
      requires Valid() && datamissing <= parpresent
      reads this, datapresentindex, datamissingindex, database
      ensures P.Valid() && |P.used| == datamissing && |P.wanted| == parmissing
      ensures P.PresentIdx() == datapresentindex[..datapresent] && P.MissingIdx() == datamissingindex[..datamissing]
    {
      Problem(database[..], present, Exponents(outputrows, outputcount, true)[..datamissing],
              Exponents(outputrows, outputcount, false))
    }

    constructor (F: Field<T>)
      requires F.Lawful()
      ensures this.F == F && Valid() && present == [] && outputrows == []
      ensures fresh(database) && fresh(datapresentindex) && fresh(datamissingindex) && fresh(leftmatrix)
    {
      this.F := F;
      inputcount, datapresent, datamissing := 0, 0, 0;
      datapresentindex, datamissingindex := new nat[0], new nat[0];
      database := new T[0];
      outputcount, parpresent, parmissing := 0, 0, 0;
      outputrows := [];
      leftmatrix := new T[0];
      present := [];
    }

    /** Take in, for every input block, whether it is here, and its base. */
    method SetInput(present: seq<bool>, bases: seq<T>)
      requires Valid() && this.present == [] && |bases| == |present|
      modifies this`inputcount, this`datapresent, this`datamissing, this`datapresentindex, this`datamissingindex,
               this`database, this`present
      ensures Valid() && this.present == present && database[..] == bases
      ensures fresh(database) && fresh(datapresentindex) && fresh(datamissingindex)
    {
      hide Exponents;
      hide Indices;
      hide Field.Lawful;
      datapresentindex, datamissingindex, datapresent, datamissing := IndexBlocks(present);
      database := NewArray(bases);
      inputcount := |present|;
      this.present := present;
    }

    /** Take in one recovery block: its exponent, and whether it is here or wanted. */
    method SetOutput(present: bool, exponent: nat)
      requires Valid() && exponent < EXPONENTS
      modifies this`outputrows, this`outputcount, this`parpresent, this`parmissing
      ensures Valid() && outputrows == old(outputrows) + [RSOutputRow(present, exponent)]
    {
      var row := RSOutputRow(present, exponent);
      ExponentsExtend(outputrows, row, outputcount, true);
      ExponentsExtend(outputrows, row, outputcount, false);
      outputrows := outputrows + [row];
      outputcount := outputcount + 1;
      if present {
        parpresent := parpresent + 1;
      } else {
        parmissing := parmissing + 1;
      }
    }

    /** Record a range of recovery blocks, lowexponent to highexponent inclusive. */
    method SetOutputRange(present: bool, lowexponent: nat, highexponent: nat)
      requires Valid() && lowexponent < EXPONENTS && highexponent < EXPONENTS
      modifies this`outputrows, this`outputcount, this`parpresent, this`parmissing
      ensures Valid()
      ensures var n := if lowexponent <= highexponent then highexponent + 1 - lowexponent else 0;
              outputrows == old(outputrows) + seq(n, i requires i >= 0 => RSOutputRow(present, lowexponent + i))
    {
      var exponent := lowexponent;
      while exponent <= highexponent
        invariant Valid() && lowexponent <= exponent
        invariant lowexponent <= highexponent ==> exponent <= highexponent + 1
        invariant lowexponent > highexponent ==> exponent == lowexponent
        invariant outputrows ==
                    old(outputrows) + seq(exponent - lowexponent,
                                          i requires i >= 0 => RSOutputRow(present, lowexponent + i))
      {
        SetOutput(present, exponent);
        exponent := exponent + 1;
      }
    }

    /** Fill one row: the powers of some bases, then a row of an identity matrix. */
    method FillRow(a: array<T>, rows: nat, cols: nat, row: nat, index: array<nat>, n: nat, exponent: nat, one: int)
      requires row < rows && n <= cols && n <= index.Length && Shape(a[..], rows, cols)
      requires a != database && a as object != index as object
      requires forall i :: 0 <= i < n ==> index[..n][i] < database.Length
      modifies a
      ensures Shape(a[..], rows, cols) && OtherRowsSame(old(a[..]), a[..], rows, cols, row)
      ensures Row(a[..], rows, cols, row) ==
              Powers(F, Pick(database[..], index[..n]), exponent) + Unit(F, cols - n, one)
    {
      hide Off;
      ghost var a0 := a[..];
      ghost var want := Powers(F, Pick(database[..], index[..n]), exponent) + Unit(F, cols - n, one);
      OffOrder(row, rows, cols);
      OffIs(row, cols);
      var off := row * cols;
      for col := 0 to n
        invariant forall i :: off <= i < off + col ==> a[i] == want[i - off]
        invariant forall i :: 0 <= i < a.Length && !(off <= i < off + col) ==> a[i] == a0[i]
      {
        assert index[..n][col] == index[col];
        a[off + col] := Pow(F, database[index[col]], exponent);
      }
      for col := 0 to cols - n
        invariant forall i :: off <= i < off + n + col ==> a[i] == want[i - off]
        invariant forall i :: 0 <= i < a.Length && !(off <= i < off + n + col) ==> a[i] == a0[i]
      {
        a[off + col + n] := if col == one then F.one else F.zero;
      }
      OtherRowsUntouched(a0, a[..], rows, cols, row);
      forall c | 0 <= c < cols
        ensures Row(a[..], rows, cols, row)[c] == want[c]
      {
        RowAt(a[..], rows, cols, row, c);
      }
    }

    /** The next output row of the given kind. */
    method FindRow(from: nat, which: bool) returns (next: nat)
      requires Valid() && from <= outputcount
      requires |Exponents(outputrows, from, which)| < |Exponents(outputrows, outputcount, which)|
      ensures from <= next < outputcount && outputrows[next].present == which
      ensures |Exponents(outputrows, next + 1, which)| == |Exponents(outputrows, from, which)| + 1
      ensures Exponents(outputrows, outputcount, which)[|Exponents(outputrows, from, which)|] ==
                outputrows[next].exponent
    {
      next := from;
      while outputrows[next].present != which
        invariant from <= next < outputcount
        invariant Exponents(outputrows, next, which) == Exponents(outputrows, from, which)
        decreases outputcount - next
      {
        next := next + 1;
        assert next < outputcount;
      }
      ExponentsPrefix(outputrows, next + 1, outputcount, which);
      var e := Exponents(outputrows, next + 1, which);
      assert e[|e| - 1] == outputrows[next].exponent;
      assert Exponents(outputrows, outputcount, which)[..|e|][|e| - 1] == e[|e| - 1];
    }

    /** Row r of the two matrices has been filled in. */
    ghost predicate RowFilled(P: Problem<T>, left: seq<T>, right: seq<T>, r: nat)
      requires P.Valid() && r < P.Rows() && Shape(left, P.Rows(), P.Cols()) && Shape(right, P.Rows(), P.Rows())
    {
      && Row(left, P.Rows(), P.Cols(), r) == LeftRow(F, P, r)
      && Row(right, P.Rows(), P.Rows(), r) == RightRow(F, P, r)
    }

    /** Fill row `row` of both matrices, for the recovery block with the given exponent. */
    method FillRows(ghost P: Problem<T>, left: array<T>, right: array<T>, row: nat, exponent: nat)
      requires Valid() && datamissing <= parpresent && P == TheProblem()
      requires row < P.Rows() && exponent == P.Exponent(row)
      requires left != right && left != database && right != database
      requires left as object != datapresentindex && right as object != datapresentindex
      requires left as object != datamissingindex && right as object != datamissingindex
      requires Shape(left[..], P.Rows(), P.Cols()) && Shape(right[..], P.Rows(), P.Rows())
      requires forall r :: 0 <= r < row ==> RowFilled(P, left[..], right[..], r)
      modifies left, right
      ensures Shape(left[..], P.Rows(), P.Cols()) && Shape(right[..], P.Rows(), P.Rows())
      ensures forall r :: 0 <= r < row + 1 ==> RowFilled(P, left[..], right[..], r)
    {
      hide Off;
      hide Exponents;
      hide Indices;
      var outcount, incount := datamissing + parmissing, datapresent + datamissing;
      ghost var left0, right0 := left[..], right[..];
      assert forall i :: 0 <= i < datapresent ==> datapresentindex[..datapresent][i] < database.Length;
      assert forall i :: 0 <= i < datamissing ==> datamissingindex[..datamissing][i] < database.Length;
      FillRow(left, outcount, incount, row, datapresentindex, datapresent, exponent, row);
      assert Row(left[..], outcount, incount, row) == LeftRow(F, P, row);
      FillRow(right, outcount, outcount, row, datamissingindex, datamissing, exponent, row - datamissing);
      assert Row(right[..], outcount, outcount, row) == RightRow(F, P, row);
      forall r | 0 <= r < row
        ensures RowFilled(P, left[..], right[..], r)
      {
        assert RowFilled(P, left0, right0, r);
      }
    }

    /** Fill both matrices. */
    method FillMatrices(ghost P: Problem<T>, left: array<T>, right: array<T>)
      requires Valid() && datamissing <= parpresent && P == TheProblem()
      requires left != right && left != database && right != database
      requires left as object != datapresentindex && right as object != datapresentindex
      requires left as object != datamissingindex && right as object != datamissingindex
      requires Shape(left[..], P.Rows(), P.Cols()) && Shape(right[..], P.Rows(), P.Rows())
      modifies left, right
      ensures IsLeftMatrix(F, P, left[..]) && IsRightMatrix(F, P, right[..])
    {
      hide Off;
      hide Exponents;
      hide Indices;
      hide RowFilled;
      NoExponents(outputrows);
      var next := 0;
      for row := 0 to datamissing
        invariant 0 <= next <= outputcount && |Exponents(outputrows, next, true)| == row
        invariant Valid() && P == TheProblem()
        invariant Shape(left[..], P.Rows(), P.Cols()) && Shape(right[..], P.Rows(), P.Rows())
        invariant forall r :: 0 <= r < row ==> RowFilled(P, left[..], right[..], r)
      {
        next := FindRow(next, true);
        FillRows(P, left, right, row, outputrows[next].exponent);
        next := next + 1;
      }
      next := 0;
      for row := 0 to parmissing
        invariant 0 <= next <= outputcount && |Exponents(outputrows, next, false)| == row
        invariant Valid() && P == TheProblem()
        invariant Shape(left[..], P.Rows(), P.Cols()) && Shape(right[..], P.Rows(), P.Rows())
        invariant forall r :: 0 <= r < datamissing + row ==> RowFilled(P, left[..], right[..], r)
      {
        next := FindRow(next, false);
        FillRows(P, left, right, row + datamissing, outputrows[next].exponent);
        next := next + 1;
      }
      AllRowsFilled(P, left[..], right[..]);
    }

    lemma {:induction false} AllRowsFilled(P: Problem<T>, left: seq<T>, right: seq<T>)
      requires P.Valid() && Shape(left, P.Rows(), P.Cols()) && Shape(right, P.Rows(), P.Rows())
      requires forall r :: 0 <= r < P.Rows() ==> RowFilled(P, left, right, r)
      ensures IsLeftMatrix(F, P, left) && IsRightMatrix(F, P, right)
    {
      hide Off;
      hide LeftRow;
      hide RightRow;
      forall r | 0 <= r < P.Rows()
        ensures Row(left, P.Rows(), P.Cols(), r) == LeftRow(F, P, r)
        ensures Row(right, P.Rows(), P.Rows(), r) == RightRow(F, P, r)
      {
        assert RowFilled(P, left, right, r);
      }
    }

    /** Eliminate, unless no input block is missing. */
    method Solve(ghost P: Problem<T>, left: array<T>, right: array<T>, outcount: nat, incount: nat, missing: nat)
      returns (ok: bool)
      requires F.Lawful() && left != right && P.Valid()
      requires outcount == P.Rows() && incount == P.Cols() && missing == |P.used|
      requires IsLeftMatrix(F, P, left[..]) && IsRightMatrix(F, P, right[..])
      modifies left, right
      ensures ok <==> Solvable(F, P)
      ensures ok ==> Reconstructs(F, P, left[..])
    {
      hide Off;
      hide Row;
      hide LeftRow;
      hide RightRow;
      hide Reconstructs;
      hide Equivalent;
      ghost var left0, right0 := left[..], right[..];
      if missing > 0 {
        RightColumnsUnit(F, P, right0);
        SolvableIsNonsingular(F, P, right0);
        ok := GaussElim(F, outcount, incount, left, right, missing);
        if ok {
          SolvedReconstructs(F, P, left0, right0, left[..], right[..]);
        }
      } else {
        NothingMissingReconstructs(F, P, left0);
        ok := true;
      }
    }

    /** Construct the matrix and, if data blocks are missing, solve it.  It fails exactly if there are
        too few recovery blocks, nothing to do, or a leading block of the matrix of powers that is not
        invertible; otherwise the matrix reconstructs every possible data. */
    method Compute() returns (ok: bool)
      requires Valid()
      modifies this`leftmatrix
      ensures Valid() && fresh(leftmatrix)
      ensures ok <==> datamissing <= parpresent && datamissing + parmissing > 0 && Solvable(F, TheProblem())
      ensures ok ==> Reconstructs(F, TheProblem(), leftmatrix[..])
    {
      hide Off;
      hide Exponents;
      hide Indices;
      hide IsLeftMatrix;
      hide IsRightMatrix;
      hide Reconstructs;
      hide Solvable;
      var outcount, incount := datamissing + parmissing, datapresent + datamissing;
      leftmatrix := new T[0];
      if datamissing > parpresent {
        return false;
      } else if outcount == 0 {
        return false;
      }
      ghost var P := TheProblem();
      OffIs(outcount, incount);
      OffIs(outcount, outcount);
      var left := new T[outcount * incount](i => F.zero);
      var right := new T[outcount * outcount](i => F.zero);
      FillMatrices(P, left, right);
      leftmatrix := left;
      ok := Solve(P, left, right, outcount, incount, datamissing);
    }

    /** The matrix has been computed. */
    ghost predicate Computed()
      reads this, datapresentindex, datamissingindex, database, leftmatrix
    {
      && Valid() && datamissing <= parpresent
      && Shape(leftmatrix[..], TheProblem().Rows(), TheProblem().Cols())
    }

    /** The matrix element for one output row and one input block. */
    ghost function Factor(outputindex: nat, inputindex: nat): T
      requires Computed() && inputindex < TheProblem().Cols() && outputindex < TheProblem().Rows()
      reads this, datapresentindex, datamissingindex, database, leftmatrix
    {
      Row(leftmatrix[..], TheProblem().Rows(), TheProblem().Cols(), outputindex)[inputindex]
    }

    /** Add the product of one matrix element and a buffer of lanes to the part of the output
        buffer that belongs to one output row. */
    method Process(inputindex: nat, inputbuffer: seq<T>, outputindex: nat, outputbuffer: array<T>, offset: nat)
      requires Computed() && inputindex < TheProblem().Cols() && outputindex < TheProblem().Rows()
      requires offset + |inputbuffer| <= outputbuffer.Length && outputbuffer != leftmatrix && outputbuffer != database
      modifies outputbuffer
      ensures var factor := old(Factor(outputindex, inputindex));
              forall i :: offset <= i < offset + |inputbuffer| ==>
                            outputbuffer[i] == F.add(old(outputbuffer[i]), F.mul(inputbuffer[i - offset], factor))
      ensures forall i :: 0 <= i < outputbuffer.Length && !(offset <= i < offset + |inputbuffer|) ==>
                            outputbuffer[i] == old(outputbuffer[i])
    {
      hide Off;
      hide Exponents;
      hide Indices;
      RowAt(leftmatrix[..], TheProblem().Rows(), TheProblem().Cols(), outputindex, inputindex);
      OffIs(outputindex, datapresent + datamissing);
      var factor := leftmatrix[outputindex * (datapresent + datamissing) + inputindex];
      if factor == F.zero || |inputbuffer| == 0 {
        forall i | 0 <= i < |inputbuffer|
          ensures F.add(outputbuffer[offset + i], F.mul(inputbuffer[i], factor)) == outputbuffer[offset + i]
        {
          MulLaws(F, inputbuffer[i], F.zero);
          AddLaws(F, outputbuffer[offset + i], F.zero);
        }
        return;
      }
      for i := 0 to |inputbuffer|
        invariant forall j :: offset <= j < offset + i ==>
                                outputbuffer[j] == F.add(old(outputbuffer[j]), F.mul(inputbuffer[j - offset], factor))
        invariant forall j :: 0 <= j < outputbuffer.Length && !(offset <= j < offset + i) ==>
                                outputbuffer[j] == old(outputbuffer[j])
      {
        outputbuffer[offset + i] := F.add(outputbuffer[offset + i], F.mul(inputbuffer[i], factor));
      }
    }

    /** Apply the whole matrix: every input block is added to every output row.  The rows of the
        output buffer end up as the inner products of the matrix rows with the input blocks. */
    method ProcessData(inputblocks: seq<seq<T>>, blocklength: nat) returns (outputbuffer: array<T>)
      requires Computed() && |inputblocks| == TheProblem().Cols()
      requires forall j :: 0 <= j < |inputblocks| ==> |inputblocks[j]| == blocklength
      ensures fresh(outputbuffer) && Shape(outputbuffer[..], TheProblem().Rows(), blocklength)
      ensures forall o :: 0 <= o < TheProblem().Rows() ==>
                Row(outputbuffer[..], TheProblem().Rows(), blocklength, o) ==
                Accumulated(F, Row(leftmatrix[..], TheProblem().Rows(), TheProblem().Cols(), o),
                            inputblocks, blocklength, |inputblocks|)
    {
      hide Off;
      hide Exponents;
      hide Indices;
      hide Field.Lawful;
      ghost var rows, cols, left := TheProblem().Rows(), TheProblem().Cols(), leftmatrix[..];
      var outputcount := datamissing + parmissing;
      OffIs(outputcount, blocklength);
      outputbuffer := new T[outputcount * blocklength](i => F.zero);
      RowsZero(F, outputbuffer[..], rows, blocklength);
      for inputindex := 0 to |inputblocks|
        invariant Shape(outputbuffer[..], rows, blocklength)
        invariant forall o :: 0 <= o < rows ==>
          Row(outputbuffer[..], rows, blocklength, o) ==
          Accumulated(F, Row(left, rows, cols, o), inputblocks, blocklength, inputindex)
      {
        for outputindex := 0 to outputcount
          invariant Shape(outputbuffer[..], rows, blocklength)
          invariant forall o :: 0 <= o < rows ==>
            Row(outputbuffer[..], rows, blocklength, o) ==
            Accumulated(F, Row(left, rows, cols, o), inputblocks, blocklength,
                        if o < outputindex then inputindex + 1 else inputindex)
        {
          ghost var before := outputbuffer[..];
          OffOrder(outputindex, outputcount, blocklength);
          OffIs(outputindex, blocklength);
          Process(inputindex, inputblocks[inputindex], outputindex, outputbuffer, outputindex * blocklength);
          OtherRowsUntouched(before, outputbuffer[..], rows, blocklength, outputindex);
          RowProcessed(F, before, outputbuffer[..], Row(left, rows, cols, outputindex), inputblocks, rows, blocklength,
                       outputindex, inputindex);
        }
      }
    }
  }

  /** The sum of the first n input blocks, each multiplied by its element of a matrix row. */
  function Accumulated<T(!new)>(F: Field<T>, row: seq<T>, inputblocks: seq<seq<T>>, blocklength: nat,
                                n: nat): (r: seq<T>)
    requires n <= |row| && n <= |inputblocks|
    requires forall j :: 0 <= j < |inputblocks| ==> |inputblocks[j]| == blocklength
    ensures |r| == blocklength
    ensures forall i :: 0 <= i < blocklength ==> r[i] == Dot(F, Lane(inputblocks, i), row, n)
  {
    seq(blocklength, i requires 0 <= i < blocklength => Dot(F, Lane(inputblocks, i), row, n))
  }

  /** The i-th element of every block. */
  function Lane<T>(blocks: seq<seq<T>>, i: nat): (r: seq<T>)
    requires forall j :: 0 <= j < |blocks| ==> i < |blocks[j]|
    ensures |r| == |blocks|
    ensures forall j :: 0 <= j < |blocks| ==> r[j] == blocks[j][i]
  {
    seq(|blocks|, j requires 0 <= j < |blocks| => blocks[j][i])
  }

  lemma {:induction false} RowsZero<T(!new)>(F: Field<T>, s: seq<T>, rows: nat, cols: nat)
    requires Shape(s, rows, cols) && forall i :: 0 <= i < |s| ==> s[i] == F.zero
    ensures forall o :: 0 <= o < rows ==> Row(s, rows, cols, o) == seq(cols, i => F.zero)
  {
    hide Off;
    forall o | 0 <= o < rows
      ensures Row(s, rows, cols, o) == seq(cols, i => F.zero)
    {
      forall c | 0 <= c < cols
        ensures Row(s, rows, cols, o)[c] == F.zero
      {
        RowAt(s, rows, cols, o, c);
      }
    }
  }

  lemma {:induction false} RowProcessed<T(!new)>(F: Field<T>, before: seq<T>, after: seq<T>, row: seq<T>,
                                                 inputblocks: seq<seq<T>>, rows: nat, blocklength: nat, o: nat, n: nat)
    requires Shape(before, rows, blocklength) && Shape(after, rows, blocklength) && o < rows
    requires n < |row| && n < |inputblocks|
    requires forall j :: 0 <= j < |inputblocks| ==> |inputblocks[j]| == blocklength
    requires Row(before, rows, blocklength, o) == Accumulated(F, row, inputblocks, blocklength, n)
    requires Off(o, blocklength) + blocklength <= |before|
    requires forall i :: Off(o, blocklength) <= i < Off(o, blocklength) + blocklength ==>
                           after[i] == F.add(before[i], F.mul(inputblocks[n][i - Off(o, blocklength)], row[n]))
    ensures Row(after, rows, blocklength, o) == Accumulated(F, row, inputblocks, blocklength, n + 1)
  {
    hide Off;
    forall i | 0 <= i < blocklength
      ensures Row(after, rows, blocklength, o)[i] == Accumulated(F, row, inputblocks, blocklength, n + 1)[i]
    {
      RowAt(before, rows, blocklength, o, i);
      RowAt(after, rows, blocklength, o, i);
    }
  }
}
