/** GaussElim of reedsolomon.h: Gaussian elimination in place, without row swaps. */
module Elimination {
  import opened Fields
  import opened Vectors
  import opened Matrices

  /** Column c is the unit vector with its one in row c. */
  ghost predicate UnitColumn<T(!new)>(F: Field<T>, s: seq<T>, rows: nat, c: nat)
    requires Shape(s, rows, rows) && c < rows
  {
    forall r :: 0 <= r < rows ==> Row(s, rows, rows, r)[c] == if r == c then F.one else F.zero
  }

  ghost predicate UnitColumns<T(!new)>(F: Field<T>, s: seq<T>, rows: nat, lo: nat, hi: nat)
    requires Shape(s, rows, rows) && hi <= rows
  {
    forall c :: lo <= c < hi ==> UnitColumn(F, s, rows, c)
  }

  /** Every leading block up to m-by-m is invertible. */
  ghost predicate LeadingNonsingular<T(!new)>(F: Field<T>, right: seq<T>, rows: nat, m: nat)
    requires Shape(right, rows, rows) && m <= rows
  {
    forall k :: 1 <= k <= m ==> Nonsingular(F, right, rows, k)
  }

  // ----- What the row operations do to the flat array, seen row by row -----

  ghost predicate CellsDivided<T(!new)>(F: Field<T>, s: seq<T>, s': seq<T>, lo: nat, hi: nat, k: T) {
    && |s'| == |s| && lo <= hi <= |s|
    && (forall i :: lo <= i < hi ==> s'[i] == F.div(s[i], k))
    && (forall i :: 0 <= i < |s| && !(lo <= i < hi) ==> s'[i] == s[i])
  }

  ghost predicate CellsAdded<T(!new)>(F: Field<T>, s: seq<T>, s': seq<T>, src: nat, dst: nat, lo: nat, hi: nat, k: T) {
    && |s'| == |s| && lo <= hi && src + hi <= |s| && dst + hi <= |s|
    && (forall i :: dst + lo <= i < dst + hi ==> s'[i] == F.add(s[i], F.mul(s[i - dst + src], k)))
    && (forall i :: 0 <= i < |s| && !(dst + lo <= i < dst + hi) ==> s'[i] == s[i])
  }

  lemma {:induction false} OtherRowsUntouched<T>(s: seq<T>, s': seq<T>, rows: nat, cols: nat, target: nat)
    requires Shape(s, rows, cols) && Shape(s', rows, cols) && target < rows
    requires forall i :: 0 <= i < |s| && !(Off(target, cols) <= i < Off(target, cols) + cols) ==> s'[i] == s[i]
    ensures OtherRowsSame(s, s', rows, cols, target)
  {
    forall r | 0 <= r < rows && r != target
      ensures Row(s', rows, cols, r) == Row(s, rows, cols, r)
    {
      hide Off;
      if r < target {
        OffOrder(r, target, cols);
      } else {
        OffOrder(target, r, cols);
      }
      forall c | 0 <= c < cols
        ensures Row(s', rows, cols, r)[c] == Row(s, rows, cols, r)[c]
      {
        RowAt(s, rows, cols, r, c);
        RowAt(s', rows, cols, r, c);
      }
    }
  }

  /** Dividing the cells lo.. of a row whose earlier cells are zero divides the row. */
  lemma {:induction false} DividedRow<T(!new)>(F: Field<T>, s: seq<T>, s': seq<T>, rows: nat, cols: nat,
                                               target: nat, lo: nat, k: T)
    requires F.Lawful() && k != F.zero && target < rows && lo <= cols
    requires Shape(s, rows, cols) && Off(target, cols) + cols <= |s|
    requires CellsDivided(F, s, s', Off(target, cols) + lo, Off(target, cols) + cols, k)
    requires forall c :: 0 <= c < lo ==> Row(s, rows, cols, target)[c] == F.zero
    ensures Shape(s', rows, cols)
    ensures OtherRowsSame(s, s', rows, cols, target)
    ensures Scaled(F, Row(s, rows, cols, target), k, Row(s', rows, cols, target))
  {
    hide Off;
    OtherRowsUntouched(s, s', rows, cols, target);
    DivLaws(F, F.zero, k);
    forall c | 0 <= c < cols
      ensures Row(s', rows, cols, target)[c] == F.div(Row(s, rows, cols, target)[c], k)
    {
      RowAt(s, rows, cols, target, c);
      RowAt(s', rows, cols, target, c);
    }
  }

  lemma {:induction false} AddedRow<T(!new)>(F: Field<T>, s: seq<T>, s': seq<T>, rows: nat, cols: nat,
                                             pivot: nat, target: nat, lo: nat, k: T)
    requires F.Lawful() && pivot < rows && target < rows && lo <= cols
    requires Shape(s, rows, cols)
    requires CellsAdded(F, s, s', Off(pivot, cols), Off(target, cols), lo, cols, k)
    requires forall c :: 0 <= c < lo ==> Row(s, rows, cols, pivot)[c] == F.zero
    ensures Shape(s', rows, cols)
    ensures OtherRowsSame(s, s', rows, cols, target)
    ensures Combined(F, Row(s, rows, cols, target), Row(s, rows, cols, pivot), k, Row(s', rows, cols, target))
  {
    hide Off;
    OtherRowsUntouched(s, s', rows, cols, target);
    forall c | 0 <= c < cols
      ensures Row(s', rows, cols, target)[c] ==
              F.add(Row(s, rows, cols, target)[c], F.mul(Row(s, rows, cols, pivot)[c], k))
    {
      RowAt(s, rows, cols, target, c);
      RowAt(s, rows, cols, pivot, c);
      RowAt(s', rows, cols, target, c);
      if c < lo {
        MulLaws(F, k, F.zero);
        AddLaws(F, s[Off(target, cols) + c], F.zero);
      }
    }
  }

  // ----- The row operations -----

  /** Divide the nonzero cells lo..hi by k. */
  method DivideCells<T(!new, ==)>(F: Field<T>, a: array<T>, lo: nat, hi: nat, k: T)
    requires F.Lawful() && k != F.zero && lo <= hi <= a.Length
    modifies a
    ensures CellsDivided(F, old(a[..]), a[..], lo, hi, k)
  {
    for i := lo to hi
      invariant forall j :: lo <= j < i ==> a[j] == F.div(old(a[j]), k)
      invariant forall j :: 0 <= j < a.Length && !(lo <= j < i) ==> a[j] == old(a[j])
    {
      if a[i] != F.zero {
        a[i] := F.div(a[i], k);
      } else {
        DivLaws(F, F.zero, k);
      }
    }
  }

  /** Subtract the cells lo..hi of the row at src from the row at dst. */
  method SubtractCells<T(!new, ==)>(F: Field<T>, a: array<T>, src: nat, dst: nat, lo: nat, hi: nat)
    requires F.Lawful() && lo <= hi && src + hi <= a.Length && dst + hi <= a.Length
    requires src + hi <= dst || dst + hi <= src
    modifies a
    ensures CellsAdded(F, old(a[..]), a[..], src, dst, lo, hi, F.one)
  {
    for c := lo to hi
      invariant forall i :: dst + lo <= i < dst + c ==> a[i] == F.add(old(a[i]), F.mul(old(a[i - dst + src]), F.one))
      invariant forall i :: 0 <= i < a.Length && !(dst + lo <= i < dst + c) ==> a[i] == old(a[i])
    {
      MulLaws(F, a[src + c], F.one);
      if a[src + c] != F.zero {
        a[dst + c] := F.add(a[dst + c], a[src + c]);
      } else {
        AddLaws(F, a[dst + c], F.zero);
      }
    }
  }

  /** Subtract k times the cells lo..hi of the row at src from the row at dst. */
  method SubtractScaledCells<T(!new, ==)>(F: Field<T>, a: array<T>, src: nat, dst: nat, lo: nat, hi: nat, k: T)
    requires F.Lawful() && lo <= hi && src + hi <= a.Length && dst + hi <= a.Length
    requires src + hi <= dst || dst + hi <= src
    modifies a
    ensures CellsAdded(F, old(a[..]), a[..], src, dst, lo, hi, k)
  {
    for c := lo to hi
      invariant forall i :: dst + lo <= i < dst + c ==> a[i] == F.add(old(a[i]), F.mul(old(a[i - dst + src]), k))
      invariant forall i :: 0 <= i < a.Length && !(dst + lo <= i < dst + c) ==> a[i] == old(a[i])
    {
      if a[src + c] != F.zero {
        a[dst + c] := F.add(a[dst + c], F.mul(a[src + c], k));
      } else {
        MulLaws(F, k, F.zero);
        AddLaws(F, a[dst + c], F.zero);
      }
    }
  }

  // ----- Pivots -----

  /** With the first k columns reduced, the pivot decides whether the next leading block is invertible. */
  lemma {:induction false} PivotDecides<T(!new)>(F: Field<T>, s: seq<T>, rows: nat, k: nat)
    requires F.Lawful() && k < rows && Shape(s, rows, rows) && UnitColumns(F, s, rows, 0, k)
    ensures Nonsingular(F, s, rows, k + 1) <==> Row(s, rows, rows, k)[k] != F.zero
  {
    if Row(s, rows, rows, k)[k] == F.zero {
      ZeroPivotKernel(F, s, rows, k);
    } else {
      forall y: seq<T> | |y| == rows && InKernel(F, s, rows, k + 1, y)
        ensures forall c :: 0 <= c < k + 1 ==> y[c] == F.zero
      {
        NonzeroPivotKernel(F, s, rows, k, y);
      }
    }
  }

  /** A reduced row on a vector supported on the first k+1 columns. */
  lemma {:induction false} ReducedRowDot<T(!new)>(F: Field<T>, s: seq<T>, rows: nat, k: nat, r: nat, y: seq<T>)
    requires F.Lawful() && r <= k < rows && Shape(s, rows, rows) && UnitColumns(F, s, rows, 0, k) && |y| == rows
    requires forall c :: k < c < rows ==> y[c] == F.zero
    ensures var p := F.mul(Row(s, rows, rows, r)[k], y[k]);
            RowDot(F, s, rows, rows, r, y) == if r == k then p else F.add(y[r], p)
  {
    var u := Row(s, rows, rows, r);
    forall c | 0 <= c < k
      ensures u[c] == if r == c then F.one else F.zero
    {
      assert UnitColumn(F, s, rows, c);
    }
    if r == k {
      DotOne(F, u, y, rows, k);
    } else {
      DotTwo(F, u, y, rows, r, k);
      MulLaws(F, y[r], F.one);
    }
  }

  lemma {:induction false} ZeroPivotKernel<T(!new)>(F: Field<T>, s: seq<T>, rows: nat, k: nat)
    requires F.Lawful() && k < rows && Shape(s, rows, rows) && UnitColumns(F, s, rows, 0, k)
    requires Row(s, rows, rows, k)[k] == F.zero
    ensures !Nonsingular(F, s, rows, k + 1)
  {
    var y := seq(rows, i requires 0 <= i < rows =>
      if i < k then Row(s, rows, rows, i)[k] else if i == k then F.one else F.zero);
    forall r | 0 <= r < k + 1
      ensures RowDot(F, s, rows, rows, r, y) == F.zero
    {
      ReducedRowDot(F, s, rows, k, r, y);
      MulLaws(F, Row(s, rows, rows, r)[k], F.one);
      AddLaws(F, y[r], y[r]);
    }
    assert InKernel(F, s, rows, k + 1, y);
    assert y[k] != F.zero;
  }

  lemma {:induction false} NonzeroPivotKernel<T(!new)>(F: Field<T>, s: seq<T>, rows: nat, k: nat, y: seq<T>)
    requires F.Lawful() && k < rows && Shape(s, rows, rows) && UnitColumns(F, s, rows, 0, k)
    requires Row(s, rows, rows, k)[k] != F.zero
    requires |y| == rows && InKernel(F, s, rows, k + 1, y)
    ensures forall c :: 0 <= c < k + 1 ==> y[c] == F.zero
  {
    ReducedRowDot(F, s, rows, k, k, y);
    NoZeroDivisors(F, Row(s, rows, rows, k)[k], y[k]);
    forall c | 0 <= c < k
      ensures y[c] == F.zero
    {
      ReducedRowDot(F, s, rows, k, c, y);
      MulLaws(F, Row(s, rows, rows, c)[k], F.zero);
      AddLaws(F, y[c], F.zero);
    }
  }

  lemma {:induction false} EquivalentLater<T(!new)>(
    F: Field<T>, a: seq<T>, b: seq<T>, a': seq<T>, b': seq<T>, rows: nat, leftcols: nat, from: nat, from': nat)
    requires Shape(a, rows, leftcols) && Shape(b, rows, rows) && Shape(a', rows, leftcols) && Shape(b', rows, rows)
    requires Equivalent(F, a, b, a', b', rows, leftcols, from) && from <= from'
    ensures Equivalent(F, a, b, a', b', rows, leftcols, from')
  {
    hide Solves;
  }

  /** Equivalent systems have the same invertible leading blocks. */
  lemma {:induction false} EquivalentNonsingular<T(!new)>(
    F: Field<T>, a: seq<T>, b: seq<T>, a': seq<T>, b': seq<T>, rows: nat, leftcols: nat, from: nat, k: nat)
    requires F.Lawful() && from <= k <= rows
    requires Shape(a, rows, leftcols) && Shape(b, rows, rows) && Shape(a', rows, leftcols) && Shape(b', rows, rows)
    requires Equivalent(F, a, b, a', b', rows, leftcols, from)
    ensures Nonsingular(F, b, rows, k) <==> Nonsingular(F, b', rows, k)
  {
    hide InKernel;
    EquivalentLater(F, a, b, a', b', rows, leftcols, from, k);
    forall y: seq<T> | |y| == rows
      ensures InKernel(F, b, rows, k, y) <==> InKernel(F, b', rows, k, y)
    {
      EquivalentKernels(F, a, b, a', b', rows, leftcols, k, y);
    }
  }

  // ----- Elimination -----

  /** What holds before pivot row k is processed: the first k columns are unit columns, and
      so are the columns of the missing recovery blocks from m on. */
  ghost predicate Reduced<T(!new)>(F: Field<T>, s: seq<T>, rows: nat, m: nat, k: nat)
    requires Shape(s, rows, rows) && k <= m <= rows
  {
    UnitColumns(F, s, rows, 0, k) && UnitColumns(F, s, rows, m, rows)
  }

  /** Scaling the pivot row keeps the unit columns and makes the pivot one. */
  lemma {:induction false} ScaledStaysReduced<T(!new)>(F: Field<T>, s: seq<T>, s': seq<T>, rows: nat, m: nat, k: nat,
                                                       p: T)
    requires F.Lawful() && k < m <= rows && Shape(s, rows, rows) && Shape(s', rows, rows)
    requires Reduced(F, s, rows, m, k) && p == Row(s, rows, rows, k)[k] && p != F.zero
    requires OtherRowsSame(s, s', rows, rows, k)
    requires Scaled(F, Row(s, rows, rows, k), p, Row(s', rows, rows, k))
    ensures Reduced(F, s', rows, m, k) && Row(s', rows, rows, k)[k] == F.one
  {
    DivLaws(F, F.one, p);
    MulLaws(F, p, F.one);
    forall c | 0 <= c < k || m <= c < rows
      ensures UnitColumn(F, s', rows, c)
    {
      assert UnitColumn(F, s, rows, c);
    }
  }

  /** Adding a multiple of the pivot row keeps the unit columns and clears the target's cell. */
  lemma {:induction false} AddedStaysReduced<T(!new)>(F: Field<T>, s: seq<T>, s': seq<T>, rows: nat, m: nat, k: nat,
                                                      target: nat)
    requires F.Lawful() && k < m <= rows && target < rows && target != k
    requires Shape(s, rows, rows) && Shape(s', rows, rows)
    requires Reduced(F, s, rows, m, k) && Row(s, rows, rows, k)[k] == F.one
    requires OtherRowsSame(s, s', rows, rows, target)
    requires Combined(F, Row(s, rows, rows, target), Row(s, rows, rows, k), Row(s, rows, rows, target)[k],
                      Row(s', rows, rows, target))
    ensures Reduced(F, s', rows, m, k) && Row(s', rows, rows, target)[k] == F.zero
  {
    var x := Row(s, rows, rows, target)[k];
    MulLaws(F, x, F.one);
    MulLaws(F, x, F.zero);
    AddLaws(F, x, x);
    forall c | 0 <= c < k || m <= c < rows
      ensures UnitColumn(F, s', rows, c)
    {
      assert UnitColumn(F, s, rows, c);
      AddLaws(F, Row(s, rows, rows, target)[c], F.zero);
    }
  }

  /** Divide the pivot row by its pivot. */
  method NormalisePivotRow<T(!new, ==)>(F: Field<T>, left: array<T>, right: array<T>, rows: nat, leftcols: nat,
                                        m: nat, row: nat)
    requires F.Lawful() && row < m <= rows && left != right
    requires Shape(left[..], rows, leftcols) && Shape(right[..], rows, rows)
    requires Reduced(F, right[..], rows, m, row) && Row(right[..], rows, rows, row)[row] != F.zero
    modifies left, right
    ensures Shape(left[..], rows, leftcols) && Shape(right[..], rows, rows)
    ensures Reduced(F, right[..], rows, m, row) && Row(right[..], rows, rows, row)[row] == F.one
    ensures Equivalent(F, old(left[..]), old(right[..]), left[..], right[..], rows, leftcols, 0)
  {
    hide Off;
    hide Reduced;
    ghost var left0, right0 := left[..], right[..];
    OffOrder(row, rows, leftcols);
    OffOrder(row, rows, rows);
    RowAt(right0, rows, rows, row, row);
    var l, r := row * leftcols, row * rows;
    assert l == Off(row, leftcols) && r == Off(row, rows) by {
      OffIs(row, leftcols);
      OffIs(row, rows);
    }
    var pivot := right[r + row];
    DivLaws(F, F.one, pivot);
    MulLaws(F, pivot, F.one);
    if pivot != F.one {
      DivideCells(F, left, l, l + leftcols, pivot);
      right[r + row] := F.one;
      DivideCells(F, right, r + row + 1, r + rows, pivot);
    } else {
      forall i | 0 <= i < left.Length
        ensures left[i] == F.div(left[i], pivot)
      {
        DivOne(F, left[i]);
      }
      forall i | 0 <= i < right.Length
        ensures right[i] == F.div(right[i], pivot)
      {
        DivOne(F, right[i]);
      }
    }
    ReducedPivotRow(F, right0, rows, m, row);
    DividedRow(F, left0, left[..], rows, leftcols, row, 0, pivot);
    DividedRow(F, right0, right[..], rows, rows, row, row, pivot);
    ScaledStaysReduced(F, right0, right[..], rows, m, row, pivot);
    ScalingKeepsSolutions(F, left0, right0, left[..], right[..], rows, leftcols, row, pivot);
  }

  lemma {:induction false} OffIs(r: nat, cols: nat)
    ensures Off(r, cols) == r * cols
  {
  }

  lemma {:induction false} DivOne<T(!new)>(F: Field<T>, a: T)
    requires F.Lawful()
    ensures F.div(a, F.one) == a
  {
    DivLaws(F, a, F.one);
    MulLaws(F, a, F.one);
  }

  /** The pivot row is zero before its pivot. */
  lemma {:induction false} ReducedPivotRow<T(!new)>(F: Field<T>, s: seq<T>, rows: nat, m: nat, k: nat)
    requires k < m <= rows && Shape(s, rows, rows) && Reduced(F, s, rows, m, k)
    ensures forall c :: 0 <= c < k ==> Row(s, rows, rows, k)[c] == F.zero
  {
    forall c | 0 <= c < k
      ensures Row(s, rows, rows, k)[c] == F.zero
    {
      assert UnitColumn(F, s, rows, c);
    }
  }

  /** Subtract the right multiple of the pivot row from one other row. */
  method ClearCell<T(!new, ==)>(F: Field<T>, left: array<T>, right: array<T>, rows: nat, leftcols: nat,
                                m: nat, row: nat, row2: nat)
    requires F.Lawful() && row < m <= rows && row2 < rows && row2 != row && left != right
    requires Shape(left[..], rows, leftcols) && Shape(right[..], rows, rows)
    requires Reduced(F, right[..], rows, m, row) && Row(right[..], rows, rows, row)[row] == F.one
    modifies left, right
    ensures Shape(left[..], rows, leftcols) && Shape(right[..], rows, rows)
    ensures Reduced(F, right[..], rows, m, row) && Row(right[..], rows, rows, row2)[row] == F.zero
    ensures OtherRowsSame(old(right[..]), right[..], rows, rows, row2)
    ensures Equivalent(F, old(left[..]), old(right[..]), left[..], right[..], rows, leftcols, row + 1)
  {
    hide Off;
    hide Reduced;
    ghost var left0, right0 := left[..], right[..];
    RowBounds(rows, leftcols, row, row2);
    RowBounds(rows, rows, row, row2);
    RowAt(right0, rows, rows, row2, row);
    OffIs(row, leftcols);
    OffIs(row2, leftcols);
    OffIs(row, rows);
    OffIs(row2, rows);
    var l, l2, r, r2 := row * leftcols, row2 * leftcols, row * rows, row2 * rows;
    var scale := right[r2 + row];
    if scale == F.one {
      SubtractCells(F, left, l, l2, 0, leftcols);
      SubtractCells(F, right, r, r2, row, rows);
    } else if scale != F.zero {
      SubtractScaledCells(F, left, l, l2, 0, leftcols, scale);
      SubtractScaledCells(F, right, r, r2, row, rows, scale);
    } else {
      NothingAdded(F, left[..], l, l2, 0, leftcols);
      NothingAdded(F, right[..], r, r2, row, rows);
    }
    ReducedPivotRow(F, right0, rows, m, row);
    AddedRow(F, left0, left[..], rows, leftcols, row, row2, 0, scale);
    AddedRow(F, right0, right[..], rows, rows, row, row2, row, scale);
    AddedStaysReduced(F, right0, right[..], rows, m, row, row2);
    AddingKeepsSolutions(F, left0, right0, left[..], right[..], rows, leftcols, row, row2, scale);
  }

  lemma {:induction false} NothingAdded<T(!new)>(F: Field<T>, s: seq<T>, src: nat, dst: nat, lo: nat, hi: nat)
    requires F.Lawful() && lo <= hi && src + hi <= |s| && dst + hi <= |s|
    ensures CellsAdded(F, s, s, src, dst, lo, hi, F.zero)
  {
    forall i | dst + lo <= i < dst + hi
      ensures s[i] == F.add(s[i], F.mul(s[i - dst + src], F.zero))
    {
      MulLaws(F, s[i - dst + src], F.zero);
      AddLaws(F, s[i], F.zero);
    }
  }

  lemma {:induction false} RowBounds(rows: nat, cols: nat, row: nat, row2: nat)
    requires row < rows && row2 < rows && row != row2
    ensures Off(row, cols) + cols <= Off(rows, cols) && Off(row2, cols) + cols <= Off(rows, cols)
    ensures Off(row, cols) + cols <= Off(row2, cols) || Off(row2, cols) + cols <= Off(row, cols)
  {
    OffOrder(row, rows, cols);
    OffOrder(row2, rows, cols);
    if row < row2 {
      OffOrder(row, row2, cols);
    } else {
      OffOrder(row2, row, cols);
    }
  }

  /** Clear the pivot's column in every other row. */
  method ClearColumn<T(!new, ==)>(F: Field<T>, left: array<T>, right: array<T>, rows: nat, leftcols: nat,
                                  m: nat, row: nat)
    requires F.Lawful() && row < m <= rows && left != right
    requires Shape(left[..], rows, leftcols) && Shape(right[..], rows, rows)
    requires Reduced(F, right[..], rows, m, row) && Row(right[..], rows, rows, row)[row] == F.one
    modifies left, right
    ensures Shape(left[..], rows, leftcols) && Shape(right[..], rows, rows)
    ensures Reduced(F, right[..], rows, m, row + 1)
    ensures Equivalent(F, old(left[..]), old(right[..]), left[..], right[..], rows, leftcols, row + 1)
  {
    hide Off;
    hide Solves;
    hide UnitColumns;
    for row2 := 0 to rows
      invariant Shape(left[..], rows, leftcols) && Shape(right[..], rows, rows)
      invariant Reduced(F, right[..], rows, m, row) && Row(right[..], rows, rows, row)[row] == F.one
      invariant forall r :: 0 <= r < row2 && r != row ==> Row(right[..], rows, rows, r)[row] == F.zero
      invariant Equivalent(F, old(left[..]), old(right[..]), left[..], right[..], rows, leftcols, row + 1)
    {
      if row != row2 {
        ghost var left1, right1 := left[..], right[..];
        ClearCell(F, left, right, rows, leftcols, m, row, row2);
        EquivalentTrans(F, old(left[..]), old(right[..]), left1, right1, left[..], right[..],
                        rows, leftcols, row + 1, row + 1);
      }
    }
    ColumnCleared(F, right[..], rows, m, row);
  }

  lemma {:induction false} ColumnCleared<T(!new)>(F: Field<T>, s: seq<T>, rows: nat, m: nat, k: nat)
    requires k < m <= rows && Shape(s, rows, rows) && Reduced(F, s, rows, m, k)
    requires forall r :: 0 <= r < rows ==> Row(s, rows, rows, r)[k] == if r == k then F.one else F.zero
    ensures Reduced(F, s, rows, m, k + 1)
  {
    assert UnitColumn(F, s, rows, k);
  }

  /** GaussElim: it succeeds exactly if every leading block of the right matrix is invertible.
      Then the right matrix has become the identity, and the equations left * x == right * y
      have kept their solutions. */
  method GaussElim<T(!new, ==)>(F: Field<T>, rows: nat, leftcols: nat, left: array<T>, right: array<T>, m: nat)
    returns (ok: bool)
    requires F.Lawful() && m <= rows && left != right
    requires Shape(left[..], rows, leftcols) && Shape(right[..], rows, rows)
    requires UnitColumns(F, right[..], rows, m, rows)
    modifies left, right
    ensures ok <==> LeadingNonsingular(F, old(right[..]), rows, m)
    ensures Shape(left[..], rows, leftcols) && Shape(right[..], rows, rows)
    ensures ok ==> UnitColumns(F, right[..], rows, 0, rows)
    ensures ok ==> Equivalent(F, old(left[..]), old(right[..]), left[..], right[..], rows, leftcols, rows)
  {
    hide Off;
    hide Solves;
    hide UnitColumn;
    hide Nonsingular;
    ghost var left0, right0 := left[..], right[..];
    for row := 0 to m
      invariant Shape(left[..], rows, leftcols) && Shape(right[..], rows, rows)
      invariant Reduced(F, right[..], rows, m, row)
      invariant LeadingNonsingular(F, right0, rows, row)
      invariant Equivalent(F, left0, right0, left[..], right[..], rows, leftcols, row)
    {
      RowAt(right[..], rows, rows, row, row);
      OffIs(row, rows);
      PivotDecides(F, right[..], rows, row);
      EquivalentNonsingular(F, left0, right0, left[..], right[..], rows, leftcols, row, row + 1);
      var pivot := right[row * rows + row];
      if pivot == F.zero {
        return false;
      }
      ghost var left1, right1 := left[..], right[..];
      NormalisePivotRow(F, left, right, rows, leftcols, m, row);
      ghost var left2, right2 := left[..], right[..];
      EquivalentLater(F, left1, right1, left2, right2, rows, leftcols, 0, row);
      EquivalentTrans(F, left0, right0, left1, right1, left2, right2, rows, leftcols, row, row);
      ClearColumn(F, left, right, rows, leftcols, m, row);
      EquivalentTrans(F, left0, right0, left2, right2, left[..], right[..], rows, leftcols, row, row + 1);
    }
    EquivalentLater(F, left0, right0, left[..], right[..], rows, leftcols, m, rows);
    return true;
  }
}
