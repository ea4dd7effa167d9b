/** Matrices stored row by row in one flat array, as leftmatrix and rightmatrix are,
    and the systems of equations left * x == right * y that elimination preserves. */
module Matrices {
  import opened Fields
  import opened Vectors

  /** Where row r of a matrix with the given number of columns begins. */
  function Off(r: nat, cols: nat): nat {
    r * cols
  }

  lemma {:induction false} OffStep(r: nat, cols: nat)
    ensures Off(0, cols) == 0
    ensures Off(r + 1, cols) == Off(r, cols) + cols
  {
  }

  /** Rows do not overlap. */
  lemma {:induction false} OffOrder(r: nat, r': nat, cols: nat)
    requires r < r'
    ensures Off(r, cols) + cols <= Off(r', cols)
    decreases r'
  {
    hide Off;
    OffStep(r' - 1, cols);
    if r < r' - 1 {
      OffOrder(r, r' - 1, cols);
    }
  }

  ghost predicate Shape<T>(s: seq<T>, rows: nat, cols: nat) {
    |s| == Off(rows, cols)
  }

  ghost function Row<T>(s: seq<T>, rows: nat, cols: nat, r: nat): (row: seq<T>)
    requires Shape(s, rows, cols) && r < rows
    ensures |row| == cols
  {
    OffOrder(r, rows, cols);
    s[Off(r, cols)..Off(r, cols) + cols]
  }

  lemma {:induction false} RowAt<T>(s: seq<T>, rows: nat, cols: nat, r: nat, c: nat)
    requires Shape(s, rows, cols) && r < rows && c < cols
    ensures Off(r, cols) + c < |s| && Row(s, rows, cols, r)[c] == s[Off(r, cols) + c]
  {
    OffOrder(r, rows, cols);
  }

  ghost function RowDot<T(!new)>(F: Field<T>, s: seq<T>, rows: nat, cols: nat, r: nat, y: seq<T>): T
    requires Shape(s, rows, cols) && r < rows && |y| == cols
  {
    Dot(F, Row(s, rows, cols, r), y, cols)
  }

  /** Row r of left * x == right * y. */
  ghost predicate Holds<T(!new)>(F: Field<T>, left: seq<T>, right: seq<T>, rows: nat, leftcols: nat, r: nat,
                                 x: seq<T>, y: seq<T>)
    requires Shape(left, rows, leftcols) && Shape(right, rows, rows) && r < rows && |x| == leftcols && |y| == rows
  {
    RowDot(F, left, rows, leftcols, r, x) == RowDot(F, right, rows, rows, r, y)
  }

  /** The first n rows of left * x == right * y. */
  ghost predicate Solves<T(!new)>(F: Field<T>, left: seq<T>, right: seq<T>, rows: nat, leftcols: nat, n: nat,
                                  x: seq<T>, y: seq<T>)
    requires Shape(left, rows, leftcols) && Shape(right, rows, rows) && n <= rows && |x| == leftcols && |y| == rows
  {
    forall r :: 0 <= r < n ==> Holds(F, left, right, rows, leftcols, r, x, y)
  }

  /** Both systems have the same solutions, for every number n >= from of leading rows. */
  ghost predicate Equivalent<T(!new)>(F: Field<T>, left: seq<T>, right: seq<T>, left': seq<T>, right': seq<T>,
                                      rows: nat, leftcols: nat, from: nat)
    requires Shape(left, rows, leftcols) && Shape(right, rows, rows)
    requires Shape(left', rows, leftcols) && Shape(right', rows, rows)
  {
    forall n: nat, x: seq<T>, y: seq<T> {:trigger Solves(F, left', right', rows, leftcols, n, x, y)}
        | from <= n <= rows && |x| == leftcols && |y| == rows ::
      Solves(F, left, right, rows, leftcols, n, x, y) <==> Solves(F, left', right', rows, leftcols, n, x, y)
  }

  /** Matrix s' is s with row `target` replaced. */
  ghost predicate OtherRowsSame<T>(s: seq<T>, s': seq<T>, rows: nat, cols: nat, target: nat)
    requires Shape(s, rows, cols) && Shape(s', rows, cols)
  {
    forall r :: 0 <= r < rows && r != target ==> Row(s', rows, cols, r) == Row(s, rows, cols, r)
  }

  /** Adding a multiple of row `pivot` to row `target` in both matrices changes no solution. */
  lemma {:induction false} AddingKeepsSolutions<T(!new)>(
    F: Field<T>, left: seq<T>, right: seq<T>, left': seq<T>, right': seq<T>, rows: nat, leftcols: nat,
    pivot: nat, target: nat, k: T)
    requires F.Lawful() && pivot < rows && target < rows && pivot != target
    requires Shape(left, rows, leftcols) && Shape(right, rows, rows)
    requires Shape(left', rows, leftcols) && Shape(right', rows, rows)
    requires OtherRowsSame(left, left', rows, leftcols, target)
    requires OtherRowsSame(right, right', rows, rows, target)
    requires Combined(F, Row(left, rows, leftcols, target), Row(left, rows, leftcols, pivot), k,
                      Row(left', rows, leftcols, target))
    requires Combined(F, Row(right, rows, rows, target), Row(right, rows, rows, pivot), k,
                      Row(right', rows, rows, target))
    ensures Equivalent(F, left, right, left', right', rows, leftcols, pivot + 1)
  {
    forall n: nat, x: seq<T>, y: seq<T> | pivot < n <= rows && |x| == leftcols && |y| == rows
      ensures Solves(F, left, right, rows, leftcols, n, x, y) <==> Solves(F, left', right', rows, leftcols, n, x, y)
    {
      forall r | 0 <= r < n && r != target
        ensures Holds(F, left, right, rows, leftcols, r, x, y) <==> Holds(F, left', right', rows, leftcols, r, x, y)
      {
      }
      if Holds(F, left, right, rows, leftcols, pivot, x, y) {
        DotCombined(F, Row(left, rows, leftcols, target), Row(left, rows, leftcols, pivot), k,
                    Row(left', rows, leftcols, target), x, leftcols);
        DotCombined(F, Row(right, rows, rows, target), Row(right, rows, rows, pivot), k,
                    Row(right', rows, rows, target), y, rows);
        AddCancel(F, RowDot(F, left, rows, leftcols, target, x), RowDot(F, right, rows, rows, target, y),
                  F.mul(RowDot(F, left, rows, leftcols, pivot, x), k));
        assert Holds(F, left, right, rows, leftcols, target, x, y) <==>
               Holds(F, left', right', rows, leftcols, target, x, y);
      } else {
        assert !Holds(F, left', right', rows, leftcols, pivot, x, y);
      }
    }
  }

  /** Dividing row `target` by a nonzero element in both matrices changes no solution. */
  lemma {:induction false} ScalingKeepsSolutions<T(!new)>(
    F: Field<T>, left: seq<T>, right: seq<T>, left': seq<T>, right': seq<T>, rows: nat, leftcols: nat,
    target: nat, k: T)
    requires F.Lawful() && target < rows && k != F.zero
    requires Shape(left, rows, leftcols) && Shape(right, rows, rows)
    requires Shape(left', rows, leftcols) && Shape(right', rows, rows)
    requires OtherRowsSame(left, left', rows, leftcols, target)
    requires OtherRowsSame(right, right', rows, rows, target)
    requires Scaled(F, Row(left, rows, leftcols, target), k, Row(left', rows, leftcols, target))
    requires Scaled(F, Row(right, rows, rows, target), k, Row(right', rows, rows, target))
    ensures Equivalent(F, left, right, left', right', rows, leftcols, 0)
  {
    forall n: nat, x: seq<T>, y: seq<T> | n <= rows && |x| == leftcols && |y| == rows
      ensures Solves(F, left, right, rows, leftcols, n, x, y) <==> Solves(F, left', right', rows, leftcols, n, x, y)
    {
      forall r | 0 <= r < n
        ensures Holds(F, left, right, rows, leftcols, r, x, y) <==> Holds(F, left', right', rows, leftcols, r, x, y)
      {
        if r == target {
          DotScaled(F, Row(left, rows, leftcols, r), k, Row(left', rows, leftcols, r), x, leftcols);
          DotScaled(F, Row(right, rows, rows, r), k, Row(right', rows, rows, r), y, rows);
          MulCancel(F, RowDot(F, left', rows, leftcols, r, x), RowDot(F, right', rows, rows, r, y), k);
        }
      }
    }
  }

  lemma {:induction false} EquivalentTrans<T(!new)>(
    F: Field<T>, a: seq<T>, b: seq<T>, a': seq<T>, b': seq<T>, a'': seq<T>, b'': seq<T>, rows: nat, leftcols: nat,
    from: nat, from': nat)
    requires Shape(a, rows, leftcols) && Shape(b, rows, rows)
    requires Shape(a', rows, leftcols) && Shape(b', rows, rows)
    requires Shape(a'', rows, leftcols) && Shape(b'', rows, rows)
    requires Equivalent(F, a, b, a', b', rows, leftcols, from)
    requires Equivalent(F, a', b', a'', b'', rows, leftcols, from')
    requires from <= from'
    ensures Equivalent(F, a, b, a'', b'', rows, leftcols, from')
  {
    hide Solves;
  }

  // ----- Leading square blocks -----

  /** The leading k-by-k block of a square matrix has trivial kernel: it is invertible. */
  ghost predicate Nonsingular<T(!new)>(F: Field<T>, right: seq<T>, rows: nat, k: nat)
    requires Shape(right, rows, rows) && k <= rows
  {
    forall y: seq<T> {:trigger InKernel(F, right, rows, k, y)} |
        |y| == rows && InKernel(F, right, rows, k, y) ::
      forall c :: 0 <= c < k ==> y[c] == F.zero
  }

  /** y is supported on the first k columns and annihilated by the first k rows. */
  ghost predicate InKernel<T(!new)>(F: Field<T>, right: seq<T>, rows: nat, k: nat, y: seq<T>)
    requires Shape(right, rows, rows) && k <= rows && |y| == rows
  {
    && (forall c :: k <= c < rows ==> y[c] == F.zero)
    && (forall r :: 0 <= r < k ==> RowDot(F, right, rows, rows, r, y) == F.zero)
  }

  function Zeros<T(!new)>(F: Field<T>, n: nat): seq<T> {
    seq(n, i => F.zero)
  }

  /** Kernels of leading blocks are the solutions for a zero left-hand side. */
  lemma {:induction false} KernelIsSolution<T(!new)>(
    F: Field<T>, left: seq<T>, right: seq<T>, rows: nat, leftcols: nat, k: nat, y: seq<T>)
    requires F.Lawful() && Shape(left, rows, leftcols) && Shape(right, rows, rows) && k <= rows && |y| == rows
    ensures Solves(F, left, right, rows, leftcols, k, Zeros(F, leftcols), y) <==>
            forall r :: 0 <= r < k ==> RowDot(F, right, rows, rows, r, y) == F.zero
  {
    var x := Zeros(F, leftcols);
    forall r | 0 <= r < k
      ensures RowDot(F, left, rows, leftcols, r, x) == F.zero
      ensures Holds(F, left, right, rows, leftcols, r, x, y) <==> RowDot(F, right, rows, rows, r, y) == F.zero
    {
      DotZero(F, Row(left, rows, leftcols, r), x, leftcols);
    }
  }

  lemma {:induction false} EquivalentKernels<T(!new)>(
    F: Field<T>, left: seq<T>, right: seq<T>, left': seq<T>, right': seq<T>, rows: nat, leftcols: nat,
    k: nat, y: seq<T>)
    requires F.Lawful() && k <= rows && |y| == rows
    requires Shape(left, rows, leftcols) && Shape(right, rows, rows)
    requires Shape(left', rows, leftcols) && Shape(right', rows, rows)
    requires Equivalent(F, left, right, left', right', rows, leftcols, k)
    ensures InKernel(F, right, rows, k, y) <==> InKernel(F, right', rows, k, y)
  {
    KernelIsSolution(F, left, right, rows, leftcols, k, y);
    KernelIsSolution(F, left', right', rows, leftcols, k, y);
  }
}
