/** When the matrix of a repair can be solved.  The comment in reedsolomon.h calls the matrix
    "guaranteed not to be singular"; what holds is stated here. */
module Vandermonde {
  import opened Fields
  import opened Vectors
  import opened Matrices
  import opened Elimination
  import opened Codes

  /** z[0]*w[0]^i + ... + z[n-1]*w[n-1]^i. */
  ghost function Moment<T(!new)>(F: Field<T>, z: seq<T>, w: seq<T>, i: nat, n: nat): T
    requires n <= |z| && n <= |w|
  {
    Dot(F, z, Powers(F, w, i), n)
  }

  /** z[j] * (w[j] - t) for every j. */
  function Shifted<T(!new)>(F: Field<T>, z: seq<T>, w: seq<T>, t: T): (r: seq<T>)
    requires |z| == |w|
    ensures |r| == |z|
    ensures forall j :: 0 <= j < |z| ==> r[j] == F.mul(z[j], F.add(w[j], t))
  {
    seq(|z|, j requires 0 <= j < |z| => F.mul(z[j], F.add(w[j], t)))
  }

  lemma {:induction false} MomentShifted<T(!new)>(F: Field<T>, z: seq<T>, w: seq<T>, t: T, i: nat, n: nat)
    requires F.Lawful() && |z| == |w| && n <= |z|
    ensures Moment(F, Shifted(F, z, w, t), w, i, n) ==
            F.add(Moment(F, z, w, i + 1, n), F.mul(t, Moment(F, z, w, i, n)))
  {
    if n == 0 {
      MulLaws(F, t, F.zero);
      AddLaws(F, F.zero, F.zero);
    } else {
      MomentShifted(F, z, w, t, i, n - 1);
      var a, b, p := z[n - 1], w[n - 1], Pow(F, w[n - 1], i);
      var m, m' := Moment(F, z, w, i, n - 1), Moment(F, z, w, i + 1, n - 1);
      ShiftTerm(F, a, b, t, p);
      Distribute(F, t, m, F.mul(a, p));
      AddExchange(F, m', F.mul(t, m), F.mul(a, F.mul(b, p)), F.mul(t, F.mul(a, p)));
    }
  }

  lemma {:induction false} ShiftTerm<T(!new)>(F: Field<T>, a: T, b: T, t: T, p: T)
    requires F.Lawful()
    ensures F.mul(F.mul(a, F.add(b, t)), p) == F.add(F.mul(a, F.mul(b, p)), F.mul(t, F.mul(a, p)))
  {
    MulAssoc(F, a, F.add(b, t), p);
    Distribute(F, p, b, t);
    Distribute(F, a, F.mul(b, p), F.mul(t, p));
    MulAssoc(F, a, t, p);
    MulLaws(F, a, t);
    MulAssoc(F, t, a, p);
  }

  ghost predicate Distinct<T>(w: seq<T>, n: nat)
    requires n <= |w|
  {
    forall i, j :: 0 <= i < j < n ==> w[i] != w[j]
  }

  /** If n distinct points carry weights whose first n moments vanish, the weights vanish. */
  lemma {:induction false} VanishingMoments<T(!new)>(F: Field<T>, z: seq<T>, w: seq<T>, n: nat)
    requires F.Lawful() && |z| == |w| && n <= |z| && Distinct(w, n)
    requires forall i :: 0 <= i < n ==> Moment(F, z, w, i, n) == F.zero
    ensures forall j :: 0 <= j < n ==> z[j] == F.zero
    decreases n
  {
    if n > 0 {
      var t := w[n - 1];
      var z', m := Shifted(F, z, w, t), n - 1;
      forall i | 0 <= i < m
        ensures Moment(F, z', w, i, m) == F.zero
      {
        MomentShifted(F, z, w, t, i, n);
        assert Moment(F, z, w, i + 1, n) == F.zero;
        MulLaws(F, t, F.zero);
        AddLaws(F, F.zero, F.zero);
        Difference(F, t, t);
        MulLaws(F, z[n - 1], F.zero);
        MulLaws(F, Pow(F, t, i), F.zero);
        AddLaws(F, Moment(F, z', w, i, m), F.zero);
      }
      VanishingMoments(F, z', w, m);
      forall j | 0 <= j < n - 1
        ensures z[j] == F.zero
      {
        Difference(F, w[j], t);
        NoZeroDivisors(F, z[j], F.add(w[j], t));
      }
      assert Moment(F, z, w, 0, n) == F.zero;
      DotOne(F, z, Powers(F, w, 0), n, n - 1);
      MulLaws(F, z[n - 1], F.one);
    }
  }

  ghost predicate IsRightMatrix<T(!new)>(F: Field<T>, P: Problem<T>, s: seq<T>) {
    && P.Valid()
    && Shape(s, P.Rows(), P.Rows())
    && forall r :: 0 <= r < P.Rows() ==> Row(s, P.Rows(), P.Rows(), r) == RightRow(F, P, r)
  }

  /** The bases of the missing data blocks. */
  ghost function MissingBases<T(!new)>(P: Problem<T>): (b: seq<T>)
    requires P.Valid()
    ensures |b| == |P.used|
  {
    Pick(P.bases, P.MissingIdx())
  }

  ghost predicate NonzeroBases<T(!new)>(F: Field<T>, P: Problem<T>) {
    forall i :: 0 <= i < |P.bases| ==> P.bases[i] != F.zero
  }

  lemma {:induction false} DotSupport<T(!new)>(F: Field<T>, u: seq<T>, y: seq<T>, k: nat, n: nat)
    requires F.Lawful() && k <= n <= |u| && n <= |y| && forall c :: k <= c < n ==> y[c] == F.zero
    ensures Dot(F, u, y, n) == Dot(F, u, y, k)
  {
    if k < n {
      DotSupport(F, u, y, k, n - 1);
      MulLaws(F, u[n - 1], F.zero);
      AddLaws(F, Dot(F, u, y, k), F.zero);
    }
  }

  // ----- The matrix of powers by itself -----

  /** base^exponent for the first k recovery blocks in use and the first k missing data blocks
      is an invertible matrix. */
  ghost predicate Invertible<T(!new)>(F: Field<T>, P: Problem<T>, k: nat)
    requires P.Valid() && k <= |P.used|
  {
    forall y: seq<T> {:trigger Annihilated(F, P, k, y)} | |y| == k && Annihilated(F, P, k, y) ::
      forall c :: 0 <= c < k ==> y[c] == F.zero
  }

  ghost predicate Annihilated<T(!new)>(F: Field<T>, P: Problem<T>, k: nat, y: seq<T>)
    requires P.Valid() && k <= |P.used| && |y| == k
  {
    forall r :: 0 <= r < k ==> Dot(F, Powers(F, MissingBases(P), P.used[r]), y, k) == F.zero
  }

  /** Elimination without row swaps can solve the problem. */
  ghost predicate Solvable<T(!new)>(F: Field<T>, P: Problem<T>)
    requires P.Valid()
  {
    forall k :: 1 <= k <= |P.used| ==> Invertible(F, P, k)
  }

  lemma {:induction false} AnnihilatedIsKernel<T(!new)>(F: Field<T>, P: Problem<T>, s: seq<T>, k: nat, y: seq<T>,
                                                        y': seq<T>)
    requires F.Lawful() && IsRightMatrix(F, P, s) && k <= |P.used| && |y| == k && |y'| == P.Rows()
    requires forall c :: 0 <= c < P.Rows() ==> y'[c] == if c < k then y[c] else F.zero
    ensures Annihilated(F, P, k, y) <==> InKernel(F, s, P.Rows(), k, y')
  {
    forall r | 0 <= r < k
      ensures RowDot(F, s, P.Rows(), P.Rows(), r, y') == Dot(F, Powers(F, MissingBases(P), P.used[r]), y, k)
    {
      DotSupport(F, RightRow(F, P, r), y', k, P.Rows());
      DotSame(F, RightRow(F, P, r), Powers(F, MissingBases(P), P.used[r]), y', y, k);
    }
  }

  lemma {:induction false} InvertibleIsNonsingular<T(!new)>(F: Field<T>, P: Problem<T>, s: seq<T>, k: nat)
    requires F.Lawful() && IsRightMatrix(F, P, s) && k <= |P.used|
    ensures Invertible(F, P, k) <==> Nonsingular(F, s, P.Rows(), k)
  {
    hide InKernel;
    hide Annihilated;
    if Invertible(F, P, k) {
      forall y: seq<T> | |y| == P.Rows() && InKernel(F, s, P.Rows(), k, y)
        ensures forall c :: 0 <= c < k ==> y[c] == F.zero
      {
        KernelSupport(F, s, P.Rows(), k, y);
        AnnihilatedIsKernel(F, P, s, k, y[..k], y);
        assert forall c :: 0 <= c < k ==> y[..k][c] == F.zero;
      }
    }
    if Nonsingular(F, s, P.Rows(), k) {
      forall y: seq<T> | |y| == k && Annihilated(F, P, k, y)
        ensures forall c :: 0 <= c < k ==> y[c] == F.zero
      {
        var y' := y + Zeros(F, P.Rows() - k);
        AnnihilatedIsKernel(F, P, s, k, y, y');
        assert forall c :: 0 <= c < k ==> y'[c] == F.zero;
      }
    }
  }

  lemma {:induction false} KernelSupport<T(!new)>(F: Field<T>, s: seq<T>, rows: nat, k: nat, y: seq<T>)
    requires Shape(s, rows, rows) && k <= rows && |y| == rows && InKernel(F, s, rows, k, y)
    ensures forall c :: k <= c < rows ==> y[c] == F.zero
  {
  }

  lemma {:induction false} SolvableIsNonsingular<T(!new)>(F: Field<T>, P: Problem<T>, s: seq<T>)
    requires F.Lawful() && IsRightMatrix(F, P, s)
    ensures Solvable(F, P) <==> LeadingNonsingular(F, s, P.Rows(), |P.used|)
  {
    hide Nonsingular;
    hide Invertible;
    forall k | 1 <= k <= |P.used|
      ensures Invertible(F, P, k) <==> Nonsingular(F, s, P.Rows(), k)
    {
      InvertibleIsNonsingular(F, P, s, k);
    }
  }

  // ----- Equally spaced exponents -----

  /** The i-th exponent from `first` on, `step` apart. */
  function Nth(first: nat, step: nat, i: nat): nat {
    if i == 0 then first else Nth(first, step, i - 1) + step
  }

  /** The first k exponents are equally spaced, in any order. */
  ghost predicate Spaced(exps: seq<nat>, k: nat, first: nat, step: nat)
    requires k <= |exps|
  {
    && (forall r :: 0 <= r < k ==> exists i: nat :: i < k && exps[r] == Nth(first, step, i))
    && (forall i: nat :: i < k ==> Has(exps, k, Nth(first, step, i)))
  }

  ghost predicate Has(exps: seq<nat>, k: nat, e: nat)
    requires k <= |exps|
  {
    exists r :: 0 <= r < k && exps[r] == e
  }

  lemma {:induction false} NthPow<T(!new)>(F: Field<T>, first: nat, step: nat, b: T, i: nat)
    requires F.Lawful()
    ensures Pow(F, b, Nth(first, step, i)) == F.mul(Pow(F, b, first), Pow(F, Pow(F, b, step), i))
  {
    var p, w := Pow(F, b, first), Pow(F, b, step);
    if i == 0 {
      MulLaws(F, p, F.one);
    } else {
      NthPow(F, first, step, b, i - 1);
      PowAdd(F, b, Nth(first, step, i - 1), step);
      MulAssoc(F, p, Pow(F, w, i - 1), w);
      MulLaws(F, w, Pow(F, w, i - 1));
    }
  }

  /** z[c] = b[c]^e * y[c]. */
  function Weighted<T(!new)>(F: Field<T>, b: seq<T>, e: nat, y: seq<T>): (z: seq<T>)
    requires |b| == |y|
    ensures |z| == |b|
    ensures forall c :: 0 <= c < |b| ==> z[c] == F.mul(Pow(F, b[c], e), y[c])
  {
    seq(|b|, c requires 0 <= c < |b| => F.mul(Pow(F, b[c], e), y[c]))
  }

  /** A row of powers, applied to a vector, is a moment of the weighted vector. */
  lemma {:induction false} PowersAreMoment<T(!new)>(F: Field<T>, b: seq<T>, first: nat, step: nat, i: nat, y: seq<T>,
                                                    n: nat)
    requires F.Lawful() && |b| == |y| && n <= |b|
    ensures Dot(F, Powers(F, b, Nth(first, step, i)), y, n) ==
            Moment(F, Weighted(F, b, first, y), Powers(F, b, step), i, n)
  {
    if n > 0 {
      PowersAreMoment(F, b, first, step, i, y, n - 1);
      var c := b[n - 1];
      var p, w := Pow(F, c, first), Pow(F, Pow(F, c, step), i);
      NthPow(F, first, step, c, i);
      MulAssoc(F, p, w, y[n - 1]);
      MulLaws(F, w, y[n - 1]);
      MulAssoc(F, p, y[n - 1], w);
    }
  }

  lemma {:induction false} RowIsMoment<T(!new)>(F: Field<T>, P: Problem<T>, k: nat, first: nat, step: nat, i: nat,
                                                y: seq<T>)
    requires F.Lawful() && P.Valid() && k <= |P.used| && |y| == k
    ensures var b := MissingBases(P)[..k];
            Dot(F, Powers(F, MissingBases(P), Nth(first, step, i)), y, k) ==
            Moment(F, Weighted(F, b, first, y), Powers(F, b, step), i, k)
  {
    var b, e := MissingBases(P)[..k], Nth(first, step, i);
    DotSame(F, Powers(F, MissingBases(P), e), Powers(F, b, e), y, y, k);
    PowersAreMoment(F, b, first, step, i, y, k);
  }

  ghost predicate NoMoments<T(!new)>(F: Field<T>, z: seq<T>, w: seq<T>, k: nat)
    requires k <= |z| && k <= |w|
  {
    forall i :: 0 <= i < k ==> Moment(F, z, w, i, k) == F.zero
  }

  /** Whatever the order of the exponents, the vectors that they annihilate are those without moments. */
  lemma {:induction false} AnnihilatedIsMoments<T(!new)>(F: Field<T>, P: Problem<T>, k: nat, first: nat, step: nat,
                                                         y: seq<T>)
    requires F.Lawful() && P.Valid() && k <= |P.used| && |y| == k && Spaced(P.used, k, first, step)
    ensures var b := MissingBases(P)[..k];
            Annihilated(F, P, k, y) <==> NoMoments(F, Weighted(F, b, first, y), Powers(F, b, step), k)
  {
    hide Moment, Weighted, Powers, MissingBases;
    var b := MissingBases(P)[..k];
    var z, w := Weighted(F, b, first, y), Powers(F, b, step);
    if Annihilated(F, P, k, y) {
      forall i | 0 <= i < k
        ensures Moment(F, z, w, i, k) == F.zero
      {
        assert Has(P.used, k, Nth(first, step, i));
        var r :| 0 <= r < k && P.used[r] == Nth(first, step, i);
        RowIsMoment(F, P, k, first, step, i, y);
      }
    }
    if NoMoments(F, z, w, k) {
      forall r | 0 <= r < k
        ensures Dot(F, Powers(F, MissingBases(P), P.used[r]), y, k) == F.zero
      {
        var i: nat :| i < k && P.used[r] == Nth(first, step, i);
        RowIsMoment(F, P, k, first, step, i, y);
      }
    }
  }

  /** Distinct step-th powers of the missing bases make the matrix of powers invertible ... */
  lemma {:induction false} DistinctIsInvertible<T(!new)>(F: Field<T>, P: Problem<T>, k: nat, first: nat, step: nat)
    requires F.Lawful() && P.Valid() && k <= |P.used| && Spaced(P.used, k, first, step) && NonzeroBases(F, P)
    requires Distinct(Powers(F, MissingBases(P), step), k)
    ensures Invertible(F, P, k)
  {
    hide Spaced, Moment, Annihilated;
    var b := MissingBases(P)[..k];
    forall y: seq<T> | |y| == k && Annihilated(F, P, k, y)
      ensures forall c :: 0 <= c < k ==> y[c] == F.zero
    {
      AnnihilatedIsMoments(F, P, k, first, step, y);
      var z := Weighted(F, b, first, y);
      VanishingMoments(F, z, Powers(F, b, step), k);
      forall c | 0 <= c < k
        ensures y[c] == F.zero
      {
        PowNonzero(F, b[c], first);
        NoZeroDivisors(F, Pow(F, b[c], first), y[c]);
      }
    }
  }

  /** ... and two missing bases with the same step-th power make it singular. */
  lemma {:induction false} CollisionIsSingular<T(!new)>(F: Field<T>, P: Problem<T>, k: nat, first: nat, step: nat,
                                                        i: nat, j: nat)
    requires F.Lawful() && P.Valid() && i < j < k <= |P.used| && Spaced(P.used, k, first, step) && NonzeroBases(F, P)
    requires Pow(F, MissingBases(P)[i], step) == Pow(F, MissingBases(P)[j], step)
    ensures !Invertible(F, P, k)
  {
    hide Spaced, Annihilated;
    var b := MissingBases(P)[..k];
    var p, q := Pow(F, b[i], first), Pow(F, b[j], first);
    PowNonzero(F, b[i], first);
    var y := seq(k, c => if c == i then q else if c == j then p else F.zero);
    var z, w := Weighted(F, b, first, y), Powers(F, b, step);
    forall c | 0 <= c < k && c != i && c != j
      ensures z[c] == F.zero
    {
      MulLaws(F, Pow(F, b[c], first), F.zero);
    }
    forall r: nat | r < k
      ensures Moment(F, z, w, r, k) == F.zero
    {
      DotTwo(F, z, Powers(F, w, r), k, i, j);
      MulLaws(F, p, q);
      AddLaws(F, F.mul(z[i], Pow(F, w[i], r)), F.zero);
    }
    AnnihilatedIsMoments(F, P, k, first, step, y);
    assert y[j] != F.zero;
  }

  /** With equally spaced exponents, in any order, the matrix of powers is invertible exactly if the step-th
      powers of the missing bases are pairwise different. */
  lemma {:induction false} SpacedDecides<T(!new)>(F: Field<T>, P: Problem<T>, k: nat, first: nat, step: nat)
    requires F.Lawful() && P.Valid() && k <= |P.used| && Spaced(P.used, k, first, step) && NonzeroBases(F, P)
    ensures Invertible(F, P, k) <==> Distinct(Powers(F, MissingBases(P), step), k)
  {
    hide Spaced, Invertible;
    var w := Powers(F, MissingBases(P), step);
    if Distinct(w, k) {
      DistinctIsInvertible(F, P, k, first, step);
    } else {
      var i, j :| 0 <= i < j < k && w[i] == w[j];
      CollisionIsSingular(F, P, k, first, step, i, j);
    }
  }

  /** The first k exponents are equally spaced for every k, the steps being given. */
  ghost predicate PrefixesSpaced(exps: seq<nat>, steps: seq<nat>) {
    |steps| == |exps| + 1 && forall k :: 1 <= k <= |exps| ==> PrefixSpaced(exps, k, steps[k])
  }

  ghost predicate PrefixSpaced(exps: seq<nat>, k: nat, step: nat)
    requires k <= |exps|
  {
    exists first :: Spaced(exps, k, first, step)
  }

  /** If so, elimination succeeds exactly if for every k the powers of the first k missing bases are
      pairwise different. */
  lemma {:induction false} PrefixesDecide<T(!new)>(F: Field<T>, P: Problem<T>, steps: seq<nat>)
    requires F.Lawful() && P.Valid() && PrefixesSpaced(P.used, steps) && NonzeroBases(F, P)
    ensures Solvable(F, P) <==>
            forall k :: 1 <= k <= |P.used| ==> Distinct(Powers(F, MissingBases(P), steps[k]), k)
  {
    hide Spaced, Distinct, Invertible;
    forall k | 1 <= k <= |P.used|
      ensures Invertible(F, P, k) <==> Distinct(Powers(F, MissingBases(P), steps[k]), k)
    {
      assert PrefixSpaced(P.used, k, steps[k]);
      var first :| Spaced(P.used, k, first, steps[k]);
      SpacedDecides(F, P, k, first, steps[k]);
    }
  }

  function Same(n: nat, step: nat): (r: seq<nat>)
    ensures |r| == n && forall i :: 0 <= i < n ==> r[i] == step
  {
    seq(n, i => step)
  }

  /** Exponents that are spaced like that with one and the same step: elimination succeeds exactly if the
      step-th powers of the missing bases are pairwise different. */
  lemma {:induction false} SameStepDecides<T(!new)>(F: Field<T>, P: Problem<T>, step: nat)
    requires F.Lawful() && P.Valid() && PrefixesSpaced(P.used, Same(|P.used| + 1, step)) && NonzeroBases(F, P)
    ensures Solvable(F, P) <==> Distinct(Powers(F, MissingBases(P), step), |P.used|)
  {
    hide Solvable, PrefixesSpaced;
    var m, w := |P.used|, Powers(F, MissingBases(P), step);
    var steps := Same(m + 1, step);
    PrefixesDecide(F, P, steps);
    assert steps[m] == step;
    assert Distinct(w, m) ==> forall k :: 1 <= k <= m ==> Distinct(w, k) && steps[k] == step;
  }

  /** The exponents ascend, or descend, in equal steps. */
  predicate Progression(exps: seq<nat>, step: nat) {
    forall i :: 0 <= i < |exps| - 1 ==> exps[i + 1] == exps[i] + step
  }

  predicate Descending(exps: seq<nat>, step: nat) {
    forall i :: 0 <= i < |exps| - 1 ==> exps[i] == exps[i + 1] + step
  }

  lemma {:induction false} AscendingNth(exps: seq<nat>, step: nat, r: nat)
    requires Progression(exps, step) && r < |exps|
    ensures exps[r] == Nth(exps[0], step, r)
  {
    if r > 0 {
      AscendingNth(exps, step, r - 1);
      assert exps[r - 1 + 1] == exps[r - 1] + step;
    }
  }

  lemma {:induction false} DescendingNth(exps: seq<nat>, step: nat, k: nat, r: nat)
    requires Descending(exps, step) && r < k <= |exps|
    ensures exps[r] == Nth(exps[k - 1], step, k - 1 - r)
    decreases k - r
  {
    if r < k - 1 {
      DescendingNth(exps, step, k, r + 1);
      assert exps[r] == exps[r + 1] + step;
    }
  }

  lemma {:induction false} AscendingSpaced(exps: seq<nat>, step: nat)
    requires Progression(exps, step)
    ensures PrefixesSpaced(exps, Same(|exps| + 1, step))
  {
    forall k | 1 <= k <= |exps|
      ensures PrefixSpaced(exps, k, step)
    {
      forall r | 0 <= r < k
        ensures exps[r] == Nth(exps[0], step, r)
      {
        AscendingNth(exps, step, r);
      }
      assert Spaced(exps, k, exps[0], step);
    }
  }

  lemma {:induction false} DescendingSpaced(exps: seq<nat>, step: nat)
    requires Descending(exps, step)
    ensures PrefixesSpaced(exps, Same(|exps| + 1, step))
  {
    forall k | 1 <= k <= |exps|
      ensures PrefixSpaced(exps, k, step)
    {
      DescendingPrefix(exps, step, k);
    }
  }

  lemma {:induction false} DescendingPrefix(exps: seq<nat>, step: nat, k: nat)
    requires Descending(exps, step) && 1 <= k <= |exps|
    ensures Spaced(exps, k, exps[k - 1], step)
  {
    var last := exps[k - 1];
    forall r | 0 <= r < k
      ensures exps[r] == Nth(last, step, k - 1 - r)
    {
      DescendingNth(exps, step, k, r);
    }
    forall i: nat | i < k
      ensures Has(exps, k, Nth(last, step, i))
    {
      DescendingNth(exps, step, k, k - 1 - i);
    }
  }

  /** With exponents that ascend in equal steps, elimination succeeds exactly if the step-th powers of the
      missing bases are pairwise different. */
  lemma {:induction false} ProgressionDecides<T(!new)>(F: Field<T>, P: Problem<T>, step: nat)
    requires F.Lawful() && P.Valid() && Progression(P.used, step) && NonzeroBases(F, P)
    ensures Solvable(F, P) <==> Distinct(Powers(F, MissingBases(P), step), |P.used|)
  {
    hide Solvable, PrefixesSpaced, Distinct;
    AscendingSpaced(P.used, step);
    SameStepDecides(F, P, step);
  }

  /** Exponents in an order in which the first k are consecutive for every k: with distinct nonzero bases,
      elimination always succeeds. */
  lemma {:induction false} ConsecutiveSucceeds<T(!new)>(F: Field<T>, P: Problem<T>)
    requires F.Lawful() && P.Valid() && PrefixesSpaced(P.used, Same(|P.used| + 1, 1)) && NonzeroBases(F, P)
    requires Distinct(P.bases, |P.bases|)
    ensures Solvable(F, P)
  {
    hide Solvable, PrefixesSpaced;
    DistinctMissing(F, P);
    SameStepDecides(F, P, 1);
  }

  lemma {:induction false} DistinctMissing<T(!new)>(F: Field<T>, P: Problem<T>)
    requires F.Lawful() && P.Valid() && Distinct(P.bases, |P.bases|)
    ensures Distinct(Powers(F, MissingBases(P), 1), |P.used|)
  {
    var b := MissingBases(P);
    IndicesComplete(P.present, |P.present|, false);
    forall i | 0 <= i < |b|
      ensures Powers(F, b, 1)[i] == b[i]
    {
      MulLaws(F, b[i], F.one);
      assert Pow(F, b[i], 1) == F.mul(b[i], Pow(F, b[i], 0));
    }
  }

  /** One missing block can always be solved. */
  lemma {:induction false} OneMissingSucceeds<T(!new)>(F: Field<T>, P: Problem<T>)
    requires F.Lawful() && P.Valid() && |P.used| == 1 && NonzeroBases(F, P)
    ensures Solvable(F, P)
  {
    ProgressionDecides(F, P, 1);
  }
}
