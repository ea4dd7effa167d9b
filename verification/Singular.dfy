/** Where the comment "guaranteed not to be singular" of reedsolomon.h is wrong: exponents for
    which a repair with enough recovery blocks fails. */
module Singular {
  import opened Fields
  import opened Vectors
  import opened GaloisFields
  import opened Codes
  import opened Vandermonde
  import opened Coprimes
  import opened Bases

  function Apart(a: nat, b: nat): nat {
    if a <= b then b - a else a - b
  }

  /** If the first two recovery blocks in use clash on the first two missing blocks, elimination
      stops at the second pivot, whatever follows. */
  lemma {:induction false} FirstTwoClash(P: Problem<Element16>)
    requires Bases16(P) && |P.used| >= 2 && Clash(P, Apart(P.used[0], P.used[1]), 0, 1)
    ensures !Solvable(FIELD16, P)
  {
    hide Clash;
    hide Avoiding;
    hide Pow;
    Field16Lawful();
    Bases16Good(P);
    var e, step := if P.used[0] <= P.used[1] then P.used[0] else P.used[1], Apart(P.used[0], P.used[1]);
    var b := MissingBases(P);
    ClashIsCollision(P, step, 0, 1);
    ClashKernel(FIELD16, P, b[0], b[1], e, step);
    assert !Invertible(FIELD16, P, 2);
  }

  lemma {:induction false} ClashKernel<T(!new)>(F: Field<T>, P: Problem<T>, b0: T, b1: T, e: nat, step: nat)
    requires F.Lawful() && P.Valid() && |P.used| >= 2
    requires P.used[..2] == [e, e + step] || P.used[..2] == [e + step, e]
    requires b0 == MissingBases(P)[0] && b1 == MissingBases(P)[1] && b0 != F.zero
    requires Pow(F, b0, step) == Pow(F, b1, step)
    ensures !Invertible(F, P, 2)
  {
    var p0, p1, w := Pow(F, b0, e), Pow(F, b1, e), Pow(F, b0, step);
    PowNonzero(F, b0, e);
    var y := [p1, p0];
    var b := MissingBases(P);
    MulLaws(F, p0, p1);
    AddLaws(F, F.mul(p0, p1), F.zero);
    DotPair(F, Powers(F, b, e), y);
    PowAdd(F, b0, e, step);
    PowAdd(F, b1, e, step);
    MulAssoc(F, w, p0, p1);
    MulAssoc(F, w, p1, p0);
    MulLaws(F, w, p0);
    MulLaws(F, w, p1);
    AddLaws(F, F.mul(w, F.mul(p0, p1)), F.zero);
    DotPair(F, Powers(F, b, e + step), y);
    assert P.used[0] == P.used[..2][0] && P.used[1] == P.used[..2][1];
    assert Annihilated(F, P, 2, y);
  }

  lemma {:induction false} DotPair<T(!new)>(F: Field<T>, u: seq<T>, y: seq<T>)
    requires F.Lawful() && |u| >= 2 && |y| >= 2
    ensures Dot(F, u, y, 2) == F.add(F.mul(u[0], y[0]), F.mul(u[1], y[1]))
  {
    DotTwo(F, u, y, 2, 0, 1);
  }

  lemma {:induction false} FirstLogs()
    ensures |Logs()| == 32768
    ensures Logs()[0] == 1 && Logs()[1] == 2 && Logs()[2] == 4 && Logs()[3] == 7 && Logs()[4] == 8
  {
    CoprimeCount();
    assert Avoiding(4, 1) == [];
    assert Avoiding(4, 2) == [1];
    assert Avoiding(4, 3) == [1, 2];
    assert Avoiding(4, 5) == [1, 2, 4];
    assert Avoiding(4, 7) == [1, 2, 4];
    assert Avoiding(4, 8) == [1, 2, 4, 7];
    assert Avoiding(4, 9) == [1, 2, 4, 7, 8];
    AvoidingPrefix(4, 9, 65535);
    assert Avoiding(4, 65535)[..5] == [1, 2, 4, 7, 8];
  }

  /** The matrix can be singular: blocks 0 and 2 missing, recovery exponents 0 and 21845. */
  lemma {:induction false} SingularExample(P: Problem<Element16>)
    requires Bases16(P) && P.present == [false, true, false] && P.used == [0, 21845]
    ensures !Solvable(FIELD16, P)
  {
    hide Avoiding;
    FirstLogs();
    assert P.MissingIdx() == [0, 2];
    assert MissingLog(P, 0) == 1 && MissingLog(P, 1) == 4;
    FirstTwoClash(P);
  }

  /** The order of the recovery blocks matters: here the whole matrix is invertible, but elimination
      without row swaps fails.  Blocks 0, 2 and 4 missing, exponents 0, 21845, 1. */
  lemma {:induction false} RowSwapNeededExample(P: Problem<Element16>)
    requires Bases16(P) && P.present == [false, true, false, true, false] && P.used == [0, 21845, 1]
    ensures Invertible(FIELD16, P, 3) && !Solvable(FIELD16, P)
  {
    hide Invertible;
    hide Pow;
    hide XPower;
    ExampleMissing(P);
    FirstTwoClash(P);
    Field16Lawful();
    ExampleBases();
    ThreeInvertible(FIELD16, P, XPower(1), XPower(4), XPower(8));
  }

  lemma {:induction false} ExampleMissing(P: Problem<Element16>)
    requires Bases16(P) && P.present == [false, true, false, true, false] && P.used == [0, 21845, 1]
    ensures P.MissingIdx() == [0, 2, 4] && MissingBases(P) == [XPower(1), XPower(4), XPower(8)]
    ensures MissingLog(P, 0) == 1 && MissingLog(P, 1) == 4
  {
    hide Avoiding;
    hide XPower;
    FirstLogs();
    assert Indices(P.present, 2, false) == [0];
    assert Indices(P.present, 4, false) == [0, 2];
    assert P.MissingIdx() == [0, 2, 4];
    hide Indices;
    assert MissingLog(P, 0) == 1 && MissingLog(P, 1) == 4 && MissingLog(P, 2) == 8;
    MissingLogs(P, 0, 1);
    MissingLogs(P, 1, 2);
  }

  lemma {:induction false} ExampleBases()
    ensures XPower(1) != XPower(4)
    ensures Pow(FIELD16, XPower(1), 21845) == Pow(FIELD16, XPower(4), 21845) != Pow(FIELD16, XPower(8), 21845)
  {
    hide XPower;
    SamePower(1, 4, 21845);
    SamePower(1, 8, 21845);
    XPowersDiffer(1, 4);
  }

  lemma {:induction false} ThreeInvertible<T(!new)>(F: Field<T>, P: Problem<T>, b0: T, b1: T, b2: T)
    requires F.Lawful() && P.Valid() && P.used == [0, 21845, 1] && MissingBases(P) == [b0, b1, b2]
    requires b0 != b1 && Pow(F, b0, 21845) == Pow(F, b1, 21845) != Pow(F, b2, 21845)
    ensures Invertible(F, P, 3)
  {
    hide Pow;
    var b := MissingBases(P);
    var w, v := Pow(F, b0, 21845), Pow(F, b2, 21845);
    forall y: seq<T> | |y| == 3 && Annihilated(F, P, 3, y)
      ensures forall c :: 0 <= c < 3 ==> y[c] == F.zero
    {
      assert Dot(F, Powers(F, b, P.used[0]), y, 3) == F.zero;
      assert Dot(F, Powers(F, b, P.used[1]), y, 3) == F.zero;
      assert Dot(F, Powers(F, b, P.used[2]), y, 3) == F.zero;
      DotTriple(F, Powers(F, b, 0), y);
      DotTriple(F, Powers(F, b, 21845), y);
      DotTriple(F, Powers(F, b, 1), y);
      SmallPowers(F, b0);
      SmallPowers(F, b1);
      SmallPowers(F, b2);
      MulLaws(F, y[0], F.one);
      MulLaws(F, y[1], F.one);
      MulLaws(F, y[2], F.one);
      ThreeEquations(F, b0, b1, b2, w, v, y[0], y[1], y[2]);
    }
  }

  lemma {:induction false} SmallPowers<T(!new)>(F: Field<T>, b: T)
    requires F.Lawful()
    ensures Pow(F, b, 0) == F.one && Pow(F, b, 1) == b
  {
    MulLaws(F, b, F.one);
    assert Pow(F, b, 1) == F.mul(b, Pow(F, b, 0));
  }

  lemma {:induction false} DotTriple<T(!new)>(F: Field<T>, u: seq<T>, y: seq<T>)
    requires F.Lawful() && |u| >= 3 && |y| >= 3
    ensures Dot(F, u, y, 3) == F.add(F.add(F.mul(u[0], y[0]), F.mul(u[1], y[1])), F.mul(u[2], y[2]))
  {
    DotPair(F, u, y);
  }

  lemma {:induction false} ThreeEquations<T(!new)>(F: Field<T>, b0: T, b1: T, b2: T, w: T, v: T, y0: T, y1: T, y2: T)
    requires F.Lawful() && b0 != b1 && w != v
    requires F.add(F.add(y0, y1), y2) == F.zero
    requires F.add(F.add(F.mul(w, y0), F.mul(w, y1)), F.mul(v, y2)) == F.zero
    requires F.add(F.add(F.mul(b0, y0), F.mul(b1, y1)), F.mul(b2, y2)) == F.zero
    ensures y0 == F.zero && y1 == F.zero && y2 == F.zero
  {
    Difference(F, F.add(y0, y1), y2);
    Distribute(F, w, y0, y1);
    Distribute(F, y2, w, v);
    Difference(F, w, v);
    NoZeroDivisors(F, F.add(w, v), y2);
    Difference(F, y0, y1);
    MulLaws(F, b2, F.zero);
    AddLaws(F, F.add(F.mul(b0, y0), F.mul(b1, y1)), F.zero);
    Distribute(F, y0, b0, b1);
    Difference(F, b0, b1);
    NoZeroDivisors(F, F.add(b0, b1), y0);
  }

  /** Consecutive recovery blocks in another order than ascending: exponents e, e + 3, e + 1, e + 2.  The whole
      matrix is invertible, but elimination fails if the logs of the first two missing blocks differ by 21845. */
  lemma {:induction false} PermutedRunFails(P: Problem<Element16>, e: nat)
    requires Bases16(P) && P.used == [e, e + 3, e + 1, e + 2] && MissingLog(P, 1) == MissingLog(P, 0) + 21845
    ensures Invertible(FIELD16, P, 4) && !Solvable(FIELD16, P)
  {
    hide Invertible, Solvable, Pow, XPower, Avoiding, Distinct, MissingLog;
    FirstTwoClash(P);
    Field16Lawful();
    Bases16Good(P);
    DistinctMissing(FIELD16, P);
    RunSpaced(P.used, e);
    SpacedDecides(FIELD16, P, 4, e, 1);
  }

  lemma {:induction false} RunSpaced(used: seq<nat>, e: nat)
    requires used == [e, e + 3, e + 1, e + 2]
    ensures Spaced(used, 4, e, 1)
  {
    assert Nth(e, 1, 0) == used[0] && Nth(e, 1, 3) == used[1] && Nth(e, 1, 1) == used[2] && Nth(e, 1, 2) == used[3];
    forall i: nat | i < 4
      ensures Has(used, 4, Nth(e, 1, i))
    {
      assert used[if i == 0 then 0 else if i == 1 then 2 else if i == 2 then 3 else 1] == Nth(e, 1, i);
    }
  }

  /** There are such blocks: the base with log 2 is the second one, and log 21847 is coprime to 65535. */
  lemma {:induction false} PermutedRunExample(e: nat) returns (P: Problem<Element16>)
    ensures Bases16(P) && P.used == [e, e + 3, e + 1, e + 2] && Invertible(FIELD16, P, 4) && !Solvable(FIELD16, P)
  {
    hide Avoiding, XPower, Invertible, Solvable;
    FirstLogs();
    var j := LogIndex(21847);
    var present := seq(32768, i => i != 1 && i != j && i != j + 1 && i != j + 2);
    P := Problem(ChosenBases(32768), present, [e, e + 3, e + 1, e + 2], []);
    var j1 := LogIndex(65531);
    var j2 := LogIndex(65533);
    var j3 := LogIndex(65534);
    LogsAscend(j, j1);
    LogsAscend(j1, j2);
    LogsAscend(j2, j3);
    LogsAscend(1, j);
    FourMissing(present, j);
    PermutedRunFails(P, e);
  }

  lemma {:induction false} LogIndex(l: nat) returns (j: nat)
    requires Avoids(4, l) && l < 65535
    ensures j < |Logs()| && Logs()[j] == l
  {
    AvoidingStep(4, l);
    j := |Avoiding(4, l)|;
    AvoidingPrefix(4, l + 1, 65535);
  }

  lemma {:induction false} LogsAscend(i: nat, j: nat)
    requires i < |Logs()| && j < |Logs()| && Logs()[i] < Logs()[j]
    ensures i < j
  {
    AvoidingMembers(4, 65535);
    hide Avoiding;
  }

  lemma {:induction false} FourMissing(present: seq<bool>, j: nat)
    requires 1 < j && j + 3 <= |present|
    requires forall i :: 0 <= i < |present| ==> (!present[i] <==> i == 1 || i == j || i == j + 1 || i == j + 2)
    ensures Indices(present, |present|, false) == [1, j, j + 1, j + 2]
  {
    UpTo(present, j, |present|);
  }

  lemma {:induction false} UpTo(present: seq<bool>, j: nat, n: nat)
    requires 1 < j && j + 3 <= |present| && n <= |present|
    requires forall i :: 0 <= i < |present| ==> (!present[i] <==> i == 1 || i == j || i == j + 1 || i == j + 2)
    ensures Indices(present, n, false) ==
            if n <= 1 then [] else if n <= j then [1] else if n == j + 1 then [1, j] else if n ==
              j + 2 then [1, j, j + 1]
            else [1, j, j + 1, j + 2]
    decreases n
  {
    if n > 0 {
      UpTo(present, j, n - 1);
    }
  }
}
