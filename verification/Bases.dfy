/** The base values that the two specialisations of SetInput choose, and what they mean for repair. */
module Bases {
  import opened Polynomials
  import opened Walk
  import opened Generators
  import opened GaloisTables
  import opened Fields
  import opened GaloisFields
  import opened Coprimes
  import opened Codes
  import opened Vandermonde

  /** The logs accepted in GF(2^16), ascending: those coprime to 65535. */
  function Logs(): seq<nat> { Avoiding(4, 65535) }

  /** x^l in GF(2^16). */
  function XPower(l: nat): Element16 {
    Has16(0);
    PowerHas(GALOIS16, l);
    Has16(Power(GALOIS16, l));
    Power(GALOIS16, l)
  }

  /** The bases of n source blocks. */
  ghost function ChosenBases(n: nat): (r: seq<Element16>)
    requires n <= |Logs()|
    ensures |r| == n && forall i :: 0 <= i < n ==> r[i] == XPower(Logs()[i])
  {
    seq(n, i requires 0 <= i < n => XPower(Logs()[i]))
  }

  /** SetInput of ReedSolomon<Galois16>, the choice of bases: the antilogs of the first `count` logs
      coprime to 65535.  It fails exactly if there are more than 32768 blocks. */
  method ChooseBases16(table: GaloisTable, count: nat) returns (ok: bool, database: seq<Element16>)
    requires table.Valid() && table.g == GALOIS16
    ensures ok <==> count <= 32768
    ensures |Logs()| == 32768 && (ok ==> database == ChosenBases(count))
  {
    hide Power;
    hide Avoiding;
    InstanceFacts(GALOIS16);
    CoprimeCount();
    NoneAvoiding(4);
    database := [];
    var logbase := 0;
    for index := 0 to count
      invariant |database| == index && 0 <= logbase <= 65535
      invariant |Avoiding(4, logbase)| == index <= 32768
      invariant forall i :: 0 <= i < index ==> database[i] == XPower(Logs()[i])
    {
      var d := gcd(65535, logbase);
      GcdIsOne(logbase, d);
      while d != 1
        invariant 0 <= logbase <= 65536
        invariant logbase <= 65535 ==> |Avoiding(4, logbase)| == index
        invariant logbase > 65535 ==> index == 32768
        invariant d == 1 <==> Avoids(4, logbase)
        decreases 65536 - logbase
      {
        if logbase <= 65535 {
          AvoidingStep(4, logbase);
        }
        logbase := logbase + 1;
        d := gcd(65535, logbase);
        GcdIsOne(logbase, d);
      }
      if logbase >= 65535 {
        return false, [];
      }
      AvoidingStep(4, logbase);
      AvoidingPrefix(4, logbase + 1, 65535);
      assert Logs()[..index + 1][index] == Logs()[index];
      assert table.antilog[logbase] == XPower(logbase);
      var base: Element16 := table.antilog[logbase];
      database := database + [base];
      logbase := logbase + 1;
    }
    return true, database;
  }

  lemma {:induction false} AvoidingStep(k: nat, n: nat)
    ensures Avoiding(k, n + 1) == if Avoids(k, n) then Avoiding(k, n) + [n] else Avoiding(k, n)
  {
  }

  /** The value of the byte after i increments from 1. */
  function Wrapped(i: nat): Element8 { (i + 1) % 256 }

  /** SetInput of ReedSolomon<Galois8>, the choice of bases: 1, 2, 3, ... in a byte that wraps. */
  method ChooseBases8(count: nat) returns (database: seq<Element8>)
    ensures |database| == count
    ensures forall i :: 0 <= i < count ==> database[i] == Wrapped(i)
  {
    database := [];
    var base: Element8 := 1;
    for index := 0 to count
      invariant |database| == index && base == Wrapped(index)
      invariant forall i :: 0 <= i < index ==> database[i] == Wrapped(i)
    {
      database := database + [base];
      base := (base + 1) % 256;
    }
  }

  ghost predicate Bases16(P: Problem<Element16>) {
    && P.Valid() && |P.bases| <= 32768 == |Logs()|
    && forall i :: 0 <= i < |P.bases| ==> P.bases[i] == XPower(Logs()[i])
  }

  lemma {:induction false} XPowersDiffer(i: nat, j: nat)
    requires i < 65535 && j < 65535
    ensures XPower(i) != 0
    ensures XPower(i) == XPower(j) <==> i == j
  {
    Galois16Primitive();
    InstanceFacts(GALOIS16);
    PowerNonzero(GALOIS16, i);
    if XPower(i) == XPower(j) {
      PowersDistinct(GALOIS16, i, j);
    }
  }

  /** The bases of GF(2^16) are nonzero and pairwise different. */
  lemma {:induction false} Bases16Good(P: Problem<Element16>)
    requires Bases16(P)
    ensures NonzeroBases(FIELD16, P) && Distinct(P.bases, |P.bases|)
  {
    hide XPower;
    AvoidingMembers(4, 65535);
    hide Avoiding;
    forall i | 0 <= i < |P.bases|
      ensures P.bases[i] != FIELD16.zero
    {
      XPowersDiffer(Logs()[i], 0);
    }
    forall i, j | 0 <= i < j < |P.bases|
      ensures P.bases[i] != P.bases[j]
    {
      XPowersDiffer(Logs()[i], Logs()[j]);
    }
  }

  /** In a byte, the bases are nonzero and pairwise different exactly up to 255 blocks. */
  lemma {:induction false} Bases8Good(P: Problem<Element8>)
    requires P.Valid() && forall i :: 0 <= i < |P.bases| ==> P.bases[i] == Wrapped(i)
    ensures NonzeroBases(FIELD8, P) && Distinct(P.bases, |P.bases|) <==> |P.bases| <= 255
  {
    if |P.bases| >= 256 {
      assert P.bases[255] == 0;
    }
  }

  /** PAR2 repair with exponents in an order in which the first k are consecutive for every k always succeeds. */
  lemma {:induction false} Consecutive16Succeeds(P: Problem<Element16>)
    requires Bases16(P) && PrefixesSpaced(P.used, Same(|P.used| + 1, 1))
    ensures Solvable(FIELD16, P)
  {
    Field16Lawful();
    Bases16Good(P);
    ConsecutiveSucceeds(FIELD16, P);
  }

  /** So it does with consecutive exponents in ascending order. */
  lemma {:induction false} Ascending16Succeeds(P: Problem<Element16>)
    requires Bases16(P) && Progression(P.used, 1)
    ensures Solvable(FIELD16, P)
  {
    hide Solvable, PrefixesSpaced;
    AscendingSpaced(P.used, 1);
    Consecutive16Succeeds(P);
  }

  /** The log of the base of the i-th missing block. */
  ghost function MissingLog(P: Problem<Element16>, i: nat): nat
    requires Bases16(P) && i < |P.used|
  {
    Logs()[P.MissingIdx()[i]]
  }

  /** A power of a base, as a power of x. */
  lemma {:induction false} BasePower(l: nat, n: nat)
    ensures l * n >= 0
    ensures Pow(FIELD16, XPower(l), n) == XPower(l * n)
  {
    InstanceFacts(GALOIS16);
    Pow16IsPowN(XPower(l), n);
    PowNOfPower(GALOIS16, l, n);
  }

  lemma {:induction false} XPowerIs(i: nat)
    ensures XPower(i) == Power(GALOIS16, i)
  {
  }

  /** x^i == x^j exactly if 65535 divides the difference. */
  lemma {:induction false} XPowersEqual(i: nat, d: nat)
    ensures XPower(i) == XPower(i + d) <==> d % 65535 == 0
  {
    XPowerIs(i);
    XPowerIs(i + d);
    hide XPower;
    hide Power;
    var q, r := d / 65535, d % 65535;
    assert i + d == 65535 * q + (i + r);
    PowersEqual(i, q, r);
  }

  lemma {:induction false} Period16(r: nat)
    requires r < 65535
    ensures GALOIS16.Valid() && Power(GALOIS16, 65535) == 1 && Power(GALOIS16, 0) == 1
    ensures Power(GALOIS16, r) == 1 ==> r == 0
  {
    Galois16Primitive();
    InstanceFacts(GALOIS16);
    hide Galois.Valid;
  }

  lemma {:induction false} PowersEqual(i: nat, q: nat, r: nat)
    requires r < 65535
    ensures 65535 * q + (i + r) >= 0
    ensures Power(GALOIS16, i) == Power(GALOIS16, 65535 * q + (i + r)) <==> r == 0
  {
    Period16(r);
    hide *;
    PowerPeriod(GALOIS16, 65535, q, i + r);
    if Power(GALOIS16, i) == Power(GALOIS16, i + r) {
      PowerCancel(GALOIS16, i, r);
    }
  }

  /** Two missing bases have the same n-th power exactly if 65535 divides n times their log difference. */
  lemma {:induction false} SamePower(i: nat, j: nat, n: nat)
    requires i <= j
    ensures (j - i) * n >= 0
    ensures Pow(FIELD16, XPower(i), n) == Pow(FIELD16, XPower(j), n) <==> (j - i) * n % 65535 == 0
  {
    hide XPower;
    var d := j - i;
    BasePower(i, n);
    BasePower(j, n);
    assert j * n == i * n + d * n;
    assert d * n >= 0;
    XPowersEqual(i * n, d * n);
  }

  /** Two missing blocks whose log difference times the spacing is a multiple of 65535. */
  ghost predicate Clash(P: Problem<Element16>, step: nat, i: nat, j: nat)
    requires Bases16(P) && i < j < |P.used|
  {
    (MissingLog(P, j) - MissingLog(P, i)) * step % 65535 == 0
  }

  lemma {:induction false} MissingLogs(P: Problem<Element16>, i: nat, j: nat)
    requires Bases16(P) && i < j < |P.used|
    ensures MissingBases(P)[i] == XPower(MissingLog(P, i)) && MissingBases(P)[j] == XPower(MissingLog(P, j))
    ensures MissingLog(P, i) < MissingLog(P, j)
  {
    hide XPower;
    AvoidingMembers(4, 65535);
    IndicesComplete(P.present, |P.present|, false);
    hide Avoiding;
    hide Indices;
  }

  lemma {:induction false} ClashIsCollision(P: Problem<Element16>, step: nat, i: nat, j: nat)
    requires Bases16(P) && i < j < |P.used|
    ensures Clash(P, step, i, j) <==>
            Pow(FIELD16, MissingBases(P)[i], step) == Pow(FIELD16, MissingBases(P)[j], step)
  {
    hide *;
    ClashIs(P, step, i, j, MissingLog(P, i), MissingLog(P, j));
    MissingLogs(P, i, j);
    SamePower(MissingLog(P, i), MissingLog(P, j), step);
  }

  lemma {:induction false} ClashIs(P: Problem<Element16>, step: nat, i: nat, j: nat, a: nat, b: nat)
    requires Bases16(P) && i < j < |P.used| && a == MissingLog(P, i) && b == MissingLog(P, j)
    ensures Clash(P, step, i, j) <==> (b - a) * step % 65535 == 0
  {
    hide MissingLog;
    hide Bases16;
  }

  /** The powers of the first k missing bases are different exactly if no two of them clash. */
  lemma {:induction false} DistinctIsNoClash(P: Problem<Element16>, step: nat, k: nat)
    requires Bases16(P) && k <= |P.used|
    ensures Distinct(Powers(FIELD16, MissingBases(P), step), k) <==> forall i, j :: 0 <= i < j < k ==>
              !Clash(P, step, i, j)
  {
    hide Clash, Pow, XPower, Avoiding;
    forall i, j | 0 <= i < j < k
      ensures Clash(P, step, i, j) <==>
              Powers(FIELD16, MissingBases(P), step)[i] == Powers(FIELD16, MissingBases(P), step)[j]
    {
      ClashIsCollision(P, step, i, j);
    }
  }

  /** No two of the first k missing blocks clash, for any k with the step of the first k exponents. */
  ghost predicate NoClash(P: Problem<Element16>, steps: seq<nat>)
    requires Bases16(P) && |steps| == |P.used| + 1
  {
    forall i, j, k :: 0 <= i < j < k <= |P.used| ==> !Clash(P, steps[k], i, j)
  }

  /** PAR2 repair with exponents of which the first k are equally spaced for every k, in any order, succeeds
      exactly if no missing blocks clash. */
  lemma {:induction false} Prefixes16Decide(P: Problem<Element16>, steps: seq<nat>)
    requires Bases16(P) && PrefixesSpaced(P.used, steps)
    ensures Solvable(FIELD16, P) <==> NoClash(P, steps)
  {
    hide Clash, Solvable, Pow, XPower, Avoiding, Distinct, PrefixSpaced;
    Field16Lawful();
    Bases16Good(P);
    PrefixesDecide(FIELD16, P, steps);
    forall k | 1 <= k <= |P.used|
      ensures Distinct(Powers(FIELD16, MissingBases(P), steps[k]), k) <==>
              forall i, j :: 0 <= i < j < k ==> !Clash(P, steps[k], i, j)
    {
      DistinctIsNoClash(P, steps[k], k);
    }
  }

  /** PAR2 repair with exponents that ascend, or descend, in equal steps succeeds exactly if no two missing
      blocks clash. */
  lemma {:induction false} Progression16Decides(P: Problem<Element16>, step: nat)
    requires Bases16(P) && (Progression(P.used, step) || Descending(P.used, step))
    ensures Solvable(FIELD16, P) <==> forall i, j :: 0 <= i < j < |P.used| ==> !Clash(P, step, i, j)
  {
    hide Clash, Solvable, Pow, XPower, Avoiding, Distinct, PrefixesSpaced;
    Field16Lawful();
    Bases16Good(P);
    if Progression(P.used, step) {
      AscendingSpaced(P.used, step);
    } else {
      DescendingSpaced(P.used, step);
    }
    SameStepDecides(FIELD16, P, step);
    DistinctIsNoClash(P, step, |P.used|);
  }
}
