/** What the Reed-Solomon code computes: recovery blocks as weighted sums of data blocks,
    and the system of equations relating what a repair has to what it wants. */
module Codes {
  import opened Fields
  import opened Vectors

  /** The indices i < n with flags[i] == which, ascending. */
  function Indices(flags: seq<bool>, n: nat, which: bool): (r: seq<nat>)
    requires n <= |flags|
    ensures forall i :: 0 <= i < |r| ==> r[i] < n && flags[r[i]] == which
    decreases n
  {
    if n == 0 then []
    else if flags[n - 1] == which then Indices(flags, n - 1, which) + [n - 1]
    else Indices(flags, n - 1, which)
  }

  lemma {:induction false} IndicesCount(flags: seq<bool>, n: nat)
    requires n <= |flags|
    ensures |Indices(flags, n, true)| + |Indices(flags, n, false)| == n
  {
    if n > 0 {
      IndicesCount(flags, n - 1);
    }
  }

  /** Indices lists every flagged position, in ascending order. */
  lemma {:induction false} IndicesComplete(flags: seq<bool>, n: nat, which: bool)
    requires n <= |flags|
    ensures forall i :: 0 <= i < n && flags[i] == which ==> i in Indices(flags, n, which)
    ensures forall i, j :: 0 <= i < j < |Indices(flags, n, which)| ==>
                             Indices(flags, n, which)[i] < Indices(flags, n, which)[j]
  {
    if n > 0 {
      IndicesComplete(flags, n - 1, which);
    }
  }

  lemma {:induction false} AllPresent(flags: seq<bool>, n: nat)
    requires n <= |flags| && forall i :: 0 <= i < n ==> flags[i]
    ensures |Indices(flags, n, true)| == n && Indices(flags, n, false) == []
    ensures forall i :: 0 <= i < n ==> Indices(flags, n, true)[i] == i
  {
    if n > 0 {
      AllPresent(flags, n - 1);
    }
  }

  function Pick<T>(s: seq<T>, idx: seq<nat>): (r: seq<T>)
    requires forall i :: 0 <= i < |idx| ==> idx[i] < |s|
    ensures |r| == |idx|
    ensures forall i :: 0 <= i < |idx| ==> r[i] == s[idx[i]]
  {
    seq(|idx|, i requires 0 <= i < |idx| => s[idx[i]])
  }

  /** The e-th powers of the bases. */
  function Powers<T(!new)>(F: Field<T>, bases: seq<T>, e: nat): (r: seq<T>)
    ensures |r| == |bases|
    ensures forall i :: 0 <= i < |r| ==> r[i] == Pow(F, bases[i], e)
  {
    seq(|bases|, i requires 0 <= i < |bases| => Pow(F, bases[i], e))
  }

  /** The recovery value with exponent e: the sum of base[i]^e * data[i] over all data blocks. */
  function Recovery<T(!new)>(F: Field<T>, bases: seq<T>, data: seq<T>, e: nat): T
    requires |data| == |bases|
  {
    Dot(F, Powers(F, bases, e), data, |data|)
  }

  function Recoveries<T(!new)>(F: Field<T>, bases: seq<T>, data: seq<T>, exps: seq<nat>): (r: seq<T>)
    requires |data| == |bases|
    ensures |r| == |exps|
    ensures forall i :: 0 <= i < |exps| ==> r[i] == Recovery(F, bases, data, exps[i])
  {
    seq(|exps|, i requires 0 <= i < |exps| => Recovery(F, bases, data, exps[i]))
  }

  /** Row i of an n-column identity matrix; all zero when i is not a column. */
  function Unit<T(!new)>(F: Field<T>, n: nat, i: int): (r: seq<T>)
    ensures |r| == n
    ensures forall c :: 0 <= c < n ==> r[c] == if c == i then F.one else F.zero
  {
    seq(n, c => if c == i then F.one else F.zero)
  }

  /** A recovery problem: the bases of all data blocks, which data blocks are present, the exponents
      of the recovery blocks in use (one per missing data block) and of those to be computed. */
  datatype Problem<!T> = Problem(bases: seq<T>, present: seq<bool>, used: seq<nat>, wanted: seq<nat>)
  {
    ghost predicate Valid() {
      |bases| == |present| && |used| == |MissingIdx()|
    }
    ghost function PresentIdx(): seq<nat> { Indices(present, |present|, true) }
    ghost function MissingIdx(): seq<nat> { Indices(present, |present|, false) }
    ghost function Rows(): nat { |used| + |wanted| }
    ghost function Cols(): nat { |PresentIdx()| + |used| }
    ghost function Exponent(r: nat): nat
      requires r < Rows()
    {
      (used + wanted)[r]
    }
  }

  /** What a repair reads: the present data blocks, then the recovery blocks in use. */
  ghost function Inputs<T(!new)>(F: Field<T>, P: Problem<T>, data: seq<T>): (x: seq<T>)
    requires P.Valid() && |data| == |P.bases|
    ensures |x| == P.Cols()
  {
    Pick(data, P.PresentIdx()) + Recoveries(F, P.bases, data, P.used)
  }

  /** What a repair wants: the missing data blocks, then the recovery blocks to be computed. */
  ghost function Outputs<T(!new)>(F: Field<T>, P: Problem<T>, data: seq<T>): (y: seq<T>)
    requires P.Valid() && |data| == |P.bases|
    ensures |y| == P.Rows()
  {
    Pick(data, P.MissingIdx()) + Recoveries(F, P.bases, data, P.wanted)
  }

  /** The rows of the two matrices before elimination. */
  ghost function LeftRow<T(!new)>(F: Field<T>, P: Problem<T>, r: nat): (row: seq<T>)
    requires P.Valid() && r < P.Rows()
    ensures |row| == P.Cols()
  {
    Powers(F, Pick(P.bases, P.PresentIdx()), P.Exponent(r)) + Unit(F, |P.used|, r)
  }

  ghost function RightRow<T(!new)>(F: Field<T>, P: Problem<T>, r: nat): (row: seq<T>)
    requires P.Valid() && r < P.Rows()
    ensures |row| == P.Rows()
  {
    Powers(F, Pick(P.bases, P.MissingIdx()), P.Exponent(r)) + Unit(F, |P.wanted|, r - |P.used|)
  }

  lemma {:induction false} DotPrefix<T(!new)>(F: Field<T>, u: seq<T>, v: seq<T>, u': seq<T>, v': seq<T>, m: nat, n: nat)
    requires F.Lawful() && |u| == |v| == m && |u'| == |v'| && n <= |u'|
    ensures Dot(F, u + u', v + v', m + n) == F.add(Dot(F, u, v, m), Dot(F, u', v', n))
    decreases n
  {
    if n == 0 {
      DotSame(F, u + u', u, v + v', v, m);
      AddLaws(F, Dot(F, u, v, m), F.zero);
    } else {
      DotPrefix(F, u, v, u', v', m, n - 1);
      AddAssoc(F, Dot(F, u, v, m), Dot(F, u', v', n - 1), F.mul(u'[n - 1], v'[n - 1]));
    }
  }

  lemma {:induction false} DotUnit<T(!new)>(F: Field<T>, n: nat, i: int, v: seq<T>)
    requires F.Lawful() && n == |v|
    ensures Dot(F, Unit(F, n, i), v, n) == if 0 <= i < n then v[i] else F.zero
  {
    if 0 <= i < n {
      DotOne(F, Unit(F, n, i), v, n, i);
      MulLaws(F, v[i], F.one);
    } else {
      DotZero(F, Unit(F, n, i), v, n);
    }
  }

  /** The part of a recovery value that comes from the blocks listed in idx. */
  ghost function Part<T(!new)>(F: Field<T>, u: seq<T>, data: seq<T>, idx: seq<nat>): T
    requires |u| == |data| && forall k :: 0 <= k < |idx| ==> idx[k] < |u|
  {
    Dot(F, Pick(u, idx), Pick(data, idx), |idx|)
  }

  /** A recovery value is the sum of a part over the present and a part over the missing blocks. */
  lemma {:induction false} RecoverySplit<T(!new)>(F: Field<T>, u: seq<T>, data: seq<T>, flags: seq<bool>, n: nat)
    requires F.Lawful() && |u| == |data| == |flags| && n <= |flags|
    ensures Dot(F, u, data, n) ==
            F.add(Part(F, u, data, Indices(flags, n, true)), Part(F, u, data, Indices(flags, n, false)))
  {
    if n == 0 {
      AddLaws(F, F.zero, F.zero);
    } else {
      RecoverySplit(F, u, data, flags, n - 1);
      var p, q := Indices(flags, n - 1, true), Indices(flags, n - 1, false);
      PartExtend(F, u, data, if flags[n - 1] then p else q, n - 1);
      hide Part;
      var a, b, t := Part(F, u, data, p), Part(F, u, data, q), F.mul(u[n - 1], data[n - 1]);
      AddAssoc(F, a, b, t);
      AddLaws(F, b, t);
      AddAssoc(F, a, t, b);
    }
  }

  lemma {:induction false} PartExtend<T(!new)>(F: Field<T>, u: seq<T>, data: seq<T>, p: seq<nat>, i: nat)
    requires |u| == |data| && i < |u| && forall k :: 0 <= k < |p| ==> p[k] < |u|
    ensures Part(F, u, data, p + [i]) == F.add(Part(F, u, data, p), F.mul(u[i], data[i]))
  {
    DotSame(F, Pick(u, p + [i]), Pick(u, p), Pick(data, p + [i]), Pick(data, p), |p|);
  }

  lemma {:induction false} PickPowers<T(!new)>(F: Field<T>, bases: seq<T>, idx: seq<nat>, e: nat)
    requires forall k :: 0 <= k < |idx| ==> idx[k] < |bases|
    ensures Pick(Powers(F, bases, e), idx) == Powers(F, Pick(bases, idx), e)
  {
  }

  lemma {:induction false} LeftRowDot<T(!new)>(F: Field<T>, P: Problem<T>, data: seq<T>, r: nat)
    requires F.Lawful() && P.Valid() && |data| == |P.bases| && r < P.Rows()
    ensures var e := P.Exponent(r);
            Dot(F, LeftRow(F, P, r), Inputs(F, P, data), P.Cols()) ==
            F.add(Part(F, Powers(F, P.bases, e), data, P.PresentIdx()),
                  if r < |P.used| then Recovery(F, P.bases, data, e) else F.zero)
  {
    hide Dot;
    var p, m := P.PresentIdx(), |P.used|;
    PickPowers(F, P.bases, p, P.Exponent(r));
    var used := Recoveries(F, P.bases, data, P.used);
    DotPrefix(F, Pick(Powers(F, P.bases, P.Exponent(r)), p), Pick(data, p), Unit(F, m, r), used, |p|, m);
    DotUnit(F, m, r, used);
  }

  lemma {:induction false} RightRowDot<T(!new)>(F: Field<T>, P: Problem<T>, data: seq<T>, r: nat)
    requires F.Lawful() && P.Valid() && |data| == |P.bases| && r < P.Rows()
    ensures var e := P.Exponent(r);
            Dot(F, RightRow(F, P, r), Outputs(F, P, data), P.Rows()) ==
            F.add(Part(F, Powers(F, P.bases, e), data, P.MissingIdx()),
                  if r < |P.used| then F.zero else Recovery(F, P.bases, data, e))
  {
    hide Dot;
    var q, n := P.MissingIdx(), |P.wanted|;
    PickPowers(F, P.bases, q, P.Exponent(r));
    var wanted := Recoveries(F, P.bases, data, P.wanted);
    DotPrefix(F, Pick(Powers(F, P.bases, P.Exponent(r)), q), Pick(data, q), Unit(F, n, r - |P.used|), wanted, |q|, n);
    DotUnit(F, n, r - |P.used|, wanted);
  }

  lemma {:induction false} Balance<T(!new)>(F: Field<T>, a: T, b: T)
    requires F.Lawful()
    ensures F.add(a, F.add(a, b)) == F.add(b, F.zero)
    ensures F.add(a, F.zero) == F.add(b, F.add(a, b))
  {
    AddLaws(F, a, b);
    AddLaws(F, a, F.zero);
    AddLaws(F, b, F.zero);
    AddLaws(F, F.add(a, b), a);
    AddLaws(F, F.add(a, b), b);
    AddCancel(F, a, a, b);
    AddCancel(F, b, b, a);
  }

  /** Before elimination the true data solves every row of the system. */
  lemma {:induction false} DataSolvesRow<T(!new)>(F: Field<T>, P: Problem<T>, data: seq<T>, r: nat)
    requires F.Lawful() && P.Valid() && |data| == |P.bases| && r < P.Rows()
    ensures Dot(F, LeftRow(F, P, r), Inputs(F, P, data), P.Cols()) ==
            Dot(F, RightRow(F, P, r), Outputs(F, P, data), P.Rows())
  {
    var u := Powers(F, P.bases, P.Exponent(r));
    LeftRowDot(F, P, data, r);
    RightRowDot(F, P, data, r);
    RecoverySplit(F, u, data, P.present, |P.present|);
    Balance(F, Part(F, u, data, P.PresentIdx()), Part(F, u, data, P.MissingIdx()));
  }
}
