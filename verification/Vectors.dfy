/** Inner products of the rows of a matrix with vectors of field elements. */
module Vectors {
  import opened Fields

  /** u[0]*v[0] + ... + u[n-1]*v[n-1], summed in index order. */
  function Dot<T(!new)>(F: Field<T>, u: seq<T>, v: seq<T>, n: nat): T
    requires n <= |u| && n <= |v|
    decreases n
  {
    if n == 0 then F.zero else F.add(Dot(F, u, v, n - 1), F.mul(u[n - 1], v[n - 1]))
  }

  lemma {:induction false} DotSame<T(!new)>(F: Field<T>, u: seq<T>, u': seq<T>, v: seq<T>, v': seq<T>, n: nat)
    requires n <= |u| && n <= |u'| && n <= |v| && n <= |v'|
    requires forall c :: 0 <= c < n ==> u[c] == u'[c] && v[c] == v'[c]
    ensures Dot(F, u, v, n) == Dot(F, u', v', n)
  {
    if n > 0 {
      DotSame(F, u, u', v, v', n - 1);
    }
  }

  /** w = u + k*v. */
  ghost predicate Combined<T(!new)>(F: Field<T>, u: seq<T>, v: seq<T>, k: T, w: seq<T>) {
    && |u| == |v| == |w|
    && forall c :: 0 <= c < |w| ==> w[c] == F.add(u[c], F.mul(v[c], k))
  }

  lemma {:induction false} DotCombined<T(!new)>(F: Field<T>, u: seq<T>, v: seq<T>, k: T, w: seq<T>, y: seq<T>, n: nat)
    requires F.Lawful() && Combined(F, u, v, k, w) && n <= |u| && n <= |y|
    ensures Dot(F, w, y, n) == F.add(Dot(F, u, y, n), F.mul(Dot(F, v, y, n), k))
  {
    if n == 0 {
      MulLaws(F, k, F.zero);
      AddLaws(F, F.zero, F.zero);
    } else {
      DotCombined(F, u, v, k, w, y, n - 1);
      var a, b, t := u[n - 1], v[n - 1], y[n - 1];
      var p, q := Dot(F, u, y, n - 1), Dot(F, v, y, n - 1);
      Distribute(F, t, a, F.mul(b, k));
      assert F.mul(F.mul(b, k), t) == F.mul(F.mul(b, t), k) by {
        MulAssoc(F, b, k, t);
        MulAssoc(F, b, t, k);
        MulLaws(F, k, t);
      }
      AddExchange(F, p, F.mul(q, k), F.mul(a, t), F.mul(F.mul(b, t), k));
      Distribute(F, k, q, F.mul(b, t));
    }
  }

  /** w = u / k. */
  ghost predicate Scaled<T(!new)>(F: Field<T>, u: seq<T>, k: T, w: seq<T>) {
    |u| == |w| && forall c :: 0 <= c < |w| ==> w[c] == F.div(u[c], k)
  }

  lemma {:induction false} DotScaled<T(!new)>(F: Field<T>, u: seq<T>, k: T, w: seq<T>, y: seq<T>, n: nat)
    requires F.Lawful() && k != F.zero && Scaled(F, u, k, w) && n <= |u| && n <= |y|
    ensures F.mul(Dot(F, w, y, n), k) == Dot(F, u, y, n)
  {
    if n == 0 {
      MulLaws(F, k, F.zero);
    } else {
      DotScaled(F, u, k, w, y, n - 1);
      var a, t := u[n - 1], y[n - 1];
      Distribute(F, k, Dot(F, w, y, n - 1), F.mul(w[n - 1], t));
      assert F.mul(F.mul(w[n - 1], t), k) == F.mul(a, t) by {
        DivLaws(F, a, k);
        MulLaws(F, t, k);
        MulAssoc(F, w[n - 1], t, k);
        MulAssoc(F, w[n - 1], k, t);
      }
    }
  }

  lemma {:induction false} DotZero<T(!new)>(F: Field<T>, u: seq<T>, y: seq<T>, n: nat)
    requires F.Lawful() && n <= |u| && n <= |y|
    requires forall c :: 0 <= c < n ==> u[c] == F.zero || y[c] == F.zero
    ensures Dot(F, u, y, n) == F.zero
  {
    if n > 0 {
      DotZero(F, u, y, n - 1);
      MulLaws(F, u[n - 1], y[n - 1]);
      MulLaws(F, y[n - 1], u[n - 1]);
      AddLaws(F, F.zero, F.zero);
    }
  }

  /** A product with one nonzero term. */
  lemma {:induction false} DotOne<T(!new)>(F: Field<T>, u: seq<T>, y: seq<T>, n: nat, i: nat)
    requires F.Lawful() && i < n <= |u| && n <= |y|
    requires forall c :: 0 <= c < n && c != i ==> u[c] == F.zero || y[c] == F.zero
    ensures Dot(F, u, y, n) == F.mul(u[i], y[i])
  {
    if i == n - 1 {
      DotZero(F, u, y, n - 1);
      AddLaws(F, F.mul(u[i], y[i]), F.zero);
    } else {
      DotOne(F, u, y, n - 1, i);
      MulLaws(F, u[n - 1], y[n - 1]);
      MulLaws(F, y[n - 1], u[n - 1]);
      AddLaws(F, F.mul(u[i], y[i]), F.zero);
    }
  }

  /** A product with two nonzero terms. */
  lemma {:induction false} DotTwo<T(!new)>(F: Field<T>, u: seq<T>, y: seq<T>, n: nat, i: nat, j: nat)
    requires F.Lawful() && i < j < n <= |u| && n <= |y|
    requires forall c :: 0 <= c < n && c != i && c != j ==> u[c] == F.zero || y[c] == F.zero
    ensures Dot(F, u, y, n) == F.add(F.mul(u[i], y[i]), F.mul(u[j], y[j]))
  {
    if j == n - 1 {
      DotOne(F, u, y, n - 1, i);
    } else {
      DotTwo(F, u, y, n - 1, i, j);
      MulLaws(F, u[n - 1], y[n - 1]);
      MulLaws(F, y[n - 1], u[n - 1]);
      AddLaws(F, Dot(F, u, y, n - 1), F.zero);
    }
  }
}
