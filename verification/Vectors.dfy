/** Vectors and matrices of exact reals, the values the linear-algebra code computes with. */
module Vectors {

  type Vec = seq<real>
  type Mat = seq<Vec>

  ghost predicate Shape(a: Mat, rows: nat, cols: nat) {
    |a| == rows && forall i | 0 <= i < rows :: |a[i]| == cols
  }

  function Abs(x: real): real {
    if x < 0.0 then -x else x
  }

  // ----- Sums of products over an index range -----

  /** u[lo]*v[lo] + ... + u[hi-1]*v[hi-1], accumulated in the order of the source's inner loops. */
  function SumRange(u: Vec, v: Vec, lo: nat, hi: nat): real
    requires hi <= |u| && hi <= |v|
  {
    if lo >= hi then 0.0 else SumRange(u, v, lo, hi - 1) + u[hi - 1] * v[hi - 1]
  }

  function Dot(u: Vec, v: Vec): real
    requires |u| == |v|
  {
    SumRange(u, v, 0, |u|)
  }

  lemma {:induction false} SumRangeCongruent(u: Vec, v: Vec, u': Vec, v': Vec, lo: nat, hi: nat)
    requires hi <= |u| && hi <= |v| && hi <= |u'| && hi <= |v'|
    requires forall j | lo <= j < hi :: u[j] == u'[j] && v[j] == v'[j]
    ensures SumRange(u, v, lo, hi) == SumRange(u', v', lo, hi)
  {
    if lo < hi {
      SumRangeCongruent(u, v, u', v', lo, hi - 1);
    }
  }

  lemma {:induction false} SumRangeSplit(u: Vec, v: Vec, lo: nat, mid: nat, hi: nat)
    requires lo <= mid <= hi <= |u| && hi <= |v|
    ensures SumRange(u, v, lo, hi) == SumRange(u, v, lo, mid) + SumRange(u, v, mid, hi)
  {
    if mid < hi {
      SumRangeSplit(u, v, lo, mid, hi - 1);
    }
  }

  lemma SumRangeNone(u: Vec, v: Vec, lo: nat)
    requires lo <= |u| && lo <= |v|
    ensures SumRange(u, v, lo, lo) == 0.0
  {
  }

  lemma SumRangeNext(u: Vec, v: Vec, lo: nat, hi: nat)
    requires lo <= hi < |u| && hi < |v|
    ensures SumRange(u, v, lo, hi + 1) == SumRange(u, v, lo, hi) + u[hi] * v[hi]
  {
  }

  lemma {:induction false} SumRangeZero(u: Vec, v: Vec, lo: nat, hi: nat)
    requires hi <= |u| && hi <= |v|
    requires forall j | lo <= j < hi :: u[j] == 0.0 || v[j] == 0.0
    ensures SumRange(u, v, lo, hi) == 0.0
  {
    if lo < hi {
      SumRangeZero(u, v, lo, hi - 1);
    }
  }

  /** A vector that is zero outside [lo, hi) only sees that range. */
  lemma DotSupport(u: Vec, v: Vec, lo: nat, hi: nat)
    requires |u| == |v| && lo <= hi <= |u|
    requires forall j | 0 <= j < lo || hi <= j < |u| :: u[j] == 0.0 || v[j] == 0.0
    ensures Dot(u, v) == SumRange(u, v, lo, hi)
  {
    SumRangeSplit(u, v, 0, lo, |u|);
    SumRangeSplit(u, v, lo, hi, |u|);
    SumRangeZero(u, v, 0, lo);
    SumRangeZero(u, v, hi, |u|);
  }

  // ----- Vector operations -----

  function Zeros(n: nat): (z: Vec)
    ensures |z| == n && forall i | 0 <= i < n :: z[i] == 0.0
  {
    seq(n, i => 0.0)
  }

  function Unit(n: nat, k: nat): (e: Vec)
    requires k < n
    ensures |e| == n && e[k] == 1.0 && forall i | 0 <= i < n && i != k :: e[i] == 0.0
  {
    seq(n, i => if i == k then 1.0 else 0.0)
  }

  function Add(u: Vec, v: Vec): (w: Vec)
    requires |u| == |v|
    ensures |w| == |u| && forall i | 0 <= i < |w| :: w[i] == u[i] + v[i]
  {
    seq(|u|, i requires 0 <= i < |u| => u[i] + v[i])
  }

  function Scale(c: real, u: Vec): (w: Vec)
    ensures |w| == |u| && forall i | 0 <= i < |w| :: w[i] == c * u[i]
  {
    seq(|u|, i requires 0 <= i < |u| => c * u[i])
  }

  lemma {:induction false} SumRangeAdd(u: Vec, v: Vec, x: Vec, hi: nat)
    requires |u| == |v| == |x| && hi <= |u|
    ensures SumRange(Add(u, v), x, 0, hi) == SumRange(u, x, 0, hi) + SumRange(v, x, 0, hi)
  {
    if hi > 0 {
      SumRangeAdd(u, v, x, hi - 1);
      assert Add(u, v)[hi - 1] * x[hi - 1] == u[hi - 1] * x[hi - 1] + v[hi - 1] * x[hi - 1];
    }
  }

  lemma {:induction false} SumRangeScale(c: real, u: Vec, x: Vec, hi: nat)
    requires |u| == |x| && hi <= |u|
    ensures SumRange(Scale(c, u), x, 0, hi) == c * SumRange(u, x, 0, hi)
  {
    if hi > 0 {
      SumRangeScale(c, u, x, hi - 1);
      assert Scale(c, u)[hi - 1] * x[hi - 1] == c * (u[hi - 1] * x[hi - 1]);
    }
  }

  lemma {:induction false} SumRangeSymmetric(u: Vec, v: Vec, lo: nat, hi: nat)
    requires hi <= |u| && hi <= |v|
    ensures SumRange(u, v, lo, hi) == SumRange(v, u, lo, hi)
  {
    if lo < hi {
      SumRangeSymmetric(u, v, lo, hi - 1);
    }
  }

  lemma DotAdd(u: Vec, v: Vec, x: Vec)
    requires |u| == |v| == |x|
    ensures Dot(Add(u, v), x) == Dot(u, x) + Dot(v, x)
  {
    SumRangeAdd(u, v, x, |u|);
  }

  lemma DotScale(c: real, u: Vec, x: Vec)
    requires |u| == |x|
    ensures Dot(Scale(c, u), x) == c * Dot(u, x)
  {
    SumRangeScale(c, u, x, |u|);
  }

  lemma DotSymmetric(u: Vec, x: Vec)
    requires |u| == |x|
    ensures Dot(u, x) == Dot(x, u)
  {
    SumRangeSymmetric(u, x, 0, |u|);
  }

  lemma DotUnit(u: Vec, k: nat)
    requires k < |u|
    ensures Dot(u, Unit(|u|, k)) == u[k]
  {
    var e := Unit(|u|, k);
    DotSupport(u, e, k, k + 1);
    assert SumRange(u, e, k, k) == 0.0;
  }

  // ----- Matrix times vector -----

  function MatVec(a: Mat, x: Vec): (y: Vec)
    requires forall i | 0 <= i < |a| :: |a[i]| == |x|
    ensures |y| == |a| && forall i | 0 <= i < |y| :: y[i] == Dot(a[i], x)
  {
    seq(|a|, i requires 0 <= i < |a| => Dot(a[i], x))
  }

  /** A non-trivial vector that the matrix sends to zero: what being singular means. */
  ghost predicate IsKernelVector(a: Mat, n: nat, x: Vec) {
    Shape(a, n, n) && |x| == n && x != Zeros(n) && MatVec(a, x) == Zeros(n)
  }

  ghost predicate Singular(a: Mat, n: nat) {
    exists x: Vec :: IsKernelVector(a, n, x)
  }

  lemma MatVecAdd(a: Mat, n: nat, u: Vec, v: Vec)
    requires Shape(a, n, |u|) && |u| == |v|
    ensures MatVec(a, Add(u, v)) == Add(MatVec(a, u), MatVec(a, v))
  {
    forall i | 0 <= i < n
      ensures Dot(a[i], Add(u, v)) == Dot(a[i], u) + Dot(a[i], v)
    {
      DotAdd(u, v, a[i]);
      DotSymmetric(a[i], Add(u, v));
      DotSymmetric(a[i], u);
      DotSymmetric(a[i], v);
    }
  }

  lemma MatVecScale(a: Mat, n: nat, c: real, u: Vec)
    requires Shape(a, n, |u|)
    ensures MatVec(a, Scale(c, u)) == Scale(c, MatVec(a, u))
  {
    forall i | 0 <= i < n
      ensures Dot(a[i], Scale(c, u)) == c * Dot(a[i], u)
    {
      DotScale(c, u, a[i]);
      DotSymmetric(a[i], Scale(c, u));
      DotSymmetric(a[i], u);
    }
    var lhs, rhs := MatVec(a, Scale(c, u)), Scale(c, MatVec(a, u));
    assert forall i | 0 <= i < n :: lhs[i] == rhs[i];
  }

  // ----- Row combinations and products -----

  /** c[0]*m[0] + ... + c[t-1]*m[t-1], a combination of rows of m. */
  ghost function Combine(c: Vec, m: Mat, t: nat, cols: nat): (r: Vec)
    requires t <= |c| && t <= |m|
    requires forall i | 0 <= i < |m| :: |m[i]| == cols
    ensures |r| == cols
  {
    if t == 0 then Zeros(cols) else Add(Combine(c, m, t - 1, cols), Scale(c[t - 1], m[t - 1]))
  }

  lemma CombineStep(c: Vec, m: Mat, t: nat, cols: nat)
    requires t < |c| && t < |m|
    requires forall i | 0 <= i < |m| :: |m[i]| == cols
    ensures Combine(c, m, t + 1, cols) == Add(Combine(c, m, t, cols), Scale(c[t], m[t]))
  {
  }

  lemma {:induction false} CombineCongruent(c: Vec, m: Mat, c': Vec, m': Mat, t: nat, cols: nat)
    requires t <= |c| && t <= |m| && t <= |c'| && t <= |m'|
    requires forall i | 0 <= i < |m| :: |m[i]| == cols
    requires forall i | 0 <= i < |m'| :: |m'[i]| == cols
    requires forall i | 0 <= i < t :: c[i] == c'[i] && m[i] == m'[i]
    ensures Combine(c, m, t, cols) == Combine(c', m', t, cols)
  {
    if t > 0 {
      CombineCongruent(c, m, c', m', t - 1, cols);
    }
  }

  /** Column j of a matrix. */
  function Column(m: Mat, cols: nat, j: nat): (c: Vec)
    requires j < cols && forall i | 0 <= i < |m| :: |m[i]| == cols
    ensures |c| == |m| && forall i | 0 <= i < |c| :: c[i] == m[i][j]
  {
    seq(|m|, i requires 0 <= i < |m| => m[i][j])
  }

  /** Entry (i, j) of the product: row i of a against column j of b. */
  function Product(a: Mat, b: Mat, cols: nat): (p: Mat)
    requires forall i | 0 <= i < |a| :: |a[i]| == |b|
    requires forall i | 0 <= i < |b| :: |b[i]| == cols
    ensures Shape(p, |a|, cols)
    ensures forall i, j | 0 <= i < |a| && 0 <= j < cols :: p[i][j] == Dot(a[i], Column(b, cols, j))
  {
    seq(|a|, i requires 0 <= i < |a| =>
      seq(cols, j requires 0 <= j < cols => Dot(a[i], Column(b, cols, j))))
  }

  function Identity(n: nat): (m: Mat)
    ensures Shape(m, n, n)
    ensures forall i, j | 0 <= i < n && 0 <= j < n :: m[i][j] == if i == j then 1.0 else 0.0
  {
    seq(n, i requires 0 <= i < n => Unit(n, i))
  }

  /** Row i of a product is the combination of b's rows with the coefficients a[i]. */
  lemma {:induction false} CombineEntry(c: Vec, m: Mat, t: nat, cols: nat, j: nat)
    requires t <= |c| && t <= |m| && j < cols
    requires forall i | 0 <= i < |m| :: |m[i]| == cols
    ensures Combine(c, m, t, cols)[j] == SumRange(c, Column(m, cols, j), 0, t)
  {
    if t > 0 {
      CombineEntry(c, m, t - 1, cols, j);
    }
  }

  /** A combination of rows applied to x is the same combination of the rows' dot products. */
  lemma {:induction false} CombineDot(c: Vec, m: Mat, t: nat, x: Vec)
    requires t <= |c| && t <= |m|
    requires forall i | 0 <= i < |m| :: |m[i]| == |x|
    ensures Dot(Combine(c, m, t, |x|), x) == SumRange(c, MatVec(m, x), 0, t)
  {
    if t == 0 {
      SumRangeZero(Zeros(|x|), x, 0, |x|);
    } else {
      CombineDot(c, m, t - 1, x);
      DotAdd(Combine(c, m, t - 1, |x|), Scale(c[t - 1], m[t - 1]), x);
      DotScale(c[t - 1], m[t - 1], x);
    }
  }
}
