/** The determinant by Laplace expansion along the first column, and the row-operation
    laws that Gaussian elimination relies on. This is the reference the computed
    determinant is compared with. */
module Determinants {
  import opened Vectors

  // ----- Definition -----

  /** (-1)^m * x * y */
  function Signed(m: nat, x: real, y: real): real {
    if m % 2 == 0 then x * y else -(x * y)
  }

  function Remove(a: Mat, m: nat): (r: Mat)
    requires m < |a|
    ensures |r| == |a| - 1
    ensures forall i | 0 <= i < |r| :: r[i] == if i < m then a[i] else a[i + 1]
  {
    a[..m] + a[m + 1..]
  }

  /** All columns but the first. */
  function Tails(a: Mat, n: nat): (r: Mat)
    requires Shape(a, n, n) && n > 0
    ensures Shape(r, n, n - 1)
    ensures forall i | 0 <= i < n :: r[i] == a[i][1..]
  {
    seq(n, i requires 0 <= i < n => a[i][1..])
  }

  function Minor(a: Mat, n: nat, m: nat): (r: Mat)
    requires Shape(a, n, n) && m < n
    ensures Shape(r, n - 1, n - 1)
    ensures forall i | 0 <= i < n - 1 :: r[i] == a[if i < m then i else i + 1][1..]
  {
    Remove(Tails(a, n), m)
  }

  /** The first t terms of c[0]*d[0] - c[1]*d[1] + c[2]*d[2] - ... */
  function SignedSum(c: Vec, d: Vec, t: nat): real
    requires t <= |c| && t <= |d|
  {
    if t == 0 then 0.0 else SignedSum(c, d, t - 1) + Signed(t - 1, c[t - 1], d[t - 1])
  }

  function Det(a: Mat, n: nat): real
    requires Shape(a, n, n)
    decreases n, 1
  {
    if n == 0 then 1.0 else SignedSum(Column(a, n, 0), MinorDets(a, n), n)
  }

  function MinorDets(a: Mat, n: nat): (d: Vec)
    requires Shape(a, n, n) && n > 0
    ensures |d| == n
    decreases n, 0
  {
    seq(n, m requires 0 <= m < n => Det(Minor(a, n, m), n - 1))
  }

  lemma MinorDetsAt(a: Mat, n: nat, m: nat)
    requires Shape(a, n, n) && m < n
    ensures MinorDets(a, n)[m] == Det(Minor(a, n, m), n - 1)
  {
  }

  lemma DetUnfold(a: Mat, n: nat)
    requires Shape(a, n, n) && n > 0
    ensures Det(a, n) == SignedSum(Column(a, n, 0), MinorDets(a, n), n)
  {
  }

  // ----- Linearity in one row -----

  function Affine(u: real, k: real, v: real): real {
    u + k * v
  }

  lemma AffineSum(u: real, u': real, k: real, v: real, v': real)
    ensures Affine(u + u', k, v + v') == Affine(u, k, v) + Affine(u', k, v')
  {
    assert k * (v + v') == k * v + k * v';
  }

  lemma SignedAffineFactor(m: nat, x: real, k: real, y: real, d: real)
    ensures Signed(m, Affine(x, k, y), d) == Affine(Signed(m, x, d), k, Signed(m, y, d))
  {
    assert (x + k * y) * d == x * d + k * (y * d);
  }

  lemma SignedAffineMinor(m: nat, x: real, p: real, k: real, q: real)
    ensures Signed(m, x, Affine(p, k, q)) == Affine(Signed(m, x, p), k, Signed(m, x, q))
  {
    assert x * (p + k * q) == x * p + k * (x * q);
  }

  /** The columns differ linearly at position r, the minors everywhere else. */
  ghost predicate LinearAt(r: nat, k: real, cw: Vec, dw: Vec, cu: Vec, du: Vec, cv: Vec, dv: Vec) {
    && r < |cw| == |dw| == |cu| == |du| == |cv| == |dv|
    && (forall i | 0 <= i < |cw| && i != r :: cw[i] == cu[i] == cv[i] && dw[i] == Affine(du[i], k, dv[i]))
    && dw[r] == du[r] == dv[r] && cw[r] == Affine(cu[r], k, cv[r])
  }

  lemma {:induction false} SignedSumLinear(r: nat, k: real, cw: Vec, dw: Vec, cu: Vec, du: Vec, cv: Vec, dv: Vec, t: nat)
    requires LinearAt(r, k, cw, dw, cu, du, cv, dv) && t <= |cw|
    ensures SignedSum(cw, dw, t) == Affine(SignedSum(cu, du, t), k, SignedSum(cv, dv, t))
  {
    if t > 0 {
      hide Signed, Affine;
      var i := t - 1;
      SignedSumLinear(r, k, cw, dw, cu, du, cv, dv, i);
      if i == r {
        SignedAffineFactor(i, cu[i], k, cv[i], du[i]);
      } else {
        SignedAffineMinor(i, cu[i], du[i], k, dv[i]);
      }
      AffineSum(SignedSum(cu, du, i), Signed(i, cu[i], du[i]), k, SignedSum(cv, dv, i), Signed(i, cv[i], dv[i]));
    }
  }

  /** Replacing row r of a replaces one row of every minor that keeps row r. */
  lemma MinorOfUpdate(a: Mat, n: nat, r: nat, w: Vec, m: nat)
    requires Shape(a, n, n) && r < n && |w| == n && m < n
    ensures m == r ==> Minor(a[r := w], n, m) == Minor(a, n, m)
    ensures m != r ==> Minor(a[r := w], n, m) == Minor(a, n, m)[if m < r then r - 1 else r := w[1..]]
  {
  }

  lemma {:induction false} DetLinear(a: Mat, n: nat, r: nat, u: Vec, k: real, v: Vec)
    requires Shape(a, n, n) && r < n && |u| == n && |v| == n
    ensures Det(a[r := Add(u, Scale(k, v))], n) == Affine(Det(a[r := u], n), k, Det(a[r := v], n))
    decreases n, 1
  {
    hide Det, MinorDets, SignedSum;
    var w := Add(u, Scale(k, v));
    var aw, au, av := a[r := w], a[r := u], a[r := v];
    forall m | 0 <= m < n && m != r
      ensures MinorDets(aw, n)[m] == Affine(MinorDets(au, n)[m], k, MinorDets(av, n)[m])
    {
      MinorDetLinear(a, n, r, u, k, v, m);
      MinorDetsAt(aw, n, m);
      MinorDetsAt(au, n, m);
      MinorDetsAt(av, n, m);
    }
    MinorDetsAt(aw, n, r);
    MinorDetsAt(au, n, r);
    MinorDetsAt(av, n, r);
    MinorOfUpdate(a, n, r, w, r);
    MinorOfUpdate(a, n, r, u, r);
    MinorOfUpdate(a, n, r, v, r);
    SignedSumLinear(r, k, Column(aw, n, 0), MinorDets(aw, n), Column(au, n, 0), MinorDets(au, n),
                    Column(av, n, 0), MinorDets(av, n), n);
    DetUnfold(aw, n);
    DetUnfold(au, n);
    DetUnfold(av, n);
  }

  lemma {:induction false} MinorDetLinear(a: Mat, n: nat, r: nat, u: Vec, k: real, v: Vec, m: nat)
    requires Shape(a, n, n) && r < n && |u| == n && |v| == n && m < n && m != r
    ensures Det(Minor(a[r := Add(u, Scale(k, v))], n, m), n - 1)
         == Affine(Det(Minor(a[r := u], n, m), n - 1), k, Det(Minor(a[r := v], n, m), n - 1))
    decreases n, 0
  {
    hide Det, Affine;
    var w := Add(u, Scale(k, v));
    MinorOfUpdate(a, n, r, w, m);
    MinorOfUpdate(a, n, r, u, m);
    MinorOfUpdate(a, n, r, v, m);
    var tail := Add(u[1..], Scale(k, v[1..]));
    assert forall i | 0 <= i < n - 1 :: w[1..][i] == tail[i];
    assert w[1..] == tail;
    DetLinear(Minor(a, n, m), n - 1, if m < r then r - 1 else r, u[1..], k, v[1..]);
  }

  // ----- Alternation -----

  /** Terms r and r+1 are opposite and all others are zero. */
  lemma {:induction false} SignedSumCancels(c: Vec, d: Vec, r: nat, t: nat)
    requires t <= |c| == |d| && r + 1 < |c|
    requires c[r] == c[r + 1] && d[r] == d[r + 1]
    requires forall i | 0 <= i < |d| && i != r && i != r + 1 :: d[i] == 0.0
    ensures SignedSum(c, d, t) == if t == r + 1 then Signed(r, c[r], d[r]) else 0.0
  {
    if t > 0 {
      SignedSumCancels(c, d, r, t - 1);
    }
  }

  lemma MinorAdjacentEqual(a: Mat, n: nat, r: nat, m: nat, r': nat)
    requires Shape(a, n, n) && r + 1 < n && a[r] == a[r + 1]
    requires m < n && m != r && m != r + 1 && r' == if m < r then r - 1 else r
    ensures r' + 1 < n - 1 && Minor(a, n, m)[r'] == Minor(a, n, m)[r' + 1]
  {
    hide Minor;
    assert Minor(a, n, m)[r'] == a[r][1..];
    assert Minor(a, n, m)[r' + 1] == a[r + 1][1..];
  }

  lemma MinorsEqual(a: Mat, n: nat, r: nat)
    requires Shape(a, n, n) && r + 1 < n && a[r] == a[r + 1]
    ensures Minor(a, n, r) == Minor(a, n, r + 1)
  {
  }

  /** Two equal neighbouring rows make the determinant vanish. */
  lemma {:induction false} DetAdjacentEqual(a: Mat, n: nat, r: nat)
    requires Shape(a, n, n) && r + 1 < n && a[r] == a[r + 1]
    ensures Det(a, n) == 0.0
    decreases n
  {
    hide Det, MinorDets, SignedSum, Minor;
    var d := MinorDets(a, n);
    forall m | 0 <= m < n && m != r && m != r + 1
      ensures d[m] == 0.0
    {
      var r' := if m < r then r - 1 else r;
      MinorAdjacentEqual(a, n, r, m, r');
      DetAdjacentEqual(Minor(a, n, m), n - 1, r');
      MinorDetsAt(a, n, m);
    }
    MinorDetsAt(a, n, r);
    MinorDetsAt(a, n, r + 1);
    MinorsEqual(a, n, r);
    assert forall i | 0 <= i < |d| && i != r && i != r + 1 :: d[i] == 0.0;
    SignedSumCancels(Column(a, n, 0), d, r, n);
    DetUnfold(a, n);
  }

  // ----- Row swaps -----

  function SwapRows(a: Mat, i: nat, j: nat): (r: Mat)
    requires i < |a| && j < |a|
    ensures |r| == |a|
    ensures forall k | 0 <= k < |a| :: r[k] == if k == i then a[j] else if k == j then a[i] else a[k]
  {
    a[i := a[j]][j := a[i]]
  }

  lemma DetLinearSum(a: Mat, n: nat, r: nat, u: Vec, v: Vec)
    requires Shape(a, n, n) && r < n && |u| == n && |v| == n
    ensures Det(a[r := Add(u, v)], n) == Det(a[r := u], n) + Det(a[r := v], n)
  {
    hide Det;
    DetLinear(a, n, r, u, 1.0, v);
    assert Add(u, Scale(1.0, v)) == Add(u, v);
  }

  lemma {:induction false} DetSwapAdjacent(a: Mat, n: nat, r: nat)
    requires Shape(a, n, n) && r + 1 < n
    ensures Det(SwapRows(a, r, r + 1), n) == -Det(a, n)
  {
    hide Det;
    var u, v := a[r], a[r + 1];
    var s := Add(u, v);
    var both := a[r := s][r + 1 := s];
    DetAdjacentEqual(both, n, r);
    DetLinearSum(a[r := s], n, r + 1, u, v);
    DetLinearSum(a[r + 1 := u], n, r, u, v);
    DetLinearSum(a[r + 1 := v], n, r, u, v);
    assert a[r := s][r + 1 := u] == a[r + 1 := u][r := s];
    assert a[r := s][r + 1 := v] == a[r + 1 := v][r := s];
    DetAdjacentEqual(a[r + 1 := u][r := u], n, r);
    DetAdjacentEqual(a[r + 1 := v][r := v], n, r);
    assert a[r + 1 := v][r := u] == a;
    assert a[r + 1 := u][r := v] == SwapRows(a, r, r + 1);
  }

  /** A swap of rows i < j is an odd number of swaps of neighbours. */
  lemma {:induction false} DetSwap(a: Mat, n: nat, i: nat, j: nat)
    requires Shape(a, n, n) && i < j < n
    ensures Det(SwapRows(a, i, j), n) == -Det(a, n)
    decreases j - i
  {
    hide Det;
    if j == i + 1 {
      DetSwapAdjacent(a, n, i);
    } else {
      var b := SwapRows(a, i, i + 1);
      var c := SwapRows(b, i + 1, j);
      DetSwapAdjacent(a, n, i);
      DetSwap(b, n, i + 1, j);
      DetSwapAdjacent(c, n, i);
      assert SwapRows(c, i, i + 1) == SwapRows(a, i, j);
    }
  }

  lemma {:induction false} DetEqualRows(a: Mat, n: nat, i: nat, j: nat)
    requires Shape(a, n, n) && i < j < n && a[i] == a[j]
    ensures Det(a, n) == 0.0
  {
    hide Det;
    if j == i + 1 {
      DetAdjacentEqual(a, n, i);
    } else {
      DetSwap(a, n, i + 1, j);
      DetAdjacentEqual(SwapRows(a, i + 1, j), n, i);
    }
  }

  // ----- Row additions -----

  /** Adding a multiple of row k to row i leaves the determinant alone. */
  lemma DetAddMultiple(a: Mat, n: nat, i: nat, k: nat, c: real)
    requires Shape(a, n, n) && i < n && k < n && i != k
    ensures Det(a[i := Add(a[i], Scale(c, a[k]))], n) == Det(a, n)
  {
    hide Det;
    DetLinear(a, n, i, a[i], c, a[k]);
    assert a[i := a[i]] == a;
    var b := a[i := a[k]];
    if i < k { DetEqualRows(b, n, i, k); } else { DetEqualRows(b, n, k, i); }
  }

  // ----- Triangular matrices -----

  /** Zero below the diagonal in the first k columns. */
  ghost predicate UpperUpTo(a: Mat, n: nat, k: nat) {
    Shape(a, n, n) && k <= n && forall i, j | 0 <= j < i < n && j < k :: a[i][j] == 0.0
  }

  lemma {:induction false} SignedSumFirstOnly(c: Vec, d: Vec, t: nat)
    requires 0 < t <= |c| && t <= |d|
    requires forall i | 0 < i < |c| :: c[i] == 0.0
    ensures SignedSum(c, d, t) == c[0] * d[0]
  {
    if t > 1 {
      SignedSumFirstOnly(c, d, t - 1);
    } else {
      assert SignedSum(c, d, 0) == 0.0;
    }
  }

  lemma DetFirstRowOnly(a: Mat, n: nat, d: real)
    requires UpperUpTo(a, n, 1) && 0 < n && d == Det(Minor(a, n, 0), n - 1)
    ensures Det(a, n) == a[0][0] * d
  {
    hide Det, MinorDets, SignedSum;
    SignedSumFirstOnly(Column(a, n, 0), MinorDets(a, n), n);
    MinorDetsAt(a, n, 0);
    DetUnfold(a, n);
  }

  lemma MinorUpper(a: Mat, n: nat, k: nat)
    requires UpperUpTo(a, n, k) && k > 0
    ensures UpperUpTo(Minor(a, n, 0), n - 1, k - 1)
  {
  }

  /** Product of the diagonal entries from position t on. */
  function DiagonalFrom(a: Mat, n: nat, t: nat): real
    requires Shape(a, n, n) && t <= n
    decreases n - t
  {
    if t == n then 1.0 else a[t][t] * DiagonalFrom(a, n, t + 1)
  }

  lemma {:induction false} DiagonalOfMinor(a: Mat, n: nat, t: nat)
    requires Shape(a, n, n) && t < n
    ensures DiagonalFrom(Minor(a, n, 0), n - 1, t) == DiagonalFrom(a, n, t + 1)
    decreases n - t
  {
    hide DiagonalFrom, Minor;
    DiagonalStep(a, n, t + 1);
    DiagonalStep(Minor(a, n, 0), n - 1, t);
    if t < n - 1 {
      DiagonalOfMinor(a, n, t + 1);
      assert Minor(a, n, 0)[t] == a[t + 1][1..];
    }
  }

  lemma DiagonalStep(a: Mat, n: nat, t: nat)
    requires Shape(a, n, n) && t <= n
    ensures DiagonalFrom(a, n, t) == if t == n then 1.0 else a[t][t] * DiagonalFrom(a, n, t + 1)
  {
  }

  lemma DetEmpty(a: Mat)
    requires Shape(a, 0, 0)
    ensures Det(a, 0) == 1.0 == DiagonalFrom(a, 0, 0)
  {
  }

  lemma {:induction false} DetTriangular(a: Mat, n: nat)
    requires UpperUpTo(a, n, n)
    ensures Det(a, n) == DiagonalFrom(a, n, 0)
    decreases n
  {
    hide Det, DiagonalFrom;
    if n == 0 {
      DetEmpty(a);
    } else {
      var minor := Minor(a, n, 0);
      MinorUpper(a, n, n);
      DetTriangular(minor, n - 1);
      DiagonalOfMinor(a, n, 0);
      DetFirstRowOnly(a, n, DiagonalFrom(a, n, 1));
      DiagonalFirst(a, n);
    }
  }

  lemma DiagonalFirst(a: Mat, n: nat)
    requires Shape(a, n, n) && n > 0
    ensures DiagonalFrom(a, n, 0) == a[0][0] * DiagonalFrom(a, n, 1)
  {
  }

  /** Elimination got stuck at column k: nothing on or below the diagonal there. */
  lemma {:induction false} DetStuck(a: Mat, n: nat, k: nat)
    requires k < n && UpperUpTo(a, n, k)
    requires forall i | k <= i < n :: a[i][k] == 0.0
    ensures Det(a, n) == 0.0
    decreases n
  {
    hide Det;
    if k > 0 {
      MinorUpper(a, n, k);
      DetStuck(Minor(a, n, 0), n - 1, k - 1);
      DetFirstRowOnly(a, n, 0.0);
    } else {
      DetFirstRowOnly(a, n, Det(Minor(a, n, 0), n - 1));
    }
  }
}
