/** The mathematics of LU decomposition with partial pivoting, on matrix values:
    what one column of elimination preserves, and what the finished factors give. */
module Elimination {
  import opened Vectors
  import opened Determinants
  import opened Permutations

  function Min(a: nat, b: nat): nat {
    if a < b then a else b
  }

  // ----- The storage scheme -----

  /** The lu array holds multipliers below the diagonal of the first k columns. Blanking
      them out leaves the partly eliminated matrix. */
  function Work(lu: Mat, n: nat, k: nat): (w: Mat)
    requires Shape(lu, n, n)
    ensures Shape(w, n, n)
    ensures forall i, j | 0 <= i < n && 0 <= j < n :: w[i][j] == if j < Min(i, k) then 0.0 else lu[i][j]
  {
    seq(n, i requires 0 <= i < n =>
      seq(n, j requires 0 <= j < n => if j < Min(i, k) then 0.0 else lu[i][j]))
  }

  /** Row i of a, rebuilt from the stored multipliers and the working matrix. */
  ghost function Rebuilt(lu: Mat, n: nat, k: nat, i: nat): (r: Vec)
    requires Shape(lu, n, n) && i < n && k <= n
    ensures |r| == n
  {
    Add(Combine(lu[i], Work(lu, n, k), Min(i, k), n), Work(lu, n, k)[i])
  }

  /** Every row of a, taken in permuted order, can be rebuilt. */
  ghost predicate Factored(a: Mat, n: nat, lu: Mat, perm: seq<nat>, k: nat) {
    && Shape(a, n, n) && Shape(lu, n, n) && k <= n
    && |perm| == n && IsPermutation(perm)
    && forall i | 0 <= i < n :: a[perm[i]] == Rebuilt(lu, n, k, i)
  }

  /** Partial pivoting keeps the multipliers small and the finished pivots non-zero. */
  ghost predicate Pivoted(n: nat, lu: Mat, k: nat) {
    && Shape(lu, n, n) && k <= n
    && (forall m | 0 <= m < k :: lu[m][m] != 0.0)
    && (forall i, m | 0 <= m < i < n && m < k :: -1.0 <= lu[i][m] <= 1.0)
  }

  ghost predicate SignTracks(a: Mat, n: nat, lu: Mat, perm: seq<nat>, sign: real, k: nat) {
    && Shape(a, n, n) && Shape(lu, n, n)
    && sign == Parity(perm)
    && Det(a, n) == sign * Det(Work(lu, n, k), n)
  }

  // ----- Start -----

  lemma StartFactored(a: Mat, n: nat, perm: seq<nat>)
    requires Shape(a, n, n) && |perm| == n && forall i | 0 <= i < n :: perm[i] == i
    ensures Factored(a, n, a, perm, 0) && Pivoted(n, a, 0) && SignTracks(a, n, a, perm, 1.0, 0)
  {
    forall v: nat | v < n
      ensures v in perm
    {
      assert perm[v] == v;
    }
    forall i | 0 <= i < n
      ensures Work(a, n, 0)[i] == a[i] == Rebuilt(a, n, 0, i)
    {
    }
    assert Work(a, n, 0) == a;
    IncreasingHasNoInversions(perm);
  }

  // ----- Row exchange -----

  lemma WorkOfSwap(lu: Mat, n: nat, k: nat, p: nat)
    requires Shape(lu, n, n) && k < n && k <= p < n
    ensures Work(Swap(lu, k, p), n, k) == SwapRows(Work(lu, n, k), k, p)
  {
    forall i | 0 <= i < n
      ensures Work(Swap(lu, k, p), n, k)[i] == SwapRows(Work(lu, n, k), k, p)[i]
    {
    }
  }

  lemma SwapKeepsFactored(a: Mat, n: nat, lu: Mat, perm: seq<nat>, k: nat, p: nat)
    requires Factored(a, n, lu, perm, k) && k < p < n
    ensures Factored(a, n, Swap(lu, k, p), Swap(perm, k, p), k)
  {
    hide Work;
    var lu', perm' := Swap(lu, k, p), Swap(perm, k, p);
    SwapIsPermutation(perm, k, p);
    WorkOfSwap(lu, n, k, p);
    forall i | 0 <= i < n
      ensures a[perm'[i]] == Rebuilt(lu', n, k, i)
    {
      var i' := if i == k then p else if i == p then k else i;
      CombineCongruent(lu'[i], Work(lu', n, k), lu[i'], Work(lu, n, k), Min(i, k), n);
      assert Min(i, k) == Min(i', k);
    }
  }

  lemma SwapKeepsPivoted(n: nat, lu: Mat, k: nat, p: nat)
    requires Pivoted(n, lu, k) && k < p < n
    ensures Pivoted(n, Swap(lu, k, p), k)
  {
  }

  lemma SwapFlipsSign(a: Mat, n: nat, lu: Mat, perm: seq<nat>, sign: real, k: nat, p: nat)
    requires Factored(a, n, lu, perm, k) && k < p < n
    requires SignTracks(a, n, lu, perm, sign, k)
    ensures SignTracks(a, n, Swap(lu, k, p), Swap(perm, k, p), -sign, k)
  {
    hide Det, Work, Rebuilt, Parity;
    WorkOfSwap(lu, n, k, p);
    DetSwap(Work(lu, n, k), n, k, p);
    SwapFlips(perm, k, p);
    NegateBoth(Det(a, n), sign, Det(Work(lu, n, k), n), Det(Work(Swap(lu, k, p), n, k), n));
  }

  lemma NegateBoth(x: real, s: real, d: real, d': real)
    requires x == s * d && d' == -d
    ensures x == (-s) * d'
  {
  }

  // ----- Eliminating one column -----

  /** Row below the pivot: the multiplier replaces column k, the rest is reduced. */
  function EliminateRow(row: Vec, pivot: Vec, k: nat): (r: Vec)
    requires |row| == |pivot| && k < |row| && pivot[k] != 0.0
    ensures |r| == |row|
  {
    var factor := row[k] / pivot[k];
    seq(|row|, j requires 0 <= j < |row| =>
      if j < k then row[j] else if j == k then factor else row[j] - factor * pivot[j])
  }

  function EliminateBelow(lu: Mat, n: nat, k: nat): (r: Mat)
    requires Shape(lu, n, n) && k < n && lu[k][k] != 0.0
    ensures Shape(r, n, n)
    ensures forall i | 0 <= i < n :: r[i] == if i <= k then lu[i] else EliminateRow(lu[i], lu[k], k)
  {
    seq(n, i requires 0 <= i < n => if i <= k then lu[i] else EliminateRow(lu[i], lu[k], k))
  }

  lemma DivideBack(x: real, d: real)
    requires d != 0.0
    ensures (x / d) * d == x
  {
  }

  /** Elimination subtracts factor times the pivot row from each working row below it. */
  lemma WorkOfEliminate(lu: Mat, n: nat, k: nat, i: nat)
    requires Shape(lu, n, n) && k < n && lu[k][k] != 0.0 && i < n
    ensures var w, w' := Work(lu, n, k), Work(EliminateBelow(lu, n, k), n, k + 1);
            w'[i] == if i <= k then w[i] else Add(w[i], Scale(-(lu[i][k] / lu[k][k]), w[k]))
  {
    hide EliminateRow, Add, Scale, Work, EliminateBelow;
    var w, w' := Work(lu, n, k), Work(EliminateBelow(lu, n, k), n, k + 1);
    if i > k {
      ReducedRow(lu[i], lu[k], k, w[i], w[k], w'[i]);
    } else {
      assert w'[i] == w[i];
    }
  }

  /** One reduced row, with the eliminated columns blanked out before and after. */
  lemma ReducedRow(row: Vec, pivot: Vec, k: nat, u: Vec, v: Vec, r: Vec)
    requires |row| == |pivot| == |u| == |v| == |r| && k < |row| && pivot[k] != 0.0
    requires forall j | 0 <= j < |row| :: u[j] == (if j < k then 0.0 else row[j]) && v[j] == if j < k then 0.0 else pivot[j]
    requires forall j | 0 <= j < |row| :: r[j] == if j < k + 1 then 0.0 else EliminateRow(row, pivot, k)[j]
    ensures r == Add(u, Scale(-(row[k] / pivot[k]), v))
  {
    var factor := row[k] / pivot[k];
    var reduced := Add(u, Scale(-factor, v));
    DivideBack(row[k], pivot[k]);
    forall j | 0 <= j < |row|
      ensures r[j] == reduced[j]
    {
      ReducedEntry(row[j], factor, pivot[j], u[j], v[j], row[k], pivot[k], j < k, j == k);
    }
  }

  lemma ReducedEntry(x: real, factor: real, p: real, u: real, v: real, xk: real, pk: real, before: bool, at: bool)
    requires if before then u == 0.0 && v == 0.0 else u == x && v == p
    requires factor * pk == xk && (at ==> x == xk && p == pk)
    ensures before ==> u + -factor * v == 0.0
    ensures !before && at ==> u + -factor * v == 0.0
    ensures !before ==> u + -factor * v == x - factor * p
  {
  }

  lemma ScaleBack(u: Vec, c: real, v: Vec, w: Vec)
    requires |u| == |v| == |w| && w == Add(u, Scale(-c, v))
    ensures Add(Scale(c, v), w) == u
  {
    var r := Add(Scale(c, v), w);
    forall j | 0 <= j < |u|
      ensures r[j] == u[j]
    {
      assert Scale(-c, v)[j] == -(c * v[j]);
    }
  }

  lemma AddAssociative(u: Vec, v: Vec, w: Vec)
    requires |u| == |v| == |w|
    ensures Add(Add(u, v), w) == Add(u, Add(v, w))
  {
  }

  lemma EliminateMultipliers(lu: Mat, n: nat, k: nat, i: nat)
    requires Shape(lu, n, n) && k < n && lu[k][k] != 0.0 && i < n
    ensures forall m | 0 <= m < Min(i, k) :: EliminateBelow(lu, n, k)[i][m] == lu[i][m]
    ensures i > k ==> EliminateBelow(lu, n, k)[i][k] == lu[i][k] / lu[k][k]
  {
  }

  /** The columns eliminated before k contribute to row i what they did before. */
  lemma EliminateKeepsCombination(lu: Mat, n: nat, k: nat, i: nat)
    requires Shape(lu, n, n) && k < n && lu[k][k] != 0.0 && i < n
    ensures var lu' := EliminateBelow(lu, n, k);
            Combine(lu'[i], Work(lu', n, k + 1), Min(i, k), n) == Combine(lu[i], Work(lu, n, k), Min(i, k), n)
  {
    hide Work, EliminateBelow;
    var lu' := EliminateBelow(lu, n, k);
    var w, w' := Work(lu, n, k), Work(lu', n, k + 1);
    forall m | 0 <= m < Min(i, k)
      ensures w'[m] == w[m]
    {
      WorkOfEliminate(lu, n, k, m);
    }
    EliminateMultipliers(lu, n, k, i);
    CombineCongruent(lu'[i], w', lu[i], w, Min(i, k), n);
  }

  lemma EliminateKeepsRow(lu: Mat, n: nat, k: nat, i: nat)
    requires Shape(lu, n, n) && k < n && lu[k][k] != 0.0 && i < n
    ensures Rebuilt(EliminateBelow(lu, n, k), n, k + 1, i) == Rebuilt(lu, n, k, i)
  {
    hide Work, EliminateBelow, Combine, Add, Scale;
    var lu' := EliminateBelow(lu, n, k);
    var w, w' := Work(lu, n, k), Work(lu', n, k + 1);
    EliminateKeepsCombination(lu, n, k, i);
    WorkOfEliminate(lu, n, k, i);
    if i > k {
      EliminateMultipliers(lu, n, k, i);
      WorkOfEliminate(lu, n, k, k);
      CombineStep(lu'[i], w', k, n);
      Rejoin(Combine(lu'[i], w', k, n), lu'[i][k], w[k], w[i], w'[i]);
    }
  }

  /** The reduced row and what was subtracted from it give the row back. */
  lemma Rejoin(sum: Vec, c: real, pivot: Vec, row: Vec, reduced: Vec)
    requires |sum| == |pivot| == |row| == |reduced| && reduced == Add(row, Scale(-c, pivot))
    ensures Add(Add(sum, Scale(c, pivot)), reduced) == Add(sum, row)
  {
    hide Add, Scale;
    ScaleBack(row, c, pivot, reduced);
    AddAssociative(sum, Scale(c, pivot), reduced);
  }

  lemma EliminateKeepsFactored(a: Mat, n: nat, lu: Mat, perm: seq<nat>, k: nat)
    requires Factored(a, n, lu, perm, k) && k < n && lu[k][k] != 0.0
    ensures Factored(a, n, EliminateBelow(lu, n, k), perm, k + 1)
  {
    hide Rebuilt, EliminateBelow;
    forall i | 0 <= i < n
      ensures a[perm[i]] == Rebuilt(EliminateBelow(lu, n, k), n, k + 1, i)
    {
      EliminateKeepsRow(lu, n, k, i);
    }
  }

  /** A quotient by something at least as large stays within [-1, 1]. */
  lemma QuotientSmall(x: real, d: real)
    requires d != 0.0 && Abs(x) <= Abs(d)
    ensures -1.0 <= x / d <= 1.0
  {
    if d > 0.0 {
      BoundedQuotient(x, d);
    } else {
      BoundedQuotient(-x, -d);
      NegateQuotient(x, d);
    }
  }

  lemma BoundedQuotient(x: real, d: real)
    requires d > 0.0 && -d <= x <= d
    ensures -1.0 <= x / d <= 1.0
  {
    assert d / d == 1.0 && (-d) / d == -1.0;
    DivideMonotone(x, d, d);
    DivideMonotone(-d, x, d);
  }

  lemma NegateQuotient(x: real, d: real)
    requires d != 0.0
    ensures (-x) / (-d) == x / d
  {
  }

  lemma DivideMonotone(x: real, y: real, d: real)
    requires d > 0.0 && x <= y
    ensures x / d <= y / d
  {
  }

  lemma EliminateKeepsPivoted(n: nat, lu: Mat, k: nat)
    requires Pivoted(n, lu, k) && k < n && lu[k][k] != 0.0
    requires forall i | k <= i < n :: Abs(lu[i][k]) <= Abs(lu[k][k])
    ensures Pivoted(n, EliminateBelow(lu, n, k), k + 1)
  {
    var lu' := EliminateBelow(lu, n, k);
    forall i, m | 0 <= m < i < n && m < k + 1
      ensures -1.0 <= lu'[i][m] <= 1.0
    {
      if m == k { QuotientSmall(lu[i][k], lu[k][k]); }
    }
  }

  /** The working matrix with only the rows before t eliminated. */
  ghost function Mixed(w: Mat, w': Mat, t: nat): (m: Mat)
    requires |w| == |w'| && t <= |w|
    ensures |m| == |w| && forall i | 0 <= i < |m| :: m[i] == if i < t then w'[i] else w[i]
  {
    w'[..t] + w[t..]
  }

  lemma {:induction false} DetOfMixed(lu: Mat, n: nat, k: nat, t: nat)
    requires Shape(lu, n, n) && k < n && lu[k][k] != 0.0 && k < t <= n
    ensures var w, w' := Work(lu, n, k), Work(EliminateBelow(lu, n, k), n, k + 1);
            Shape(Mixed(w, w', t), n, n) && Det(Mixed(w, w', t), n) == Det(w, n)
  {
    hide Det, Work, EliminateBelow, Mixed, Add, Scale;
    var w, w' := Work(lu, n, k), Work(EliminateBelow(lu, n, k), n, k + 1);
    WorkOfEliminate(lu, n, k, k);
    if t == k + 1 {
      forall m | 0 <= m <= k
        ensures w'[m] == w[m]
      {
        WorkOfEliminate(lu, n, k, m);
      }
      assert Mixed(w, w', t) == w;
    } else {
      var i := t - 1;
      DetOfMixed(lu, n, k, i);
      WorkOfEliminate(lu, n, k, i);
      var before := Mixed(w, w', i);
      var c := -(lu[i][k] / lu[k][k]);
      DetAddMultiple(before, n, i, k, c);
      assert before[i] == w[i] && before[k] == w[k];
      assert Mixed(w, w', t) == before[i := w'[i]];
    }
  }

  lemma EliminateKeepsSign(a: Mat, n: nat, lu: Mat, perm: seq<nat>, sign: real, k: nat)
    requires SignTracks(a, n, lu, perm, sign, k) && k < n && lu[k][k] != 0.0
    ensures SignTracks(a, n, EliminateBelow(lu, n, k), perm, sign, k + 1)
  {
    hide Det, Work;
    var w, w' := Work(lu, n, k), Work(EliminateBelow(lu, n, k), n, k + 1);
    DetOfMixed(lu, n, k, n);
    assert Mixed(w, w', n) == w';
  }

  // ----- What the factors say about a -----

  /** Applying a row of a to x through its factors. */
  lemma RowThroughFactors(a: Mat, n: nat, lu: Mat, perm: seq<nat>, k: nat, i: nat, x: Vec)
    requires Factored(a, n, lu, perm, k) && i < n && |x| == n
    ensures var w := Work(lu, n, k);
            Dot(a[perm[i]], x) == SumRange(lu[i], MatVec(w, x), 0, Min(i, k)) + Dot(w[i], x)
  {
    var w := Work(lu, n, k);
    CombineDot(lu[i], w, Min(i, k), x);
    DotAdd(Combine(lu[i], w, Min(i, k), n), w[i], x);
  }

  /** Row i of the upper factor only sees columns i and up. */
  lemma {:induction false} UpperRowDot(lu: Mat, n: nat, i: nat, x: Vec)
    requires Shape(lu, n, n) && i < n && |x| == n
    ensures Dot(Work(lu, n, n)[i], x) == lu[i][i] * x[i] + SumRange(lu[i], x, i + 1, n)
  {
    var w := Work(lu, n, n);
    DotSupport(w[i], x, i, n);
    SumRangeSplit(w[i], x, i, i + 1, n);
    assert SumRange(w[i], x, i, i) == 0.0;
    SumRangeCongruent(w[i], x, lu[i], x, i + 1, n);
  }

  // ----- No solution is lost: the kernel is trivial when all pivots are found -----

  lemma {:induction false} UpperImageZero(a: Mat, n: nat, lu: Mat, perm: seq<nat>, z: Vec, t: nat)
    requires Factored(a, n, lu, perm, n) && |z| == n && MatVec(a, z) == Zeros(n) && t <= n
    ensures forall i | 0 <= i < t :: MatVec(Work(lu, n, n), z)[i] == 0.0
  {
    if t > 0 {
      var i := t - 1;
      UpperImageZero(a, n, lu, perm, z, i);
      RowThroughFactors(a, n, lu, perm, n, i, z);
      SumRangeZero(lu[i], MatVec(Work(lu, n, n), z), 0, i);
      assert Dot(a[perm[i]], z) == MatVec(a, z)[perm[i]];
    }
  }

  lemma {:induction false} BackSubstitutedZero(n: nat, lu: Mat, z: Vec, t: nat)
    requires Pivoted(n, lu, n) && |z| == n && t <= n
    requires forall i | 0 <= i < n :: Dot(Work(lu, n, n)[i], z) == 0.0
    ensures forall i | t <= i < n :: z[i] == 0.0
    decreases n - t
  {
    if t < n {
      BackSubstitutedZero(n, lu, z, t + 1);
      UpperRowDot(lu, n, t, z);
      SumRangeZero(lu[t], z, t + 1, n);
    }
  }

  lemma FactoredNonsingular(a: Mat, n: nat, lu: Mat, perm: seq<nat>)
    requires Factored(a, n, lu, perm, n) && Pivoted(n, lu, n)
    ensures !Singular(a, n)
  {
    forall z: Vec | Shape(a, n, n) && |z| == n && MatVec(a, z) == Zeros(n)
      ensures z == Zeros(n)
    {
      UpperImageZero(a, n, lu, perm, z, n);
      forall i | 0 <= i < n
        ensures Dot(Work(lu, n, n)[i], z) == 0.0
      {
        assert MatVec(Work(lu, n, n), z)[i] == 0.0;
      }
      BackSubstitutedZero(n, lu, z, 0);
    }
  }

  // ----- Elimination stuck at column k: a kernel vector -----

  /** Positions t..n-1 of the vector with 1 at k, 0 beyond, solved backwards through the
      first k rows of the working matrix. */
  ghost function StuckVector(w: Mat, n: nat, k: nat, t: nat): (x: Vec)
    requires Shape(w, n, n) && t <= k < n
    requires forall i | 0 <= i < k :: w[i][i] != 0.0
    ensures |x| == n && x[k] == 1.0
    ensures forall i | 0 <= i < t || k < i < n :: x[i] == 0.0
    decreases k - t
  {
    if t == k then Unit(n, k)
    else
      var x := StuckVector(w, n, k, t + 1);
      x[t := -SumRange(w[t], x, t + 1, n) / w[t][t]]
  }

  /** The rows from t on are already sent to zero. */
  lemma {:induction false} StuckVectorSolves(w: Mat, n: nat, k: nat, t: nat, i: nat)
    requires UpperUpTo(w, n, k) && t <= i < n && t <= k < n
    requires forall r | 0 <= r < k :: w[r][r] != 0.0
    requires forall r | k <= r < n :: w[r][k] == 0.0
    ensures Dot(w[i], StuckVector(w, n, k, t)) == 0.0
    decreases k - t
  {
    hide StuckVector, SumRange, Dot;
    var x := StuckVector(w, n, k, t);
    if i >= k {
      DotSupport(w[i], x, 0, n);
      SumRangeZero(w[i], x, 0, n);
    } else {
      var x' := StuckVector(w, n, k, t + 1);
      StuckVectorStep(w, n, k, t);
      DotSupport(w[i], x, i, n);
      if i == t {
        SumRangeSplit(w[i], x, i, i + 1, n);
        SumRangeCongruent(w[i], x, w[i], x', i + 1, n);
        SingleTerm(w[i], x, i);
      } else {
        StuckVectorSolves(w, n, k, t + 1, i);
        DotSupport(w[i], x', i, n);
        SumRangeCongruent(w[i], x, w[i], x', i, n);
      }
    }
  }

  lemma SingleTerm(u: Vec, v: Vec, i: nat)
    requires i < |u| && i < |v|
    ensures SumRange(u, v, i, i + 1) == u[i] * v[i]
  {
    assert SumRange(u, v, i, i) == 0.0;
  }

  lemma StuckVectorStep(w: Mat, n: nat, k: nat, t: nat)
    requires Shape(w, n, n) && t < k < n
    requires forall i | 0 <= i < k :: w[i][i] != 0.0
    ensures var x, x' := StuckVector(w, n, k, t), StuckVector(w, n, k, t + 1);
            && w[t][t] * x[t] == -SumRange(w[t], x', t + 1, n)
            && forall i | 0 <= i < n && i != t :: x[i] == x'[i]
  {
    hide SumRange;
    DivideBack(-SumRange(w[t], StuckVector(w, n, k, t + 1), t + 1, n), w[t][t]);
  }

  lemma StuckSingular(a: Mat, n: nat, lu: Mat, perm: seq<nat>, k: nat)
    requires Factored(a, n, lu, perm, k) && Pivoted(n, lu, k) && k < n
    requires forall i | k <= i < n :: lu[i][k] == 0.0
    ensures Singular(a, n)
  {
    var w := Work(lu, n, k);
    var x := StuckVector(w, n, k, 0);
    forall i | 0 <= i < n
      ensures MatVec(w, x)[i] == 0.0
    {
      StuckVectorSolves(w, n, k, 0, i);
    }
    forall v | 0 <= v < n
      ensures MatVec(a, x)[v] == 0.0
    {
      assert v in perm;
      var i :| 0 <= i < n && perm[i] == v;
      RowThroughFactors(a, n, lu, perm, k, i, x);
      SumRangeZero(lu[i], MatVec(w, x), 0, Min(i, k));
      assert Dot(w[i], x) == MatVec(w, x)[i];
    }
    assert x[k] != Zeros(n)[k];
    assert IsKernelVector(a, n, x);
  }

  lemma StuckDeterminant(a: Mat, n: nat, lu: Mat, perm: seq<nat>, sign: real, k: nat)
    requires SignTracks(a, n, lu, perm, sign, k) && k < n
    requires forall i | k <= i < n :: lu[i][k] == 0.0
    ensures Det(a, n) == 0.0
  {
    hide Det;
    DetStuck(Work(lu, n, k), n, k);
  }
}
