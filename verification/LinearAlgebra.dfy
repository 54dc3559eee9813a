/** The matrix operations of the calculator: decomposition in place, substitution,
    determinant, inverse and product, with the errors the callers see. */
module LinearAlgebra {
  import opened Wrappers
  import opened Vectors
  import opened Determinants
  import opened Permutations
  import opened Elimination

  const MAX_DIMENSION: nat := 50

  datatype MatrixError =
    | NoRows
    | TooManyRows
    | NoColumns
    | TooManyColumns
    | NotRectangular(row: nat)
    | NotSquare
    | InnerMismatch
    | RightHandSideLength
    | SingularMatrix

  // ----- Input checks -----

  ghost predicate WellFormed(m: Mat) {
    && 0 < |m| <= MAX_DIMENSION
    && 0 < |m[0]| <= MAX_DIMENSION
    && Shape(m, |m|, |m[0]|)
  }

  ghost predicate WellFormedSquare(m: Mat) {
    WellFormed(m) && |m[0]| == |m|
  }

  /** The first check that the matrix fails. */
  ghost predicate Diagnoses(m: Mat, e: MatrixError) {
    match e
    case NoRows => |m| == 0
    case TooManyRows => |m| > MAX_DIMENSION
    case NoColumns => 0 < |m| <= MAX_DIMENSION && |m[0]| == 0
    case TooManyColumns => 0 < |m| <= MAX_DIMENSION && |m[0]| > MAX_DIMENSION
    case NotRectangular(row) =>
      && 0 < |m| <= MAX_DIMENSION && 0 < |m[0]| <= MAX_DIMENSION
      && row < |m| && |m[row]| != |m[0]| && forall i | 0 <= i < row :: |m[i]| == |m[0]|
    case _ => false
  }

  method EnsureWellFormed(m: Mat) returns (r: Option<MatrixError>)
    ensures r.None? <==> WellFormed(m)
    ensures r.Some? ==> Diagnoses(m, r.value)
  {
    if |m| == 0 { return Some(NoRows); }
    if |m| > MAX_DIMENSION { return Some(TooManyRows); }
    var c := |m[0]|;
    if c == 0 { return Some(NoColumns); }
    if c > MAX_DIMENSION { return Some(TooManyColumns); }
    for i := 0 to |m|
      invariant forall k | 0 <= k < i :: |m[k]| == c
    {
      if |m[i]| != c { return Some(NotRectangular(i)); }
    }
    return None;
  }

  // ----- Decomposition -----

  /** The whole state of the decomposition once the first k columns are done. */
  ghost predicate Eliminated(a: Mat, n: nat, lu: Mat, perm: seq<nat>, sign: real, k: nat) {
    && Factored(a, n, lu, perm, k)
    && Pivoted(n, lu, k)
    && SignTracks(a, n, lu, perm, sign, k)
  }

  /** Row of the largest entry of column k on or below the diagonal, the first such row. */
  method FindPivot(lu: array<Vec>, n: nat, k: nat) returns (pivot: nat, mag: real)
    requires lu.Length == n && Shape(lu[..], n, n) && k < n
    ensures k <= pivot < n && mag == Abs(lu[pivot][k])
    ensures forall i | k <= i < n :: Abs(lu[i][k]) <= mag
    ensures forall i | k <= i < pivot :: Abs(lu[i][k]) < mag
  {
    pivot, mag := k, Abs(lu[k][k]);
    for i := k + 1 to n
      invariant k <= pivot < i && mag == Abs(lu[pivot][k])
      invariant forall r | k <= r < i :: Abs(lu[r][k]) <= mag
      invariant forall r | k <= r < pivot :: Abs(lu[r][k]) < mag
    {
      if Abs(lu[i][k]) > mag {
        pivot, mag := i, Abs(lu[i][k]);
      }
    }
  }

  /** Reduces row i by the pivot row k, storing the multiplier in place. */
  method ReduceRow(lu: array<Vec>, n: nat, k: nat, i: nat)
    requires lu.Length == n && Shape(lu[..], n, n) && k < i < n && lu[k][k] != 0.0
    modifies lu
    ensures lu[i] == EliminateRow(old(lu[i]), old(lu[k]), k)
    ensures forall r | 0 <= r < n && r != i :: lu[r] == old(lu[r])
  {
    ghost var row := lu[i];
    ghost var target := EliminateRow(row, lu[k], k);
    var factor := lu[i][k] / lu[k][k];
    lu[i] := lu[i][k := factor];
    for j := k + 1 to n
      invariant |lu[i]| == n
      invariant forall c | 0 <= c < j :: lu[i][c] == target[c]
      invariant forall c | j <= c < n :: lu[i][c] == row[c]
      invariant forall r | 0 <= r < n && r != i :: lu[r] == old(lu[r])
    {
      lu[i] := lu[i][j := lu[i][j] - factor * lu[k][j]];
    }
  }

  method ReduceBelow(lu: array<Vec>, n: nat, k: nat)
    requires lu.Length == n && Shape(lu[..], n, n) && k < n && lu[k][k] != 0.0
    modifies lu
    ensures lu[..] == EliminateBelow(old(lu[..]), n, k)
  {
    ghost var start := lu[..];
    ghost var target := EliminateBelow(start, n, k);
    for i := k + 1 to n
      invariant forall r | 0 <= r < i :: lu[r] == target[r]
      invariant forall r | i <= r < n :: lu[r] == start[r]
    {
      ReduceRow(lu, n, k, i);
    }
  }

  /** Decomposes a in place. The sign is zero exactly when a is singular; otherwise the
      factors are complete and the sign is the parity of the row permutation. */
  method DecomposeLU(a: Mat, n: nat) returns (lu: array<Vec>, perm: array<nat>, sign: real)
    requires Shape(a, n, n)
    ensures fresh(lu) && fresh(perm) && lu.Length == n && perm.Length == n
    ensures sign == 0.0 <==> Singular(a, n)
    ensures sign == 0.0 ==> Det(a, n) == 0.0
    ensures sign != 0.0 ==> Eliminated(a, n, lu[..], perm[..], sign, n)
  {
    hide Det, Factored, Pivoted, SignTracks, Singular, EliminateBelow;
    lu := new Vec[n](i requires 0 <= i < n => a[i]);
    perm := new nat[n](i => i);
    sign := 1.0;
    assert lu[..] == a;
    StartFactored(a, n, perm[..]);
    for k := 0 to n
      invariant Shape(lu[..], n, n) && |perm[..]| == n && sign != 0.0
      invariant Eliminated(a, n, lu[..], perm[..], sign, k)
    {
      var pivot, mag := FindPivot(lu, n, k);
      if mag == 0.0 {
        StuckStep(a, n, lu[..], perm[..], sign, k);
        sign := 0.0;
        return;
      }
      ghost var lu0, perm0 := lu[..], perm[..];
      if pivot != k {
        lu[k], lu[pivot] := lu[pivot], lu[k];
        perm[k], perm[pivot] := perm[pivot], perm[k];
        SwapStep(a, n, lu0, perm0, sign, k, pivot);
        assert lu[..] == Swap(lu0, k, pivot) && perm[..] == Swap(perm0, k, pivot);
        sign := -sign;
      }
      ghost var lu1 := lu[..];
      ReduceBelow(lu, n, k);
      EliminateStep(a, n, lu1, perm[..], sign, k);
    }
    FactoredNonsingular(a, n, lu[..], perm[..]);
  }

  lemma StuckStep(a: Mat, n: nat, lu: Mat, perm: seq<nat>, sign: real, k: nat)
    requires Eliminated(a, n, lu, perm, sign, k) && k < n
    requires forall i | k <= i < n :: Abs(lu[i][k]) <= 0.0
    ensures Singular(a, n) && Det(a, n) == 0.0
  {
    hide Det;
    StuckSingular(a, n, lu, perm, k);
    StuckDeterminant(a, n, lu, perm, sign, k);
  }

  lemma SwapStep(a: Mat, n: nat, lu: Mat, perm: seq<nat>, sign: real, k: nat, p: nat)
    requires Eliminated(a, n, lu, perm, sign, k) && k < p < n
    ensures Eliminated(a, n, Swap(lu, k, p), Swap(perm, k, p), -sign, k)
  {
    SwapKeepsFactored(a, n, lu, perm, k, p);
    SwapKeepsPivoted(n, lu, k, p);
    SwapFlipsSign(a, n, lu, perm, sign, k, p);
  }

  lemma EliminateStep(a: Mat, n: nat, lu: Mat, perm: seq<nat>, sign: real, k: nat)
    requires Eliminated(a, n, lu, perm, sign, k) && k < n && lu[k][k] != 0.0
    requires forall i | k <= i < n :: Abs(lu[i][k]) <= Abs(lu[k][k])
    ensures Eliminated(a, n, EliminateBelow(lu, n, k), perm, sign, k + 1)
  {
    hide Det;
    EliminateKeepsFactored(a, n, lu, perm, k);
    EliminateKeepsPivoted(n, lu, k);
    EliminateKeepsSign(a, n, lu, perm, sign, k);
  }

  /** Unit lower triangular factor read off the array. */
  function Lower(lu: Mat, n: nat): (l: Mat)
    requires Shape(lu, n, n)
    ensures Shape(l, n, n)
    ensures forall i, j | 0 <= i < n && 0 <= j < n ::
              l[i][j] == if j < i then lu[i][j] else if j == i then 1.0 else 0.0
  {
    seq(n, i requires 0 <= i < n =>
      seq(n, j requires 0 <= j < n => if j < i then lu[i][j] else if j == i then 1.0 else 0.0))
  }

  /** Row perm[i] of a is row i of the product of the two triangular factors. */
  lemma FactorsMultiply(a: Mat, n: nat, lu: Mat, perm: seq<nat>, i: nat)
    requires Factored(a, n, lu, perm, n) && i < n
    ensures Product(Lower(lu, n), Work(lu, n, n), n)[i] == a[perm[i]]
  {
    hide SumRange, Dot, Combine, Work, Lower;
    var l, u := Lower(lu, n), Work(lu, n, n);
    forall j | 0 <= j < n
      ensures Product(l, u, n)[i][j] == a[perm[i]][j]
    {
      var c := Column(u, n, j);
      CombineEntry(lu[i], u, i, n, j);
      DotSupport(l[i], c, 0, i + 1);
      SumRangeCongruent(l[i], c, lu[i], c, 0, i);
      SumRangeNext(l[i], c, 0, i);
    }
  }

  // ----- Substitution -----

  /** y solves the lower triangular system for the permuted right-hand side. */
  ghost predicate ForwardSolved(lu: Mat, n: nat, perm: seq<nat>, rhs: Vec, y: Vec, t: nat) {
    && Shape(lu, n, n) && |perm| == |rhs| == |y| == n && t <= n && IsPermutation(perm)
    && forall i | 0 <= i < t :: y[i] + SumRange(lu[i], y, 0, i) == rhs[perm[i]]
  }

  /** x solves the upper triangular system for y, from row t on. */
  ghost predicate BackSolved(lu: Mat, n: nat, y: Vec, x: Vec, t: nat) {
    && Shape(lu, n, n) && |x| == |y| == n
    && forall i | t <= i < n :: lu[i][i] * x[i] + SumRange(lu[i], x, i + 1, n) == y[i]
  }

  lemma UpperSolves(lu: Mat, n: nat, y: Vec, x: Vec)
    requires BackSolved(lu, n, y, x, 0)
    ensures MatVec(Work(lu, n, n), x) == y
  {
    hide Work;
    forall i | 0 <= i < n
      ensures MatVec(Work(lu, n, n), x)[i] == y[i]
    {
      UpperRowDot(lu, n, i, x);
    }
  }

  lemma SubstitutionSolves(a: Mat, n: nat, lu: Mat, perm: seq<nat>, rhs: Vec, y: Vec, x: Vec)
    requires Factored(a, n, lu, perm, n)
    requires ForwardSolved(lu, n, perm, rhs, y, n) && BackSolved(lu, n, y, x, 0)
    ensures MatVec(a, x) == rhs
  {
    hide Work, Rebuilt, Dot, SumRange;
    UpperSolves(lu, n, y, x);
    forall i | 0 <= i < n
      ensures Dot(a[perm[i]], x) == rhs[perm[i]]
    {
      hide IsPermutation;
      RowThroughFactors(a, n, lu, perm, n, i, x);
    }
    PermutedEqual(perm, MatVec(a, x), rhs);
  }

  lemma PermutedEqual(perm: seq<nat>, u: Vec, v: Vec)
    requires IsPermutation(perm) && |perm| == |u| == |v|
    requires forall i | 0 <= i < |perm| :: u[perm[i]] == v[perm[i]]
    ensures u == v
  {
    forall r: nat | r < |u|
      ensures u[r] == v[r]
    {
      assert r in perm;
      var i :| 0 <= i < |perm| && perm[i] == r;
    }
  }

  /** Overwrites the permuted right-hand side by the solution of the unit lower system. */
  method ForwardSubstitute(lu: array<Vec>, n: nat, b: array<real>, ghost perm: seq<nat>, ghost rhs: Vec)
    requires lu.Length == n && b.Length == n && ForwardSolved(lu[..], n, perm, rhs, b[..], 0)
    requires forall r | 0 <= r < n :: b[r] == rhs[perm[r]]
    modifies b
    ensures ForwardSolved(lu[..], n, perm, rhs, b[..], n)
  {
    ghost var m := lu[..];
    for i := 0 to n
      invariant ForwardSolved(m, n, perm, rhs, b[..], i)
      invariant forall r | i <= r < n :: b[r] == rhs[perm[r]]
    {
      ghost var b0 := b[..];
      var s := b[i];
      for j := 0 to i
        invariant b[..] == b0 && s == b[i] - SumRange(m[i], b0, 0, j)
      {
        s := s - lu[i][j] * b[j];
      }
      b[i] := s;
      ForwardStep(m, n, perm, rhs, b0, i, s);
    }
  }

  /** Overwrites y by the solution of the upper system, last unknown first. */
  method BackSubstitute(lu: array<Vec>, n: nat, b: array<real>)
    requires lu.Length == n && b.Length == n && Pivoted(n, lu[..], n)
    modifies b
    ensures BackSolved(lu[..], n, old(b[..]), b[..], 0)
  {
    ghost var m, y := lu[..], b[..];
    StartBack(m, n, y);
    PivotsNonzero(n, m);
    hide Pivoted, BackSolved, SumRange;
    var i := n;
    while i > 0
      invariant 0 <= i <= n && BackSolved(m, n, y, b[..], i)
      invariant forall r | 0 <= r < i :: b[r] == y[r]
    {
      i := i - 1;
      ghost var b0 := b[..];
      var s := b[i];
      SumRangeNone(m[i], b0, i + 1);
      for j := i + 1 to n
        invariant b[..] == b0 && s == b[i] - SumRange(m[i], b0, i + 1, j)
      {
        SumRangeNext(m[i], b0, i + 1, j);
        s := s - lu[i][j] * b[j];
      }
      b[i] := s / lu[i][i];
      BackStep(m, n, y, b0, i, s);
    }
  }

  method SolveLU(lu: array<Vec>, perm: array<nat>, n: nat, rhs: Vec, ghost a: Mat) returns (b: array<real>)
    requires lu.Length == n && perm.Length == n && |rhs| == n
    requires Factored(a, n, lu[..], perm[..], n) && Pivoted(n, lu[..], n)
    ensures fresh(b) && b.Length == n && MatVec(a, b[..]) == rhs
  {
    hide Factored, Pivoted, ForwardSolved, BackSolved;
    var p := perm[..];
    FactoredShapes(a, n, lu[..], p);
    b := new real[n](i requires 0 <= i < n => rhs[p[i]]);
    StartForward(lu[..], n, p, rhs, b[..]);
    ForwardSubstitute(lu, n, b, p, rhs);
    ghost var y := b[..];
    BackSubstitute(lu, n, b);
    SubstitutionSolves(a, n, lu[..], p, rhs, y, b[..]);
  }

  lemma FactoredShapes(a: Mat, n: nat, lu: Mat, perm: seq<nat>)
    requires Factored(a, n, lu, perm, n)
    ensures Shape(lu, n, n) && |perm| == n && IsPermutation(perm)
  {
  }

  lemma StartForward(lu: Mat, n: nat, perm: seq<nat>, rhs: Vec, y: Vec)
    requires Shape(lu, n, n) && |perm| == |rhs| == |y| == n && IsPermutation(perm)
    ensures ForwardSolved(lu, n, perm, rhs, y, 0)
  {
  }

  lemma StartBack(lu: Mat, n: nat, y: Vec)
    requires Shape(lu, n, n) && |y| == n
    ensures BackSolved(lu, n, y, y, n)
  {
  }

  lemma PivotsNonzero(n: nat, lu: Mat)
    requires Pivoted(n, lu, n)
    ensures Shape(lu, n, n) && forall r | 0 <= r < n :: lu[r][r] != 0.0
  {
  }

  lemma ForwardStep(lu: Mat, n: nat, perm: seq<nat>, rhs: Vec, y: Vec, t: nat, s: real)
    requires ForwardSolved(lu, n, perm, rhs, y, t) && t < n
    requires y[t] == rhs[perm[t]] && s == y[t] - SumRange(lu[t], y, 0, t)
    ensures ForwardSolved(lu, n, perm, rhs, y[t := s], t + 1)
  {
    forall i | 0 <= i <= t
      ensures SumRange(lu[i], y[t := s], 0, i) == SumRange(lu[i], y, 0, i)
    {
      SumRangeCongruent(lu[i], y[t := s], lu[i], y, 0, i);
    }
  }

  lemma BackStep(lu: Mat, n: nat, y: Vec, x: Vec, t: nat, s: real)
    requires BackSolved(lu, n, y, x, t + 1) && t < n && lu[t][t] != 0.0
    requires s == y[t] - SumRange(lu[t], x, t + 1, n)
    ensures BackSolved(lu, n, y, x[t := s / lu[t][t]], t)
  {
    var x' := x[t := s / lu[t][t]];
    DivideBack(s, lu[t][t]);
    forall i | t <= i < n
      ensures SumRange(lu[i], x', i + 1, n) == SumRange(lu[i], x, i + 1, n)
    {
      SumRangeCongruent(lu[i], x', lu[i], x, i + 1, n);
    }
  }

  // ----- Uniqueness -----

  /** With a trivial kernel, equal images come from equal vectors. */
  lemma NonsingularInjective(a: Mat, n: nat, x: Vec, y: Vec)
    requires Shape(a, n, n) && |x| == |y| == n && !Singular(a, n)
    requires MatVec(a, x) == MatVec(a, y)
    ensures x == y
  {
    var z := Add(x, Scale(-1.0, y));
    MatVecAdd(a, n, x, Scale(-1.0, y));
    MatVecScale(a, n, -1.0, y);
    forall i | 0 <= i < n
      ensures MatVec(a, z)[i] == 0.0
    {
    }
    assert MatVec(a, z) == Zeros(n);
    assert !IsKernelVector(a, n, z);
    forall i | 0 <= i < n
      ensures x[i] == y[i]
    {
      assert z[i] == 0.0;
      assert Scale(-1.0, y)[i] == -y[i];
    }
  }

  // ----- Exported operations -----

  method Determinant(m: Mat) returns (r: Result<real, MatrixError>)
    ensures r.Success? <==> WellFormedSquare(m)
    ensures r.Success? ==> r.value == Det(m, |m|)
    ensures r.Success? ==> (r.value == 0.0 <==> Singular(m, |m|))
    ensures r.Failure? ==> if WellFormed(m) then r.error == NotSquare else Diagnoses(m, r.error)
  {
    hide Det, Singular, Work, DiagonalFrom, Factored;
    var bad := EnsureWellFormed(m);
    if bad.Some? { return Failure(bad.value); }
    var n := |m|;
    if |m[0]| != n { return Failure(NotSquare); }
    var lu, perm, sign := DecomposeLU(m, n);
    if sign == 0.0 { return Success(0.0); }
    ghost var f := lu[..];
    ghost var u := Work(f, n, n);
    var det := sign;
    for i := 0 to n
      invariant lu[..] == f
      invariant det * DiagonalFrom(u, n, i) == sign * DiagonalFrom(u, n, 0)
      invariant det != 0.0
    {
      NextDiagonal(f, n, i, det);
      det := det * lu[i][i];
    }
    DetTriangular(u, n);
    DiagonalEnd(u, n);
    return Success(det);
  }

  lemma DiagonalEnd(u: Mat, n: nat)
    requires Shape(u, n, n)
    ensures DiagonalFrom(u, n, n) == 1.0
  {
  }

  lemma NextDiagonal(lu: Mat, n: nat, i: nat, det: real)
    requires Pivoted(n, lu, n) && i < n && det != 0.0
    ensures var u := Work(lu, n, n);
            det * DiagonalFrom(u, n, i) == (det * lu[i][i]) * DiagonalFrom(u, n, i + 1)
    ensures det * lu[i][i] != 0.0
  {
    var u := Work(lu, n, n);
    var d := DiagonalFrom(u, n, i + 1);
    assert DiagonalFrom(u, n, i) == lu[i][i] * d;
    assert det * (lu[i][i] * d) == (det * lu[i][i]) * d;
  }

  method Solve(m: Mat, rhs: Vec) returns (r: Result<Vec, MatrixError>)
    ensures r.Success? <==> WellFormedSquare(m) && |rhs| == |m| && !Singular(m, |m|)
    ensures r.Success? ==> |r.value| == |m| && MatVec(m, r.value) == rhs
    ensures r.Success? ==> forall x: Vec | |x| == |m| && MatVec(m, x) == rhs :: x == r.value
    ensures r.Failure? ==>
              if !WellFormed(m) then Diagnoses(m, r.error)
              else r.error == if |m[0]| != |m| then NotSquare
                              else if |rhs| != |m| then RightHandSideLength else SingularMatrix
  {
    hide Det, Singular;
    var bad := EnsureWellFormed(m);
    if bad.Some? { return Failure(bad.value); }
    var n := |m|;
    if |m[0]| != n { return Failure(NotSquare); }
    if |rhs| != n { return Failure(RightHandSideLength); }
    var lu, perm, sign := DecomposeLU(m, n);
    if sign == 0.0 { return Failure(SingularMatrix); }
    var b := SolveLU(lu, perm, n, rhs, m);
    var x := b[..];
    forall y: Vec | |y| == n && MatVec(m, y) == rhs
      ensures y == x
    {
      NonsingularInjective(m, n, y, x);
    }
    return Success(x);
  }

  method ProductRow(u: Vec, b: Mat, cols: nat) returns (row: Vec)
    requires |u| == |b| && Shape(b, |b|, cols)
    ensures |row| == cols && forall j | 0 <= j < cols :: row[j] == Dot(u, Column(b, cols, j))
  {
    row := [];
    for j := 0 to cols
      invariant |row| == j && forall c | 0 <= c < j :: row[c] == Dot(u, Column(b, cols, c))
    {
      var acc := 0.0;
      for k := 0 to |u|
        invariant acc == SumRange(u, Column(b, cols, j), 0, k)
      {
        acc := acc + u[k] * b[k][j];
      }
      row := row + [acc];
    }
  }

  method Multiply(a: Mat, b: Mat) returns (r: Result<Mat, MatrixError>)
    ensures r.Success? <==> WellFormed(a) && WellFormed(b) && |a[0]| == |b|
    ensures r.Success? ==> r.value == Product(a, b, |b[0]|)
    ensures r.Failure? ==> if WellFormed(a) && WellFormed(b) then r.error == InnerMismatch
                           else Diagnoses(if WellFormed(a) then b else a, r.error)
  {
    var bad := EnsureWellFormed(a);
    if bad.Some? { return Failure(bad.value); }
    bad := EnsureWellFormed(b);
    if bad.Some? { return Failure(bad.value); }
    var inner, cols := |a[0]|, |b[0]|;
    if inner != |b| { return Failure(InnerMismatch); }
    ghost var target := Product(a, b, cols);
    var out: Mat := [];
    for i := 0 to |a|
      invariant |out| == i && forall r | 0 <= r < i :: out[r] == target[r]
    {
      var row := ProductRow(a[i], b, cols);
      out := out + [row];
    }
    return Success(out);
  }

  // ----- Inverse -----

  /** Every column of x is the preimage of the matching unit vector. */
  ghost predicate ColumnsInvert(a: Mat, x: Mat, n: nat, t: nat) {
    && Shape(a, n, n) && Shape(x, n, n) && t <= n
    && forall c | 0 <= c < t :: MatVec(a, Column(x, n, c)) == Unit(n, c)
  }

  lemma RightInverse(a: Mat, x: Mat, n: nat)
    requires ColumnsInvert(a, x, n, n)
    ensures Product(a, x, n) == Identity(n)
  {
    var p := Product(a, x, n);
    forall i | 0 <= i < n
      ensures p[i] == Identity(n)[i]
    {
      forall j | 0 <= j < n
        ensures p[i][j] == Identity(n)[i][j]
      {
        assert MatVec(a, Column(x, n, j))[i] == Unit(n, j)[i];
      }
    }
  }

  /** (a x) v = a (x v): the combination of columns of x is sent to the same combination
      of unit vectors. */
  ghost function ColumnSum(x: Mat, n: nat, v: Vec, t: nat): (r: Vec)
    requires Shape(x, n, n) && |v| == n && t <= n
    ensures |r| == n
  {
    if t == 0 then Zeros(n) else Add(ColumnSum(x, n, v, t - 1), Scale(v[t - 1], Column(x, n, t - 1)))
  }

  lemma {:induction false} ColumnSumEntry(x: Mat, n: nat, v: Vec, t: nat, i: nat)
    requires Shape(x, n, n) && |v| == n && t <= n && i < n
    ensures ColumnSum(x, n, v, t)[i] == SumRange(x[i], v, 0, t)
  {
    if t > 0 {
      ColumnSumEntry(x, n, v, t - 1, i);
    }
  }

  lemma MatVecIsColumnSum(x: Mat, n: nat, v: Vec)
    requires Shape(x, n, n) && |v| == n
    ensures MatVec(x, v) == ColumnSum(x, n, v, n)
  {
    forall i | 0 <= i < n
      ensures MatVec(x, v)[i] == ColumnSum(x, n, v, n)[i]
    {
      ColumnSumEntry(x, n, v, n, i);
    }
  }

  lemma {:induction false} ImageOfColumnSum(a: Mat, x: Mat, n: nat, v: Vec, t: nat)
    requires ColumnsInvert(a, x, n, n) && |v| == n && t <= n
    ensures forall i | 0 <= i < n :: MatVec(a, ColumnSum(x, n, v, t))[i] == if i < t then v[i] else 0.0
  {
    if t == 0 {
      forall i | 0 <= i < n
        ensures MatVec(a, Zeros(n))[i] == 0.0
      {
        SumRangeZero(a[i], Zeros(n), 0, n);
      }
    } else {
      hide ColumnSum, Dot, Add, Scale, Unit, MatVec;
      ImageOfColumnSum(a, x, n, v, t - 1);
      var c, s := Column(x, n, t - 1), ColumnSum(x, n, v, t - 1);
      ColumnSumStep(x, n, v, t);
      MatVecAdd(a, n, s, Scale(v[t - 1], c));
      MatVecScale(a, n, v[t - 1], c);
      OneMoreUnit(MatVec(a, s), v, t);
    }
  }

  lemma OneMoreUnit(u: Vec, v: Vec, t: nat)
    requires |u| == |v| && 0 < t <= |v|
    requires forall i | 0 <= i < |u| :: u[i] == if i < t - 1 then v[i] else 0.0
    ensures forall i | 0 <= i < |u| :: Add(u, Scale(v[t - 1], Unit(|v|, t - 1)))[i] == if i < t then v[i] else 0.0
  {
    var e := Scale(v[t - 1], Unit(|v|, t - 1));
    forall i | 0 <= i < |u|
      ensures e[i] == if i == t - 1 then v[i] else 0.0
    {
    }
  }

  lemma ColumnSumStep(x: Mat, n: nat, v: Vec, t: nat)
    requires Shape(x, n, n) && |v| == n && 0 < t <= n
    ensures ColumnSum(x, n, v, t) == Add(ColumnSum(x, n, v, t - 1), Scale(v[t - 1], Column(x, n, t - 1)))
  {
  }

  /** A right inverse of a matrix with trivial kernel is also a left inverse. */
  lemma LeftInverse(a: Mat, x: Mat, n: nat)
    requires ColumnsInvert(a, x, n, n) && !Singular(a, n)
    ensures Product(x, a, n) == Identity(n)
  {
    hide Singular, ColumnSum, Dot;
    forall i | 0 <= i < n
      ensures Product(x, a, n)[i] == Identity(n)[i]
    {
      forall j | 0 <= j < n
        ensures Product(x, a, n)[i][j] == Identity(n)[i][j]
      {
        LeftInverseColumn(a, x, n, j);
        assert MatVec(x, Column(a, n, j))[i] == Unit(n, j)[i];
      }
    }
  }

  lemma LeftInverseColumn(a: Mat, x: Mat, n: nat, j: nat)
    requires ColumnsInvert(a, x, n, n) && !Singular(a, n) && j < n
    ensures MatVec(x, Column(a, n, j)) == Unit(n, j)
  {
    hide Singular;
    var v := Column(a, n, j);
    MatVecIsColumnSum(x, n, v);
    ImageOfColumnSum(a, x, n, v, n);
    forall i | 0 <= i < n
      ensures MatVec(a, Unit(n, j))[i] == v[i]
    {
      DotUnit(a[i], j);
    }
    assert MatVec(a, Unit(n, j)) == v == MatVec(a, MatVec(x, v));
    NonsingularInjective(a, n, MatVec(x, v), Unit(n, j));
  }

  method StoreColumn(out: array<Vec>, n: nat, col: nat, b: array<real>)
    requires out.Length == n && b.Length == n && Shape(out[..], n, n) && col < n
    modifies out
    ensures forall i | 0 <= i < n :: out[i] == old(out[i])[col := b[i]]
  {
    for row := 0 to n
      invariant forall i | 0 <= i < n :: out[i] == if i < row then old(out[i])[col := b[i]] else old(out[i])
    {
      out[row] := out[row][col := b[row]];
    }
  }

  method Inverse(m: Mat) returns (r: Result<Mat, MatrixError>)
    ensures r.Success? <==> WellFormedSquare(m) && !Singular(m, |m|)
    ensures r.Success? ==> Shape(r.value, |m|, |m|)
    ensures r.Success? ==> Product(m, r.value, |m|) == Identity(|m|) == Product(r.value, m, |m|)
    ensures r.Failure? ==>
              if !WellFormed(m) then Diagnoses(m, r.error)
              else r.error == if |m[0]| != |m| then NotSquare else SingularMatrix
  {
    hide Det, Singular, Factored, Pivoted;
    var bad := EnsureWellFormed(m);
    if bad.Some? { return Failure(bad.value); }
    var n := |m|;
    if |m[0]| != n { return Failure(NotSquare); }
    var lu, perm, sign := DecomposeLU(m, n);
    if sign == 0.0 { return Failure(SingularMatrix); }
    ghost var f, p := lu[..], perm[..];
    var out := new Vec[n](i => Zeros(n));
    for col := 0 to n
      invariant lu[..] == f && perm[..] == p
      invariant ColumnsInvert(m, out[..], n, col)
    {
      ghost var before := out[..];
      var e := Zeros(n)[col := 1.0];
      assert e == Unit(n, col);
      var b := SolveLU(lu, perm, n, e, m);
      StoreColumn(out, n, col, b);
      NextColumn(m, before, out[..], n, col, b[..]);
    }
    RightInverse(m, out[..], n);
    LeftInverse(m, out[..], n);
    return Success(out[..]);
  }

  lemma NextColumn(a: Mat, x: Mat, x': Mat, n: nat, col: nat, b: Vec)
    requires ColumnsInvert(a, x, n, col) && col < n && |b| == n && |x'| == n
    requires forall i | 0 <= i < n :: x'[i] == x[i][col := b[i]]
    requires MatVec(a, b) == Unit(n, col)
    ensures ColumnsInvert(a, x', n, col + 1)
  {
    assert Column(x', n, col) == b;
    forall c | 0 <= c < col
      ensures Column(x', n, c) == Column(x, n, c)
    {
    }
  }

  // ----- Singular matrices are those of determinant zero -----

  /** Every square matrix can be eliminated, or gets stuck: the loop of DecomposeLU as an
      existence statement. */
  lemma {:induction false} EliminationDecides(a: Mat, n: nat, lu: Mat, perm: seq<nat>, sign: real, k: nat)
    requires Eliminated(a, n, lu, perm, sign, k) && sign != 0.0
    ensures Det(a, n) == 0.0 <==> Singular(a, n)
    decreases n - k
  {
    hide Det, Singular, Factored, Pivoted, SignTracks, EliminateBelow;
    EliminatedShapes(a, n, lu, perm, sign, k);
    if k == n {
      FactoredNonsingular(a, n, lu, perm);
      FinishedDeterminant(a, n, lu, perm, sign);
    } else {
      var p := LargestBelow(lu, n, k, n);
      if Abs(lu[p][k]) <= 0.0 {
        StuckStep(a, n, lu, perm, sign, k);
      } else if p == k {
        EliminateStep(a, n, lu, perm, sign, k);
        EliminationDecides(a, n, EliminateBelow(lu, n, k), perm, sign, k + 1);
      } else {
        SwapStep(a, n, lu, perm, sign, k, p);
        var lu' := Swap(lu, k, p);
        EliminateStep(a, n, lu', Swap(perm, k, p), -sign, k);
        EliminationDecides(a, n, EliminateBelow(lu', n, k), Swap(perm, k, p), -sign, k + 1);
      }
    }
  }

  lemma EliminatedShapes(a: Mat, n: nat, lu: Mat, perm: seq<nat>, sign: real, k: nat)
    requires Eliminated(a, n, lu, perm, sign, k)
    ensures Shape(lu, n, n) && |perm| == n && k <= n
  {
  }

  lemma {:induction false} LargestBelow(lu: Mat, n: nat, k: nat, t: nat) returns (p: nat)
    requires Shape(lu, n, n) && k < t <= n
    ensures k <= p < t && forall i | k <= i < t :: Abs(lu[i][k]) <= Abs(lu[p][k])
  {
    if t == k + 1 {
      p := k;
    } else {
      p := LargestBelow(lu, n, k, t - 1);
      if Abs(lu[t - 1][k]) > Abs(lu[p][k]) { p := t - 1; }
    }
  }

  lemma {:induction false} DiagonalNonzero(lu: Mat, n: nat, i: nat)
    requires Pivoted(n, lu, n) && i <= n
    ensures DiagonalFrom(Work(lu, n, n), n, i) != 0.0
    decreases n - i
  {
    if i < n {
      DiagonalNonzero(lu, n, i + 1);
    }
  }

  lemma FinishedDeterminant(a: Mat, n: nat, lu: Mat, perm: seq<nat>, sign: real)
    requires Eliminated(a, n, lu, perm, sign, n) && sign != 0.0
    ensures Det(a, n) == sign * DiagonalFrom(Work(lu, n, n), n, 0) && Det(a, n) != 0.0
  {
    hide Det, Factored, Work;
    DetTriangular(Work(lu, n, n), n);
    DiagonalNonzero(lu, n, 0);
  }

  /** For every square matrix: the determinant vanishes exactly when some non-zero vector
      is sent to zero. */
  lemma DetZeroIffSingular(a: Mat, n: nat)
    requires Shape(a, n, n)
    ensures Det(a, n) == 0.0 <==> Singular(a, n)
  {
    hide Det, Singular;
    var perm := seq(n, i => i);
    StartFactored(a, n, perm);
    EliminationDecides(a, n, a, perm, 1.0, 0);
  }
}
