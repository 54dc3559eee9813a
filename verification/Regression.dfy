/** Mean, Pearson correlation and ordinary least squares over exact reals. */
module Regression {
  import opened Arithmetic
  import opened Wrappers

  datatype StatsError = EmptySeries | LengthMismatch | TooFewPoints | NoVarianceInX | CorrelationUndefined

  datatype Fit = Fit(slope: real, intercept: real, r: real, rSquared: real, n: nat)

  // ----- Sums -----

  /** The first k values added up. */
  function SumTo(xs: seq<real>, k: nat): real
    requires k <= |xs|
  {
    if k == 0 then 0.0 else SumTo(xs, k - 1) + xs[k - 1]
  }

  function MeanOf(xs: seq<real>): real
    requires |xs| > 0
  {
    SumTo(xs, |xs|) / |xs| as real
  }

  /** The first k products of deviations from mx and my. */
  function CrossTo(xs: seq<real>, ys: seq<real>, mx: real, my: real, k: nat): real
    requires k <= |xs| == |ys|
  {
    if k == 0 then 0.0 else CrossTo(xs, ys, mx, my, k - 1) + (xs[k - 1] - mx) * (ys[k - 1] - my)
  }

  /** The sum of products of deviations from the two means. */
  function Cross(xs: seq<real>, ys: seq<real>): real
    requires |xs| == |ys| > 0
  {
    CrossTo(xs, ys, MeanOf(xs), MeanOf(ys), |xs|)
  }

  function Residual(xs: seq<real>, ys: seq<real>, slope: real, intercept: real, i: nat): real
    requires i < |xs| == |ys|
  {
    ys[i] - slope * xs[i] - intercept
  }

  function ResidualsTo(xs: seq<real>, ys: seq<real>, slope: real, intercept: real, k: nat): real
    requires k <= |xs| == |ys|
  {
    if k == 0 then 0.0
    else ResidualsTo(xs, ys, slope, intercept, k - 1) + Residual(xs, ys, slope, intercept, k - 1)
  }

  /** Residuals weighted by x. */
  function MomentTo(xs: seq<real>, ys: seq<real>, slope: real, intercept: real, k: nat): real
    requires k <= |xs| == |ys|
  {
    if k == 0 then 0.0
    else MomentTo(xs, ys, slope, intercept, k - 1) + xs[k - 1] * Residual(xs, ys, slope, intercept, k - 1)
  }

  function SquaredErrorTo(xs: seq<real>, ys: seq<real>, slope: real, intercept: real, k: nat): (e: real)
    requires k <= |xs| == |ys|
    ensures e >= 0.0
  {
    if k == 0 then 0.0
    else
      var r := Residual(xs, ys, slope, intercept, k - 1);
      SquaredErrorTo(xs, ys, slope, intercept, k - 1) + r * r
  }

  /** The sum of squared residuals of the line slope * x + intercept. */
  function SquaredError(xs: seq<real>, ys: seq<real>, slope: real, intercept: real): real
    requires |xs| == |ys|
  {
    SquaredErrorTo(xs, ys, slope, intercept, |xs|)
  }

  ghost predicate Constant(xs: seq<real>) {
    forall i, j | 0 <= i < |xs| && 0 <= j < |xs| :: xs[i] == xs[j]
  }

  // ----- Operations -----

  method Mean(data: seq<real>) returns (r: Result<real, StatsError>)
    ensures r.Failure? <==> |data| == 0
    ensures r.Failure? ==> r.error == EmptySeries
    ensures r.Success? ==> r.value * |data| as real == SumTo(data, |data|) && r.value == MeanOf(data)
  {
    if |data| == 0 { return Failure(EmptySeries); }
    var acc := 0.0;
    for i := 0 to |data|
      invariant acc == SumTo(data, i)
    {
      acc := acc + data[i];
    }
    return Success(acc / |data| as real);
  }

  /** What the square root promises. */
  ghost predicate SquareRoot(sqrt: real -> real) {
    forall v | v >= 0.0 :: sqrt(v) >= 0.0 && sqrt(v) * sqrt(v) == v
  }

  function SeriesError(xs: seq<real>, ys: seq<real>): (r: Option<StatsError>)
    ensures r.None? <==> |xs| == |ys| >= 2
    ensures r == Some(EmptySeries) <==> |xs| == 0 || |ys| == 0
    ensures r == Some(LengthMismatch) <==> 0 < |xs| < |ys| || 0 < |ys| < |xs|
  {
    if |xs| == 0 || |ys| == 0 then Some(EmptySeries)
    else if |xs| != |ys| then Some(LengthMismatch)
    else if |xs| < 2 then Some(TooFewPoints)
    else None
  }

  /** cov / sqrt(va * vb), undefined exactly when one series is constant. */
  method Correlation(a: seq<real>, b: seq<real>, sqrt: real -> real) returns (r: Result<real, StatsError>)
    requires SquareRoot(sqrt)
    ensures r.Success? <==> |a| == |b| >= 2 && !Constant(a) && !Constant(b)
    ensures SeriesError(a, b).Some? ==> r == Failure(SeriesError(a, b).value)
    ensures SeriesError(a, b).None? && r.Failure? ==> r.error == CorrelationUndefined
    ensures r.Success? ==> IsCorrelation(a, b, r.value)
  {
    hide CrossTo, MeanOf, SquareRoot, Constant;
    if |a| == 0 || |b| == 0 { return Failure(EmptySeries); }
    if |a| != |b| { return Failure(LengthMismatch); }
    if |a| < 2 { return Failure(TooFewPoints); }
    var am := Mean(a);
    var bm := Mean(b);
    var ma, mb := am.value, bm.value;
    var cov, va, vb := 0.0, 0.0, 0.0;
    CrossStart(a, b, ma, mb);
    CrossStart(a, a, ma, ma);
    CrossStart(b, b, mb, mb);
    for i := 0 to |a|
      invariant cov == CrossTo(a, b, ma, mb, i)
      invariant va == CrossTo(a, a, ma, ma, i)
      invariant vb == CrossTo(b, b, mb, mb, i)
    {
      var da, db := a[i] - ma, b[i] - mb;
      CrossStep(a, b, ma, mb, i, da, db);
      CrossStep(a, a, ma, ma, i, da, da);
      CrossStep(b, b, mb, mb, i, db, db);
      cov := cov + da * db;
      va := va + da * da;
      vb := vb + db * db;
    }
    VarianceZeroIff(a);
    VarianceZeroIff(b);
    var denom := sqrt(va * vb);
    RootOfProduct(sqrt, va, vb, denom);
    if denom == 0.0 { return Failure(CorrelationUndefined); }
    QuotientSquared(cov, denom, va * vb, cov / denom);
    return Success(cov / denom);
  }

  /** r has the sign of the covariance, and its square is the share the covariance takes of the variances. */
  ghost predicate IsCorrelation(a: seq<real>, b: seq<real>, r: real) {
    && |a| == |b| > 0
    && Cross(a, a) > 0.0 && Cross(b, b) > 0.0
    && r * r * (Cross(a, a) * Cross(b, b)) == Cross(a, b) * Cross(a, b)
    && (r > 0.0 <==> Cross(a, b) > 0.0) && (r < 0.0 <==> Cross(a, b) < 0.0)
  }

  method LinearRegression(x: seq<real>, y: seq<real>, sqrt: real -> real) returns (r: Result<Fit, StatsError>)
    requires SquareRoot(sqrt)
    ensures r.Success? <==> |x| == |y| >= 2 && !Constant(x) && !Constant(y)
    ensures SeriesError(x, y).Some? ==> r == Failure(SeriesError(x, y).value)
    ensures SeriesError(x, y).None? && r.Failure? ==>
              r.error == if Constant(x) then NoVarianceInX else CorrelationUndefined
    ensures r.Success? ==> IsFit(x, y, r.value)
  {
    hide CrossTo, MeanOf, SquareRoot, Constant, IsCorrelation;
    if |x| == 0 || |y| == 0 { return Failure(EmptySeries); }
    if |x| != |y| { return Failure(LengthMismatch); }
    if |x| < 2 { return Failure(TooFewPoints); }
    var xm := Mean(x);
    var ym := Mean(y);
    var mx, my := xm.value, ym.value;
    var num, den := 0.0, 0.0;
    CrossStart(x, y, mx, my);
    CrossStart(x, x, mx, mx);
    for i := 0 to |x|
      invariant num == CrossTo(x, y, mx, my, i)
      invariant den == CrossTo(x, x, mx, mx, i)
    {
      var dx := x[i] - mx;
      CrossStep(x, y, mx, my, i, dx, y[i] - my);
      CrossStep(x, x, mx, mx, i, dx, dx);
      num := num + dx * (y[i] - my);
      den := den + dx * dx;
    }
    VarianceZeroIff(x);
    if den == 0.0 { return Failure(NoVarianceInX); }
    var slope := num / den;
    var intercept := my - slope * mx;
    var c := Correlation(x, y, sqrt);
    if c.Failure? { return Failure(c.error); }
    return Success(Fit(slope, intercept, c.value, c.value * c.value, |x|));
  }

  /** The normal equations solved, with the correlation beside them. */
  ghost predicate IsFit(x: seq<real>, y: seq<real>, f: Fit) {
    && |x| == |y| == f.n > 0
    && IsCorrelation(x, y, f.r) && f.rSquared == f.r * f.r
    && NormalEquations(x, y, f.slope, f.intercept)
  }

  ghost predicate NormalEquations(x: seq<real>, y: seq<real>, slope: real, intercept: real) {
    && |x| == |y| > 0
    && Cross(x, x) > 0.0
    && slope * Cross(x, x) == Cross(x, y)
    && intercept == MeanOf(y) - slope * MeanOf(x)
  }

  // ----- Variance -----

  lemma CrossStart(xs: seq<real>, ys: seq<real>, mx: real, my: real)
    requires |xs| == |ys|
    ensures CrossTo(xs, ys, mx, my, 0) == 0.0
  {
  }

  lemma CrossStep(xs: seq<real>, ys: seq<real>, mx: real, my: real, k: nat, dx: real, dy: real)
    requires k < |xs| == |ys| && dx == xs[k] - mx && dy == ys[k] - my
    ensures CrossTo(xs, ys, mx, my, k + 1) == CrossTo(xs, ys, mx, my, k) + dx * dy
  {
    SameProduct(xs[k] - mx, dx, ys[k] - my, dy);
  }

  lemma {:induction false} SquaresZeroIff(xs: seq<real>, m: real, k: nat)
    requires k <= |xs|
    ensures CrossTo(xs, xs, m, m, k) >= 0.0
    ensures CrossTo(xs, xs, m, m, k) == 0.0 <==> forall i | 0 <= i < k :: xs[i] == m
  {
    if k > 0 {
      SquaresZeroIff(xs, m, k - 1);
      SquareNonnegative(xs[k - 1] - m);
    }
  }

  lemma {:induction false} SumOfEqual(xs: seq<real>, v: real, k: nat)
    requires k <= |xs| && forall i | 0 <= i < k :: xs[i] == v
    ensures SumTo(xs, k) == v * k as real
  {
    if k > 0 {
      SumOfEqual(xs, v, k - 1);
      assert v * k as real == v * (k - 1) as real + v;
    }
  }

  /** The variance is zero exactly on constant series. */
  lemma VarianceZeroIff(xs: seq<real>)
    requires |xs| > 0
    ensures Cross(xs, xs) >= 0.0
    ensures Cross(xs, xs) == 0.0 <==> Constant(xs)
  {
    SquaresZeroIff(xs, MeanOf(xs), |xs|);
    if Constant(xs) {
      SumOfEqual(xs, xs[0], |xs|);
    }
  }

  lemma RootOfProduct(sqrt: real -> real, a: real, b: real, s: real)
    requires SquareRoot(sqrt) && a >= 0.0 && b >= 0.0 && s == sqrt(a * b)
    ensures s >= 0.0 && s * s == a * b && (s == 0.0 <==> a == 0.0 || b == 0.0)
  {
    ProductNonnegative(a, b);
    SameProduct(s, sqrt(a * b), s, sqrt(a * b));
    SquareNonnegative(s);
  }

  lemma QuotientSquared(c: real, d: real, p: real, q: real)
    requires d > 0.0 && d * d == p && q == c / d
    ensures q * q * p == c * c && (q > 0.0 <==> c > 0.0) && (q < 0.0 <==> c < 0.0)
  {
    Regroup(q, d, p, c);
  }

  lemma Regroup(q: real, d: real, p: real, c: real)
    requires d > 0.0 && d * d == p && q * d == c
    ensures q * q * p == c * c && (q > 0.0 <==> c > 0.0) && (q < 0.0 <==> c < 0.0)
  {
    SameProduct(q * d, c, q * d, c);
    SameProduct(q * q, q * q, d * d, p);
    assert (q * d) * (q * d) == (q * q) * (d * d);
    SignOfQuotient(q, d, c);
  }

  lemma SignOfQuotient(q: real, d: real, c: real)
    requires d > 0.0 && q * d == c
    ensures (q > 0.0 <==> c > 0.0) && (q < 0.0 <==> c < 0.0)
  {
  }

  // ----- The error of any line -----

  /** Deviations from the mean add up to zero. */
  lemma DeviationsCancel(xs: seq<real>)
    requires |xs| > 0
    ensures DeviationTo(xs, MeanOf(xs), |xs|) == 0.0
  {
  }

  /** One squared residual in terms of deviations. */
  lemma ResidualSquared(s: real, k: real, dx: real, dy: real, r: real)
    requires r == dy - s * dx + k
    ensures r * r == Quadratic(s, k, 1.0, dx * dx, dx * dy, dy * dy, dx, dy)
  {
    SameProduct(r, dy - s * dx + k, r, dy - s * dx + k);
    Expand(dx, dy, s, k);
  }

  /** A residual, from the deviations and the height k of the point of means above the line. */
  lemma ResidualFromMeans(x: real, y: real, mx: real, my: real, s: real, c: real, k: real)
    requires k == my - s * mx - c
    ensures y - s * x - c == (y - my) - s * (x - mx) + k
  {
  }

  lemma Expand(dx: real, dy: real, s: real, k: real)
    ensures (dy - s * dx + k) * (dy - s * dx + k)
         == dy * dy - 2.0 * s * (dx * dy) + s * s * (dx * dx) + k * k + 2.0 * k * dy - 2.0 * k * s * dx
  {
  }

  /** The squared error of a line, in terms of sums that do not depend on the line. */
  lemma {:induction false} ErrorExpanded(xs: seq<real>, ys: seq<real>, s: real, c: real, k: real, n: nat)
    requires n <= |xs| == |ys| && |xs| > 0 && k == MeanOf(ys) - s * MeanOf(xs) - c
    ensures SquaredErrorTo(xs, ys, s, c, n)
         == Quadratic(s, k, n as real, CrossTo(xs, xs, MeanOf(xs), MeanOf(xs), n),
                      CrossTo(xs, ys, MeanOf(xs), MeanOf(ys), n), CrossTo(ys, ys, MeanOf(ys), MeanOf(ys), n),
                      DeviationTo(xs, MeanOf(xs), n), DeviationTo(ys, MeanOf(ys), n))
  {
    hide CrossTo, MeanOf, SquaredErrorTo, DeviationTo, Quadratic;
    var mx, my := MeanOf(xs), MeanOf(ys);
    if n == 0 {
      ErrorStart(xs, ys, s, c, k, mx, my);
    } else {
      ErrorExpanded(xs, ys, s, c, k, n - 1);
      var x, y := xs[n - 1], ys[n - 1];
      var dx, dy := x - mx, y - my;
      CrossStep(xs, xs, mx, mx, n - 1, dx, dx);
      CrossStep(xs, ys, mx, my, n - 1, dx, dy);
      CrossStep(ys, ys, my, my, n - 1, dy, dy);
      DeviationStep(xs, mx, n);
      DeviationStep(ys, my, n);
      var r := y - s * x - c;
      ErrorStep(xs, ys, s, c, n, r);
      ResidualFromMeans(x, y, mx, my, s, c, k);
      ResidualSquared(s, k, dx, dy, r);
      QuadraticStep(s, k, (n - 1) as real, CrossTo(xs, xs, mx, mx, n - 1), CrossTo(xs, ys, mx, my, n - 1),
                    CrossTo(ys, ys, my, my, n - 1), DeviationTo(xs, mx, n - 1), DeviationTo(ys, my, n - 1),
                    dx, dy, dx * dx, dx * dy, dy * dy);
    }
  }

  function DeviationTo(xs: seq<real>, m: real, n: nat): real
    requires n <= |xs|
  {
    SumTo(xs, n) - m * n as real
  }

  /** The error of the line with slope s passing k below (mx, my), from the sums alone. */
  function Quadratic(s: real, k: real, n: real, xx: real, xy: real, yy: real, dx: real, dy: real): real {
    yy - 2.0 * s * xy + s * s * xx + k * k * n + 2.0 * k * dy - 2.0 * k * s * dx
  }

  lemma QuadraticStep(s: real, k: real, n: real, xx: real, xy: real, yy: real, dx: real, dy: real,
                      ex: real, ey: real, exx: real, exy: real, eyy: real)
    ensures Quadratic(s, k, n + 1.0, xx + exx, xy + exy, yy + eyy, dx + ex, dy + ey)
         == Quadratic(s, k, n, xx, xy, yy, dx, dy) + Quadratic(s, k, 1.0, exx, exy, eyy, ex, ey)
  {
  }

  lemma ErrorStart(xs: seq<real>, ys: seq<real>, s: real, c: real, k: real, mx: real, my: real)
    requires |xs| == |ys|
    ensures SquaredErrorTo(xs, ys, s, c, 0) == 0.0
    ensures Quadratic(s, k, 0.0, CrossTo(xs, xs, mx, mx, 0), CrossTo(xs, ys, mx, my, 0), CrossTo(ys, ys, my, my, 0),
                      DeviationTo(xs, mx, 0), DeviationTo(ys, my, 0)) == 0.0
  {
  }

  lemma DeviationStep(xs: seq<real>, m: real, n: nat)
    requires 0 < n <= |xs|
    ensures DeviationTo(xs, m, n) == DeviationTo(xs, m, n - 1) + (xs[n - 1] - m)
  {
    assert m * n as real == m * (n - 1) as real + m;
  }

  lemma ErrorStep(xs: seq<real>, ys: seq<real>, s: real, c: real, n: nat, r: real)
    requires 0 < n <= |xs| == |ys| && r == ys[n - 1] - s * xs[n - 1] - c
    ensures SquaredErrorTo(xs, ys, s, c, n) == SquaredErrorTo(xs, ys, s, c, n - 1) + r * r
  {
  }

  // ----- The fitted line -----

  /** The total error depends on the line only through its slope and its height under the means. */
  lemma ErrorTotal(xs: seq<real>, ys: seq<real>, s: real, c: real, k: real)
    requires |xs| == |ys| > 0 && k == MeanOf(ys) - s * MeanOf(xs) - c
    ensures SquaredError(xs, ys, s, c)
         == Quadratic(s, k, |xs| as real, Cross(xs, xs), Cross(xs, ys), Cross(ys, ys), 0.0, 0.0)
  {
    hide CrossTo, MeanOf, DeviationTo, Quadratic, SquaredErrorTo;
    ErrorExpanded(xs, ys, s, c, k, |xs|);
    DeviationsCancel(xs);
    DeviationsCancel(ys);
  }

  /** Least squares: the fitted line beats every other line, strictly. */
  lemma LeastSquares(xs: seq<real>, ys: seq<real>, slope: real, intercept: real, s: real, c: real)
    requires NormalEquations(xs, ys, slope, intercept)
    ensures SquaredError(xs, ys, slope, intercept) <= SquaredError(xs, ys, s, c)
    ensures SquaredError(xs, ys, slope, intercept) == SquaredError(xs, ys, s, c)
       <==> s == slope && c == intercept
  {
    hide Cross, MeanOf, Quadratic, SquaredError;
    var k := MeanOf(ys) - s * MeanOf(xs) - c;
    ErrorTotal(xs, ys, slope, intercept, 0.0);
    ErrorTotal(xs, ys, s, c, k);
    CompleteSquare(slope, s, k, |xs| as real, Cross(xs, xs), Cross(xs, ys), Cross(ys, ys));
  }

  lemma CompleteSquare(slope: real, s: real, k: real, n: real, xx: real, xy: real, yy: real)
    requires xx > 0.0 && n > 0.0 && slope * xx == xy
    ensures Quadratic(s, k, n, xx, xy, yy, 0.0, 0.0) >= Quadratic(slope, 0.0, n, xx, xy, yy, 0.0, 0.0)
    ensures Quadratic(s, k, n, xx, xy, yy, 0.0, 0.0) == Quadratic(slope, 0.0, n, xx, xy, yy, 0.0, 0.0)
       <==> s == slope && k == 0.0
  {
    var d := s - slope;
    QuadraticGap(slope, d, k, n, xx, xy, yy);
    SquareNonnegative(d);
    SquareNonnegative(k);
    ProductNonnegative(d * d, xx);
    ProductNonnegative(k * k, n);
    assert slope + d == s;
  }

  lemma QuadraticGap(slope: real, d: real, k: real, n: real, xx: real, xy: real, yy: real)
    requires slope * xx == xy
    ensures Quadratic(slope + d, k, n, xx, xy, yy, 0.0, 0.0)
         == Quadratic(slope, 0.0, n, xx, xy, yy, 0.0, 0.0) + d * d * xx + k * k * n
  {
    assert (slope + d) * (slope + d) * xx == slope * slope * xx + 2.0 * d * (slope * xx) + d * d * xx;
    assert 2.0 * (slope + d) * xy == 2.0 * slope * xy + 2.0 * d * xy;
  }

  /** What the fitted line leaves unexplained. */
  lemma FittedError(xs: seq<real>, ys: seq<real>, slope: real, intercept: real)
    requires NormalEquations(xs, ys, slope, intercept)
    ensures SquaredError(xs, ys, slope, intercept) == Cross(ys, ys) - slope * Cross(xs, ys)
    ensures SquaredError(xs, ys, slope, intercept) >= 0.0
  {
    hide Cross, MeanOf, Quadratic, SquaredError;
    ErrorTotal(xs, ys, slope, intercept, 0.0);
    FittedQuadratic(slope, |xs| as real, Cross(xs, xs), Cross(xs, ys), Cross(ys, ys));
    ErrorNonnegative(xs, ys, slope, intercept);
  }

  lemma ErrorNonnegative(xs: seq<real>, ys: seq<real>, s: real, c: real)
    requires |xs| == |ys|
    ensures SquaredError(xs, ys, s, c) >= 0.0
  {
  }

  lemma FittedQuadratic(slope: real, n: real, xx: real, xy: real, yy: real)
    requires slope * xx == xy
    ensures Quadratic(slope, 0.0, n, xx, xy, yy, 0.0, 0.0) == yy - slope * xy
  {
    assert slope * slope * xx == slope * (slope * xx);
  }

  /** r squared lies between 0 and 1 and is the explained share of the variance. */
  lemma ExplainedVariance(xs: seq<real>, ys: seq<real>, f: Fit)
    requires IsFit(xs, ys, f)
    ensures 0.0 <= f.rSquared <= 1.0
    ensures SquaredError(xs, ys, f.slope, f.intercept) == (1.0 - f.rSquared) * Cross(ys, ys)
    ensures f.rSquared == 1.0 <==> OnLine(xs, ys, f.slope, f.intercept)
  {
    hide Cross, MeanOf, Quadratic, SquaredError;
    FittedError(xs, ys, f.slope, f.intercept);
    SquareNonnegative(f.r);
    Shares(f.slope, f.rSquared, Cross(xs, xs), Cross(xs, ys), Cross(ys, ys),
           SquaredError(xs, ys, f.slope, f.intercept));
    ErrorZeroIff(xs, ys, f.slope, f.intercept);
  }

  lemma Shares(slope: real, q: real, xx: real, xy: real, yy: real, e: real)
    requires xx > 0.0 && yy > 0.0 && slope * xx == xy && q * (xx * yy) == xy * xy
    requires e == yy - slope * xy && e >= 0.0
    ensures e == (1.0 - q) * yy && q <= 1.0
    ensures q == 1.0 <==> e == 0.0
  {
    assert (q * yy) * xx == (slope * xy) * xx by {
      SameProduct(slope * xx, xy, xy, xy);
    }
    Cancel(q * yy, slope * xy, xx);
    assert e == (1.0 - q) * yy;
    SignOfQuotient(1.0 - q, yy, e);
  }

  ghost predicate OnLine(xs: seq<real>, ys: seq<real>, slope: real, intercept: real)
    requires |xs| == |ys|
  {
    forall i | 0 <= i < |xs| :: ys[i] == slope * xs[i] + intercept
  }

  lemma ErrorZeroIff(xs: seq<real>, ys: seq<real>, s: real, c: real)
    requires |xs| == |ys|
    ensures SquaredError(xs, ys, s, c) == 0.0 <==> OnLine(xs, ys, s, c)
  {
    ErrorToZeroIff(xs, ys, s, c, |xs|);
  }

  lemma {:induction false} ErrorToZeroIff(xs: seq<real>, ys: seq<real>, s: real, c: real, k: nat)
    requires k <= |xs| == |ys|
    ensures SquaredErrorTo(xs, ys, s, c, k) == 0.0 <==> forall i | 0 <= i < k :: ys[i] == s * xs[i] + c
  {
    if k > 0 {
      ErrorToZeroIff(xs, ys, s, c, k - 1);
      SquareNonnegative(Residual(xs, ys, s, c, k - 1));
    }
  }

  /** A constant y has a perfect line, although LinearRegression refuses it for want of a correlation. */
  lemma ConstantYOnLine(xs: seq<real>, ys: seq<real>)
    requires |xs| == |ys| > 0 && !Constant(xs) && Constant(ys)
    ensures NormalEquations(xs, ys, 0.0, ys[0]) && OnLine(xs, ys, 0.0, ys[0])
  {
    SumOfEqual(ys, ys[0], |ys|);
    assert MeanOf(ys) == ys[0];
    VarianceZeroIff(xs);
    assert 0.0 * Cross(xs, xs) == 0.0 && 0.0 * MeanOf(xs) == 0.0;
    CrossWithConstant(xs, ys, MeanOf(xs), MeanOf(ys), |xs|);
  }

  lemma {:induction false} CrossWithConstant(xs: seq<real>, ys: seq<real>, mx: real, my: real, k: nat)
    requires k <= |xs| == |ys| && forall i | 0 <= i < k :: ys[i] == my
    ensures CrossTo(xs, ys, mx, my, k) == 0.0
  {
    if k > 0 {
      CrossWithConstant(xs, ys, mx, my, k - 1);
      assert (xs[k - 1] - mx) * 0.0 == 0.0;
      CrossStep(xs, ys, mx, my, k - 1, xs[k - 1] - mx, 0.0);
    }
  }

  // ----- Orthogonality -----

  lemma {:induction false} ResidualSums(xs: seq<real>, ys: seq<real>, s: real, c: real, h: real, k: nat)
    requires k <= |xs| == |ys| && |xs| > 0 && h == MeanOf(ys) - s * MeanOf(xs) - c
    ensures ResidualsTo(xs, ys, s, c, k)
         == Affine(s, h, DeviationTo(xs, MeanOf(xs), k), DeviationTo(ys, MeanOf(ys), k), k as real)
    ensures Centred(MeanOf(xs), ResidualsTo(xs, ys, s, c, k), MomentTo(xs, ys, s, c, k))
         == Affine(s, h, CrossTo(xs, xs, MeanOf(xs), MeanOf(xs), k), CrossTo(xs, ys, MeanOf(xs), MeanOf(ys), k),
                   DeviationTo(xs, MeanOf(xs), k))
  {
    hide CrossTo, MeanOf, DeviationTo, ResidualsTo, MomentTo, Affine, Centred;
    var mx, my := MeanOf(xs), MeanOf(ys);
    if k == 0 {
      ResidualStart(xs, ys, s, c, mx, my);
      AffineFlat(s, h, 0.0);
      CentredZero(mx);
    } else {
      ResidualSums(xs, ys, s, c, h, k - 1);
      var x, y := xs[k - 1], ys[k - 1];
      var dx, dy, r := x - mx, y - my, y - s * x - c;
      ResidualFromMeans(x, y, mx, my, s, c, h);
      CrossStep(xs, ys, mx, my, k - 1, dx, dy);
      CrossStep(xs, xs, mx, mx, k - 1, dx, dx);
      DeviationStep(xs, mx, k);
      DeviationStep(ys, my, k);
      ResidualStep(xs, ys, s, c, k, x, r);
      AffineStep(s, h, DeviationTo(xs, mx, k - 1), DeviationTo(ys, my, k - 1), (k - 1) as real, dx, dy, 1.0);
      AffineStep(s, h, CrossTo(xs, xs, mx, mx, k - 1), CrossTo(xs, ys, mx, my, k - 1), DeviationTo(xs, mx, k - 1),
                 dx * dx, dx * dy, dx);
      CentredStep(mx, ResidualsTo(xs, ys, s, c, k - 1), MomentTo(xs, ys, s, c, k - 1), r, x * r);
      ResidualTerms(s, h, mx, dx, dy, x, r);
    }
  }

  lemma ResidualStart(xs: seq<real>, ys: seq<real>, s: real, c: real, mx: real, my: real)
    requires |xs| == |ys|
    ensures ResidualsTo(xs, ys, s, c, 0) == 0.0 && MomentTo(xs, ys, s, c, 0) == 0.0
    ensures DeviationTo(xs, mx, 0) == 0.0 && DeviationTo(ys, my, 0) == 0.0
    ensures CrossTo(xs, ys, mx, my, 0) == 0.0 && CrossTo(xs, xs, mx, mx, 0) == 0.0
  {
  }

  lemma ResidualStep(xs: seq<real>, ys: seq<real>, s: real, c: real, k: nat, x: real, r: real)
    requires 0 < k <= |xs| == |ys| && x == xs[k - 1] && r == ys[k - 1] - s * x - c
    ensures ResidualsTo(xs, ys, s, c, k) == ResidualsTo(xs, ys, s, c, k - 1) + r
    ensures MomentTo(xs, ys, s, c, k) == MomentTo(xs, ys, s, c, k - 1) + x * r
  {
    assert Residual(xs, ys, s, c, k - 1) == r;
    SameProduct(xs[k - 1], x, Residual(xs, ys, s, c, k - 1), r);
  }

  function Affine(s: real, h: real, x: real, y: real, n: real): real {
    y - s * x + h * n
  }

  /** The weighted sum, with x taken from its mean. */
  function Centred(mx: real, residuals: real, moment: real): real {
    moment - mx * residuals
  }

  lemma AffineStep(s: real, h: real, x: real, y: real, n: real, ex: real, ey: real, en: real)
    ensures Affine(s, h, x + ex, y + ey, n + en) == Affine(s, h, x, y, n) + Affine(s, h, ex, ey, en)
  {
  }

  lemma CentredZero(mx: real)
    ensures Centred(mx, 0.0, 0.0) == 0.0
  {
  }

  lemma CentredStep(mx: real, res: real, mom: real, r: real, m: real)
    ensures Centred(mx, res + r, mom + m) == Centred(mx, res, mom) + Centred(mx, r, m)
  {
  }

  lemma ResidualTerms(s: real, h: real, mx: real, dx: real, dy: real, x: real, r: real)
    requires r == dy - s * dx + h && x == dx + mx
    ensures r == Affine(s, h, dx, dy, 1.0)
    ensures Centred(mx, r, x * r) == Affine(s, h, dx * dx, dx * dy, dx)
  {
    SameProduct(x, dx + mx, r, r);
    SameProduct(dx, dx, r, dy - s * dx + h);
    assert dx * (dy - s * dx + h) == dx * dy - s * (dx * dx) + h * dx;
    assert (dx + mx) * r == dx * r + mx * r;
  }

  /** The fitted line is exactly the one whose residuals cancel and are orthogonal to x. */
  lemma ResidualsOrthogonalIff(xs: seq<real>, ys: seq<real>, s: real, c: real)
    requires |xs| == |ys| > 0 && Cross(xs, xs) > 0.0
    ensures NormalEquations(xs, ys, s, c)
       <==> ResidualsTo(xs, ys, s, c, |xs|) == 0.0 && MomentTo(xs, ys, s, c, |xs|) == 0.0
  {
    hide CrossTo, MeanOf, DeviationTo, ResidualsTo, MomentTo, Affine, Centred;
    var h, n := MeanOf(ys) - s * MeanOf(xs) - c, |xs| as real;
    ResidualSums(xs, ys, s, c, h, |xs|);
    DeviationsCancel(xs);
    DeviationsCancel(ys);
    Balance(h, n, s, MeanOf(xs), ResidualsTo(xs, ys, s, c, |xs|), MomentTo(xs, ys, s, c, |xs|),
            Cross(xs, ys), Cross(xs, xs), DeviationTo(xs, MeanOf(xs), |xs|), DeviationTo(ys, MeanOf(ys), |xs|));
  }

  lemma Balance(h: real, n: real, s: real, mx: real, res: real, mom: real, xy: real, xx: real, devx: real, devy: real)
    requires n > 0.0 && devx == 0.0 && devy == 0.0
    requires res == Affine(s, h, devx, devy, n) && Centred(mx, res, mom) == Affine(s, h, xx, xy, devx)
    ensures h == 0.0 && s * xx == xy <==> res == 0.0 && mom == 0.0
  {
    AffineFlat(s, h, n);
    AffineAtZero(s, h, xx, xy);
    ProductZeroIff(h, n, res);
    if res == 0.0 {
      assert Centred(mx, 0.0, mom) == mom;
    }
  }

  lemma AffineFlat(s: real, h: real, n: real)
    ensures Affine(s, h, 0.0, 0.0, n) == h * n
  {
  }

  lemma AffineAtZero(s: real, h: real, xx: real, xy: real)
    ensures Affine(s, h, xx, xy, 0.0) == xy - s * xx
  {
  }

  lemma ProductZeroIff(h: real, n: real, p: real)
    requires n > 0.0 && p == h * n
    ensures p == 0.0 <==> h == 0.0
  {
  }

  // ----- Correlation -----

  /** |r| <= 1, with equality exactly when the points lie on one line. */
  lemma CorrelationBounded(a: seq<real>, b: seq<real>, r: real)
    requires IsCorrelation(a, b, r)
    ensures -1.0 <= r <= 1.0
    ensures r == 1.0 || r == -1.0 <==> exists s, c :: OnLine(a, b, s, c)
  {
    hide Cross, MeanOf, OnLine, SquaredError;
    var slope := Cross(a, b) / Cross(a, a);
    var f := Fit(slope, MeanOf(b) - slope * MeanOf(a), r, r * r, |a|);
    ExplainedVariance(a, b, f);
    UnitSquare(r);
    if s, c :| OnLine(a, b, s, c) {
      ErrorZeroIff(a, b, s, c);
      LeastSquares(a, b, f.slope, f.intercept, s, c);
      ErrorNonnegative(a, b, f.slope, f.intercept);
      ErrorZeroIff(a, b, f.slope, f.intercept);
    }
  }

  lemma UnitSquare(r: real)
    ensures r * r <= 1.0 <==> -1.0 <= r <= 1.0
    ensures r * r == 1.0 <==> r == 1.0 || r == -1.0
  {
    UnitProduct(r, 1.0 - r, 1.0 + r, (1.0 - r) * (1.0 + r));
    assert (1.0 - r) * (1.0 + r) == 1.0 - r * r;
  }

  lemma UnitProduct(r: real, a: real, b: real, p: real)
    requires a == 1.0 - r && b == 1.0 + r && p == a * b
    ensures p >= 0.0 <==> -1.0 <= r <= 1.0
    ensures p == 0.0 <==> r == 1.0 || r == -1.0
  {
    if r > 1.0 {
      ProductNegative(a, b, p);
    } else if r < -1.0 {
      ProductNegative(b, a, p);
    } else if -1.0 < r < 1.0 {
      ProductPositive(a, b, p);
    }
  }

  /** The contract pins the coefficient down, and the two series may be exchanged. */
  lemma CorrelationUnique(a: seq<real>, b: seq<real>, r: real, t: real)
    requires IsCorrelation(a, b, r) && IsCorrelation(b, a, t)
    ensures r == t
  {
    hide CrossTo, MeanOf;
    CrossSymmetric(a, b, MeanOf(a), MeanOf(b), |a|);
    var p := Cross(a, a) * Cross(b, b);
    assert p > 0.0;
    assert Cross(b, b) * Cross(a, a) == p;
    SameRoot(r, t, p, Cross(a, b) * Cross(a, b));
  }

  lemma SameRoot(r: real, t: real, p: real, c: real)
    requires p > 0.0 && r * r * p == c && t * t * p == c
    requires (r > 0.0 <==> t > 0.0) && (r < 0.0 <==> t < 0.0)
    ensures r == t
  {
    Cancel(r * r, t * t, p);
    assert (r - t) * (r + t) == 0.0;
  }

  lemma {:induction false} CrossSymmetric(a: seq<real>, b: seq<real>, ma: real, mb: real, k: nat)
    requires k <= |a| == |b|
    ensures CrossTo(a, b, ma, mb, k) == CrossTo(b, a, mb, ma, k)
  {
    if k > 0 {
      CrossSymmetric(a, b, ma, mb, k - 1);
    }
  }
}
