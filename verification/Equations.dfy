/** Solving lhs = rhs: coefficients of the difference, then closed-form roots. */
module Equations {
  import opened Arithmetic
  import opened Wrappers
  import opened Syntax
  import opened Evaluator
  import opened Polynomials

  // ----- Coefficients of an equation -----

  /** Coefficients of lhs - rhs, low degree first. */
  function Difference(lhs: Ast, rhs: Option<Ast>, variable: string, constants: map<string, real>): Option<Coeffs> {
    var l := Extract(lhs, variable, constants);
    if l.None? || rhs.None? then l
    else
      var r := Extract(rhs.value, variable, constants);
      if r.None? then None else Some(SubtractCoeffs(l.value, r.value))
  }

  function DropTrailingZeros(c: Coeffs): (d: Coeffs)
    ensures d <= c && (d != [] ==> d[|d| - 1] != 0.0)
  {
    if c != [] && c[|c| - 1] == 0.0 then DropTrailingZeros(c[..|c| - 1]) else c
  }

  function Reverse(c: Coeffs): (r: Coeffs)
    ensures |r| == |c| && forall i | 0 <= i < |c| :: r[i] == c[|c| - 1 - i]
  {
    seq(|c|, i requires 0 <= i < |c| => c[|c| - 1 - i])
  }

  /** Highest degree first; absent when a side is no polynomial or nothing is left. */
  function TryExtract(lhs: Ast, rhs: Option<Ast>, variable: string, constants: map<string, real>): Option<Coeffs> {
    var d := Difference(lhs, rhs, variable, constants);
    if d.None? then None
    else
      var s := DropTrailingZeros(d.value);
      if s == [] then None else Some(Reverse(s))
  }

  method TryExtractPolynomial(lhs: Ast, rhs: Option<Ast>, variable: string, constants: map<string, real>)
    returns (r: Option<Coeffs>)
    ensures r == TryExtract(lhs, rhs, variable, constants)
  {
    var l := ExtractCoeffs(lhs, variable, constants);
    if l.None? { return None; }
    var coeffs := l.value;
    if rhs.Some? {
      var rt := ExtractCoeffs(rhs.value, variable, constants);
      if rt.None? { return None; }
      coeffs := SubtractCoeffsLoop(coeffs, rt.value);
    }
    ghost var start := coeffs;
    while |coeffs| > 0 && coeffs[|coeffs| - 1] == 0.0
      invariant DropTrailingZeros(coeffs) == DropTrailingZeros(start)
    {
      coeffs := coeffs[..|coeffs| - 1];
    }
    if |coeffs| == 0 { return None; }
    return Some(Reverse(coeffs));
  }

  /** lhs(x) - rhs(x), when both sides evaluate. */
  function Residual(lhs: Ast, rhs: Option<Ast>, variable: string, env: Env, x: real): Result<real, RuntimeError> {
    var l :- CompileSingleVariable(lhs, variable, env)(x);
    if rhs.None? then Success(l)
    else
      var r :- CompileSingleVariable(rhs.value, variable, env)(x);
      Success(l - r)
  }

  lemma DifferencePreservesMeaning(lhs: Ast, rhs: Option<Ast>, variable: string, env: Env, x: real)
    requires RespectsConstants(env, variable) && Difference(lhs, rhs, variable, env.constants).Some?
    ensures Residual(lhs, rhs, variable, env, x)
         == Success(Poly(Difference(lhs, rhs, variable, env.constants).value, x))
  {
    hide Poly;
    ExtractionPreservesMeaning(lhs, variable, env, x);
    if rhs.Some? {
      ExtractionPreservesMeaning(rhs.value, variable, env, x);
      PolySubtract(Extract(lhs, variable, env.constants).value, Extract(rhs.value, variable, env.constants).value, x);
    }
  }

  lemma {:induction false} DropKeepsPoly(c: Coeffs, x: real)
    ensures Poly(DropTrailingZeros(c), x) == Poly(c, x)
  {
    if c != [] && c[|c| - 1] == 0.0 {
      var d := c[..|c| - 1];
      DropKeepsPoly(d, x);
      PolySumSame(c, d, x, |d|);
    }
  }

  lemma {:induction false} PolySumSame(c: Coeffs, d: Coeffs, x: real, n: nat)
    requires n <= |c| && n <= |d| && forall i | 0 <= i < n :: c[i] == d[i]
    ensures PolySum(c, x, n) == PolySum(d, x, n)
  {
    if n > 0 {
      PolySumSame(c, d, x, n - 1);
    }
  }

  // ----- Closed forms -----

  datatype Complex = Complex(re: real, im: real)

  /** Degrees 3 to 8 are handed to an iterative method that is not part of this model. */
  datatype RootResult = Closed(roots: seq<real>, complexRoots: seq<Complex>) | Iterative(coeffs: Coeffs)

  datatype SolverError = OnlyConstant | LinearCoefficientZero | DegreeTooHigh

  function SolveLinear(a: real, b: real): Result<RootResult, SolverError> {
    if a == 0.0 then Failure(LinearCoefficientZero)
    else Success(Closed([-b / a], [Complex(-b / a, 0.0)]))
  }

  function Discriminant(a: real, b: real, c: real): real {
    b * b - 4.0 * a * c
  }

  function SolveQuadratic(a: real, b: real, c: real, sqrt: real -> real): Result<RootResult, SolverError> {
    if a == 0.0 then SolveLinear(b, c)
    else
      var disc := Discriminant(a, b, c);
      if disc >= 0.0 then
        var s := sqrt(disc);
        var r1, r2 := (-b + s) / (2.0 * a), (-b - s) / (2.0 * a);
        var sorted := if r1 <= r2 then [r1, r2] else [r2, r1];
        Success(Closed(sorted, [Complex(sorted[0], 0.0), Complex(sorted[1], 0.0)]))
      else
        var re, im := -b / (2.0 * a), sqrt(-disc) / (2.0 * a);
        Success(Closed([], [Complex(re, im), Complex(re, -im)]))
  }

  /** The square root is only consulted at the size of the discriminant. */
  ghost predicate IsSqrtAt(sqrt: real -> real, d: real) {
    var m := if d < 0.0 then -d else d;
    sqrt(m) >= 0.0 && sqrt(m) * sqrt(m) == m
  }

  function StripLeadingZeros(c: Coeffs): (d: Coeffs) {
    if |c| > 1 && c[0] == 0.0 then StripLeadingZeros(c[1..]) else c
  }

  /** c is highest degree first and already stripped. */
  function SolveStripped(c: Coeffs, sqrt: real -> real): Result<RootResult, SolverError> {
    if |c| <= 1 then Failure(OnlyConstant)
    else if |c| == 2 then SolveLinear(c[0], c[1])
    else if |c| == 3 then SolveQuadratic(c[0], c[1], c[2], sqrt)
    else if |c| - 1 > 8 then Failure(DegreeTooHigh)
    else Success(Iterative(c))
  }

  method SolvePolynomial(coeffs: Coeffs, sqrt: real -> real) returns (r: Result<RootResult, SolverError>)
    ensures r == SolveStripped(StripLeadingZeros(coeffs), sqrt)
  {
    var i := 0;
    while i < |coeffs| - 1 && coeffs[i] == 0.0
      invariant 0 <= i <= |coeffs| && StripLeadingZeros(coeffs[i..]) == StripLeadingZeros(coeffs)
    {
      assert coeffs[i..][1..] == coeffs[i + 1..];
      i := i + 1;
    }
    return SolveStripped(coeffs[i..], sqrt);
  }

  // ----- The closed forms find exactly the real roots -----

  ghost predicate Ascending(rs: seq<real>) {
    forall i, j | 0 <= i < j < |rs| :: rs[i] <= rs[j]
  }

  lemma LinearRoot(a: real, b: real, x: real)
    requires a != 0.0
    ensures LinearZero(a, b, x) <==> x == -b / a
  {
    var r := -b / a;
    assert a * r == -b;
    assert a * (x - r) == a * x + b;
    if x != r { assert a * (x - r) != 0.0; }
  }

  /** 4a(ax^2 + bx + c) = (2ax + b)^2 - (b^2 - 4ac) */
  lemma CompleteSquare(a: real, b: real, c: real, x: real)
    ensures 4.0 * a * (a * (x * x) + b * x + c)
         == (2.0 * a * x + b) * (2.0 * a * x + b) - Discriminant(a, b, c)
  {
  }

  lemma NonzeroFactor(k: real, v: real)
    requires k != 0.0
    ensures k * v == 0.0 <==> v == 0.0
  {
  }

  lemma EqualSquares(y: real, s: real)
    ensures y * y == s * s <==> y == s || y == -s
  {
    assert y * y - s * s == (y - s) * (y + s);
    if y != s { NonzeroFactor(y - s, y + s); }
  }

  lemma SolvesForX(a: real, b: real, s: real, x: real)
    requires a != 0.0
    ensures 2.0 * a * x + b == s <==> x == (-b + s) / (2.0 * a)
  {
    LinearRoot(2.0 * a, b - s, x);
  }

  lemma QuadraticNoRoot(a: real, b: real, c: real, x: real)
    requires a != 0.0 && Discriminant(a, b, c) < 0.0
    ensures !QuadraticZero(a, b, c, x)
  {
    CompleteSquare(a, b, c, x);
    SquareNonnegative(2.0 * a * x + b);
    NonzeroFactor(4.0 * a, a * (x * x) + b * x + c);
  }

  lemma QuadraticRoots(a: real, b: real, c: real, s: real, x: real)
    requires a != 0.0 && s * s == Discriminant(a, b, c)
    ensures QuadraticZero(a, b, c, x) <==> x == (-b + s) / (2.0 * a) || x == (-b - s) / (2.0 * a)
  {
    var v, y := a * (x * x) + b * x + c, 2.0 * a * x + b;
    CompleteSquare(a, b, c, x);
    NonzeroFactor(4.0 * a, v);
    EqualSquares(y, s);
    SolvesForX(a, b, s, x);
    SolvesForX(a, b, -s, x);
  }

  /** Degree 1 or 2 with a non-zero lead: the real roots, sorted, and no others. */
  lemma SolverFindsRealRoots(c: Coeffs, sqrt: real -> real)
    requires 2 <= |c| <= 3 && c[0] != 0.0
    requires |c| == 3 ==> IsSqrtAt(sqrt, Discriminant(c[0], c[1], c[2]))
    ensures var r := SolveStripped(StripLeadingZeros(c), sqrt);
            && r.Success? && r.value.Closed? && Ascending(r.value.roots)
            && (forall x: real :: x in r.value.roots <==> Poly(Reverse(c), x) == 0.0)
            && (|c| == 3 && Discriminant(c[0], c[1], c[2]) < 0.0 ==> r.value.roots == [])
            && (|c| == 2 ==> |r.value.roots| == 1 && r.value.complexRoots == [Complex(r.value.roots[0], 0.0)])
  {
    hide Poly, SolveLinear, SolveQuadratic, Discriminant;
    if |c| == 2 {
      LinearRootList(c[0], c[1]);
      forall x: real
        ensures LinearZero(c[0], c[1], x) <==> Poly(Reverse(c), x) == 0.0
      {
        PolyDegreeOne(c, x);
      }
    } else {
      QuadraticRootList(c[0], c[1], c[2], sqrt);
      forall x: real
        ensures QuadraticZero(c[0], c[1], c[2], x) <==> Poly(Reverse(c), x) == 0.0
      {
        PolyDegreeTwo(c, x);
      }
    }
  }

  predicate LinearZero(a: real, b: real, x: real) {
    a * x + b == 0.0
  }

  predicate QuadraticZero(a: real, b: real, c: real, x: real) {
    a * (x * x) + b * x + c == 0.0
  }

  lemma LinearRootList(a: real, b: real)
    requires a != 0.0
    ensures var r := SolveLinear(a, b);
            r.Success? && r.value.Closed? && |r.value.roots| == 1
            && r.value.complexRoots == [Complex(r.value.roots[0], 0.0)]
            && forall x: real :: x in r.value.roots <==> LinearZero(a, b, x)
  {
    var rs := [-b / a];
    forall x: real
      ensures x in rs <==> LinearZero(a, b, x)
    {
      LinearRoot(a, b, x);
    }
  }

  lemma QuadraticRootList(a: real, b: real, c: real, sqrt: real -> real)
    requires a != 0.0 && IsSqrtAt(sqrt, Discriminant(a, b, c))
    ensures var r := SolveQuadratic(a, b, c, sqrt);
            && r.Success? && r.value.Closed? && Ascending(r.value.roots)
            && (Discriminant(a, b, c) < 0.0 ==> r.value.roots == [])
            && forall x: real :: x in r.value.roots <==> QuadraticZero(a, b, c, x)
  {
    hide Discriminant, QuadraticZero;
    var d := Discriminant(a, b, c);
    var rs := SolveQuadratic(a, b, c, sqrt).value.roots;
    if d < 0.0 {
      forall x: real
        ensures !QuadraticZero(a, b, c, x)
      {
        QuadraticNoRoot(a, b, c, x);
      }
    } else {
      var s := sqrt(d);
      var r1, r2 := (-b + s) / (2.0 * a), (-b - s) / (2.0 * a);
      assert rs == [r1, r2] || rs == [r2, r1];
      forall x: real
        ensures x in rs <==> QuadraticZero(a, b, c, x)
      {
        QuadraticRoots(a, b, c, s, x);
        assert x in rs <==> x == r1 || x == r2;
      }
    }
  }

  lemma PolyDegreeOne(c: Coeffs, x: real)
    requires |c| == 2
    ensures Poly(Reverse(c), x) == c[0] * x + c[1]
  {
    var p := Reverse(c);
    assert PowerOf(x, 1) == x * PowerOf(x, 0) == x;
    assert PolySum(p, x, 1) == PolySum(p, x, 0) + At(p, 0) * PowerOf(x, 0) == c[1];
    assert PolySum(p, x, 2) == PolySum(p, x, 1) + At(p, 1) * PowerOf(x, 1);
  }

  lemma PolyDegreeTwo(c: Coeffs, x: real)
    requires |c| == 3
    ensures Poly(Reverse(c), x) == c[0] * (x * x) + c[1] * x + c[2]
  {
    var p := Reverse(c);
    assert PowerOf(x, 1) == x * PowerOf(x, 0) == x;
    assert PowerOf(x, 2) == x * PowerOf(x, 1) == x * x;
    assert PolySum(p, x, 1) == PolySum(p, x, 0) + At(p, 0) * PowerOf(x, 0) == c[2];
    assert PolySum(p, x, 2) == PolySum(p, x, 1) + At(p, 1) * PowerOf(x, 1);
    assert PolySum(p, x, 3) == PolySum(p, x, 2) + At(p, 2) * PowerOf(x, 2);
  }

  // ----- Complex roots -----

  function ComplexTimes(u: Complex, v: Complex): Complex {
    Complex(u.re * v.re - u.im * v.im, u.re * v.im + u.im * v.re)
  }

  /** a z^2 + b z + c over the complex numbers. */
  function EvalQuadratic(a: real, b: real, c: real, z: Complex): Complex {
    var zz := ComplexTimes(z, z);
    Complex(a * zz.re + b * z.re + c, a * zz.im + b * z.im)
  }

  /** With a negative discriminant the two reported numbers are conjugate roots. */
  lemma ComplexRootsVanish(a: real, b: real, c: real, sqrt: real -> real)
    requires a != 0.0 && Discriminant(a, b, c) < 0.0 && IsSqrtAt(sqrt, Discriminant(a, b, c))
    ensures var zs := SolveQuadratic(a, b, c, sqrt).value.complexRoots;
            && |zs| == 2 && zs[1] == Complex(zs[0].re, -zs[0].im) && zs[0].im != 0.0
            && EvalQuadratic(a, b, c, zs[0]) == Complex(0.0, 0.0) == EvalQuadratic(a, b, c, zs[1])
  {
    var s := sqrt(-Discriminant(a, b, c));
    var re, im := -b / (2.0 * a), s / (2.0 * a);
    VanishAt(a, b, c, s, re, im);
    NegatedQuotient(s, 2.0 * a, im);
    assert (-s) * (-s) == s * s;
    VanishAt(a, b, c, -s, re, -im);
  }

  lemma NegatedQuotient(s: real, d: real, q: real)
    requires d != 0.0 && q == s / d
    ensures -q == -s / d
  {
    assert q * d == s;
    assert (-q) * d == -s;
  }

  lemma VanishAt(a: real, b: real, c: real, s: real, re: real, im: real)
    requires a != 0.0 && re == -b / (2.0 * a) && im == s / (2.0 * a) && s * s == -Discriminant(a, b, c)
    ensures EvalQuadratic(a, b, c, Complex(re, im)) == Complex(0.0, 0.0)
  {
    assert 2.0 * a * re == -b && 2.0 * a * im == s;
    var v := a * (re * re - im * im) + b * re + c;
    CompleteSquare(a, b, c, re);
    assert 4.0 * a * (a * (im * im)) == (2.0 * a * im) * (2.0 * a * im);
    assert 4.0 * a * v == 4.0 * a * (a * (re * re) + b * re + c) - 4.0 * a * (a * (im * im));
    NonzeroFactor(4.0 * a, v);
    var w := a * (re * im + im * re) + b * im;
    assert w == im * (2.0 * a * re + b);
  }

  function ComplexMinus(u: Complex, v: Complex): Complex {
    Complex(u.re - v.re, u.im - v.im)
  }

  lemma VietaFactors(a: real, b: real, c: real, p: Complex, q: Complex, z: Complex)
    requires Vieta(a, b, c, p, q)
    ensures EvalQuadratic(a, b, c, z)
         == ComplexTimes(Complex(a, 0.0), ComplexTimes(ComplexMinus(z, p), ComplexMinus(z, q)))
  {
    var zz, s, pq := ComplexTimes(z, z), p.re + q.re, ComplexTimes(p, q);
    var f := ComplexTimes(ComplexMinus(z, p), ComplexMinus(z, q));
    ShiftedProduct(z.re, p.re, q.re);
    ShiftedProduct(z.im, p.im, q.im);
    assert f.re == zz.re - z.re * s + z.im * (p.im + q.im) + pq.re;
    assert f.im == zz.im - z.im * s - z.re * (p.im + q.im) + pq.im;
    Scaled(a, b, c, zz.re, z.re, s, pq.re);
    Scaled(a, b, 0.0, zz.im, z.im, s, 0.0);
  }

  lemma ShiftedProduct(z: real, p: real, q: real)
    ensures (z - p) * (z - q) == z * z - z * (p + q) + p * q
  {
  }

  lemma Scaled(a: real, b: real, c: real, w: real, z: real, s: real, p: real)
    requires a * s == -b && a * p == c
    ensures a * (w - z * s + p) == a * w + b * z + c
  {
    assert a * (z * s) == z * (a * s);
  }

  /** The two reported complex roots, equal ones reported twice, split the quadratic into factors;
      they are the real roots when those exist. */
  lemma ComplexRootsFactor(a: real, b: real, c: real, sqrt: real -> real)
    requires a != 0.0 && IsSqrtAt(sqrt, Discriminant(a, b, c))
    ensures var r := SolveQuadratic(a, b, c, sqrt).value; var zs := r.complexRoots;
            && |zs| == 2
            && (forall z: Complex :: EvalQuadratic(a, b, c, z)
                  == ComplexTimes(Complex(a, 0.0), ComplexTimes(ComplexMinus(z, zs[0]), ComplexMinus(z, zs[1]))))
            && (Discriminant(a, b, c) >= 0.0 ==>
                  |r.roots| == 2 && zs == [Complex(r.roots[0], 0.0), Complex(r.roots[1], 0.0)])
  {
    hide EvalQuadratic, ComplexMinus, ComplexTimes, SolveQuadratic, Discriminant, Vieta;
    RootsVieta(a, b, c, sqrt);
    var zs := SolveQuadratic(a, b, c, sqrt).value.complexRoots;
    forall z: Complex
      ensures EvalQuadratic(a, b, c, z)
           == ComplexTimes(Complex(a, 0.0), ComplexTimes(ComplexMinus(z, zs[0]), ComplexMinus(z, zs[1])))
    {
      VietaFactors(a, b, c, zs[0], zs[1], z);
    }
  }

  /** Sum and product of the two roots. */
  ghost predicate Vieta(a: real, b: real, c: real, p: Complex, q: Complex) {
    && a * (p.re + q.re) == -b && p.im + q.im == 0.0
    && a * ComplexTimes(p, q).re == c && ComplexTimes(p, q).im == 0.0
  }

  lemma RootsVieta(a: real, b: real, c: real, sqrt: real -> real)
    requires a != 0.0 && IsSqrtAt(sqrt, Discriminant(a, b, c))
    ensures var r := SolveQuadratic(a, b, c, sqrt); var zs := r.value.complexRoots;
            && r.Success? && r.value.Closed? && |zs| == 2 && Vieta(a, b, c, zs[0], zs[1])
            && (Discriminant(a, b, c) >= 0.0 ==>
                  |r.value.roots| == 2 && zs == [Complex(r.value.roots[0], 0.0), Complex(r.value.roots[1], 0.0)])
  {
    hide Discriminant, Vieta;
    var d := Discriminant(a, b, c);
    if d >= 0.0 {
      RealVieta(a, b, c, sqrt(d), (-b + sqrt(d)) / (2.0 * a), (-b - sqrt(d)) / (2.0 * a));
    } else {
      ComplexVieta(a, b, c, sqrt(-d), -b / (2.0 * a), sqrt(-d) / (2.0 * a));
    }
  }

  lemma RealVieta(a: real, b: real, c: real, s: real, p: real, q: real)
    requires a != 0.0 && s * s == Discriminant(a, b, c) && p == (-b + s) / (2.0 * a) && q == (-b - s) / (2.0 * a)
    ensures Vieta(a, b, c, Complex(p, 0.0), Complex(q, 0.0)) && Vieta(a, b, c, Complex(q, 0.0), Complex(p, 0.0))
  {
    assert 2.0 * a * p == -b + s && 2.0 * a * q == -b - s;
    assert 2.0 * (a * (p + q)) == 2.0 * a * p + 2.0 * a * q;
    assert (2.0 * a * p) * (2.0 * a * q) == 4.0 * a * (a * (p * q));
    assert (-b + s) * (-b - s) == b * b - s * s;
    NonzeroFactor(4.0 * a, a * (p * q) - c);
    assert p * q - 0.0 * 0.0 == p * q && p * 0.0 + 0.0 * q == 0.0;
  }

  lemma ComplexVieta(a: real, b: real, c: real, s: real, re: real, im: real)
    requires a != 0.0 && s * s == -Discriminant(a, b, c) && re == -b / (2.0 * a) && im == s / (2.0 * a)
    ensures Vieta(a, b, c, Complex(re, im), Complex(re, -im))
  {
    assert 2.0 * a * re == -b && 2.0 * a * im == s;
    assert (2.0 * a * re) * (2.0 * a * re) == 4.0 * a * (a * (re * re));
    assert (2.0 * a * im) * (2.0 * a * im) == 4.0 * a * (a * (im * im));
    assert (-b) * (-b) == b * b;
    NonzeroFactor(4.0 * a, a * (re * re + im * im) - c);
    assert re * re - im * (-im) == re * re + im * im && re * (-im) + im * re == 0.0;
  }

  // ----- Any coefficient list -----

  /** Stripping removes zeros only, and all that lead. */
  lemma {:induction false} StripMeans(c: Coeffs)
    ensures var s := StripLeadingZeros(c); var k := |c| - |s|;
            && 0 <= k && (k > 0 ==> s != []) && s == c[k..]
            && (forall i | 0 <= i < k :: c[i] == 0.0) && (|s| > 1 ==> s[0] != 0.0)
    ensures forall x: real :: Poly(Reverse(StripLeadingZeros(c)), x) == Poly(Reverse(c), x)
  {
    if |c| > 1 && c[0] == 0.0 {
      hide Poly;
      StripMeans(c[1..]);
      forall x: real
        ensures Poly(Reverse(c[1..]), x) == Poly(Reverse(c), x)
      {
        LeadingZero(c, x);
      }
    }
  }

  lemma LeadingZero(c: Coeffs, x: real)
    requires c != [] && c[0] == 0.0
    ensures Poly(Reverse(c[1..]), x) == Poly(Reverse(c), x)
  {
    var n := |c| - 1;
    PolySumSame(Reverse(c), Reverse(c[1..]), x, n);
    assert PolySum(Reverse(c), x, n + 1) == PolySum(Reverse(c), x, n) + At(Reverse(c), n) * PowerOf(x, n);
  }

  /** What the solver does with any coefficient list: a lone constant and a degree above 8 are
      refused, degrees 1 and 2 are solved exactly, the rest is left to the iterative method. */
  lemma AnyListSolved(c: Coeffs, sqrt: real -> real)
    requires var s := StripLeadingZeros(c); |s| == 3 ==> IsSqrtAt(sqrt, Discriminant(s[0], s[1], s[2]))
    ensures var r := SolveStripped(StripLeadingZeros(c), sqrt);
            && (r == Failure(OnlyConstant) <==> ZeroUpTo(c, |c| - 1))
            && (r == Failure(DegreeTooHigh) <==> !ZeroUpTo(c, |c| - 9))
            && (r.Success? && r.value.Closed? <==> !ZeroUpTo(c, |c| - 1) && ZeroUpTo(c, |c| - 3))
            && (r.Success? && r.value.Closed? ==>
                  Ascending(r.value.roots) && forall x: real :: x in r.value.roots <==> Poly(Reverse(c), x) == 0.0)
  {
    hide Poly, SolveLinear, SolveQuadratic, StripLeadingZeros, ZeroUpTo, Discriminant;
    var s := StripLeadingZeros(c);
    StripMeans(c);
    LengthLeft(c, 1);
    LengthLeft(c, 3);
    LengthLeft(c, 9);
    if |s| == 2 || |s| == 3 {
      StripTwice(c);
      SolverFindsRealRoots(s, sqrt);
    }
  }

  predicate ZeroUpTo(c: Coeffs, n: int)
    requires n <= |c|
  {
    forall i | 0 <= i < n :: c[i] == 0.0
  }

  /** How many coefficients are left says how many of them are zero in front. */
  lemma LengthLeft(c: Coeffs, m: nat)
    requires m >= 1
    ensures ZeroUpTo(c, |c| - m) <==> |StripLeadingZeros(c)| <= m
  {
    hide StripLeadingZeros, Poly;
    StripMeans(c);
    var k := |c| - |StripLeadingZeros(c)|;
    if |c| - k > 1 { assert c[k] != 0.0; }
  }

  lemma StripTwice(c: Coeffs)
    ensures StripLeadingZeros(StripLeadingZeros(c)) == StripLeadingZeros(c)
  {
    hide Poly;
    StripMeans(c);
  }

  // ----- End to end -----

  /** What the equation's coefficients mean: the residual is their polynomial, the lead is
      not zero. */
  lemma CoefficientsMean(lhs: Ast, rhs: Option<Ast>, variable: string, env: Env, x: real)
    requires RespectsConstants(env, variable) && TryExtract(lhs, rhs, variable, env.constants).Some?
    ensures var c := TryExtract(lhs, rhs, variable, env.constants).value;
            c != [] && c[0] != 0.0 && Residual(lhs, rhs, variable, env, x) == Success(Poly(Reverse(c), x))
  {
    hide Poly, Residual;
    var d := Difference(lhs, rhs, variable, env.constants).value;
    var s := DropTrailingZeros(d);
    DifferencePreservesMeaning(lhs, rhs, variable, env, x);
    DropKeepsPoly(d, x);
    assert Reverse(Reverse(s)) == s;
  }

  /** For an equation of degree 1 or 2 the reported real roots, in ascending order, are
      exactly the numbers that satisfy it. */
  lemma EquationSolved(lhs: Ast, rhs: Option<Ast>, variable: string, env: Env, sqrt: real -> real)
    requires RespectsConstants(env, variable) && TryExtract(lhs, rhs, variable, env.constants).Some?
    requires var c := TryExtract(lhs, rhs, variable, env.constants).value;
             2 <= |c| <= 3 && (|c| == 3 ==> IsSqrtAt(sqrt, Discriminant(c[0], c[1], c[2])))
    ensures var c := TryExtract(lhs, rhs, variable, env.constants).value;
            var r := SolveStripped(StripLeadingZeros(c), sqrt);
            && r.Success? && r.value.Closed? && Ascending(r.value.roots)
            && (forall x: real :: x in r.value.roots <==> Residual(lhs, rhs, variable, env, x) == Success(0.0))
            && (|c| == 3 && Discriminant(c[0], c[1], c[2]) < 0.0 ==> r.value.roots == [])
  {
    hide Poly, Residual, TryExtract, SolveStripped;
    var c := TryExtract(lhs, rhs, variable, env.constants).value;
    CoefficientsMean(lhs, rhs, variable, env, 0.0);
    SolverFindsRealRoots(c, sqrt);
    forall x: real
      ensures Residual(lhs, rhs, variable, env, x) == Success(Poly(Reverse(c), x))
    {
      CoefficientsMean(lhs, rhs, variable, env, x);
    }
  }

  /** The two ways an extracted equation is refused: a non-zero constant has no solution,
      and when nothing is left every number is one. */
  lemma DegenerateEquations(lhs: Ast, rhs: Option<Ast>, variable: string, env: Env, sqrt: real -> real, x: real)
    requires RespectsConstants(env, variable) && Difference(lhs, rhs, variable, env.constants).Some?
    ensures var t := TryExtract(lhs, rhs, variable, env.constants);
            && (t.None? ==> Residual(lhs, rhs, variable, env, x) == Success(0.0))
            && (t.Some? && |t.value| == 1 ==>
                  && SolveStripped(StripLeadingZeros(t.value), sqrt) == Failure(OnlyConstant)
                  && Residual(lhs, rhs, variable, env, x) != Success(0.0))
  {
    hide Residual;
    var d := Difference(lhs, rhs, variable, env.constants).value;
    var t := TryExtract(lhs, rhs, variable, env.constants);
    DifferencePreservesMeaning(lhs, rhs, variable, env, x);
    DropKeepsPoly(d, x);
    if t.Some? && |t.value| == 1 {
      PolyConstant(DropTrailingZeros(d), x);
    }
  }

  /** The caller's check: no bound variable is a reserved name, and constants are reserved. */
  lemma GuardsProtectConstants(env: Env, variable: string, reserved: set<string>)
    requires env.constants.Keys <= reserved && env.variables.Keys !! reserved
    ensures RespectsConstants(env, variable)
  {
    assert forall name | name in env.constants :: name in env.constants.Keys;
    assert forall name | name in env.variables :: name in env.variables.Keys;
  }
}
