/** Equations between written polynomials: they are always extracted, and the reported roots are
    exactly the numbers that satisfy them. */
module WrittenEquations {
  import opened Arithmetic
  import opened Wrappers
  import opened Syntax
  import opened Evaluator
  import opened Polynomials
  import opened Extraction
  import opened Equations

  lemma TryUnfold(lhs: Ast, rhs: Ast, p: Coeffs, q: Coeffs, variable: string, constants: map<string, real>)
    requires Extract(lhs, variable, constants) == Some(p) && Extract(rhs, variable, constants) == Some(q)
    ensures var s := DropTrailingZeros(SubtractCoeffs(p, q));
            TryExtract(lhs, Some(rhs), variable, constants) == if s == [] then None else Some(Reverse(s))
  {
    hide Extract;
  }

  /** The equation p(x) = q(x) of extracted sides: absent iff all coefficients agree; otherwise
      those of p - q, highest first and with a lead that is not zero. */
  lemma ExtractedEquation(lhs: Ast, rhs: Ast, p: Coeffs, q: Coeffs, variable: string, constants: map<string, real>)
    requires Extract(lhs, variable, constants) == Some(p) && Extract(rhs, variable, constants) == Some(q)
    ensures var t := TryExtract(lhs, Some(rhs), variable, constants);
            && (t.None? <==> forall i :: At(p, i) == At(q, i))
            && (t.Some? ==>
                  && 1 <= |t.value| <= MaxLen(p, q) && t.value[0] != 0.0
                  && (forall i | 0 <= i < |t.value| :: t.value[i] == At(p, |t.value| - 1 - i) - At(q, |t.value| - 1 - i))
                  && (forall i | i >= |t.value| :: At(p, i) == At(q, i)))
  {
    hide Extract, TryExtract, DropTrailingZeros;
    var d := SubtractCoeffs(p, q);
    var s := DropTrailingZeros(d);
    TryUnfold(lhs, rhs, p, q, variable, constants);
    DroppedAreZero(d);
    forall i | i < 0 || i >= |s|
      ensures At(p, i) == At(q, i)
    {
      if 0 <= i < |d| { assert d[i] == 0.0; }
    }
    if s != [] {
      assert d[|s| - 1] == s[|s| - 1];
      assert At(p, |s| - 1) != At(q, |s| - 1);
    }
  }

  lemma ExtractedMeans(lhs: Ast, rhs: Ast, p: Coeffs, q: Coeffs, variable: string, constants: map<string, real>, x: real)
    requires Extract(lhs, variable, constants) == Some(p) && Extract(rhs, variable, constants) == Some(q)
    ensures var t := TryExtract(lhs, Some(rhs), variable, constants);
            if t.None? then Poly(p, x) == Poly(q, x) else Poly(Reverse(t.value), x) == Poly(p, x) - Poly(q, x)
  {
    hide Poly, Extract, TryExtract, DropTrailingZeros, SubtractCoeffs;
    var d := SubtractCoeffs(p, q);
    var s := DropTrailingZeros(d);
    TryUnfold(lhs, rhs, p, q, variable, constants);
    PolySubtract(p, q, x);
    DropKeepsPoly(d, x);
    assert Reverse(Reverse(s)) == s;
    NoCoefficients(x);
  }

  lemma {:induction false} DroppedAreZero(c: Coeffs)
    ensures forall i | |DropTrailingZeros(c)| <= i < |c| :: c[i] == 0.0
  {
    if c != [] && c[|c| - 1] == 0.0 {
      DroppedAreZero(c[..|c| - 1]);
      forall i | |DropTrailingZeros(c)| <= i < |c|
        ensures c[i] == 0.0
      {
        if i < |c| - 1 { assert c[..|c| - 1][i] == 0.0; }
      }
    }
  }

  lemma NoCoefficients(x: real)
    ensures Poly([], x) == 0.0
  {
  }

  /** Whatever the tool answers for p(x) = q(x): no polynomial left when every x satisfies it, no
      root when none does, and otherwise exactly the solutions in ascending order. */
  ghost predicate Answers(t: Option<Coeffs>, sqrt: real -> real, p: Coeffs, q: Coeffs) {
    match t
    case None => forall x: real :: Poly(p, x) == Poly(q, x)
    case Some(c) =>
      var r := SolveStripped(StripLeadingZeros(c), sqrt);
      if |c| == 1 then r == Failure(OnlyConstant) && forall x: real :: Poly(p, x) != Poly(q, x)
      else
        && r.Success? && r.value.Closed? && Ascending(r.value.roots)
        && forall x: real :: x in r.value.roots <==> Poly(p, x) == Poly(q, x)
  }

  lemma EquationAnswered(lhs: Ast, rhs: Ast, p: Coeffs, q: Coeffs, variable: string, constants: map<string, real>,
                         sqrt: real -> real)
    requires Extract(lhs, variable, constants) == Some(p) && Extract(rhs, variable, constants) == Some(q)
    requires MaxLen(p, q) <= 3
    requires At(p, 2) != At(q, 2) ==>
               IsSqrtAt(sqrt, Discriminant(At(p, 2) - At(q, 2), At(p, 1) - At(q, 1), At(p, 0) - At(q, 0)))
    ensures Answers(TryExtract(lhs, Some(rhs), variable, constants), sqrt, p, q)
  {
    hide Poly, Extract, TryExtract, SolveStripped;
    ExtractedEquation(lhs, rhs, p, q, variable, constants);
    var t := TryExtract(lhs, Some(rhs), variable, constants);
    forall x: real
      ensures t.None? ==> Poly(p, x) == Poly(q, x)
      ensures t.Some? ==> Poly(Reverse(t.value), x) == Poly(p, x) - Poly(q, x)
    {
      ExtractedMeans(lhs, rhs, p, q, variable, constants, x);
    }
    if t.Some? {
      var c := t.value;
      if |c| == 1 {
        forall x: real
          ensures Poly(Reverse(c), x) == c[0]
        {
          PolyConstant(Reverse(c), x);
        }
        LoneConstant(c, sqrt);
      } else {
        assert |c| == 3 ==> c[0] == At(p, 2) - At(q, 2) && c[1] == At(p, 1) - At(q, 1) && c[2] == At(p, 0) - At(q, 0);
        SolverFindsRealRoots(c, sqrt);
        forall x: real
          ensures Poly(p, x) == Poly(q, x) <==> Poly(Reverse(c), x) == 0.0
        {
          assert Poly(Reverse(c), x) == Poly(p, x) - Poly(q, x);
        }
      }
    }
  }

  lemma LoneConstant(c: Coeffs, sqrt: real -> real)
    requires |c| == 1
    ensures SolveStripped(StripLeadingZeros(c), sqrt) == Failure(OnlyConstant)
  {
  }

  /** Both sides written out as sums of terms. */
  lemma WrittenEquationAnswered(p: Coeffs, q: Coeffs, variable: string, constants: map<string, real>, sqrt: real -> real)
    requires 1 <= |p| <= 3 && 1 <= |q| <= 3
    requires At(p, 2) != At(q, 2) ==>
               IsSqrtAt(sqrt, Discriminant(At(p, 2) - At(q, 2), At(p, 1) - At(q, 1), At(p, 0) - At(q, 0)))
    ensures Answers(TryExtract(Written(p, variable), Some(Written(q, variable)), variable, constants), sqrt, p, q)
  {
    hide Extract, TryExtract, Answers;
    WrittenExtracted(p, variable, constants);
    WrittenExtracted(q, variable, constants);
    EquationAnswered(Written(p, variable), Written(q, variable), p, q, variable, constants, sqrt);
  }

  // ----- a*x^2 + b*x + c = d -----

  function QuadraticTree(a: real, b: real, c: real, variable: string): Ast {
    var x := Identifier(variable);
    Binary(Addition,
           Binary(Addition, Binary(Times, Literal(a), Binary(Power, x, Literal(2.0))), Binary(Times, Literal(b), x)),
           Literal(c))
  }

  lemma QuadraticTreeExtracted(a: real, b: real, c: real, variable: string, constants: map<string, real>)
    ensures Extract(QuadraticTree(a, b, c, variable), variable, constants) == Some([c, b, a])
  {
    hide Extract, Combine, Mono;
    var x := Identifier(variable);
    var ax2, bx := Binary(Times, Literal(a), Binary(Power, x, Literal(2.0))), Binary(Times, Literal(b), x);
    TermExtracted(a, 2, variable, constants);
    LeavesExtracted(b, c, variable, constants);
    ExtractUnfold(Times, Literal(b), x, variable, constants);
    ExtractUnfold(Addition, ax2, bx, variable, constants);
    ExtractUnfold(Addition, Binary(Addition, ax2, bx), Literal(c), variable, constants);
    SumsOfThree(a, b, c);
  }

  lemma LeavesExtracted(b: real, c: real, variable: string, constants: map<string, real>)
    ensures Extract(Literal(b), variable, constants) == Some([b]) && Extract(Literal(c), variable, constants) == Some([c])
    ensures Extract(Identifier(variable), variable, constants) == Some([0.0, 1.0])
  {
  }

  lemma SumsOfThree(a: real, b: real, c: real)
    ensures Combine(Times, [b], [0.0, 1.0]) == Some([0.0, b])
    ensures Combine(Addition, Mono(a, 2), [0.0, b]) == Some([0.0, b, a])
    ensures Combine(Addition, [0.0, b, a], [c]) == Some([c, b, a])
  {
    ScaleMono(b, 1);
    assert Mono(1.0, 1) == [0.0, 1.0] && Mono(b, 1) == [0.0, b];
    assert AddCoeffs(Mono(a, 2), [0.0, b]) == [0.0, b, a];
    assert AddCoeffs([0.0, b, a], [c]) == [c, b, a];
  }

  /** a*x^2 + b*x + c = d, for any numbers and any name of the unknown: never refused as no
      polynomial, and solved exactly. */
  lemma QuadraticEquationSolved(a: real, b: real, c: real, d: real, variable: string, constants: map<string, real>,
                                sqrt: real -> real)
    requires a != 0.0 ==> IsSqrtAt(sqrt, Discriminant(a, b, c - d))
    ensures var t := TryExtract(QuadraticTree(a, b, c, variable), Some(Literal(d)), variable, constants);
            && (t.None? <==> a == 0.0 && b == 0.0 && c == d)
            && (a == 0.0 && b == 0.0 && c != d ==>
                  SolveStripped(StripLeadingZeros(t.value), sqrt) == Failure(OnlyConstant))
            && (a != 0.0 || b != 0.0 ==>
                  var r := SolveStripped(StripLeadingZeros(t.value), sqrt);
                  && r.Success? && r.value.Closed? && Ascending(r.value.roots)
                  && forall x: real :: x in r.value.roots <==> a * (x * x) + b * x + c == d)
  {
    hide Extract, TryExtract, SolveStripped, Poly, Discriminant;
    var lhs, p, q := QuadraticTree(a, b, c, variable), [c, b, a], [d];
    QuadraticTreeExtracted(a, b, c, variable, constants);
    LeavesExtracted(d, d, variable, constants);
    EquationAnswered(lhs, Literal(d), p, q, variable, constants, sqrt);
    ExtractedEquation(lhs, Literal(d), p, q, variable, constants);
    var t := TryExtract(lhs, Some(Literal(d)), variable, constants);
    assert At(p, 0) == c && At(p, 1) == b && At(p, 2) == a && At(q, 0) == d && At(q, 1) == At(q, 2) == 0.0;
    forall x: real
      ensures Poly(p, x) == a * (x * x) + b * x + c && Poly(q, x) == d
    {
      assert Reverse([a, b, c]) == p;
      PolyDegreeTwo([a, b, c], x);
      PolyConstant(q, x);
    }
  }
}
