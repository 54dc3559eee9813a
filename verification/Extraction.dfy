/** Which syntax trees are polynomials for the extraction, and that written polynomials are read
    back coefficient by coefficient. */
module Extraction {
  import opened Wrappers
  import opened Syntax
  import opened Evaluator
  import opened Polynomials

  // ----- Exactly which trees are extracted -----

  /** The tree's value with no variable bound but the unknown, which is set to zero. */
  function ValueAtZero(node: Ast, variable: string, env: Env): Result<real, RuntimeError> {
    CompileSingleVariable(node, variable, env.(variables := map[]))(0.0)
  }

  /** The degree read off the tree: constants that cancel are not noticed. */
  function Degree(node: Ast, variable: string, env: Env): nat {
    match node
    case Identifier(name) => if name == variable then 1 else 0
    case Unary(_, operand) => Degree(operand, variable, env)
    case Binary(op, left, right) =>
      var d, e := Degree(left, variable, env), Degree(right, variable, env);
      (match op
       case Addition => Larger(d, e)
       case Subtraction => Larger(d, e)
       case Times => d + e
       case Divide => d
       case Power =>
         var v := ValueAtZero(right, variable, env);
         if v.Success? && v.value >= 0.0 then d * v.value.Floor else 0
       case Modulo => 0)
    case _ => 0
  }

  function Larger(d: nat, e: nat): (m: nat)
    ensures m >= d && m >= e && (m == d || m == e)
  {
    if d < e then e else d
  }

  predicate IsExponent(v: real) {
    v in {0.0, 1.0, 2.0, 3.0, 4.0, 5.0, 6.0, 7.0, 8.0}
  }

  lemma ExponentIff(v: real)
    ensures IsExponent(v) <==> IsNatural(v) && v <= MAX_EXPONENT as real
  {
    if IsNatural(v) && v <= 8.0 {
      var n := v.Floor;
      assert n == 0 || n == 1 || n == 2 || n == 3 || n == 4 || n == 5 || n == 6 || n == 7 || n == 8;
    }
  }

  /** Built from numbers, constants and the unknown by signs, sums, differences, products, division
      by a constant that is not zero, and constant powers from 0 to 8. */
  ghost predicate IsPolynomial(node: Ast, variable: string, env: Env) {
    match node
    case Literal(_) => true
    case Identifier(name) => name == variable || name in env.constants
    case Unary(_, operand) => IsPolynomial(operand, variable, env)
    case Binary(op, left, right) =>
      && IsPolynomial(left, variable, env) && IsPolynomial(right, variable, env) && op != Modulo
      && (op == Divide ==> Degree(right, variable, env) == 0 && ValueAtZero(right, variable, env) != Success(0.0))
      && (op == Power ==>
            Degree(right, variable, env) == 0
            && ValueAtZero(right, variable, env).Success? && IsExponent(ValueAtZero(right, variable, env).value))
    case _ => false
  }

  /** Extraction succeeds on exactly these trees, with one coefficient per degree. */
  lemma {:induction false} ExtractedIff(node: Ast, variable: string, env: Env)
    ensures var c := Extract(node, variable, env.constants);
            && (c.Some? <==> IsPolynomial(node, variable, env))
            && (c.Some? ==> |c.value| == Degree(node, variable, env) + 1)
    decreases node
  {
    match node
    case Unary(_, operand) => ExtractedIff(operand, variable, env);
    case Binary(op, left, right) =>
      hide ValueAtZero, Extract, Combine, PowCoeffs;
      ExtractedIff(left, variable, env);
      ExtractedIff(right, variable, env);
      var l, r := Extract(left, variable, env.constants), Extract(right, variable, env.constants);
      ExtractUnfold(op, left, right, variable, env.constants);
      if l.Some? && r.Some? {
        if |r.value| == 1 { ConstantValue(right, variable, env); }
        CombinedIff(op, l.value, r.value);
      }
    case _ =>
  }

  lemma ExtractUnfold(op: Operator, left: Ast, right: Ast, variable: string, constants: map<string, real>)
    ensures var l, r := Extract(left, variable, constants), Extract(right, variable, constants);
            Extract(Binary(op, left, right), variable, constants)
            == if l.None? || r.None? then None else Combine(op, l.value, r.value)
  {
  }

  /** A single coefficient is the tree's value. */
  lemma ConstantValue(node: Ast, variable: string, env: Env)
    requires Extract(node, variable, env.constants).Some? && |Extract(node, variable, env.constants).value| == 1
    ensures ValueAtZero(node, variable, env) == Success(Extract(node, variable, env.constants).value[0])
  {
    var e := env.(variables := map[]);
    ExtractionPreservesMeaning(node, variable, e, 0.0);
    PolyConstant(Extract(node, variable, env.constants).value, 0.0);
  }

  function CombinedLength(op: Operator, l: Coeffs, r: Coeffs): int
    requires l != [] && r != []
  {
    match op
    case Times => |l| + |r| - 1
    case Divide => |l|
    case Power => (|l| - 1) * r[0].Floor + 1
    case _ => Larger(|l|, |r|)
  }

  /** When two coefficient lists combine, and how many coefficients result. */
  lemma CombinedIff(op: Operator, l: Coeffs, r: Coeffs)
    requires l != [] && r != []
    ensures var c := Combine(op, l, r);
            && (c.Some? <==>
                  && op != Modulo
                  && (op == Divide ==> |r| == 1 && r[0] != 0.0)
                  && (op == Power ==> |r| == 1 && IsExponent(r[0])))
            && (c.Some? ==> |c.value| == CombinedLength(op, l, r))
  {
    if op == Power && |r| == 1 {
      hide PowCoeffs, IsExponent;
      ExponentIff(r[0]);
      if IsExponent(r[0]) { PowLength(l, r[0].Floor); }
    }
  }

  lemma {:induction false} PowLength(l: Coeffs, n: nat)
    requires l != []
    ensures |PowCoeffs(l, n)| == (|l| - 1) * n + 1
  {
    if n > 0 {
      PowLength(l, n - 1);
      assert (|l| - 1) * n == (|l| - 1) * (n - 1) + (|l| - 1);
    }
  }

  predicate Extracts(node: Ast, variable: string, constants: map<string, real>) {
    Extract(node, variable, constants).Some?
  }

  /** The same for each operator, in terms of what its operands extract to. */
  lemma OperatorsExtractedIff(left: Ast, right: Ast, variable: string, constants: map<string, real>)
    ensures var both := Extracts(left, variable, constants) && Extracts(right, variable, constants);
            && (Extracts(Binary(Addition, left, right), variable, constants) <==> both)
            && (Extracts(Binary(Subtraction, left, right), variable, constants) <==> both)
            && (Extracts(Binary(Times, left, right), variable, constants) <==> both)
            && !Extracts(Binary(Modulo, left, right), variable, constants)
    ensures Extracts(Unary(true, left), variable, constants) == Extracts(Unary(false, left), variable, constants)
         == Extracts(left, variable, constants)
  {
  }

  /** A quotient iff the divisor comes out as one coefficient that is not zero. */
  lemma QuotientExtractedIff(left: Ast, right: Ast, variable: string, constants: map<string, real>)
    ensures Extracts(Binary(Divide, left, right), variable, constants) <==>
              Extracts(left, variable, constants)
              && exists d: real :: d != 0.0 && Extract(right, variable, constants) == Some([d])
  {
    hide Extract, Combine;
    var l, r := Extract(left, variable, constants), Extract(right, variable, constants);
    ExtractUnfold(Divide, left, right, variable, constants);
    if l.Some? && r.Some? {
      CombinedIff(Divide, l.value, r.value);
      if |r.value| == 1 { assert r.value == [r.value[0]]; }
    }
  }

  /** A power iff the exponent comes out as one coefficient, a natural number up to 8. */
  lemma PowerExtractedIff(left: Ast, right: Ast, variable: string, constants: map<string, real>)
    ensures Extracts(Binary(Power, left, right), variable, constants) <==>
              Extracts(left, variable, constants)
              && exists v: real :: IsExponent(v) && Extract(right, variable, constants) == Some([v])
  {
    hide Extract, Combine, IsExponent;
    var l, r := Extract(left, variable, constants), Extract(right, variable, constants);
    ExtractUnfold(Power, left, right, variable, constants);
    if l.Some? && r.Some? {
      CombinedIff(Power, l.value, r.value);
      if |r.value| == 1 { assert r.value == [r.value[0]]; }
    }
  }

  // ----- A written polynomial is read back -----

  /** c[0] + c[1]*x^1 + ... + c[n-1]*x^(n-1) as a tree. */
  function Written(c: Coeffs, variable: string): Ast
    requires c != []
  {
    var n := |c| - 1;
    if n == 0 then Literal(c[0])
    else
      Binary(Addition, Written(c[..n], variable),
             Binary(Times, Literal(c[n]), Binary(Power, Identifier(variable), Literal(n as real))))
  }

  /** The coefficients of k*x^n. */
  function Mono(k: real, n: nat): (c: Coeffs)
    ensures |c| == n + 1
  {
    seq(n + 1, i => if i == n then k else 0.0)
  }

  lemma {:induction false} ConvolveMono(n: nat, b: Coeffs, k: int, t: nat)
    requires t <= n + 1
    ensures Convolve(Mono(1.0, n), b, k, t) == if t > n then At(b, k - n) else 0.0
  {
    if t > 0 {
      ConvolveMono(n, b, k, t - 1);
      assert Mono(1.0, n)[t - 1] == if t - 1 == n then 1.0 else 0.0;
    }
  }

  lemma {:induction false} PowVariable(n: nat)
    ensures PowCoeffs([0.0, 1.0], n) == Mono(1.0, n)
  {
    if n > 0 {
      PowVariable(n - 1);
      var p := MulCoeffs(Mono(1.0, n - 1), [0.0, 1.0]);
      forall k | 0 <= k < n + 1
        ensures p[k] == Mono(1.0, n)[k]
      {
        ConvolveMono(n - 1, [0.0, 1.0], k, n);
      }
    }
  }

  lemma ScaleMono(k: real, n: nat)
    ensures MulCoeffs([k], Mono(1.0, n)) == Mono(k, n)
  {
    var p := MulCoeffs([k], Mono(1.0, n));
    forall i | 0 <= i < n + 1
      ensures p[i] == Mono(k, n)[i]
    {
      assert Convolve([k], Mono(1.0, n), i, 0) == 0.0;
      assert Convolve([k], Mono(1.0, n), i, 1) == 0.0 + k * At(Mono(1.0, n), i);
    }
  }

  lemma TermExtracted(k: real, n: nat, variable: string, constants: map<string, real>)
    requires n <= 8
    ensures Extract(Binary(Power, Identifier(variable), Literal(n as real)), variable, constants) == Some(Mono(1.0, n))
    ensures Extract(Binary(Times, Literal(k), Binary(Power, Identifier(variable), Literal(n as real))), variable, constants)
         == Some(Mono(k, n))
  {
    hide MulCoeffs, PowCoeffs;
    var power := Binary(Power, Identifier(variable), Literal(n as real));
    assert Extract(Identifier(variable), variable, constants) == Some([0.0, 1.0]);
    assert Extract(Literal(n as real), variable, constants) == Some([n as real]);
    assert (n as real).Floor == n && IsNatural(n as real);
    PowVariable(n);
    assert Combine(Power, [0.0, 1.0], [n as real]) == Some(Mono(1.0, n));
    assert Extract(power, variable, constants) == Some(Mono(1.0, n));
    ScaleMono(k, n);
    assert Extract(Literal(k), variable, constants) == Some([k]);
    assert Combine(Times, [k], Mono(1.0, n)) == Some(Mono(k, n));
  }

  /** Every list of one to nine coefficients, written out as a sum of terms, comes back as it is. */
  lemma {:induction false} WrittenExtracted(c: Coeffs, variable: string, constants: map<string, real>)
    requires 1 <= |c| <= 9
    ensures Extract(Written(c, variable), variable, constants) == Some(c)
  {
    var n := |c| - 1;
    if n > 0 {
      hide Extract, Combine, Mono;
      WrittenUnfold(c, variable);
      WrittenExtracted(c[..n], variable, constants);
      TermExtracted(c[n], n, variable, constants);
      ExtractUnfold(Addition, Written(c[..n], variable),
                    Binary(Times, Literal(c[n]), Binary(Power, Identifier(variable), Literal(n as real))), variable, constants);
      SumOfTerms(c);
    } else {
      assert c == [c[0]];
    }
  }

  lemma WrittenUnfold(c: Coeffs, variable: string)
    requires |c| >= 2
    ensures var n := |c| - 1;
            Written(c, variable)
            == Binary(Addition, Written(c[..n], variable),
                      Binary(Times, Literal(c[n]), Binary(Power, Identifier(variable), Literal(n as real))))
  {
  }

  lemma SumOfTerms(c: Coeffs)
    requires |c| >= 2
    ensures Combine(Addition, c[..|c| - 1], Mono(c[|c| - 1], |c| - 1)) == Some(c)
  {
    assert AddCoeffs(c[..|c| - 1], Mono(c[|c| - 1], |c| - 1)) == c;
  }
}
