/** Coefficient extraction: a compiler from syntax trees to polynomials, low degree first,
    and the proof that it preserves what the evaluator computes. */
module Polynomials {
  import opened Wrappers
  import opened Syntax
  import opened Evaluator

  type Coeffs = seq<real>

  function At(c: Coeffs, i: int): real {
    if 0 <= i < |c| then c[i] else 0.0
  }

  /** c[0] + c[1]*x + ... + c[n-1]*x^(n-1) */
  function PolySum(c: Coeffs, x: real, n: nat): real {
    if n == 0 then 0.0 else PolySum(c, x, n - 1) + At(c, n - 1) * PowerOf(x, n - 1)
  }

  function Poly(c: Coeffs, x: real): real {
    PolySum(c, x, |c|)
  }

  // ----- What the coefficient loops compute -----

  function MaxLen(a: Coeffs, b: Coeffs): nat {
    if |a| < |b| then |b| else |a|
  }

  function AddCoeffs(a: Coeffs, b: Coeffs): (c: Coeffs)
    ensures |c| == MaxLen(a, b)
  {
    seq(MaxLen(a, b), i requires 0 <= i => At(a, i) + At(b, i))
  }

  function SubtractCoeffs(a: Coeffs, b: Coeffs): (c: Coeffs)
    ensures |c| == MaxLen(a, b)
  {
    seq(MaxLen(a, b), i requires 0 <= i => At(a, i) - At(b, i))
  }

  function ScaleCoeffs(a: Coeffs, k: real): (c: Coeffs)
    ensures |c| == |a|
  {
    seq(|a|, i requires 0 <= i < |a| => k * a[i])
  }

  function DivideCoeffs(a: Coeffs, d: real): (c: Coeffs)
    requires d != 0.0
    ensures |c| == |a|
  {
    seq(|a|, i requires 0 <= i < |a| => a[i] / d)
  }

  /** a[0]*b[k] + a[1]*b[k-1] + ... , the first t products. */
  function Convolve(a: Coeffs, b: Coeffs, k: int, t: nat): real
    requires t <= |a|
  {
    if t == 0 then 0.0 else Convolve(a, b, k, t - 1) + a[t - 1] * At(b, k - (t - 1))
  }

  function MulCoeffs(a: Coeffs, b: Coeffs): (c: Coeffs)
    requires a != [] && b != []
    ensures |c| == |a| + |b| - 1
  {
    seq(|a| + |b| - 1, k requires 0 <= k => Convolve(a, b, k, |a|))
  }

  function PowCoeffs(a: Coeffs, n: nat): (c: Coeffs)
    requires a != []
    ensures c != []
  {
    if n == 0 then [1.0] else MulCoeffs(PowCoeffs(a, n - 1), a)
  }

  // ----- Extraction -----

  const MAX_EXPONENT: nat := 8

  function Extract(node: Ast, variable: string, constants: map<string, real>): (r: Option<Coeffs>)
    ensures r.Some? ==> r.value != []
  {
    match node
    case Literal(value) => Some([value])
    case Identifier(name) =>
      if name == variable then Some([0.0, 1.0])
      else if name in constants then Some([constants[name]])
      else None
    case Unary(minus, operand) =>
      var inner := Extract(operand, variable, constants);
      if inner.Some? && minus then Some(ScaleCoeffs(inner.value, -1.0)) else inner
    case Binary(op, left, right) =>
      var l := Extract(left, variable, constants);
      var r := Extract(right, variable, constants);
      if l.None? || r.None? then None else Combine(op, l.value, r.value)
    case Factorial(_) => None
    case Call(_, _) => None
  }

  function Combine(op: Operator, l: Coeffs, r: Coeffs): (c: Option<Coeffs>)
    requires l != [] && r != []
    ensures c.Some? ==> c.value != []
  {
    match op
    case Addition => Some(AddCoeffs(l, r))
    case Subtraction => Some(SubtractCoeffs(l, r))
    case Times => Some(MulCoeffs(l, r))
    case Divide => if |r| != 1 || r[0] == 0.0 then None else Some(DivideCoeffs(l, r[0]))
    case Power =>
      if |r| != 1 || !IsNatural(r[0]) || r[0] > MAX_EXPONENT as real then None else Some(PowCoeffs(l, r[0].Floor))
    case Modulo => None
  }

  // ----- The loops themselves -----

  method AddCoeffsLoop(a: Coeffs, b: Coeffs) returns (c: Coeffs)
    ensures c == AddCoeffs(a, b)
  {
    var len := MaxLen(a, b);
    var out := new real[len](_ => 0.0);
    for i := 0 to len
      invariant forall k | 0 <= k < i :: out[k] == At(a, k) + At(b, k)
    {
      out[i] := (if i < |a| then a[i] else 0.0) + (if i < |b| then b[i] else 0.0);
    }
    return out[..];
  }

  method SubtractCoeffsLoop(a: Coeffs, b: Coeffs) returns (c: Coeffs)
    ensures c == SubtractCoeffs(a, b)
  {
    var len := MaxLen(a, b);
    var out := new real[len](_ => 0.0);
    for i := 0 to len
      invariant forall k | 0 <= k < i :: out[k] == At(a, k) - At(b, k)
    {
      out[i] := (if i < |a| then a[i] else 0.0) - (if i < |b| then b[i] else 0.0);
    }
    return out[..];
  }

  method MulCoeffsLoop(a: Coeffs, b: Coeffs) returns (c: Coeffs)
    requires a != [] && b != []
    ensures c == MulCoeffs(a, b)
  {
    var out := new real[|a| + |b| - 1](_ => 0.0);
    for i := 0 to |a|
      invariant forall k | 0 <= k < out.Length :: out[k] == Convolve(a, b, k, i)
    {
      for j := 0 to |b|
        invariant forall k | 0 <= k < out.Length ::
                    out[k] == Convolve(a, b, k, i) + if i <= k < i + j then a[i] * b[k - i] else 0.0
      {
        out[i + j] := out[i + j] + a[i] * b[j];
      }
      assert forall k | 0 <= k < out.Length :: out[k] == Convolve(a, b, k, i) + a[i] * At(b, k - i);
    }
    return out[..];
  }

  method ExtractCoeffs(node: Ast, variable: string, constants: map<string, real>) returns (r: Option<Coeffs>)
    ensures r == Extract(node, variable, constants)
    decreases node
  {
    match node
    case Literal(value) => r := Some([value]);
    case Identifier(name) =>
      if name == variable {
        r := Some([0.0, 1.0]);
      } else if name in constants {
        r := Some([constants[name]]);
      } else {
        r := None;
      }
    case Unary(minus, operand) =>
      r := ExtractCoeffs(operand, variable, constants);
      if r.Some? && minus { r := Some(ScaleCoeffs(r.value, -1.0)); }
    case Binary(op, left, right) =>
      var l := ExtractCoeffs(left, variable, constants);
      var rt := ExtractCoeffs(right, variable, constants);
      if l.None? || rt.None? { return None; }
      r := CombineLoop(op, l.value, rt.value);
    case Factorial(_) => r := None;
    case Call(_, _) => r := None;
  }

  method CombineLoop(op: Operator, l: Coeffs, r: Coeffs) returns (c: Option<Coeffs>)
    requires l != [] && r != []
    ensures c == Combine(op, l, r)
  {
    match op
    case Addition => var s := AddCoeffsLoop(l, r); c := Some(s);
    case Subtraction => var s := SubtractCoeffsLoop(l, r); c := Some(s);
    case Times => var s := MulCoeffsLoop(l, r); c := Some(s);
    case Divide => c := if |r| != 1 || r[0] == 0.0 then None else Some(DivideCoeffs(l, r[0]));
    case Power =>
      if |r| != 1 || !IsNatural(r[0]) || r[0] > MAX_EXPONENT as real { return None; }
      var acc: Coeffs := [1.0];
      for i := 0 to r[0].Floor
        invariant acc == PowCoeffs(l, i)
      {
        acc := MulCoeffsLoop(acc, l);
      }
      c := Some(acc);
    case Modulo => c := None;
  }

  // ----- Coefficient operations are polynomial operations -----

  lemma {:induction false} PolySumPad(c: Coeffs, x: real, n: nat)
    requires |c| <= n
    ensures PolySum(c, x, n) == Poly(c, x)
  {
    if n > |c| {
      PolySumPad(c, x, n - 1);
    }
  }

  /** A combination u + k*v of coefficients gives the same combination of values. */
  lemma {:induction false} PolySumLinear(c: Coeffs, u: Coeffs, k: real, v: Coeffs, x: real, n: nat)
    requires forall i | 0 <= i < n :: At(c, i) == At(u, i) + k * At(v, i)
    ensures PolySum(c, x, n) == PolySum(u, x, n) + k * PolySum(v, x, n)
  {
    if n > 0 {
      hide PolySum, At, PowerOf;
      PolySumLinear(c, u, k, v, x, n - 1);
      PolySumStep(c, x, n);
      PolySumStep(u, x, n);
      PolySumStep(v, x, n);
      LinearTerm(PolySum(u, x, n - 1), At(u, n - 1), k, PolySum(v, x, n - 1), At(v, n - 1), PowerOf(x, n - 1));
    }
  }

  lemma LinearTerm(su: real, u: real, k: real, sv: real, v: real, p: real)
    ensures su + k * sv + (u + k * v) * p == (su + u * p) + k * (sv + v * p)
  {
    assert (u + k * v) * p == u * p + k * (v * p);
    assert k * (sv + v * p) == k * sv + k * (v * p);
  }

  lemma PolyAdd(a: Coeffs, b: Coeffs, x: real)
    ensures Poly(AddCoeffs(a, b), x) == Poly(a, x) + Poly(b, x)
  {
    var n := MaxLen(a, b);
    PolySumLinear(AddCoeffs(a, b), a, 1.0, b, x, n);
    PolySumPad(a, x, n);
    PolySumPad(b, x, n);
  }

  lemma PolySubtract(a: Coeffs, b: Coeffs, x: real)
    ensures Poly(SubtractCoeffs(a, b), x) == Poly(a, x) - Poly(b, x)
  {
    var n := MaxLen(a, b);
    PolySumLinear(SubtractCoeffs(a, b), a, -1.0, b, x, n);
    PolySumPad(a, x, n);
    PolySumPad(b, x, n);
  }

  lemma PolyScale(a: Coeffs, k: real, x: real)
    ensures Poly(ScaleCoeffs(a, k), x) == k * Poly(a, x)
  {
    PolySumZero([], x, |a|);
    var c := ScaleCoeffs(a, k);
    forall i | 0 <= i < |a|
      ensures At(c, i) == At([], i) + k * At(a, i)
    {
      assert c[i] == k * a[i];
    }
    PolySumLinear(c, [], k, a, x, |a|);
  }

  lemma PolyDivide(a: Coeffs, d: real, x: real)
    requires d != 0.0
    ensures Poly(DivideCoeffs(a, d), x) == Poly(a, x) / d
  {
    var k := 1.0 / d;
    var c, s := DivideCoeffs(a, d), ScaleCoeffs(a, k);
    forall i | 0 <= i < |a|
      ensures c[i] == s[i]
    {
      DivideIsScale(a[i], d);
    }
    assert c == s;
    PolyScale(a, k, x);
    DivideIsScale(Poly(a, x), d);
  }

  lemma DivideIsScale(y: real, d: real)
    requires d != 0.0
    ensures y / d == (1.0 / d) * y
  {
  }

  lemma {:induction false} PolySumZero(c: Coeffs, x: real, n: nat)
    requires forall i | 0 <= i < n :: At(c, i) == 0.0
    ensures PolySum(c, x, n) == 0.0
  {
    if n > 0 {
      PolySumZero(c, x, n - 1);
    }
  }

  /** b moved up by t places. */
  function Shift(b: Coeffs, t: nat, n: nat): (c: Coeffs)
    ensures |c| == n
  {
    seq(n, k requires 0 <= k => At(b, k - t))
  }

  lemma {:induction false} PolySumShift(b: Coeffs, t: nat, n: nat, x: real, m: nat)
    requires t + m <= n
    ensures PolySum(Shift(b, t, n), x, t + m) == PowerOf(x, t) * PolySum(b, x, m)
  {
    hide PolySum, PowerOf;
    if m == 0 {
      PolySumEmpty(b, x);
      forall i | 0 <= i < t
        ensures At(Shift(b, t, n), i) == 0.0
      {
        assert Shift(b, t, n)[i] == At(b, i - t);
      }
      PolySumZero(Shift(b, t, n), x, t);
    } else {
      PolySumShift(b, t, n, x, m - 1);
      PowerSum(x, t, m - 1);
      var sh := Shift(b, t, n);
      assert sh[t + m - 1] == At(b, m - 1);
      PolySumStep(sh, x, t + m);
      PolySumStep(b, x, m);
      ShiftTerm(PowerOf(x, t), PolySum(b, x, m - 1), At(b, m - 1), PowerOf(x, m - 1), PowerOf(x, t + (m - 1)),
                PolySum(b, x, m), PolySum(sh, x, t + m - 1), PolySum(sh, x, t + m));
    }
  }

  lemma PolySumEmpty(c: Coeffs, x: real)
    ensures PolySum(c, x, 0) == 0.0
  {
  }

  lemma PolySumStep(c: Coeffs, x: real, n: nat)
    requires n > 0
    ensures PolySum(c, x, n) == PolySum(c, x, n - 1) + At(c, n - 1) * PowerOf(x, n - 1)
  {
  }

  lemma ShiftTerm(p: real, s: real, e: real, q: real, pq: real, s': real, z: real, z': real)
    requires pq == p * q && s' == s + e * q && z == p * s && z' == z + e * pq
    ensures z' == p * s'
  {
    assert p * (s + e * q) == p * s + e * (p * q);
  }

  lemma {:induction false} PowerSum(x: real, m: nat, n: nat)
    ensures PowerOf(x, m + n) == PowerOf(x, m) * PowerOf(x, n)
  {
    if m > 0 {
      PowerSum(x, m - 1, n);
      var p, q := PowerOf(x, m - 1), PowerOf(x, n);
      assert x * (p * q) == (x * p) * q;
    }
  }

  /** The convolution with only the first t coefficients of a. */
  function PartialProduct(a: Coeffs, b: Coeffs, t: nat): (c: Coeffs)
    requires a != [] && b != [] && t <= |a|
    ensures |c| == |a| + |b| - 1
  {
    seq(|a| + |b| - 1, k requires 0 <= k => Convolve(a, b, k, t))
  }

  lemma {:induction false} PolyPartialProduct(a: Coeffs, b: Coeffs, x: real, t: nat)
    requires a != [] && b != [] && t <= |a|
    ensures Poly(PartialProduct(a, b, t), x) == PolySum(a, x, t) * Poly(b, x)
  {
    var n := |a| + |b| - 1;
    if t == 0 {
      PolySumZero(PartialProduct(a, b, 0), x, n);
    } else {
      PolyPartialProduct(a, b, x, t - 1);
      PartialProductStep(a, b, x, t - 1);
      var s, e, p, v := PolySum(a, x, t - 1), a[t - 1], PowerOf(x, t - 1), Poly(b, x);
      FactorOut(s, e, p, v);
    }
  }

  lemma FactorOut(s: real, e: real, p: real, v: real)
    ensures s * v + e * (p * v) == (s + e * p) * v
  {
  }

  lemma PartialProductStep(a: Coeffs, b: Coeffs, x: real, t: nat)
    requires a != [] && b != [] && t < |a|
    ensures Poly(PartialProduct(a, b, t + 1), x)
         == Poly(PartialProduct(a, b, t), x) + a[t] * (PowerOf(x, t) * Poly(b, x))
  {
    hide PolySum;
    var n := |a| + |b| - 1;
    var sh := Shift(b, t, n);
    var c, u := PartialProduct(a, b, t + 1), PartialProduct(a, b, t);
    forall i | 0 <= i < n
      ensures At(c, i) == At(u, i) + a[t] * At(sh, i)
    {
      assert At(sh, i) == At(b, i - t);
    }
    PolySumLinear(c, u, a[t], sh, x, n);
    PolySumShift(b, t, n, x, n - t);
    PolySumPad(b, x, n - t);
  }

  lemma PolyMul(a: Coeffs, b: Coeffs, x: real)
    requires a != [] && b != []
    ensures Poly(MulCoeffs(a, b), x) == Poly(a, x) * Poly(b, x)
  {
    PolyPartialProduct(a, b, x, |a|);
    assert PartialProduct(a, b, |a|) == MulCoeffs(a, b);
  }

  lemma {:induction false} PolyPow(a: Coeffs, n: nat, x: real)
    requires a != []
    ensures Poly(PowCoeffs(a, n), x) == PowerOf(Poly(a, x), n)
  {
    if n == 0 {
      assert Poly([1.0], x) == PolySum([1.0], x, 0) + 1.0 * PowerOf(x, 0);
    } else {
      PolyPow(a, n - 1, x);
      PolyMul(PowCoeffs(a, n - 1), a, x);
    }
  }

  lemma PolyConstant(c: Coeffs, x: real)
    requires |c| == 1
    ensures Poly(c, x) == c[0]
  {
    assert PolySum(c, x, 0) == 0.0 && PowerOf(x, 0) == 1.0;
    assert PolySum(c, x, 1) == PolySum(c, x, 0) + At(c, 0) * 1.0;
  }

  lemma PolyIdentity(x: real)
    ensures Poly([0.0, 1.0], x) == x
  {
    var c := [0.0, 1.0];
    assert PowerOf(x, 1) == x * PowerOf(x, 0) == x;
    assert PolySum(c, x, 1) == PolySum(c, x, 0) + At(c, 0) * PowerOf(x, 0) == 0.0;
    assert PolySum(c, x, 2) == PolySum(c, x, 1) + At(c, 1) * PowerOf(x, 1) == 1.0 * x;
  }

  // ----- Extraction preserves meaning -----

  /** No variable other than the unknown gives a built-in constant another value. */
  ghost predicate RespectsConstants(env: Env, variable: string) {
    forall name | name in env.constants && name in env.variables && name != variable ::
      env.variables[name] == env.constants[name]
  }

  lemma ApplyTimes(u: real, v: real, w: real, env: Env)
    requires w == u * v
    ensures ApplyBinary(Times, u, v, env) == Success(w)
  {
  }

  lemma CombinePreserves(op: Operator, l: Coeffs, r: Coeffs, x: real, env: Env)
    requires l != [] && r != [] && Combine(op, l, r).Some?
    ensures ApplyBinary(op, Poly(l, x), Poly(r, x), env) == Success(Poly(Combine(op, l, r).value, x))
  {
    hide Poly, AddCoeffs, SubtractCoeffs, MulCoeffs, DivideCoeffs, PowCoeffs, PowerOf;
    match op
    case Addition => PolyAdd(l, r, x);
    case Subtraction => PolySubtract(l, r, x);
    case Times =>
      PolyMul(l, r, x);
      ApplyTimes(Poly(l, x), Poly(r, x), Poly(MulCoeffs(l, r), x), env);
    case Divide =>
      PolyConstant(r, x);
      PolyDivide(l, r[0], x);
      assert ApplyBinary(op, Poly(l, x), Poly(r, x), env) == Success(Poly(l, x) / r[0]);
    case Power =>
      PolyConstant(r, x);
      PolyPow(l, r[0].Floor, x);
      assert ApplyBinary(op, Poly(l, x), Poly(r, x), env) == Success(PowerOf(Poly(l, x), r[0].Floor));
  }

  /** If extraction succeeds, evaluating the tree at x succeeds with the polynomial's value. */
  lemma {:induction false} ExtractionPreservesMeaning(node: Ast, variable: string, env: Env, x: real)
    requires Extract(node, variable, env.constants).Some? && RespectsConstants(env, variable)
    ensures CompileSingleVariable(node, variable, env)(x)
         == Success(Poly(Extract(node, variable, env.constants).value, x))
    decreases node
  {
    var at := env.(variables := env.variables[variable := x]);
    match node
    case Literal(value) => PolyConstant([value], x);
    case Identifier(name) =>
      if name == variable {
        PolyIdentity(x);
      } else {
        PolyConstant([env.constants[name]], x);
      }
    case Unary(minus, operand) =>
      hide Poly, ScaleCoeffs;
      var cs := Extract(operand, variable, env.constants).value;
      ExtractionPreservesMeaning(operand, variable, env, x);
      PolyScale(cs, -1.0, x);
    case Binary(op, left, right) =>
      hide Poly, Combine, ApplyBinary;
      ExtractionPreservesMeaning(left, variable, env, x);
      ExtractionPreservesMeaning(right, variable, env, x);
      CombinePreserves(op, Extract(left, variable, env.constants).value,
                       Extract(right, variable, env.constants).value, x, at);
  }

  /** The hypothesis on constants is exactly what is needed: it holds iff extraction
      preserves the meaning of every tree. */
  lemma PreservesMeaningIff(variable: string, env: Env)
    ensures RespectsConstants(env, variable) <==>
      forall node: Ast, x: real | Extract(node, variable, env.constants).Some? ::
        CompileSingleVariable(node, variable, env)(x)
        == Success(Poly(Extract(node, variable, env.constants).value, x))
  {
    if RespectsConstants(env, variable) {
      forall node: Ast, x: real | Extract(node, variable, env.constants).Some?
        ensures CompileSingleVariable(node, variable, env)(x)
             == Success(Poly(Extract(node, variable, env.constants).value, x))
      {
        ExtractionPreservesMeaning(node, variable, env, x);
      }
    } else {
      var name :| name in env.constants && name in env.variables && name != variable
        && env.variables[name] != env.constants[name];
      var node := Identifier(name);
      assert Extract(node, variable, env.constants) == Some([env.constants[name]]);
      PolyConstant([env.constants[name]], 0.0);
      assert CompileSingleVariable(node, variable, env)(0.0) == Success(env.variables[name]);
    }
  }
}
