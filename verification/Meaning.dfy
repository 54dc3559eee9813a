/** What an expression means, read off its derivation by the tokens of the operators and the digits
    of the numerals, and that evaluating the parsed tree gives exactly this, errors included. */
module Meaning {
  import opened Wrappers
  import opened Syntax
  import opened Grammar
  import opened Evaluator
  import opened ParserSpec
  import opened ParserTheorems
  import opened Numerals

  // ----- The operations -----

  predicate Leaves(l: real, r: real, m: real, q: int) {
    l == q as real * r + m
  }

  /** m is what truncating division of l by r leaves: less than r in size, with the sign of l. */
  ghost predicate IsRemainder(l: real, r: real, m: real) {
    && (exists q: int :: Leaves(l, r, m, q))
    && Size(m) < Size(r) && (m > 0.0 ==> l > 0.0) && (m < 0.0 ==> l < 0.0)
  }

  function Size(x: real): real {
    if x < 0.0 then -x else x
  }

  /** The remainder computed is the only such number. */
  lemma RemainderIff(l: real, r: real, m: real)
    requires r != 0.0
    ensures Remainder(l, r) == m <==> IsRemainder(l, r, m)
  {
    RemainderFits(l, r);
    if IsRemainder(l, r, m) {
      var q: int :| Leaves(l, r, m, q);
      var p: int :| Leaves(l, r, Remainder(l, r), p);
      OneRemainder(l, r, q, m, p, Remainder(l, r));
    }
  }

  lemma RemainderFits(l: real, r: real)
    requires r != 0.0
    ensures IsRemainder(l, r, Remainder(l, r))
  {
    var q := l / r;
    assert q * r == l;
    var t := if q >= 0.0 then q.Floor else -(-q).Floor;
    var f := q - t as real;
    var m := Remainder(l, r);
    assert m == f * r;
    assert Leaves(l, r, m, t);
    assert -1.0 < f < 1.0 && (q >= 0.0 ==> f >= 0.0) && (q < 0.0 ==> f <= 0.0);
    FractionOf(f, r, m);
    SignOf(q, r, l);
    SignOf(f, r, m);
  }

  lemma FractionOf(f: real, r: real, m: real)
    requires -1.0 < f < 1.0 && r != 0.0 && m == f * r
    ensures Size(m) < Size(r)
  {
    var g := if f < 0.0 then -f else f;
    var s := Size(r);
    assert Size(m) == g * s by {
      assert f * s == if r > 0.0 then m else -m;
    }
    Shrinks(g, s);
  }

  lemma Shrinks(g: real, s: real)
    requires 0.0 <= g < 1.0 && s > 0.0
    ensures 0.0 <= g * s < s
  {
  }

  lemma SignOf(f: real, r: real, m: real)
    requires r != 0.0 && m == f * r
    ensures r > 0.0 ==> (m > 0.0 <==> f > 0.0) && (m < 0.0 <==> f < 0.0)
    ensures r < 0.0 ==> (m > 0.0 <==> f < 0.0) && (m < 0.0 <==> f > 0.0)
  {
    var s := Size(r);
    assert f > 0.0 ==> f * s > 0.0;
    assert f < 0.0 ==> (-f) * s > 0.0;
    assert m == if r > 0.0 then f * s else -(f * s);
    assert (-f) * s == -(f * s);
  }

  lemma OneRemainder(l: real, r: real, q: int, m: real, p: int, n: real)
    requires r != 0.0 && Leaves(l, r, m, q) && Leaves(l, r, n, p)
    requires Size(m) < Size(r) && Size(n) < Size(r)
    requires (m > 0.0 ==> l > 0.0) && (m < 0.0 ==> l < 0.0) && (n > 0.0 ==> l > 0.0) && (n < 0.0 ==> l < 0.0)
    ensures m == n
  {
    MultiplesApart(q, p, r);
    var a, b := q as real * r, p as real * r;
    assert Size(a - b) == Size(n - m) < Size(r);
  }

  lemma MultiplesApart(q: int, p: int, r: real)
    ensures q != p ==> Size(q as real * r - p as real * r) >= Size(r)
  {
    var d := (q - p) as real;
    assert q as real * r - p as real * r == d * r;
    if q > p { AtLeastOne(d, r); } else if q < p { AtLeastOne(-d, r); }
  }

  lemma AtLeastOne(d: real, r: real)
    requires d >= 1.0
    ensures Size(d * r) >= Size(r) && Size((-d) * r) >= Size(r)
  {
    var s := Size(r);
    assert (d - 1.0) * s >= 0.0;
    assert (d - 1.0) * s == d * s - s;
    assert Size(d * r) == d * s && (-d) * r == -(d * r);
  }

  /** l + r or l - r, by the token between them. */
  function SumBy(k: Kind, l: real, r: real): real {
    if k == Plus then l + r else l - r
  }

  /** l times, divided by or remainder by r, by the token between them. */
  ghost function ProductBy(k: Kind, l: real, r: real): Result<real, RuntimeError> {
    if k == Star then Success(l * r)
    else if k == Slash then
      if r == 0.0 then Failure(DivisionByZero) else Success(l / r)
    else
      if r == 0.0 then Failure(ModuloByZero)
      else
        RemainderIff(l, r, Remainder(l, r));
        var m: real :| IsRemainder(l, r, m);
        Success(m)
  }

  /** The product of lo, lo + 1, ..., hi. */
  function ProductFrom(lo: nat, hi: nat): real
    decreases hi - lo
  {
    if lo > hi then 1.0 else if lo == hi then lo as real else lo as real * ProductFrom(lo + 1, hi)
  }

  predicate Whole(v: real, k: nat) {
    v == k as real
  }

  /** n factorial signs after a value: each needs a natural number up to 170. */
  ghost function FactorialsOf(v: real, n: nat): Result<real, RuntimeError>
    decreases n
  {
    if n == 0 then Success(v)
    else if exists k: nat :: k <= 170 && Whole(v, k) then
      var k: nat :| k <= 170 && Whole(v, k);
      FactorialsOf(ProductFrom(2, k), n - 1)
    else Failure(Domain)
  }

  /** base multiplied n times. */
  function Repeated(base: real, n: nat): real {
    if n == 0 then 1.0 else Repeated(base, n - 1) * base
  }

  ghost function PowerBy(l: real, r: real, env: Env): Result<real, RuntimeError> {
    if exists n: nat :: Whole(r, n) then
      var n: nat :| Whole(r, n);
      Success(Repeated(l, n))
    else match env.power(l, r)
      case Some(v) => Success(v)
      case None => Failure(UndefinedPower)
  }

  /** A call with evaluated arguments: their number must lie within the function's bounds. */
  function Applied(name: string, values: seq<real>, env: Env): Result<real, RuntimeError>
    requires name in env.builtins
  {
    var f := env.builtins[name];
    if f.min <= |values| && (f.max.Some? ==> |values| <= f.max.value) then f.impl(values) else Failure(WrongArity(name))
  }

  // ----- Derivations -----

  ghost function MeanExpr(e: Expr, env: Env): Result<real, RuntimeError>
    decreases e
  {
    var v :- MeanTerm(e.first, env);
    MeanAddTail(v, e.rest, env)
  }

  /** Terms are added and subtracted from left to right. */
  ghost function MeanAddTail(left: real, t: AddTail, env: Env): Result<real, RuntimeError>
    decreases t
  {
    match t
    case AddEnd => Success(left)
    case AddMore(minus, term, rest) =>
      var v :- MeanTerm(term, env);
      MeanAddTail(SumBy(Sign(minus), left, v), rest, env)
  }

  ghost function MeanTerm(t: Term, env: Env): Result<real, RuntimeError>
    decreases t
  {
    var v :- MeanFactor(t.first, env);
    MeanMulTail(v, t.rest, env)
  }

  ghost function MeanMulTail(left: real, t: MulTail, env: Env): Result<real, RuntimeError>
    decreases t
  {
    match t
    case MulEnd => Success(left)
    case MulMore(op, factor, rest) =>
      var v :- MeanFactor(factor, env);
      var w :- ProductBy(MulKind(op), left, v);
      MeanMulTail(w, rest, env)
  }

  ghost function MeanFactor(f: Factor, env: Env): Result<real, RuntimeError>
    decreases f
  {
    match f
    case Signed(minus, operand) =>
      var v :- MeanFactor(operand, env);
      Success(SumBy(Sign(minus), 0.0, v))
    case Unsigned(postfix) =>
      var v :- MeanRaised(postfix.base, env);
      FactorialsOf(v, postfix.bangs)
  }

  ghost function MeanRaised(r: Raised, env: Env): Result<real, RuntimeError>
    decreases r
  {
    match r
    case Plain(atom) => MeanAtom(atom, env)
    case Raise(atom, exponent) =>
      var a :- MeanAtom(atom, env);
      var b :- MeanFactor(exponent, env);
      PowerBy(a, b, env)
  }

  /** A variable hides a constant of the same name. */
  ghost function MeanAtom(a: Atom, env: Env): Result<real, RuntimeError>
    decreases a
  {
    match a
    case Num(text) => Success(Denoted(text))
    case Name(name) =>
      if name in env.variables then Success(env.variables[name])
      else if name in env.constants then Success(env.constants[name])
      else Failure(UnknownIdentifier(name))
    case CallNone(name) =>
      if name !in env.builtins then Failure(UnknownFunction(name)) else Applied(name, [], env)
    case CallSome(name, first, rest) =>
      if name !in env.builtins then Failure(UnknownFunction(name))
      else
        var v :- MeanExpr(first, env);
        var vs :- MeanArgTail(rest, env);
        Applied(name, [v] + vs, env)
    case Paren(inner) => MeanExpr(inner, env)
  }

  ghost function MeanArgTail(t: ArgTail, env: Env): Result<seq<real>, RuntimeError>
    decreases t
  {
    match t
    case ArgEnd => Success([])
    case ArgMore(arg, rest) =>
      var v :- MeanExpr(arg, env);
      var vs :- MeanArgTail(rest, env);
      Success([v] + vs)
  }

  // ----- The evaluator's operations are these -----

  lemma SumsAgree(minus: bool, l: real, r: real, env: Env)
    ensures ApplyBinary(SignOp(minus), l, r, env) == Success(SumBy(Sign(minus), l, r))
  {
  }

  lemma ProductsAgree(op: MulOp, l: real, r: real, env: Env)
    ensures ApplyBinary(MulOperator(op), l, r, env) == ProductBy(MulKind(op), l, r)
  {
    if op == ByPercent && r != 0.0 {
      forall m: real | IsRemainder(l, r, m)
        ensures m == Remainder(l, r)
      {
        RemainderIff(l, r, m);
      }
    }
  }

  lemma {:induction false} ProductGrows(lo: nat, hi: nat)
    requires 1 <= lo <= hi
    ensures ProductFrom(lo, hi + 1) == ProductFrom(lo, hi) * (hi + 1) as real
    decreases hi - lo
  {
    if lo < hi {
      ProductGrows(lo + 1, hi);
      Regrouped(lo as real, ProductFrom(lo + 1, hi), (hi + 1) as real);
    }
  }

  lemma Regrouped(a: real, b: real, c: real)
    ensures a * (b * c) == (a * b) * c
  {
  }

  lemma {:induction false} FactorialIsProduct(n: nat)
    ensures FactorialOf(n) == ProductFrom(2, n)
  {
    if n == 0 {
      assert ProductFrom(2, 0) == 1.0;
    } else if n == 1 {
      assert FactorialOf(1) == 1.0 * FactorialOf(0);
    } else {
      FactorialIsProduct(n - 1);
      if n == 2 {
        assert FactorialOf(2) == 2.0 * FactorialOf(1) && FactorialOf(1) == 1.0 * FactorialOf(0);
      } else {
        ProductGrows(2, n - 1);
      }
    }
  }

  lemma NaturalIff(v: real, bound: nat)
    ensures IsNatural(v) && v <= bound as real <==> exists k: nat :: k <= bound && Whole(v, k)
  {
    if IsNatural(v) && v <= bound as real {
      var k: nat := v.Floor;
      assert k <= bound && Whole(v, k);
    }
    if k: nat :| k <= bound && Whole(v, k) {
      assert v.Floor == k;
    }
  }

  lemma OneFactorial(v: real)
    ensures EvalFactorial(v) == FactorialsOf(v, 1)
  {
    NaturalIff(v, 170);
    if k: nat :| k <= 170 && Whole(v, k) {
      assert v.Floor == k;
      FactorialIsProduct(k);
      assert FactorialsOf(ProductFrom(2, k), 0) == Success(ProductFrom(2, k));
    }
  }

  /** One sign, then the others. */
  lemma FactorialsStep(v: real, n: nat)
    requires n > 0
    ensures FactorialsOf(v, n) == var w := EvalFactorial(v); if w.Failure? then Failure(w.error) else FactorialsOf(w.value, n - 1)
  {
    NaturalIff(v, 170);
    if k: nat :| k <= 170 && Whole(v, k) {
      assert v.Floor == k;
      FactorialIsProduct(k);
    }
  }

  lemma {:induction false} FactorialsAgree(t: Ast, n: nat, env: Env)
    ensures Evaluate(Factorials(t, n), env)
         == var v := Evaluate(t, env); if v.Failure? then Failure(v.error) else FactorialsOf(v.value, n)
    decreases n
  {
    if n > 0 {
      hide EvalFactorial, FactorialsOf;
      FactorialsAgree(Factorial(t), n - 1, env);
      var v := Evaluate(t, env);
      if v.Success? { FactorialsStep(v.value, n); }
    }
  }

  lemma {:induction false} RepeatedIsPower(base: real, n: nat)
    ensures Repeated(base, n) == PowerOf(base, n)
  {
    if n > 0 {
      RepeatedIsPower(base, n - 1);
    }
  }

  lemma PowersAgree(l: real, r: real, env: Env)
    ensures ApplyBinary(Power, l, r, env) == PowerBy(l, r, env)
  {
    if IsNatural(r) {
      var k: nat := r.Floor;
      assert Whole(r, k);
      RepeatedIsPower(l, k);
    }
    forall n: nat | Whole(r, n)
      ensures IsNatural(r) && r.Floor == n
    {
    }
  }

  lemma {:induction false} EvaluateAppend(a: seq<Ast>, b: seq<Ast>, env: Env)
    ensures EvaluateAll(a + b, env) ==
              var u := EvaluateAll(a, env);
              if u.Failure? then Failure(u.error)
              else var v := EvaluateAll(b, env); if v.Failure? then Failure(v.error) else Success(u.value + v.value)
  {
    if a == [] {
      assert a + b == b;
      var v := EvaluateAll(b, env);
      assert v.Success? ==> [] + v.value == v.value;
    } else {
      hide Evaluate;
      assert (a + b)[0] == a[0] && (a + b)[1..] == a[1..] + b;
      EvaluateAppend(a[1..], b, env);
      var w, u, v := Evaluate(a[0], env), EvaluateAll(a[1..], env), EvaluateAll(b, env);
      if w.Success? && u.Success? && v.Success? {
        assert [w.value] + (u.value + v.value) == ([w.value] + u.value) + v.value;
      }
    }
  }

  lemma EvaluateOne(t: Ast, env: Env)
    ensures EvaluateAll([t], env)
         == var v := Evaluate(t, env); if v.Failure? then Failure(v.error) else Success([v.value])
  {
    hide Evaluate;
    assert EvaluateAll([], env) == Success([]);
    assert [t][0] == t && [t][1..] == [];
    var v := Evaluate(t, env);
    assert v.Success? ==> [v.value] + [] == [v.value];
  }

  // ----- Evaluating the tree of a derivation gives its meaning -----

  lemma {:induction false} MeansExpr(e: Expr, env: Env)
    requires FiniteExpr(e)
    ensures Evaluate(TreeExpr(e), env) == MeanExpr(e, env)
    decreases e
  {
    hide Evaluate, TreeTerm, MeanTerm, TreeAddTail, MeanAddTail, FiniteTerm, FiniteAddTail;
    MeansTerm(e.first, env);
    MeansAddTail(TreeTerm(e.first), e.rest, env);
  }

  lemma EvaluateBinary(op: Operator, l: Ast, r: Ast, env: Env)
    ensures Evaluate(Binary(op, l, r), env) ==
              var u := Evaluate(l, env);
              if u.Failure? then Failure(u.error)
              else
                var v := Evaluate(r, env);
                if v.Failure? then Failure(v.error) else ApplyBinary(op, u.value, v.value, env)
  {
  }

  lemma {:induction false} MeansAddTail(left: Ast, t: AddTail, env: Env)
    requires FiniteAddTail(t)
    ensures Evaluate(TreeAddTail(left, t), env)
         == var l := Evaluate(left, env); if l.Failure? then Failure(l.error) else MeanAddTail(l.value, t, env)
    decreases t
  {
    match t
    case AddEnd =>
    case AddMore(minus, term, rest) =>
      hide Evaluate, TreeTerm, MeanTerm, FiniteTerm, ApplyBinary, SumBy;
      MeansTerm(term, env);
      MeansAddTail(Binary(SignOp(minus), left, TreeTerm(term)), rest, env);
      EvaluateBinary(SignOp(minus), left, TreeTerm(term), env);
      var l, v := Evaluate(left, env), MeanTerm(term, env);
      if l.Success? && v.Success? { SumsAgree(minus, l.value, v.value, env); }
  }

  lemma {:induction false} MeansTerm(t: Term, env: Env)
    requires FiniteTerm(t)
    ensures Evaluate(TreeTerm(t), env) == MeanTerm(t, env)
    decreases t
  {
    hide Evaluate, TreeFactor, MeanFactor, TreeMulTail, MeanMulTail, FiniteFactor, FiniteMulTail;
    MeansFactor(t.first, env);
    MeansMulTail(TreeFactor(t.first), t.rest, env);
  }

  lemma {:induction false} MeansMulTail(left: Ast, t: MulTail, env: Env)
    requires FiniteMulTail(t)
    ensures Evaluate(TreeMulTail(left, t), env)
         == var l := Evaluate(left, env); if l.Failure? then Failure(l.error) else MeanMulTail(l.value, t, env)
    decreases t
  {
    match t
    case MulEnd =>
    case MulMore(op, factor, rest) =>
      hide Evaluate, TreeFactor, MeanFactor, FiniteFactor, ApplyBinary, ProductBy;
      MeansFactor(factor, env);
      MeansMulTail(Binary(MulOperator(op), left, TreeFactor(factor)), rest, env);
      EvaluateBinary(MulOperator(op), left, TreeFactor(factor), env);
      var l, v := Evaluate(left, env), MeanFactor(factor, env);
      if l.Success? && v.Success? { ProductsAgree(op, l.value, v.value, env); }
  }

  lemma {:induction false} MeansFactor(f: Factor, env: Env)
    requires FiniteFactor(f)
    ensures Evaluate(TreeFactor(f), env) == MeanFactor(f, env)
    decreases f
  {
    match f
    case Signed(_, operand) => MeansFactor(operand, env);
    case Unsigned(postfix) =>
      hide Evaluate, TreeRaised, MeanRaised, FiniteRaised, FactorialsOf;
      MeansRaised(postfix.base, env);
      FactorialsAgree(TreeRaised(postfix.base), postfix.bangs, env);
  }

  lemma {:induction false} MeansRaised(r: Raised, env: Env)
    requires FiniteRaised(r)
    ensures Evaluate(TreeRaised(r), env) == MeanRaised(r, env)
    decreases r
  {
    match r
    case Plain(atom) => MeansAtom(atom, env);
    case Raise(atom, exponent) =>
      hide Evaluate, TreeAtom, MeanAtom, FiniteAtom, TreeFactor, MeanFactor, FiniteFactor, ApplyBinary, PowerBy;
      MeansAtom(atom, env);
      MeansFactor(exponent, env);
      EvaluateBinary(Power, TreeAtom(atom), TreeFactor(exponent), env);
      var a, b := MeanAtom(atom, env), MeanFactor(exponent, env);
      if a.Success? && b.Success? { PowersAgree(a.value, b.value, env); }
  }

  lemma EvaluateCall(name: string, args: seq<Ast>, env: Env)
    ensures Evaluate(Call(name, args), env) ==
              if name !in env.builtins then Failure(UnknownFunction(name))
              else
                var vs := EvaluateAll(args, env);
                if vs.Failure? then Failure(vs.error) else Applied(name, vs.value, env)
  {
  }

  lemma {:induction false} MeansAtom(a: Atom, env: Env)
    requires FiniteAtom(a)
    ensures Evaluate(TreeAtom(a), env) == MeanAtom(a, env)
    decreases a
  {
    match a
    case Num(text) =>
      hide LiteralValue, Denoted;
      LiteralDenotes(text);
    case Name(_) =>
    case CallNone(name) =>
      EvaluateCall(name, [], env);
    case CallSome(name, first, rest) =>
      hide Evaluate, EvaluateAll, TreeExpr, MeanExpr, FiniteExpr, TreeArgTail, MeanArgTail, FiniteArgTail, Applied;
      MeansExpr(first, env);
      MeansArgTail([TreeExpr(first)], rest, env);
      EvaluateOne(TreeExpr(first), env);
      EvaluateCall(name, TreeArgTail([TreeExpr(first)], rest), env);
    case Paren(inner) => MeansExpr(inner, env);
  }

  lemma {:induction false} MeansArgTail(done: seq<Ast>, t: ArgTail, env: Env)
    requires FiniteArgTail(t)
    ensures EvaluateAll(TreeArgTail(done, t), env) ==
              var u := EvaluateAll(done, env);
              if u.Failure? then Failure(u.error)
              else var v := MeanArgTail(t, env); if v.Failure? then Failure(v.error) else Success(u.value + v.value)
    decreases t
  {
    hide Evaluate, EvaluateAll, TreeExpr, MeanExpr, FiniteExpr;
    match t
    case ArgEnd =>
      var u := EvaluateAll(done, env);
      assert u.Success? ==> u.value + [] == u.value;
    case ArgMore(arg, rest) =>
      MeansExpr(arg, env);
      MeansArgTail(done + [TreeExpr(arg)], rest, env);
      EvaluateAppend(done, [TreeExpr(arg)], env);
      EvaluateOne(TreeExpr(arg), env);
      var u, v, vs := EvaluateAll(done, env), MeanExpr(arg, env), MeanArgTail(rest, env);
      if u.Success? && v.Success? && vs.Success? {
        assert (u.value + [v.value]) + vs.value == u.value + ([v.value] + vs.value);
      }
  }

  /** What the parser returns evaluates to what the derivation it follows means. */
  lemma ParsedTreeMeans(e: Expr, max: nat, env: Env)
    requires CanonicalExpr(e) && FiniteExpr(e) && CostExpr(e) <= max
    ensures var t := ParseProgram(YieldExpr(e), max); t.Success? && Evaluate(t.value, env) == MeanExpr(e, env)
  {
    hide ParseProgram, Evaluate, MeanExpr;
    ReturnsTreeIffCanonical(e, max);
    MeansExpr(e, env);
  }

  /** Any accepted token list has a canonical derivation, and evaluating the parsed tree gives its
      meaning, value or error. */
  lemma AcceptedTokensMean(ks: seq<Kind>, max: nat, env: Env) returns (e: Expr)
    requires ParseProgram(ks, max).Success?
    ensures CanonicalExpr(e) && YieldExpr(e) == ks
    ensures Evaluate(ParseProgram(ks, max).value, env) == MeanExpr(e, env)
  {
    hide ParseProgram, Evaluate, MeanExpr;
    ParserDecidesGrammar(ks, max, ParseProgram(ks, max).value);
    e :| CanonicalExpr(e) && YieldExpr(e) == ks && TreeExpr(e) == ParseProgram(ks, max).value
      && FiniteExpr(e) && CostExpr(e) <= max;
    MeansExpr(e, env);
  }
}
