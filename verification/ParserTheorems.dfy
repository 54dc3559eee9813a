/** The parser accepts exactly the documented language, with exactly one tree per token
    list; where the documented rules allow two trees, which one it picks. */
module ParserTheorems {
  import opened Wrappers
  import opened Syntax
  import opened Grammar
  import opened ParserSpec

  // ----- Acceptance -----

  /** Accepted with tree t iff t has a canonical derivation within the limit. */
  lemma ParserDecidesGrammar(ks: seq<Kind>, max: nat, t: Ast)
    ensures ParseProgram(ks, max) == Success(t) <==> DerivesCanonically(ks, t, max)
  {
    if ParseProgram(ks, max) == Success(t) {
      var e := SoundExpr(ks, 0, max);
      assert YieldExpr(e) + [] == YieldExpr(e);
    }
    if DerivesCanonically(ks, t, max) {
      var e: Expr :| CanonicalExpr(e)
        && YieldExpr(e) == ks && TreeExpr(e) == t && FiniteExpr(e) && CostExpr(e) <= max;
      CompleteExpr(e, [], 0, max);
      assert YieldExpr(e) + [] == ks;
    }
  }

  /** One tree per token list, whatever the nesting limits. */
  lemma CanonicalTreeUnique(ks: seq<Kind>, t: Ast, m: nat, t': Ast, m': nat)
    requires DerivesCanonically(ks, t, m) && DerivesCanonically(ks, t', m')
    ensures t == t'
  {
    var limit := Max(m, m');
    assert DerivesCanonically(ks, t, limit) && DerivesCanonically(ks, t', limit);
    ParserDecidesGrammar(ks, limit, t);
    ParserDecidesGrammar(ks, limit, t');
  }

  lemma AcceptedTreeIsSmall(ks: seq<Kind>, max: nat, t: Ast)
    requires ParseProgram(ks, max) == Success(t)
    ensures Nodes(t) <= |ks|
  {
    ParserDecidesGrammar(ks, max, t);
    var e: Expr :| CanonicalExpr(e)
      && YieldExpr(e) == ks && TreeExpr(e) == t && FiniteExpr(e) && CostExpr(e) <= max;
    SizeExpr(e);
  }

  // ----- Rotating a derivation into canonical form -----

  /** Moves n trailing factorial signs into the innermost exponent. */
  function Push(f: Factor, n: nat): (r: Factor)
    requires CanonicalFactor(f)
    ensures CanonicalFactor(r)
  {
    match f
    case Signed(minus, operand) => Signed(minus, Push(operand, n))
    case Unsigned(postfix) =>
      match postfix.base
      case Plain(atom) => Unsigned(Postfix(postfix.base, postfix.bangs + n))
      case Raise(atom, exponent) =>
        assert CanonicalRaised(postfix.base);
        var base := Raise(atom, Push(exponent, n));
        assert CanonicalRaised(base);
        Unsigned(Postfix(base, 0))
  }

  function NormExpr(e: Expr): (r: Expr)
    ensures CanonicalExpr(r)
  {
    Expr(NormTerm(e.first), NormAddTail(e.rest))
  }

  function NormAddTail(t: AddTail): (r: AddTail)
    ensures CanonicalAddTail(r)
  {
    match t
    case AddEnd => AddEnd
    case AddMore(minus, term, rest) => AddMore(minus, NormTerm(term), NormAddTail(rest))
  }

  function NormTerm(t: Term): (r: Term)
    ensures CanonicalTerm(r)
  {
    Term(NormFactor(t.first), NormMulTail(t.rest))
  }

  function NormMulTail(t: MulTail): (r: MulTail)
    ensures CanonicalMulTail(r)
  {
    match t
    case MulEnd => MulEnd
    case MulMore(op, factor, rest) => MulMore(op, NormFactor(factor), NormMulTail(rest))
  }

  function NormFactor(f: Factor): (r: Factor)
    ensures CanonicalFactor(r)
  {
    match f
    case Signed(minus, operand) => Signed(minus, NormFactor(operand))
    case Unsigned(postfix) =>
      match NormRaised(postfix.base)
      case Plain(atom) => Unsigned(Postfix(Plain(atom), postfix.bangs))
      case Raise(atom, exponent) => Unsigned(Postfix(Raise(atom, Push(exponent, postfix.bangs)), 0))
  }

  function NormRaised(r: Raised): (r': Raised)
    ensures CanonicalRaised(r') && r'.Raise? == r.Raise?
  {
    match r
    case Plain(atom) => Plain(NormAtom(atom))
    case Raise(atom, exponent) => Raise(NormAtom(atom), NormFactor(exponent))
  }

  function NormAtom(a: Atom): (r: Atom)
    ensures CanonicalAtom(r)
  {
    match a
    case CallSome(name, first, rest) => CallSome(name, NormExpr(first), NormArgTail(rest))
    case Paren(inner) => Paren(NormExpr(inner))
    case _ => a
  }

  function NormArgTail(t: ArgTail): (r: ArgTail)
    ensures CanonicalArgTail(r)
  {
    match t
    case ArgEnd => ArgEnd
    case ArgMore(arg, rest) => ArgMore(NormExpr(arg), NormArgTail(rest))
  }

  lemma {:induction false} BangsAppend(m: nat, n: nat)
    ensures Bangs(m) + Bangs(n) == Bangs(m + n)
  {
    if m > 0 {
      BangsAppend(m - 1, n);
      assert Bangs(m) + Bangs(n) == [Bang] + (Bangs(m - 1) + Bangs(n));
    }
  }

  lemma {:induction false} PushSame(f: Factor, n: nat)
    requires CanonicalFactor(f)
    ensures YieldFactor(Push(f, n)) == YieldFactor(f) + Bangs(n)
    ensures CostFactor(Push(f, n)) == CostFactor(f)
    ensures FiniteFactor(Push(f, n)) == FiniteFactor(f)
    ensures n == 0 ==> Push(f, n) == f
  {
    match f
    case Signed(minus, operand) => PushSame(operand, n);
    case Unsigned(postfix) =>
      match postfix.base
      case Plain(atom) =>
        BangsAppend(postfix.bangs, n);
        assert YieldAtom(atom) + (Bangs(postfix.bangs) + Bangs(n)) == (YieldAtom(atom) + Bangs(postfix.bangs)) + Bangs(n);
      case Raise(atom, exponent) =>
        hide YieldAtom, CostAtom, FiniteAtom, CanonicalAtom;
        PushSame(exponent, n);
        var e := YieldFactor(exponent);
        var r' := Raise(atom, Push(exponent, n));
        assert YieldRaised(r') == YieldRaised(postfix.base) + Bangs(n) by {
          assert YieldAtom(atom) + ([Caret] + (e + Bangs(n))) == (YieldAtom(atom) + ([Caret] + e)) + Bangs(n);
        }
        assert YieldFactor(f) == YieldRaised(postfix.base) + [];
        assert YieldFactor(Push(f, n)) == YieldRaised(r') + [];
  }

  // ----- What the rotation keeps: tokens, cost, literals; and when it keeps the tree -----

  lemma {:induction false} NormExprSame(e: Expr)
    ensures var r := NormExpr(e);
            YieldExpr(r) == YieldExpr(e) && CostExpr(r) == CostExpr(e) && FiniteExpr(r) == FiniteExpr(e)
  {
    NormTermSame(e.first);
    NormAddTailSame(e.rest);
  }

  lemma {:induction false} NormAddTailSame(t: AddTail)
    ensures var r := NormAddTail(t);
            YieldAddTail(r) == YieldAddTail(t) && CostAddTail(r) == CostAddTail(t) && FiniteAddTail(r) == FiniteAddTail(t)
  {
    match t
    case AddEnd =>
    case AddMore(_, term, rest) =>
      NormTermSame(term);
      NormAddTailSame(rest);
  }

  lemma {:induction false} NormTermSame(t: Term)
    ensures var r := NormTerm(t);
            YieldTerm(r) == YieldTerm(t) && CostTerm(r) == CostTerm(t) && FiniteTerm(r) == FiniteTerm(t)
  {
    NormFactorSame(t.first);
    NormMulTailSame(t.rest);
  }

  lemma {:induction false} NormMulTailSame(t: MulTail)
    ensures var r := NormMulTail(t);
            YieldMulTail(r) == YieldMulTail(t) && CostMulTail(r) == CostMulTail(t) && FiniteMulTail(r) == FiniteMulTail(t)
  {
    match t
    case MulEnd =>
    case MulMore(_, factor, rest) =>
      NormFactorSame(factor);
      NormMulTailSame(rest);
  }

  lemma {:induction false} NormFactorSame(f: Factor)
    ensures var r := NormFactor(f);
            YieldFactor(r) == YieldFactor(f) && CostFactor(r) == CostFactor(f) && FiniteFactor(r) == FiniteFactor(f)
  {
    match f
    case Signed(_, operand) => NormFactorSame(operand);
    case Unsigned(postfix) =>
      var n := postfix.bangs;
      NormRaisedSame(postfix.base);
      match NormRaised(postfix.base)
      case Plain(atom) =>
        assert NormFactor(f) == Unsigned(Postfix(Plain(atom), n));
      case Raise(atom, exponent) =>
        PushSame(exponent, n);
        var r := Raise(atom, exponent);
        PushSame(Unsigned(Postfix(r, 0)), n);
        assert YieldFactor(Unsigned(Postfix(r, 0))) == YieldRaised(r) + [];
        assert NormFactor(f) == Push(Unsigned(Postfix(r, 0)), n);
  }

  lemma {:induction false} NormRaisedSame(r: Raised)
    ensures var r' := NormRaised(r);
            YieldRaised(r') == YieldRaised(r) && CostRaised(r') == CostRaised(r) && FiniteRaised(r') == FiniteRaised(r)
  {
    match r
    case Plain(atom) => NormAtomSame(atom);
    case Raise(atom, exponent) =>
      NormAtomSame(atom);
      NormFactorSame(exponent);
  }

  lemma {:induction false} NormAtomSame(a: Atom)
    ensures var r := NormAtom(a);
            YieldAtom(r) == YieldAtom(a) && CostAtom(r) == CostAtom(a) && FiniteAtom(r) == FiniteAtom(a)
  {
    match a
    case CallSome(_, first, rest) =>
      NormExprSame(first);
      NormArgTailSame(rest);
    case Paren(inner) => NormExprSame(inner);
    case _ =>
  }

  lemma {:induction false} NormArgTailSame(t: ArgTail)
    ensures var r := NormArgTail(t);
            YieldArgTail(r) == YieldArgTail(t) && CostArgTail(r) == CostArgTail(t) && FiniteArgTail(r) == FiniteArgTail(t)
  {
    match t
    case ArgEnd =>
    case ArgMore(arg, rest) =>
      NormExprSame(arg);
      NormArgTailSame(rest);
  }

  /** The accepted language is the documented one: factorial signs never decide acceptance. */
  lemma AcceptsDocumentedLanguage(ks: seq<Kind>, max: nat)
    ensures ParseProgram(ks, max).Success? <==> exists t: Ast :: Derives(ks, t, max)
  {
    if ParseProgram(ks, max).Success? {
      var t := ParseProgram(ks, max).value;
      ParserDecidesGrammar(ks, max, t);
      assert Derives(ks, t, max);
    }
    if t: Ast :| Derives(ks, t, max) {
      var e: Expr :| YieldExpr(e) == ks && TreeExpr(e) == t && FiniteExpr(e) && CostExpr(e) <= max;
      NormExprSame(e);
      assert DerivesCanonically(ks, TreeExpr(NormExpr(e)), max);
      ParserDecidesGrammar(ks, max, TreeExpr(NormExpr(e)));
    }
  }

  // ----- Which of the documented trees is returned -----

  lemma {:induction false} FactorialsInjective(s: Ast, t: Ast, n: nat)
    ensures Factorials(s, n) == Factorials(t, n) <==> s == t
    decreases n
  {
    if n > 0 {
      FactorialsInjective(Factorial(s), Factorial(t), n - 1);
    }
  }

  lemma {:induction false} FactorialsOuter(t: Ast, n: nat)
    requires n > 0
    ensures Factorials(t, n).Factorial?
    decreases n
  {
    if n > 1 {
      FactorialsOuter(Factorial(t), n - 1);
    }
  }

  lemma {:induction false} SameTreeExpr(e: Expr)
    ensures TreeExpr(NormExpr(e)) == TreeExpr(e) <==> CanonicalExpr(e)
  {
    SameTreeTerm(e.first);
    SameTreeAddTail(TreeTerm(NormTerm(e.first)), TreeTerm(e.first), e.rest);
  }

  lemma {:induction false} SameTreeAddTail(l: Ast, l': Ast, t: AddTail)
    ensures TreeAddTail(l, NormAddTail(t)) == TreeAddTail(l', t) <==> l == l' && CanonicalAddTail(t)
    decreases t
  {
    match t
    case AddEnd =>
    case AddMore(minus, term, rest) =>
      hide TreeTerm, NormTerm;
      SameTreeTerm(term);
      var op := SignOp(minus);
      SameTreeAddTail(Binary(op, l, TreeTerm(NormTerm(term))), Binary(op, l', TreeTerm(term)), rest);
  }

  lemma {:induction false} SameTreeTerm(t: Term)
    ensures TreeTerm(NormTerm(t)) == TreeTerm(t) <==> CanonicalTerm(t)
  {
    SameTreeFactor(t.first);
    SameTreeMulTail(TreeFactor(NormFactor(t.first)), TreeFactor(t.first), t.rest);
  }

  lemma {:induction false} SameTreeMulTail(l: Ast, l': Ast, t: MulTail)
    ensures TreeMulTail(l, NormMulTail(t)) == TreeMulTail(l', t) <==> l == l' && CanonicalMulTail(t)
    decreases t
  {
    match t
    case MulEnd =>
    case MulMore(op, factor, rest) =>
      hide TreeFactor, NormFactor;
      SameTreeFactor(factor);
      var o := MulOperator(op);
      SameTreeMulTail(Binary(o, l, TreeFactor(NormFactor(factor))), Binary(o, l', TreeFactor(factor)), rest);
  }

  lemma {:induction false} SameTreeFactor(f: Factor)
    ensures TreeFactor(NormFactor(f)) == TreeFactor(f) <==> CanonicalFactor(f)
  {
    match f
    case Signed(_, operand) => SameTreeFactor(operand);
    case Unsigned(postfix) =>
      var base, n := postfix.base, postfix.bangs;
      SameTreeRaised(base);
      if base.Plain? || n == 0 {
        if base.Raise? { PushSame(NormRaised(base).exponent, 0); }
        FactorialsInjective(TreeRaised(NormRaised(base)), TreeRaised(base), n);
        assert NormFactor(f) == Unsigned(Postfix(NormRaised(base), n));
      } else {
        FactorialsOuter(TreeRaised(base), n);
        var norm := NormRaised(base);
        var pushed := Raise(norm.atom, Push(norm.exponent, n));
        assert TreeFactor(Unsigned(Postfix(pushed, 0))) == TreeRaised(pushed);
        assert NormFactor(f) == Unsigned(Postfix(pushed, 0));
      }
  }

  lemma {:induction false} SameTreeRaised(r: Raised)
    ensures TreeRaised(NormRaised(r)) == TreeRaised(r) <==> CanonicalRaised(r)
  {
    match r
    case Plain(atom) => SameTreeAtom(atom);
    case Raise(atom, exponent) =>
      SameTreeAtom(atom);
      SameTreeFactor(exponent);
  }

  lemma {:induction false} SameTreeAtom(a: Atom)
    ensures TreeAtom(NormAtom(a)) == TreeAtom(a) <==> CanonicalAtom(a)
  {
    match a
    case CallSome(_, first, rest) =>
      SameTreeExpr(first);
      SameTreeArgTail([TreeExpr(NormExpr(first))], [TreeExpr(first)], rest);
      assert [TreeExpr(NormExpr(first))][0] == TreeExpr(NormExpr(first));
    case Paren(inner) => SameTreeExpr(inner);
    case _ =>
  }

  lemma {:induction false} SameTreeArgTail(s: seq<Ast>, s': seq<Ast>, t: ArgTail)
    requires |s| == |s'|
    ensures TreeArgTail(s, NormArgTail(t)) == TreeArgTail(s', t) <==> s == s' && CanonicalArgTail(t)
    decreases t
  {
    match t
    case ArgEnd =>
    case ArgMore(arg, rest) =>
      hide TreeExpr, NormExpr;
      SameTreeExpr(arg);
      var x, x' := TreeExpr(NormExpr(arg)), TreeExpr(arg);
      SameTreeArgTail(s + [x], s' + [x'], rest);
      if s + [x] == s' + [x'] {
        assert (s + [x])[|s|] == x && (s' + [x'])[|s|] == x';
        assert s == (s + [x])[..|s|] == (s' + [x'])[..|s|] == s';
      }
  }

  /** For any documented derivation within the limit, the parser returns its tree exactly
      when no factorial sign in it applies to an unparenthesised power. */
  lemma ReturnsTreeIffCanonical(e: Expr, max: nat)
    requires FiniteExpr(e) && CostExpr(e) <= max
    ensures ParseProgram(YieldExpr(e), max) == Success(TreeExpr(e)) <==> CanonicalExpr(e)
  {
    NormExprSame(e);
    SameTreeExpr(e);
    assert DerivesCanonically(YieldExpr(e), TreeExpr(NormExpr(e)), max);
    ParserDecidesGrammar(YieldExpr(e), max, TreeExpr(NormExpr(e)));
  }

  /** The documented rules give x^y! two trees; the parser takes x^(y!). */
  lemma DocumentedGrammarIsAmbiguous()
    ensures var ks := [Ident("x"), Caret, Ident("y"), Bang];
            var x, y := Identifier("x"), Identifier("y");
            && Derives(ks, Factorial(Binary(Power, x, y)), 100)
            && Derives(ks, Binary(Power, x, Factorial(y)), 100)
            && ParseProgram(ks, 100) == Success(Binary(Power, x, Factorial(y)))
  {
    var ks := [Ident("x"), Caret, Ident("y"), Bang];
    var y0, y1 := NamedFactor("y", 0), NamedFactor("y", 1);
    var outer, inner := PowerExpr(y0, 1), PowerExpr(y1, 0);
    assert YieldFactor(y0) == [Ident("y")] && YieldFactor(y1) == [Ident("y"), Bang];
    PowerExprFacts(y0, 1);
    PowerExprFacts(y1, 0);
    assert YieldExpr(outer) == ks && YieldExpr(inner) == ks;
    ReturnsTreeIffCanonical(inner, 100);
  }

  function NamedFactor(name: string, bangs: nat): Factor {
    Unsigned(Postfix(Plain(Name(name)), bangs))
  }

  /** x^f followed by factorial signs that apply to the whole power. */
  function PowerExpr(f: Factor, bangs: nat): Expr {
    Expr(Term(Unsigned(Postfix(Raise(Name("x"), f), bangs)), MulEnd), AddEnd)
  }

  lemma {:induction false} PowerExprFacts(f: Factor, bangs: nat)
    ensures var e := PowerExpr(f, bangs);
      && YieldExpr(e) == [Ident("x"), Caret] + (YieldFactor(f) + Bangs(bangs))
      && TreeExpr(e) == Factorials(Binary(Power, Identifier("x"), TreeFactor(f)), bangs)
      && FiniteExpr(e) == FiniteFactor(f) && CostExpr(e) == 2 + CostFactor(f)
      && (CanonicalExpr(e) <==> CanonicalFactor(f) && bangs == 0)
  {
    var r := Raise(Name("x"), f);
    var p := Postfix(r, bangs);
    var t := Term(Unsigned(p), MulEnd);
    assert YieldRaised(r) == [Ident("x"), Caret] + YieldFactor(f);
    assert YieldTerm(t) == YieldPostfix(p) + [];
    assert YieldExpr(Expr(t, AddEnd)) == YieldTerm(t) + [];
    assert TreeRaised(r) == Binary(Power, Identifier("x"), TreeFactor(f));
    assert TreeTerm(t) == TreePostfix(p) == Factorials(TreeRaised(r), bangs);
    assert CostTerm(t) == CostFactor(Unsigned(p)) == CostRaised(r) == 1 + CostFactor(f);
    assert FiniteTerm(t) == FiniteFactor(Unsigned(p)) == FiniteRaised(r) == FiniteFactor(f);
    assert CanonicalRaised(r) == CanonicalFactor(f);
    assert CanonicalTerm(t) == CanonicalFactor(Unsigned(p));
  }
}
