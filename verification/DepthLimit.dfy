/** When a sentence is refused as nested too deeply: exactly when its derivation costs more than
    the limit. */
module DepthLimit {
  import opened Wrappers
  import opened Syntax
  import opened Grammar
  import opened ParserSpec
  import opened ParserTheorems

  predicate RefusedDeep<T>(r: Result<T, ParseError>) {
    r.Failure? && r.error.reason == TooDeep
  }

  // ----- A derivation beyond the limit is refused, level by level -----

  lemma ExpressionStep(ks: seq<Kind>, d: nat, max: nat)
    requires d + 1 <= max
    ensures var r := ParseMultiplicative(ks, d + 1, max);
            && (RefusedDeep(r) ==> RefusedDeep(ParseExpression(ks, d, max)))
            && (r.Success? ==> ParseExpression(ks, d, max) == AdditiveRest(r.value.tree, r.value.rest, d + 1, max))
  {
    hide ParseMultiplicative, AdditiveRest;
  }

  lemma {:induction false} DeepExpr(e: Expr, rest: seq<Kind>, d: nat, max: nat)
    requires CanonicalExpr(e) && FiniteExpr(e) && Ends(rest, 5) && d <= max < d + CostExpr(e)
    ensures RefusedDeep(ParseExpression(YieldExpr(e) + rest, d, max))
    decreases e
  {
    if d + 1 <= max {
      hide ParseExpression, ParseMultiplicative, AdditiveRest, TreeTerm, YieldTerm, CanonicalTerm, FiniteTerm, CostTerm,
           TreeAddTail, CanonicalAddTail, FiniteAddTail, CostAddTail;
      var after := YieldAddTail(e.rest) + rest;
      assert YieldExpr(e) + rest == YieldTerm(e.first) + after;
      ExpressionStep(YieldExpr(e) + rest, d, max);
      if d + 1 + CostTerm(e.first) > max {
        DeepTerm(e.first, after, d + 1, max);
      } else {
        CompleteTerm(e.first, after, d + 1, max);
        DeepAddTail(TreeTerm(e.first), e.rest, rest, d + 1, max);
      }
    }
  }

  lemma {:induction false} DeepAddTail(left: Ast, t: AddTail, rest: seq<Kind>, d: nat, max: nat)
    requires CanonicalAddTail(t) && FiniteAddTail(t) && Ends(rest, 5) && d <= max < d + CostAddTail(t)
    ensures RefusedDeep(AdditiveRest(left, YieldAddTail(t) + rest, d, max))
    decreases t
  {
    hide ParseMultiplicative, AdditiveRest, TreeTerm, YieldTerm, CanonicalTerm, FiniteTerm, CostTerm, TreeAddTail,
         CanonicalAddTail, FiniteAddTail, CostAddTail;
    AddEndFacts(left);
    if t.AddMore? {
      AddMoreFacts(t.minus, t.term, t.rest, left);
      assert t == AddMore(t.minus, t.term, t.rest);
      var after := YieldAddTail(t.rest) + rest;
      var ks := YieldAddTail(t) + rest;
      assert ks == [Sign(t.minus)] + (YieldTerm(t.term) + after);
      assert ks[1..] == YieldTerm(t.term) + after;
      SumStep(left, ks, t.minus, d, max);
      if d + CostTerm(t.term) > max {
        DeepTerm(t.term, after, d, max);
      } else {
        CompleteTerm(t.term, after, d, max);
        DeepAddTail(Binary(SignOp(t.minus), left, TreeTerm(t.term)), t.rest, rest, d, max);
      }
    }
  }

  lemma SumStep(left: Ast, ks: seq<Kind>, minus: bool, d: nat, max: nat)
    requires Starts(ks, Sign(minus))
    ensures var r := ParseMultiplicative(ks[1..], d, max);
            && (RefusedDeep(r) ==> RefusedDeep(AdditiveRest(left, ks, d, max)))
            && (r.Success? ==>
                  AdditiveRest(left, ks, d, max)
                  == AdditiveRest(Binary(SignOp(minus), left, r.value.tree), r.value.rest, d, max))
  {
    hide ParseMultiplicative;
  }

  lemma {:induction false} DeepTerm(t: Term, rest: seq<Kind>, d: nat, max: nat)
    requires CanonicalTerm(t) && FiniteTerm(t) && Ends(rest, 4) && d <= max < d + CostTerm(t)
    ensures RefusedDeep(ParseMultiplicative(YieldTerm(t) + rest, d, max))
    decreases t
  {
    hide ParseUnary, MultiplicativeRest, TreeFactor, YieldFactor, CanonicalFactor, FiniteFactor, CostFactor,
         TreeMulTail, CanonicalMulTail, FiniteMulTail, CostMulTail;
    var after := YieldMulTail(t.rest) + rest;
    assert YieldTerm(t) + rest == YieldFactor(t.first) + after;
    if d + CostFactor(t.first) > max {
      DeepFactor(t.first, after, d, max);
    } else {
      CompleteFactor(t.first, after, d, max);
      DeepMulTail(TreeFactor(t.first), t.rest, rest, d, max);
    }
  }

  lemma {:induction false} DeepMulTail(left: Ast, t: MulTail, rest: seq<Kind>, d: nat, max: nat)
    requires CanonicalMulTail(t) && FiniteMulTail(t) && Ends(rest, 4) && d <= max < d + CostMulTail(t)
    ensures RefusedDeep(MultiplicativeRest(left, YieldMulTail(t) + rest, d, max))
    decreases t
  {
    hide ParseUnary, MultiplicativeRest, TreeFactor, YieldFactor, CanonicalFactor, FiniteFactor, CostFactor, TreeMulTail,
         CanonicalMulTail, FiniteMulTail, CostMulTail;
    MulEndFacts(left);
    if t.MulMore? {
      MulMoreFacts(t.op, t.factor, t.rest, left);
      assert t == MulMore(t.op, t.factor, t.rest);
      var after := YieldMulTail(t.rest) + rest;
      var ks := YieldMulTail(t) + rest;
      assert ks == [MulKind(t.op)] + (YieldFactor(t.factor) + after);
      assert ks[1..] == YieldFactor(t.factor) + after;
      ProductStep(left, ks, t.op, d, max);
      if d + CostFactor(t.factor) > max {
        DeepFactor(t.factor, after, d, max);
      } else {
        CompleteFactor(t.factor, after, d, max);
        DeepMulTail(Binary(MulOperator(t.op), left, TreeFactor(t.factor)), t.rest, rest, d, max);
      }
    }
  }

  lemma ProductStep(left: Ast, ks: seq<Kind>, op: MulOp, d: nat, max: nat)
    requires Starts(ks, MulKind(op))
    ensures var r := ParseUnary(ks[1..], d, max);
            && (RefusedDeep(r) ==> RefusedDeep(MultiplicativeRest(left, ks, d, max)))
            && (r.Success? ==>
                  MultiplicativeRest(left, ks, d, max)
                  == MultiplicativeRest(Binary(MulOperator(op), left, r.value.tree), r.value.rest, d, max))
  {
    hide ParseUnary;
  }

  lemma {:induction false} DeepFactor(f: Factor, rest: seq<Kind>, d: nat, max: nat)
    requires CanonicalFactor(f) && FiniteFactor(f) && Ends(rest, 3) && d <= max < d + CostFactor(f)
    ensures RefusedDeep(ParseUnary(YieldFactor(f) + rest, d, max))
    decreases f
  {
    hide ParsePower, BangRest, CanonicalRaised, FiniteRaised, CostRaised, YieldRaised;
    match f
    case Signed(minus, operand) =>
      var ks := YieldFactor(f) + rest;
      assert ks[1..] == YieldFactor(operand) + rest;
      if d + 1 <= max { DeepFactor(operand, rest, d + 1, max); }
    case Unsigned(postfix) =>
      var after := Bangs(postfix.bangs) + rest;
      RaisedStart(postfix.base, after);
      assert YieldFactor(f) + rest == YieldRaised(postfix.base) + after;
      DeepRaised(postfix.base, after, d, max);
  }

  lemma {:induction false} DeepRaised(r: Raised, rest: seq<Kind>, d: nat, max: nat)
    requires CanonicalRaised(r) && FiniteRaised(r) && d <= max < d + CostRaised(r)
    requires Ends(rest, if r.Raise? then 3 else 2)
    ensures RefusedDeep(ParsePower(YieldRaised(r) + rest, d, max))
    decreases r
  {
    hide ParseAtom, ParseUnary, TreeFactor, YieldFactor, CanonicalFactor, FiniteFactor, CostFactor, TreeAtom,
         YieldAtom, CanonicalAtom, FiniteAtom, CostAtom;
    match r
    case Plain(atom) => DeepAtom(atom, rest, d, max);
    case Raise(atom, exponent) =>
      var after := [Caret] + (YieldFactor(exponent) + rest);
      assert YieldRaised(r) + rest == YieldAtom(atom) + after;
      assert after[1..] == YieldFactor(exponent) + rest;
      if d + CostAtom(atom) > max {
        DeepAtom(atom, after, d, max);
      } else {
        CompleteAtom(atom, after, d, max);
        if d + 1 <= max { DeepFactor(exponent, rest, d + 1, max); }
      }
  }

  lemma {:induction false} DeepAtom(a: Atom, rest: seq<Kind>, d: nat, max: nat)
    requires CanonicalAtom(a) && FiniteAtom(a) && Ends(rest, 1) && d <= max < d + CostAtom(a)
    ensures RefusedDeep(ParseAtom(YieldAtom(a) + rest, d, max))
    decreases a
  {
    hide ParseExpression, TreeExpr, YieldExpr, CanonicalExpr, FiniteExpr, CostExpr, TreeArgTail, YieldArgTail,
         CanonicalArgTail, FiniteArgTail, CostArgTail, ArgumentRest;
    var ks := YieldAtom(a) + rest;
    match a
    case CallSome(_, first, more) =>
      var after := YieldArgTail(more) + rest;
      assert ks[1..][0] == LParen && ks[2..] == YieldExpr(first) + after;
      ExprStart(first, after);
      ArgTailEnds(more, rest);
      if d + 1 + CostExpr(first) <= max {
        CompleteExpr(first, after, d + 1, max);
        DeepArgTail([TreeExpr(first)], more, rest, d + 1, max);
      } else if d + 1 <= max {
        DeepExpr(first, after, d + 1, max);
      }
    case Paren(inner) =>
      var after := [RParen] + rest;
      assert ks[1..] == YieldExpr(inner) + after;
      if d + 1 <= max { DeepExpr(inner, after, d + 1, max); }
    case _ =>
  }

  lemma {:induction false} DeepArgTail(done: seq<Ast>, t: ArgTail, rest: seq<Kind>, d: nat, max: nat)
    requires CanonicalArgTail(t) && FiniteArgTail(t) && d <= max < d + CostArgTail(t)
    ensures RefusedDeep(ArgumentRest(done, YieldArgTail(t) + rest, d, max))
    decreases t
  {
    hide ParseExpression, ArgumentRest, TreeExpr, TreeArgTail, YieldExpr, YieldArgTail, CanonicalExpr, FiniteExpr, CostExpr;
    if t.ArgMore? {
      var ks := YieldArgTail(t) + rest;
      var after := YieldArgTail(t.rest) + rest;
      ArgumentTokens(t.arg, t.rest, rest);
      ArgumentStep(done, ks, d, max);
      ArgTailEnds(t.rest, rest);
      if d + CostExpr(t.arg) > max {
        DeepExpr(t.arg, after, d, max);
      } else {
        CompleteExpr(t.arg, after, d, max);
        DeepArgTail(done + [TreeExpr(t.arg)], t.rest, rest, d, max);
      }
    }
  }

  lemma ArgumentTokens(arg: Expr, more: ArgTail, rest: seq<Kind>)
    ensures var ks := YieldArgTail(ArgMore(arg, more)) + rest;
            Starts(ks, Comma) && ks[1..] == YieldExpr(arg) + (YieldArgTail(more) + rest)
  {
    hide YieldExpr;
    assert YieldArgTail(ArgMore(arg, more)) == [Comma] + (YieldExpr(arg) + YieldArgTail(more));
  }

  lemma ArgumentStep(done: seq<Ast>, ks: seq<Kind>, d: nat, max: nat)
    requires Starts(ks, Comma)
    ensures var r := ParseExpression(ks[1..], d, max);
            && (RefusedDeep(r) ==> RefusedDeep(ArgumentRest(done, ks, d, max)))
            && (r.Success? ==> ArgumentRest(done, ks, d, max) == ArgumentRest(done + [r.value.tree], r.value.rest, d, max))
  {
    hide ParseExpression;
  }

  /** A sentence is accepted with its canonical tree or refused as too deep, and which of the two
      is decided by the cost of any documented derivation of it. */
  lemma SentenceAcceptedIff(e: Expr, max: nat)
    requires FiniteExpr(e)
    ensures var r := ParseProgram(YieldExpr(e), max);
            if CostExpr(e) <= max then r == Success(TreeExpr(NormExpr(e))) else RefusedDeep(r)
    ensures CanonicalExpr(e) && CostExpr(e) <= max ==> ParseProgram(YieldExpr(e), max) == Success(TreeExpr(e))
  {
    hide ParseExpression;
    NormExprSame(e);
    SameTreeExpr(e);
    var c := NormExpr(e);
    assert YieldExpr(c) + [] == YieldExpr(c);
    if CostExpr(e) <= max {
      CompleteExpr(c, [], 0, max);
    } else {
      DeepExpr(c, [], 0, max);
    }
  }

  // ----- Signs before a name -----

  function Minuses(n: nat): (ks: seq<Kind>)
    ensures |ks| == n
  {
    if n == 0 then [] else [Minus] + Minuses(n - 1)
  }

  function SignedName(n: nat): (f: Factor)
    ensures CanonicalFactor(f) && FiniteFactor(f) && CostFactor(f) == n
    ensures YieldFactor(f) == Minuses(n) + [Ident("x")]
  {
    if n == 0 then
      assert YieldRaised(Plain(Name("x"))) + [] == [Ident("x")];
      Unsigned(Postfix(Plain(Name("x")), 0))
    else
      assert Minuses(n) + [Ident("x")] == [Minus] + (Minuses(n - 1) + [Ident("x")]);
      Signed(true, SignedName(n - 1))
  }

  lemma LoneFactor(f: Factor)
    ensures var e := Expr(Term(f, MulEnd), AddEnd);
            YieldExpr(e) == YieldFactor(f) && CostExpr(e) == 1 + CostFactor(f) && FiniteExpr(e) == FiniteFactor(f)
  {
    hide YieldFactor, CostFactor, FiniteFactor;
    var t := Term(f, MulEnd);
    assert YieldTerm(t) == YieldFactor(f) + [] && YieldExpr(Expr(t, AddEnd)) == YieldTerm(t) + [];
    assert CostTerm(t) == CostFactor(f) && FiniteTerm(t) == FiniteFactor(f);
  }

  /** n signs before a name fit the limit of 100 iff there are fewer than 100. */
  lemma ManySigns(n: nat)
    ensures var r := ParseProgram(Minuses(n) + [Ident("x")], 100);
            if n < 100 then r.Success? else RefusedDeep(r)
  {
    hide ParseProgram, CostExpr, FiniteExpr, YieldExpr;
    var f := SignedName(n);
    var e := Expr(Term(f, MulEnd), AddEnd);
    LoneFactor(f);
    SentenceAcceptedIff(e, 100);
  }

  // ----- Any token list, sentence or not -----

  /** A higher limit m changes no answer but "too deep", and with two levels for every token and
      some to spare that answer is never given. */
  ghost predicate Settled<T>(low: Result<T, ParseError>, high: Result<T, ParseError>, need: nat, max: nat) {
    (RefusedDeep(low) || high == low) && (need <= max ==> !RefusedDeep(low))
  }

  lemma {:induction false} HigherExpression(ks: seq<Kind>, d: nat, max: nat, m: nat)
    requires max <= m
    ensures Settled(ParseExpression(ks, d, max), ParseExpression(ks, d, m), d + 1 + 2 * |ks|, max)
    decreases |ks|, 6
  {
    hide ParseAdditive;
    if d + 1 <= max { HigherAdditive(ks, d + 1, max, m); }
  }

  lemma {:induction false} HigherAdditive(ks: seq<Kind>, d: nat, max: nat, m: nat)
    requires max <= m
    ensures Settled(ParseAdditive(ks, d, max), ParseAdditive(ks, d, m), d + 2 * |ks|, max)
    decreases |ks|, 5
  {
    hide ParseMultiplicative, AdditiveRest;
    HigherMultiplicative(ks, d, max, m);
    var r := ParseMultiplicative(ks, d, max);
    if r.Success? { HigherAdditiveRest(r.value.tree, r.value.rest, d, max, m); }
  }

  lemma {:induction false} HigherAdditiveRest(left: Ast, ks: seq<Kind>, d: nat, max: nat, m: nat)
    requires max <= m
    ensures Settled(AdditiveRest(left, ks, d, max), AdditiveRest(left, ks, d, m), d + 2 * |ks|, max)
    decreases |ks|, 5
  {
    if Starts(ks, Plus) || Starts(ks, Minus) {
      hide ParseMultiplicative;
      HigherMultiplicative(ks[1..], d, max, m);
      var r := ParseMultiplicative(ks[1..], d, max);
      if r.Success? {
        HigherAdditiveRest(Binary(SignOp(ks[0] == Minus), left, r.value.tree), r.value.rest, d, max, m);
      }
    }
  }

  lemma {:induction false} HigherMultiplicative(ks: seq<Kind>, d: nat, max: nat, m: nat)
    requires max <= m
    ensures Settled(ParseMultiplicative(ks, d, max), ParseMultiplicative(ks, d, m), d + 2 * |ks|, max)
    decreases |ks|, 4
  {
    hide ParseUnary, MultiplicativeRest;
    HigherUnary(ks, d, max, m);
    var r := ParseUnary(ks, d, max);
    if r.Success? { HigherMultiplicativeRest(r.value.tree, r.value.rest, d, max, m); }
  }

  lemma {:induction false} HigherMultiplicativeRest(left: Ast, ks: seq<Kind>, d: nat, max: nat, m: nat)
    requires max <= m
    ensures Settled(MultiplicativeRest(left, ks, d, max), MultiplicativeRest(left, ks, d, m), d + 2 * |ks|, max)
    decreases |ks|, 4
  {
    if ks != [] && IsMulKind(ks[0]) {
      hide ParseUnary;
      HigherUnary(ks[1..], d, max, m);
      var r := ParseUnary(ks[1..], d, max);
      if r.Success? {
        HigherMultiplicativeRest(Binary(MulOperator(MulOpOf(ks[0])), left, r.value.tree), r.value.rest, d, max, m);
      }
    }
  }

  lemma {:induction false} HigherUnary(ks: seq<Kind>, d: nat, max: nat, m: nat)
    requires max <= m
    ensures Settled(ParseUnary(ks, d, max), ParseUnary(ks, d, m), d + 2 * |ks|, max)
    decreases |ks|, 3
  {
    hide ParsePower, BangRest;
    if Starts(ks, Plus) || Starts(ks, Minus) {
      if d + 1 <= max { HigherUnary(ks[1..], d + 1, max, m); }
    } else {
      HigherPower(ks, d, max, m);
    }
  }

  lemma {:induction false} HigherPower(ks: seq<Kind>, d: nat, max: nat, m: nat)
    requires max <= m
    ensures Settled(ParsePower(ks, d, max), ParsePower(ks, d, m), d + 2 * |ks|, max)
    decreases |ks|, 1
  {
    hide ParseAtom, ParseUnary;
    HigherAtom(ks, d, max, m);
    var r := ParseAtom(ks, d, max);
    if r.Success? && Starts(r.value.rest, Caret) && d + 1 <= max {
      HigherUnary(r.value.rest[1..], d + 1, max, m);
    }
  }

  lemma {:induction false} HigherAtom(ks: seq<Kind>, d: nat, max: nat, m: nat)
    requires max <= m
    ensures Settled(ParseAtom(ks, d, max), ParseAtom(ks, d, m), d + 2 * |ks|, max)
    decreases |ks|, 0
  {
    hide ParseParenthesised, ParseArguments;
    if Starts(ks, LParen) {
      HigherParenthesised(ks[1..], d, max, m);
    } else if ks != [] && ks[0].Ident? && Starts(ks[1..], LParen) {
      HigherArguments(ks[2..], d, max, m);
    }
  }

  lemma {:induction false} HigherParenthesised(ks: seq<Kind>, d: nat, max: nat, m: nat)
    requires max <= m
    ensures Settled(ParseParenthesised(ks, d, max), ParseParenthesised(ks, d, m), d + 2 + 2 * |ks|, max)
    decreases |ks|, 7
  {
    hide ParseExpression;
    if d + 1 <= max { HigherExpression(ks, d + 1, max, m); }
  }

  lemma {:induction false} HigherArguments(ks: seq<Kind>, d: nat, max: nat, m: nat)
    requires max <= m
    ensures Settled(ParseArguments(ks, d, max), ParseArguments(ks, d, m), d + 2 + 2 * |ks|, max)
    decreases |ks|, 7
  {
    hide ParseExpression, ArgumentRest;
    if !Starts(ks, RParen) && d + 1 <= max {
      HigherExpression(ks, d + 1, max, m);
      var r := ParseExpression(ks, d + 1, max);
      if r.Success? { HigherArgumentRest([r.value.tree], r.value.rest, d + 1, max, m); }
    }
  }

  lemma {:induction false} HigherArgumentRest(done: seq<Ast>, ks: seq<Kind>, d: nat, max: nat, m: nat)
    requires max <= m
    ensures Settled(ArgumentRest(done, ks, d, max), ArgumentRest(done, ks, d, m), d + 1 + 2 * |ks|, max)
    decreases |ks|, 0
  {
    if Starts(ks, Comma) {
      hide ParseExpression;
      HigherExpression(ks[1..], d, max, m);
      var r := ParseExpression(ks[1..], d, max);
      if r.Success? { HigherArgumentRest(done + [r.value.tree], r.value.rest, d, max, m); }
    }
  }

  lemma HigherProgram(ks: seq<Kind>, max: nat, m: nat)
    requires max <= m
    ensures Settled(ParseProgram(ks, max), ParseProgram(ks, m), 1 + 2 * |ks|, max)
  {
    hide ParseExpression;
    HigherExpression(ks, 0, max, m);
  }

  /** Sentence or not, a token list is refused as too deep iff some higher limit would have
      changed the answer. */
  lemma RefusedDeepIff(ks: seq<Kind>, max: nat)
    ensures RefusedDeep(ParseProgram(ks, max)) <==> exists m: nat :: m >= max && ParseProgram(ks, m) != ParseProgram(ks, max)
  {
    hide ParseProgram;
    var enough := max + 1 + 2 * |ks|;
    HigherProgram(ks, max, enough);
    HigherProgram(ks, enough, enough);
    if RefusedDeep(ParseProgram(ks, max)) {
      assert enough >= max && ParseProgram(ks, enough) != ParseProgram(ks, max);
    }
    forall m: nat | m >= max && ParseProgram(ks, m) != ParseProgram(ks, max)
      ensures RefusedDeep(ParseProgram(ks, max))
    {
      HigherProgram(ks, max, m);
    }
  }
}
