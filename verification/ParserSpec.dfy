/** What each parsing level computes, as a function of the tokens still unread and the
    nesting depth, and the proof that this is exactly the documented grammar. */
module ParserSpec {
  import opened Wrappers
  import opened Syntax
  import opened Grammar

  datatype Reason = TooDeep | UnexpectedEnd | UnexpectedToken | ExpectedRParen | NotFinite

  /** The error is raised with `unread` tokens left, counting the offending one. */
  datatype ParseError = ParseError(reason: Reason, unread: nat)

  datatype Parsed<T> = Parsed(tree: T, rest: seq<Kind>)

  type Outcome<T> = Result<Parsed<T>, ParseError>

  /** A nesting error is raised after a token that nests. */
  predicate Behind(e: ParseError, n: nat) {
    e.unread <= n && (e.reason == TooDeep ==> e.unread < n)
  }

  predicate Starts(ks: seq<Kind>, k: Kind) {
    ks != [] && ks[0] == k
  }

  predicate IsMulKind(k: Kind) {
    k == Star || k == Slash || k == Percent
  }

  function MulOpOf(k: Kind): (op: MulOp)
    requires IsMulKind(k)
    ensures MulKind(op) == k
  {
    if k == Star then ByStar else if k == Slash then BySlash else ByPercent
  }

  function ParseExpression(ks: seq<Kind>, d: nat, max: nat): (r: Outcome<Ast>)
    ensures if r.Success? then |r.value.rest| < |ks| else r.error.unread <= |ks|
    decreases |ks|, 6
  {
    if d + 1 > max then Failure(ParseError(TooDeep, |ks|)) else ParseAdditive(ks, d + 1, max)
  }

  function ParseAdditive(ks: seq<Kind>, d: nat, max: nat): (r: Outcome<Ast>)
    ensures if r.Success? then |r.value.rest| < |ks| else Behind(r.error, |ks|)
    decreases |ks|, 5
  {
    var p :- ParseMultiplicative(ks, d, max);
    AdditiveRest(p.tree, p.rest, d, max)
  }

  function AdditiveRest(left: Ast, ks: seq<Kind>, d: nat, max: nat): (r: Outcome<Ast>)
    ensures if r.Success? then |r.value.rest| <= |ks| else Behind(r.error, |ks|)
    decreases |ks|, 5
  {
    if Starts(ks, Plus) || Starts(ks, Minus) then
      var p :- ParseMultiplicative(ks[1..], d, max);
      AdditiveRest(Binary(SignOp(ks[0] == Minus), left, p.tree), p.rest, d, max)
    else
      Success(Parsed(left, ks))
  }

  function ParseMultiplicative(ks: seq<Kind>, d: nat, max: nat): (r: Outcome<Ast>)
    ensures if r.Success? then |r.value.rest| < |ks| else Behind(r.error, |ks|)
    decreases |ks|, 4
  {
    var p :- ParseUnary(ks, d, max);
    MultiplicativeRest(p.tree, p.rest, d, max)
  }

  function MultiplicativeRest(left: Ast, ks: seq<Kind>, d: nat, max: nat): (r: Outcome<Ast>)
    ensures if r.Success? then |r.value.rest| <= |ks| else Behind(r.error, |ks|)
    decreases |ks|, 4
  {
    if ks != [] && IsMulKind(ks[0]) then
      var p :- ParseUnary(ks[1..], d, max);
      MultiplicativeRest(Binary(MulOperator(MulOpOf(ks[0])), left, p.tree), p.rest, d, max)
    else
      Success(Parsed(left, ks))
  }

  function ParseUnary(ks: seq<Kind>, d: nat, max: nat): (r: Outcome<Ast>)
    ensures if r.Success? then |r.value.rest| < |ks| else Behind(r.error, |ks|)
    decreases |ks|, 3
  {
    if Starts(ks, Plus) || Starts(ks, Minus) then
      if d + 1 > max then Failure(ParseError(TooDeep, |ks| - 1))
      else
        var p :- ParseUnary(ks[1..], d + 1, max);
        Success(Parsed(Unary(ks[0] == Minus, p.tree), p.rest))
    else
      ParsePostfix(ks, d, max)
  }

  function ParsePostfix(ks: seq<Kind>, d: nat, max: nat): (r: Outcome<Ast>)
    ensures if r.Success? then |r.value.rest| < |ks| else Behind(r.error, |ks|)
    decreases |ks|, 2
  {
    var p :- ParsePower(ks, d, max);
    Success(BangRest(p.tree, p.rest))
  }

  function BangRest(node: Ast, ks: seq<Kind>): (p: Parsed<Ast>)
    ensures |p.rest| <= |ks|
    decreases |ks|
  {
    if Starts(ks, Bang) then BangRest(Factorial(node), ks[1..]) else Parsed(node, ks)
  }

  function ParsePower(ks: seq<Kind>, d: nat, max: nat): (r: Outcome<Ast>)
    ensures if r.Success? then |r.value.rest| < |ks| else Behind(r.error, |ks|)
    decreases |ks|, 1
  {
    var p :- ParseAtom(ks, d, max);
    if !Starts(p.rest, Caret) then Success(p)
    else if d + 1 > max then Failure(ParseError(TooDeep, |p.rest| - 1))
    else
      var q :- ParseUnary(p.rest[1..], d + 1, max);
      Success(Parsed(Binary(Power, p.tree, q.tree), q.rest))
  }

  function ParseAtom(ks: seq<Kind>, d: nat, max: nat): (r: Outcome<Ast>)
    ensures if r.Success? then |r.value.rest| < |ks| else Behind(r.error, |ks|)
    decreases |ks|, 0
  {
    if ks == [] then Failure(ParseError(UnexpectedEnd, 0))
    else match ks[0]
      case Number(text) =>
        if LiteralValue(text).None? then Failure(ParseError(NotFinite, |ks|))
        else Success(Parsed(Literal(LiteralValue(text).value), ks[1..]))
      case LParen => ParseParenthesised(ks[1..], d, max)
      case Ident(name) =>
        if !Starts(ks[1..], LParen) then Success(Parsed(Identifier(name), ks[1..]))
        else
          var p :- ParseArguments(ks[2..], d, max);
          Success(Parsed(Call(name, p.tree), p.rest))
      case _ => Failure(ParseError(UnexpectedToken, |ks|))
  }

  /** The part of an atom after its opening parenthesis. */
  function ParseParenthesised(ks: seq<Kind>, d: nat, max: nat): (r: Outcome<Ast>)
    ensures if r.Success? then |r.value.rest| < |ks| else r.error.unread <= |ks|
    decreases |ks|, 7
  {
    if d + 1 > max then Failure(ParseError(TooDeep, |ks|))
    else
      var p :- ParseExpression(ks, d + 1, max);
      if Starts(p.rest, RParen) then Success(Parsed(p.tree, p.rest[1..]))
      else Failure(ParseError(ExpectedRParen, |p.rest|))
  }

  /** The part of a call after its opening parenthesis. */
  function ParseArguments(ks: seq<Kind>, d: nat, max: nat): (r: Outcome<seq<Ast>>)
    ensures if r.Success? then |r.value.rest| < |ks| else r.error.unread <= |ks|
    decreases |ks|, 7
  {
    if Starts(ks, RParen) then Success(Parsed([], ks[1..]))
    else if d + 1 > max then Failure(ParseError(TooDeep, |ks|))
    else
      var p :- ParseExpression(ks, d + 1, max);
      ArgumentRest([p.tree], p.rest, d + 1, max)
  }

  function ArgumentRest(done: seq<Ast>, ks: seq<Kind>, d: nat, max: nat): (r: Outcome<seq<Ast>>)
    ensures if r.Success? then |r.value.rest| < |ks| else Behind(r.error, |ks|)
    decreases |ks|, 0
  {
    if Starts(ks, Comma) then
      var p :- ParseExpression(ks[1..], d, max);
      ArgumentRest(done + [p.tree], p.rest, d, max)
    else if Starts(ks, RParen) then Success(Parsed(done, ks[1..]))
    else Failure(ParseError(ExpectedRParen, |ks|))
  }

  /** The whole token list must be one expression. */
  function ParseProgram(ks: seq<Kind>, max: nat): (r: Result<Ast, ParseError>)
    ensures r.Failure? ==> r.error.unread <= |ks|
  {
    var p :- ParseExpression(ks, 0, max);
    if p.rest == [] then Success(p.tree) else Failure(ParseError(UnexpectedToken, |p.rest|))
  }

  // ----- Completeness: every derivation is found -----

  /** How tightly a token binds to what precedes it: a level can end before any token that
      binds less tightly. */
  function Looseness(k: Kind): nat {
    match k
    case LParen => 0
    case Caret => 1
    case Bang => 2
    case Star => 3
    case Slash => 3
    case Percent => 3
    case Plus => 4
    case Minus => 4
    case _ => 5
  }

  predicate Ends(ks: seq<Kind>, level: nat) {
    ks == [] || Looseness(ks[0]) >= level
  }

  lemma {:induction false} CompleteExpr(e: Expr, rest: seq<Kind>, d: nat, max: nat)
    requires CanonicalExpr(e) && FiniteExpr(e) && d + CostExpr(e) <= max && Ends(rest, 5)
    ensures ParseExpression(YieldExpr(e) + rest, d, max) == Success(Parsed(TreeExpr(e), rest))
    decreases e
  {
    hide ParseMultiplicative, AdditiveRest, TreeTerm, YieldTerm, CanonicalTerm, FiniteTerm, CostTerm, TreeAddTail,
         CanonicalAddTail, FiniteAddTail, CostAddTail;
    var after := YieldAddTail(e.rest) + rest;
    assert YieldExpr(e) + rest == YieldTerm(e.first) + after;
    CompleteTerm(e.first, after, d + 1, max);
    CompleteAddTail(TreeTerm(e.first), e.rest, rest, d + 1, max);
  }

  lemma {:induction false} CompleteAddTail(left: Ast, t: AddTail, rest: seq<Kind>, d: nat, max: nat)
    requires CanonicalAddTail(t) && FiniteAddTail(t) && d + CostAddTail(t) <= max && Ends(rest, 5)
    ensures AdditiveRest(left, YieldAddTail(t) + rest, d, max) == Success(Parsed(TreeAddTail(left, t), rest))
    decreases t
  {
    hide ParseMultiplicative, TreeTerm, YieldTerm, CanonicalTerm, FiniteTerm, CostTerm;
    match t
    case AddEnd =>
      assert YieldAddTail(t) + rest == rest;
    case AddMore(minus, term, more) =>
      var after := YieldAddTail(more) + rest;
      var ks := YieldAddTail(t) + rest;
      assert ks == [Sign(minus)] + (YieldTerm(term) + after);
      assert ks[1..] == YieldTerm(term) + after;
      CompleteTerm(term, after, d, max);
      CompleteAddTail(Binary(SignOp(minus), left, TreeTerm(term)), more, rest, d, max);
  }

  lemma {:induction false} CompleteTerm(t: Term, rest: seq<Kind>, d: nat, max: nat)
    requires CanonicalTerm(t) && FiniteTerm(t) && d + CostTerm(t) <= max && Ends(rest, 4)
    ensures ParseMultiplicative(YieldTerm(t) + rest, d, max) == Success(Parsed(TreeTerm(t), rest))
    decreases t
  {
    hide ParseUnary, MultiplicativeRest, TreeFactor, YieldFactor, CanonicalFactor, FiniteFactor, CostFactor,
         TreeMulTail, CanonicalMulTail, FiniteMulTail, CostMulTail;
    var after := YieldMulTail(t.rest) + rest;
    assert YieldTerm(t) + rest == YieldFactor(t.first) + after;
    CompleteFactor(t.first, after, d, max);
    CompleteMulTail(TreeFactor(t.first), t.rest, rest, d, max);
  }

  lemma {:induction false} CompleteMulTail(left: Ast, t: MulTail, rest: seq<Kind>, d: nat, max: nat)
    requires CanonicalMulTail(t) && FiniteMulTail(t) && d + CostMulTail(t) <= max && Ends(rest, 4)
    ensures MultiplicativeRest(left, YieldMulTail(t) + rest, d, max) == Success(Parsed(TreeMulTail(left, t), rest))
    decreases t
  {
    hide ParseUnary, TreeFactor, YieldFactor, CanonicalFactor, FiniteFactor, CostFactor;
    match t
    case MulEnd =>
      assert YieldMulTail(t) + rest == rest;
    case MulMore(op, factor, more) =>
      var after := YieldMulTail(more) + rest;
      var ks := YieldMulTail(t) + rest;
      assert ks == [MulKind(op)] + (YieldFactor(factor) + after);
      assert ks[1..] == YieldFactor(factor) + after;
      CompleteFactor(factor, after, d, max);
      CompleteMulTail(Binary(MulOperator(op), left, TreeFactor(factor)), more, rest, d, max);
  }

  lemma {:induction false} CompleteFactor(f: Factor, rest: seq<Kind>, d: nat, max: nat)
    requires CanonicalFactor(f) && FiniteFactor(f) && d + CostFactor(f) <= max && Ends(rest, 3)
    ensures ParseUnary(YieldFactor(f) + rest, d, max) == Success(Parsed(TreeFactor(f), rest))
    decreases f
  {
    hide ParsePostfix, TreePostfix, CanonicalRaised, FiniteRaised;
    match f
    case Signed(minus, operand) =>
      var ks := YieldFactor(f) + rest;
      assert ks[1..] == YieldFactor(operand) + rest;
      CompleteFactor(operand, rest, d + 1, max);
    case Unsigned(postfix) =>
      CompletePostfix(postfix, rest, d, max);
      RaisedStart(postfix.base, Bangs(postfix.bangs) + rest);
      assert YieldFactor(f) + rest == YieldRaised(postfix.base) + (Bangs(postfix.bangs) + rest);
  }

  lemma {:induction false} CompletePostfix(p: Postfix, rest: seq<Kind>, d: nat, max: nat)
    requires CanonicalFactor(Unsigned(p)) && FiniteRaised(p.base) && d + CostRaised(p.base) <= max && Ends(rest, 3)
    ensures ParsePostfix(YieldPostfix(p) + rest, d, max) == Success(Parsed(TreePostfix(p), rest))
    decreases p
  {
    hide ParsePower, BangRest, TreeRaised, YieldRaised, CanonicalRaised, FiniteRaised, CostRaised;
    var after := Bangs(p.bangs) + rest;
    assert YieldPostfix(p) + rest == YieldRaised(p.base) + after;
    CompleteRaised(p.base, after, d, max);
    CompleteBangs(TreeRaised(p.base), p.bangs, rest);
  }

  /** An unsigned factor cannot be mistaken for a signed one. */
  lemma RaisedStart(r: Raised, rest: seq<Kind>)
    ensures var ks := YieldRaised(r) + rest; ks != [] && !Starts(ks, Plus) && !Starts(ks, Minus)
  {
    AtomStart(r.atom);
  }

  lemma {:induction false} CompleteBangs(node: Ast, n: nat, rest: seq<Kind>)
    requires Ends(rest, 3)
    ensures BangRest(node, Bangs(n) + rest) == Parsed(Factorials(node, n), rest)
    decreases n
  {
    if n == 0 {
      assert Bangs(n) + rest == rest;
    } else {
      assert (Bangs(n) + rest)[1..] == Bangs(n - 1) + rest;
      CompleteBangs(Factorial(node), n - 1, rest);
    }
  }

  lemma {:induction false} CompleteRaised(r: Raised, rest: seq<Kind>, d: nat, max: nat)
    requires CanonicalRaised(r) && FiniteRaised(r) && d + CostRaised(r) <= max
    requires Ends(rest, if r.Raise? then 3 else 2)
    ensures ParsePower(YieldRaised(r) + rest, d, max) == Success(Parsed(TreeRaised(r), rest))
    decreases r
  {
    hide ParseAtom, ParseUnary, TreeFactor, YieldFactor, CanonicalFactor, FiniteFactor, CostFactor, TreeAtom,
         YieldAtom, CanonicalAtom, FiniteAtom, CostAtom;
    match r
    case Plain(atom) => CompleteAtom(atom, rest, d, max);
    case Raise(atom, exponent) =>
      var after := [Caret] + (YieldFactor(exponent) + rest);
      assert YieldRaised(r) + rest == YieldAtom(atom) + after;
      assert after[1..] == YieldFactor(exponent) + rest;
      CompleteAtom(atom, after, d, max);
      CompleteFactor(exponent, rest, d + 1, max);
  }

  lemma {:induction false} CompleteAtom(a: Atom, rest: seq<Kind>, d: nat, max: nat)
    requires CanonicalAtom(a) && FiniteAtom(a) && d + CostAtom(a) <= max && Ends(rest, 1)
    ensures ParseAtom(YieldAtom(a) + rest, d, max) == Success(Parsed(TreeAtom(a), rest))
    decreases a
  {
    hide ParseExpression, TreeExpr, YieldExpr, CanonicalExpr, FiniteExpr, CostExpr, TreeArgTail, YieldArgTail,
         CanonicalArgTail, FiniteArgTail, CostArgTail, ArgumentRest;
    var ks := YieldAtom(a) + rest;
    match a
    case Num(text) =>
      assert ks == [Number(text)] + rest;
      assert ks[1..] == rest;
    case Name(name) =>
      assert ks == [Ident(name)] + rest;
      assert ks[1..] == rest && !Starts(rest, LParen);
    case CallNone(name) =>
      assert ks == [Ident(name), LParen, RParen] + rest;
      assert ks[1..][0] == LParen && ks[2..][0] == RParen;
      assert ks[2..][1..] == rest;
    case CallSome(name, first, more) => CompleteCall(a, rest, d, max);
    case Paren(inner) =>
      var after := [RParen] + rest;
      assert ks[1..] == YieldExpr(inner) + after;
      assert after[1..] == rest;
      CompleteExpr(inner, after, d + 1, max);
  }

  lemma {:induction false} CompleteCall(a: Atom, rest: seq<Kind>, d: nat, max: nat)
    requires a.CallSome? && CanonicalAtom(a) && FiniteAtom(a) && d + CostAtom(a) <= max
    ensures ParseAtom(YieldAtom(a) + rest, d, max) == Success(Parsed(TreeAtom(a), rest))
    decreases a, 0
  {
    hide ParseExpression, ArgumentRest, TreeExpr, YieldExpr, CanonicalExpr, FiniteExpr, CostExpr, TreeArgTail,
         YieldArgTail, CanonicalArgTail, FiniteArgTail, CostArgTail;
    var ks := YieldAtom(a) + rest;
    var after := YieldArgTail(a.rest) + rest;
    assert ks[1..][0] == LParen && ks[2..] == YieldExpr(a.first) + after;
    ArgTailEnds(a.rest, rest);
    ExprStart(a.first, after);
    CompleteExpr(a.first, after, d + 1, max);
    CompleteArgTail([TreeExpr(a.first)], a.rest, rest, d + 1, max);
  }

  lemma ArgTailEnds(t: ArgTail, rest: seq<Kind>)
    ensures Ends(YieldArgTail(t) + rest, 5)
  {
  }

  lemma AtomStart(a: Atom)
    ensures YieldAtom(a) != [] && YieldAtom(a)[0] !in {RParen, Comma, Plus, Minus}
  {
  }

  lemma FactorStart(f: Factor)
    ensures YieldFactor(f) != [] && YieldFactor(f)[0] !in {RParen, Comma}
  {
    match f
    case Signed(minus, _) =>
      assert YieldFactor(f)[0] == Sign(minus);
    case Unsigned(postfix) =>
      var a := postfix.base.atom;
      AtomStart(a);
      assert YieldRaised(postfix.base)[0] == YieldAtom(a)[0];
  }

  lemma ExprStart(e: Expr, rest: seq<Kind>)
    ensures !Starts(YieldExpr(e) + rest, RParen)
  {
    FactorStart(e.first.first);
  }

  lemma {:induction false} CompleteArgTail(done: seq<Ast>, t: ArgTail, rest: seq<Kind>, d: nat, max: nat)
    requires CanonicalArgTail(t) && FiniteArgTail(t) && d + CostArgTail(t) <= max
    ensures ArgumentRest(done, YieldArgTail(t) + rest, d, max) == Success(Parsed(TreeArgTail(done, t), rest))
    decreases t
  {
    hide ParseExpression, TreeExpr, YieldExpr, CanonicalExpr, FiniteExpr, CostExpr;
    var ks := YieldArgTail(t) + rest;
    match t
    case ArgEnd => assert ks[1..] == rest;
    case ArgMore(arg, more) =>
      var after := YieldArgTail(more) + rest;
      assert ks[1..] == YieldExpr(arg) + after;
      ArgTailEnds(more, rest);
      CompleteExpr(arg, after, d, max);
      CompleteArgTail(done + [TreeExpr(arg)], more, rest, d, max);
  }

  // ----- Soundness: whatever is parsed has a canonical derivation -----

  /** The tokens ks split into the yield of the derivation and the rest. */
  lemma {:induction false} SoundExpr(ks: seq<Kind>, d: nat, max: nat) returns (e: Expr)
    requires ParseExpression(ks, d, max).Success?
    ensures var p := ParseExpression(ks, d, max).value; ks == YieldExpr(e) + p.rest && p.tree == TreeExpr(e)
    ensures CanonicalExpr(e) && FiniteExpr(e) && d + CostExpr(e) <= max
    decreases |ks|, 6
  {
    hide ParseMultiplicative, AdditiveRest, TreeTerm, YieldTerm, CanonicalTerm, FiniteTerm, CostTerm, TreeAddTail,
         YieldAddTail, CanonicalAddTail, FiniteAddTail, CostAddTail;
    var p := ParseMultiplicative(ks, d + 1, max).value;
    var first := SoundTerm(ks, d + 1, max);
    var rest := SoundAddTail(p.tree, p.rest, d + 1, max);
    e := Expr(first, rest);
  }

  lemma AddMoreFacts(minus: bool, term: Term, rest: AddTail, left: Ast)
    ensures var t := AddMore(minus, term, rest);
            && YieldAddTail(t) == [Sign(minus)] + (YieldTerm(term) + YieldAddTail(rest))
            && TreeAddTail(left, t) == TreeAddTail(Binary(SignOp(minus), left, TreeTerm(term)), rest)
            && (CanonicalAddTail(t) <==> CanonicalTerm(term) && CanonicalAddTail(rest))
            && (FiniteAddTail(t) <==> FiniteTerm(term) && FiniteAddTail(rest))
            && CostAddTail(t) == Max(CostTerm(term), CostAddTail(rest))
  {
  }

  lemma AddEndFacts(left: Ast)
    ensures YieldAddTail(AddEnd) == [] && TreeAddTail(left, AddEnd) == left
    ensures CanonicalAddTail(AddEnd) && FiniteAddTail(AddEnd) && CostAddTail(AddEnd) == 0
  {
  }

  lemma AdditiveStep(left: Ast, ks: seq<Kind>, d: nat, max: nat)
    requires AdditiveRest(left, ks, d, max).Success?
    ensures if Starts(ks, Plus) || Starts(ks, Minus) then
              var r := ParseMultiplicative(ks[1..], d, max);
              && r.Success?
              && AdditiveRest(left, ks, d, max)
                 == AdditiveRest(Binary(SignOp(ks[0] == Minus), left, r.value.tree), r.value.rest, d, max)
            else AdditiveRest(left, ks, d, max) == Success(Parsed(left, ks))
  {
    hide ParseMultiplicative;
  }

  lemma {:induction false} SoundAddTail(left: Ast, ks: seq<Kind>, d: nat, max: nat) returns (t: AddTail)
    requires AdditiveRest(left, ks, d, max).Success? && d <= max
    ensures var p := AdditiveRest(left, ks, d, max).value;
            ks == YieldAddTail(t) + p.rest && p.tree == TreeAddTail(left, t)
    ensures CanonicalAddTail(t) && FiniteAddTail(t) && d + CostAddTail(t) <= max
    decreases |ks|, 5
  {
    hide ParseMultiplicative, TreeTerm, YieldTerm, CanonicalTerm, FiniteTerm, CostTerm,
         AdditiveRest, TreeAddTail, YieldAddTail, CanonicalAddTail, FiniteAddTail, CostAddTail;
    AdditiveStep(left, ks, d, max);
    if Starts(ks, Plus) || Starts(ks, Minus) {
      var minus := ks[0] == Minus;
      var p := ParseMultiplicative(ks[1..], d, max).value;
      var term := SoundTerm(ks[1..], d, max);
      var rest := SoundAddTail(Binary(SignOp(minus), left, p.tree), p.rest, d, max);
      t := AddMore(minus, term, rest);
      AddMoreFacts(minus, term, rest, left);
      assert ks == [Sign(minus)] + ks[1..];
    } else {
      t := AddEnd;
      AddEndFacts(left);
    }
  }

  lemma {:induction false} SoundTerm(ks: seq<Kind>, d: nat, max: nat) returns (t: Term)
    requires ParseMultiplicative(ks, d, max).Success? && d <= max
    ensures var p := ParseMultiplicative(ks, d, max).value; ks == YieldTerm(t) + p.rest && p.tree == TreeTerm(t)
    ensures CanonicalTerm(t) && FiniteTerm(t) && d + CostTerm(t) <= max
    decreases |ks|, 4
  {
    hide ParseUnary, MultiplicativeRest, TreeFactor, YieldFactor, CanonicalFactor, FiniteFactor, CostFactor,
         TreeMulTail, YieldMulTail, CanonicalMulTail, FiniteMulTail, CostMulTail;
    var p := ParseUnary(ks, d, max).value;
    var first := SoundFactor(ks, d, max);
    var rest := SoundMulTail(p.tree, p.rest, d, max);
    t := Term(first, rest);
  }

  lemma MulMoreFacts(op: MulOp, factor: Factor, rest: MulTail, left: Ast)
    ensures var t := MulMore(op, factor, rest);
            && YieldMulTail(t) == [MulKind(op)] + (YieldFactor(factor) + YieldMulTail(rest))
            && TreeMulTail(left, t) == TreeMulTail(Binary(MulOperator(op), left, TreeFactor(factor)), rest)
            && (CanonicalMulTail(t) <==> CanonicalFactor(factor) && CanonicalMulTail(rest))
            && (FiniteMulTail(t) <==> FiniteFactor(factor) && FiniteMulTail(rest))
            && CostMulTail(t) == Max(CostFactor(factor), CostMulTail(rest))
  {
  }

  lemma MulEndFacts(left: Ast)
    ensures YieldMulTail(MulEnd) == [] && TreeMulTail(left, MulEnd) == left
    ensures CanonicalMulTail(MulEnd) && FiniteMulTail(MulEnd) && CostMulTail(MulEnd) == 0
  {
  }

  lemma MultiplicativeStep(left: Ast, ks: seq<Kind>, d: nat, max: nat)
    requires MultiplicativeRest(left, ks, d, max).Success?
    ensures if ks != [] && IsMulKind(ks[0]) then
              var r := ParseUnary(ks[1..], d, max);
              && r.Success?
              && MultiplicativeRest(left, ks, d, max)
                 == MultiplicativeRest(Binary(MulOperator(MulOpOf(ks[0])), left, r.value.tree), r.value.rest, d, max)
            else MultiplicativeRest(left, ks, d, max) == Success(Parsed(left, ks))
  {
    hide ParseUnary;
  }

  lemma {:induction false} SoundMulTail(left: Ast, ks: seq<Kind>, d: nat, max: nat) returns (t: MulTail)
    requires MultiplicativeRest(left, ks, d, max).Success? && d <= max
    ensures var p := MultiplicativeRest(left, ks, d, max).value;
            ks == YieldMulTail(t) + p.rest && p.tree == TreeMulTail(left, t)
    ensures CanonicalMulTail(t) && FiniteMulTail(t) && d + CostMulTail(t) <= max
    decreases |ks|, 4
  {
    hide ParseUnary, TreeFactor, YieldFactor, CanonicalFactor, FiniteFactor, CostFactor,
         MultiplicativeRest, TreeMulTail, YieldMulTail, CanonicalMulTail, FiniteMulTail, CostMulTail;
    MultiplicativeStep(left, ks, d, max);
    if ks != [] && IsMulKind(ks[0]) {
      var op := MulOpOf(ks[0]);
      var p := ParseUnary(ks[1..], d, max).value;
      var factor := SoundFactor(ks[1..], d, max);
      var rest := SoundMulTail(Binary(MulOperator(op), left, p.tree), p.rest, d, max);
      t := MulMore(op, factor, rest);
      MulMoreFacts(op, factor, rest, left);
      assert ks == [MulKind(op)] + ks[1..];
    } else {
      t := MulEnd;
      MulEndFacts(left);
    }
  }

  lemma UnaryStep(ks: seq<Kind>, d: nat, max: nat)
    requires ParseUnary(ks, d, max).Success?
    ensures var u := ParseUnary(ks, d, max).value;
            if Starts(ks, Plus) || Starts(ks, Minus) then
              var r := ParseUnary(ks[1..], d + 1, max);
              d + 1 <= max && r.Success? && u == Parsed(Unary(ks[0] == Minus, r.value.tree), r.value.rest)
            else
              var r := ParsePower(ks, d, max);
              r.Success? && u == BangRest(r.value.tree, r.value.rest)
  {
    hide ParsePower, BangRest;
  }

  lemma SignedFacts(minus: bool, operand: Factor)
    ensures var f := Signed(minus, operand);
            && YieldFactor(f) == [Sign(minus)] + YieldFactor(operand) && TreeFactor(f) == Unary(minus, TreeFactor(operand))
            && CanonicalFactor(f) == CanonicalFactor(operand) && FiniteFactor(f) == FiniteFactor(operand)
            && CostFactor(f) == 1 + CostFactor(operand)
  {
  }

  lemma UnsignedFacts(base: Raised, n: nat)
    ensures var f := Unsigned(Postfix(base, n));
            && YieldFactor(f) == YieldRaised(base) + Bangs(n) && TreeFactor(f) == Factorials(TreeRaised(base), n)
            && CanonicalFactor(f) == (CanonicalRaised(base) && (base.Raise? ==> n == 0))
            && FiniteFactor(f) == FiniteRaised(base) && CostFactor(f) == CostRaised(base)
  {
  }

  lemma {:induction false} SoundFactor(ks: seq<Kind>, d: nat, max: nat) returns (f: Factor)
    requires ParseUnary(ks, d, max).Success? && d <= max
    ensures var p := ParseUnary(ks, d, max).value; ks == YieldFactor(f) + p.rest && p.tree == TreeFactor(f)
    ensures CanonicalFactor(f) && FiniteFactor(f) && d + CostFactor(f) <= max
    ensures !Starts(ParseUnary(ks, d, max).value.rest, Bang)
    decreases |ks|, 3
  {
    hide ParseUnary, ParsePower, BangRest, TreeFactor, YieldFactor, CanonicalFactor, FiniteFactor, CostFactor,
         TreeRaised, YieldRaised, CanonicalRaised, FiniteRaised, CostRaised, Bangs, Factorials;
    UnaryStep(ks, d, max);
    if Starts(ks, Plus) || Starts(ks, Minus) {
      var minus := ks[0] == Minus;
      var operand := SoundFactor(ks[1..], d + 1, max);
      f := Signed(minus, operand);
      SignedFacts(minus, operand);
      assert ks == [Sign(minus)] + ks[1..];
    } else {
      var p := ParsePower(ks, d, max).value;
      var base := SoundRaised(ks, d, max);
      var n := SoundBangs(p.tree, p.rest);
      f := Unsigned(Postfix(base, n));
      UnsignedFacts(base, n);
    }
  }

  lemma {:induction false} SoundBangs(node: Ast, ks: seq<Kind>) returns (n: nat)
    ensures var p := BangRest(node, ks); ks == Bangs(n) + p.rest && p.tree == Factorials(node, n)
    ensures n == 0 <==> !Starts(ks, Bang)
    ensures !Starts(BangRest(node, ks).rest, Bang)
    decreases |ks|
  {
    if Starts(ks, Bang) {
      var m := SoundBangs(Factorial(node), ks[1..]);
      n := m + 1;
      assert ks == [Bang] + ks[1..];
    } else {
      n := 0;
    }
  }

  lemma {:induction false} SoundRaised(ks: seq<Kind>, d: nat, max: nat) returns (r: Raised)
    requires ParsePower(ks, d, max).Success? && d <= max
    ensures var p := ParsePower(ks, d, max).value; ks == YieldRaised(r) + p.rest && p.tree == TreeRaised(r)
    ensures CanonicalRaised(r) && FiniteRaised(r) && d + CostRaised(r) <= max
    ensures r.Raise? ==> !Starts(ParsePower(ks, d, max).value.rest, Bang)
    decreases |ks|, 1
  {
    hide ParseAtom, ParseUnary, TreeFactor, YieldFactor, CanonicalFactor, FiniteFactor, CostFactor, TreeAtom,
         YieldAtom, CanonicalAtom, FiniteAtom, CostAtom;
    var p := ParseAtom(ks, d, max).value;
    var atom := SoundAtom(ks, d, max);
    if Starts(p.rest, Caret) {
      var exponent := SoundFactor(p.rest[1..], d + 1, max);
      r := Raise(atom, exponent);
      assert p.rest == [Caret] + p.rest[1..];
    } else {
      r := Plain(atom);
    }
  }

  lemma {:induction false} SoundAtom(ks: seq<Kind>, d: nat, max: nat) returns (a: Atom)
    requires ParseAtom(ks, d, max).Success? && d <= max
    ensures var p := ParseAtom(ks, d, max).value; ks == YieldAtom(a) + p.rest && p.tree == TreeAtom(a)
    ensures CanonicalAtom(a) && FiniteAtom(a) && d + CostAtom(a) <= max
    decreases |ks|, 0, 1
  {
    hide ParseExpression, ArgumentRest, TreeExpr, YieldExpr, CanonicalExpr, FiniteExpr, CostExpr, TreeArgTail,
         YieldArgTail, CanonicalArgTail, FiniteArgTail, CostArgTail;
    match ks[0]
    case Number(text) => a := Num(text);
    case LParen =>
      var p := ParseExpression(ks[1..], d + 1, max).value;
      var inner := SoundExpr(ks[1..], d + 1, max);
      a := Paren(inner);
      assert ks == [LParen] + ks[1..] && p.rest == [RParen] + p.rest[1..];
    case Ident(name) =>
      if !Starts(ks[1..], LParen) {
        a := Name(name);
      } else if Starts(ks[2..], RParen) {
        a := CallNone(name);
        assert ks == [Ident(name), LParen, RParen] + ks[2..][1..];
      } else {
        a := SoundCall(ks, name, d, max);
      }
  }

  lemma {:induction false} SoundCall(ks: seq<Kind>, name: string, d: nat, max: nat) returns (a: Atom)
    requires ParseAtom(ks, d, max).Success? && d <= max
    requires Starts(ks, Ident(name)) && Starts(ks[1..], LParen) && !Starts(ks[2..], RParen)
    ensures var p := ParseAtom(ks, d, max).value; ks == YieldAtom(a) + p.rest && p.tree == TreeAtom(a)
    ensures CanonicalAtom(a) && FiniteAtom(a) && d + CostAtom(a) <= max
    decreases |ks|, 0, 0
  {
    hide ParseExpression, ArgumentRest, TreeExpr, YieldExpr, CanonicalExpr, FiniteExpr, CostExpr, TreeArgTail,
         YieldArgTail, CanonicalArgTail, FiniteArgTail, CostArgTail;
    var p := ParseExpression(ks[2..], d + 1, max).value;
    var first := SoundExpr(ks[2..], d + 1, max);
    var rest := SoundArgTail([p.tree], p.rest, d + 1, max);
    a := CallSome(name, first, rest);
    assert ks == [Ident(name), LParen] + ks[2..];
  }

  lemma {:induction false} SoundArgTail(done: seq<Ast>, ks: seq<Kind>, d: nat, max: nat) returns (t: ArgTail)
    requires ArgumentRest(done, ks, d, max).Success? && d <= max
    ensures var p := ArgumentRest(done, ks, d, max).value;
            ks == YieldArgTail(t) + p.rest && p.tree == TreeArgTail(done, t)
    ensures CanonicalArgTail(t) && FiniteArgTail(t) && d + CostArgTail(t) <= max
    decreases |ks|, 0
  {
    hide ParseExpression, TreeExpr, YieldExpr, CanonicalExpr, FiniteExpr, CostExpr;
    if Starts(ks, Comma) {
      var p := ParseExpression(ks[1..], d, max).value;
      var arg := SoundExpr(ks[1..], d, max);
      var rest := SoundArgTail(done + [p.tree], p.rest, d, max);
      t := ArgMore(arg, rest);
      assert ks == [Comma] + ks[1..];
    } else {
      t := ArgEnd;
      assert ks == [RParen] + ks[1..];
    }
  }
}
