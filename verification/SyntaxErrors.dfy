/** Where a syntax error is reported: at the first token that no sentence can have there. */
module SyntaxErrors {
  import opened Wrappers
  import opened Syntax
  import opened Grammar
  import opened ParserSpec
  import opened ParserTheorems
  import opened DepthLimit

  // ----- What lies before the error begins a sentence -----

  /** A failure after so many tokens, the last one before a nesting error not counted. */
  predicate FailsAfter<T>(r: Result<T, ParseError>, ks: seq<Kind>, at: int) {
    r.Failure? && at == |ks| - r.error.unread - (if r.error.reason == TooDeep then 1 else 0)
  }

  lemma Joins(a: seq<Kind>, rest: seq<Kind>, at: nat, b: seq<Kind>)
    requires at <= |rest| && rest[..at] <= b
    ensures (a + rest)[..|a| + at] <= a + b
  {
    assert (a + rest)[..|a| + at] == a + rest[..at];
  }

  lemma JoinsFirst(ks: seq<Kind>, n: nat, at: nat, b: seq<Kind>)
    requires n <= at <= |ks| && ks[n..][..at - n] <= b
    ensures ks[..at] <= ks[..n] + b
  {
    assert ks == ks[..n] + ks[n..];
    Joins(ks[..n], ks[n..], at - n, b);
  }

  lemma Extends(p: seq<Kind>, a: seq<Kind>, b: seq<Kind>)
    requires p <= a
    ensures p <= a + b
  {
  }

  lemma ExprFacts(t: Term, rest: AddTail)
    ensures var e := Expr(t, rest);
            && YieldExpr(e) == YieldTerm(t) + YieldAddTail(rest)
            && (CanonicalExpr(e) <==> CanonicalTerm(t) && CanonicalAddTail(rest))
            && (FiniteExpr(e) <==> FiniteTerm(t) && FiniteAddTail(rest))
            && CostExpr(e) == 1 + Max(CostTerm(t), CostAddTail(rest))
  {
  }

  lemma TermFacts(f: Factor, rest: MulTail)
    ensures var t := Term(f, rest);
            && YieldTerm(t) == YieldFactor(f) + YieldMulTail(rest)
            && (CanonicalTerm(t) <==> CanonicalFactor(f) && CanonicalMulTail(rest))
            && (FiniteTerm(t) <==> FiniteFactor(f) && FiniteMulTail(rest))
            && CostTerm(t) == Max(CostFactor(f), CostMulTail(rest))
  {
  }

  lemma {:induction false} BeginsExpr(ks: seq<Kind>, d: nat, max: nat, at: nat) returns (e: Expr)
    requires FailsAfter(ParseExpression(ks, d, max), ks, at)
    ensures CanonicalExpr(e) && FiniteExpr(e) && d + CostExpr(e) <= max && ks[..at] <= YieldExpr(e)
    decreases |ks|, 6
  {
    hide ParseMultiplicative, AdditiveRest, YieldTerm, CanonicalTerm, FiniteTerm, CostTerm, YieldAddTail, CanonicalAddTail,
         FiniteAddTail, CostAddTail, YieldExpr, CanonicalExpr, FiniteExpr, CostExpr, TreeTerm;
    var r := ParseMultiplicative(ks, d + 1, max);
    if r.Failure? {
      var t := BeginsTerm(ks, d + 1, max, at);
      e := Expr(t, AddEnd);
      ExprFacts(t, AddEnd);
      AddEndFacts(Identifier(""));
      Extends(ks[..at], YieldTerm(t), []);
    } else {
      var t := SoundTerm(ks, d + 1, max);
      var n := |YieldTerm(t)|;
      var rest := BeginsAddTail(r.value.tree, r.value.rest, d + 1, max, at - n);
      e := Expr(t, rest);
      ExprFacts(t, rest);
      Joins(YieldTerm(t), r.value.rest, at - n, YieldAddTail(rest));
    }
  }

  lemma {:induction false} BeginsAddTail(left: Ast, ks: seq<Kind>, d: nat, max: nat, at: nat) returns (t: AddTail)
    requires FailsAfter(AdditiveRest(left, ks, d, max), ks, at) && d <= max
    ensures CanonicalAddTail(t) && FiniteAddTail(t) && d + CostAddTail(t) <= max && ks[..at] <= YieldAddTail(t)
    decreases |ks|, 5
  {
    hide ParseMultiplicative, YieldTerm, CanonicalTerm, FiniteTerm, CostTerm, YieldAddTail, CanonicalAddTail, FiniteAddTail,
         CostAddTail, TreeTerm;
    var minus := ks[0] == Minus;
    var r := ParseMultiplicative(ks[1..], d, max);
    assert ks[..1] == [Sign(minus)];
    if r.Failure? {
      var term := BeginsTerm(ks[1..], d, max, at - 1);
      t := AddMore(minus, term, AddEnd);
      AddMoreFacts(minus, term, AddEnd, left);
      AddEndFacts(left);
      Extends(ks[1..][..at - 1], YieldTerm(term), []);
      JoinsFirst(ks, 1, at, YieldTerm(term) + []);
    } else {
      var term := SoundTerm(ks[1..], d, max);
      var n := |YieldTerm(term)|;
      var rest := BeginsAddTail(Binary(SignOp(minus), left, r.value.tree), r.value.rest, d, max, at - 1 - n);
      t := AddMore(minus, term, rest);
      AddMoreFacts(minus, term, rest, left);
      Joins(YieldTerm(term), r.value.rest, at - 1 - n, YieldAddTail(rest));
      JoinsFirst(ks, 1, at, YieldTerm(term) + YieldAddTail(rest));
    }
  }

  lemma {:induction false} BeginsTerm(ks: seq<Kind>, d: nat, max: nat, at: nat) returns (t: Term)
    requires FailsAfter(ParseMultiplicative(ks, d, max), ks, at) && d <= max
    ensures CanonicalTerm(t) && FiniteTerm(t) && d + CostTerm(t) <= max && ks[..at] <= YieldTerm(t)
    decreases |ks|, 4
  {
    hide ParseUnary, MultiplicativeRest, YieldFactor, CanonicalFactor, FiniteFactor, CostFactor, YieldMulTail, CanonicalMulTail,
         FiniteMulTail, CostMulTail, YieldTerm, CanonicalTerm, FiniteTerm, CostTerm, TreeFactor;
    var r := ParseUnary(ks, d, max);
    if r.Failure? {
      var f := BeginsFactor(ks, d, max, at);
      t := Term(f, MulEnd);
      TermFacts(f, MulEnd);
      MulEndFacts(Identifier(""));
      Extends(ks[..at], YieldFactor(f), []);
    } else {
      var f := SoundFactor(ks, d, max);
      var n := |YieldFactor(f)|;
      var rest := BeginsMulTail(r.value.tree, r.value.rest, d, max, at - n);
      t := Term(f, rest);
      TermFacts(f, rest);
      Joins(YieldFactor(f), r.value.rest, at - n, YieldMulTail(rest));
    }
  }

  lemma {:induction false} BeginsMulTail(left: Ast, ks: seq<Kind>, d: nat, max: nat, at: nat) returns (t: MulTail)
    requires FailsAfter(MultiplicativeRest(left, ks, d, max), ks, at) && d <= max
    ensures CanonicalMulTail(t) && FiniteMulTail(t) && d + CostMulTail(t) <= max && ks[..at] <= YieldMulTail(t)
    decreases |ks|, 4
  {
    hide ParseUnary, YieldFactor, CanonicalFactor, FiniteFactor, CostFactor, YieldMulTail, CanonicalMulTail, FiniteMulTail,
         CostMulTail, TreeFactor;
    var op := MulOpOf(ks[0]);
    var r := ParseUnary(ks[1..], d, max);
    assert ks[..1] == [MulKind(op)];
    if r.Failure? {
      var f := BeginsFactor(ks[1..], d, max, at - 1);
      t := MulMore(op, f, MulEnd);
      MulMoreFacts(op, f, MulEnd, left);
      MulEndFacts(left);
      Extends(ks[1..][..at - 1], YieldFactor(f), []);
      JoinsFirst(ks, 1, at, YieldFactor(f) + []);
    } else {
      var f := SoundFactor(ks[1..], d, max);
      var n := |YieldFactor(f)|;
      var rest := BeginsMulTail(Binary(MulOperator(op), left, r.value.tree), r.value.rest, d, max, at - 1 - n);
      t := MulMore(op, f, rest);
      MulMoreFacts(op, f, rest, left);
      Joins(YieldFactor(f), r.value.rest, at - 1 - n, YieldMulTail(rest));
      JoinsFirst(ks, 1, at, YieldFactor(f) + YieldMulTail(rest));
    }
  }

  lemma {:induction false} BeginsFactor(ks: seq<Kind>, d: nat, max: nat, at: nat) returns (f: Factor)
    requires FailsAfter(ParseUnary(ks, d, max), ks, at) && d <= max
    ensures CanonicalFactor(f) && FiniteFactor(f) && d + CostFactor(f) <= max && ks[..at] <= YieldFactor(f)
    decreases |ks|, 3
  {
    hide ParsePower, BangRest, YieldFactor, CanonicalFactor, FiniteFactor, CostFactor, YieldRaised, CanonicalRaised,
         FiniteRaised, CostRaised;
    if (Starts(ks, Plus) || Starts(ks, Minus)) && d + 1 > max {
      f := ShortFactor();
    } else if Starts(ks, Plus) || Starts(ks, Minus) {
      var minus := ks[0] == Minus;
      var g := BeginsFactor(ks[1..], d + 1, max, at - 1);
      f := Signed(minus, g);
      SignedFacts(minus, g);
      assert ks[..1] == [Sign(minus)];
      JoinsFirst(ks, 1, at, YieldFactor(g));
    } else {
      var r := BeginsRaised(ks, d, max, at);
      f := Unsigned(Postfix(r, 0));
      UnsignedFacts(r, 0);
      Extends(ks[..at], YieldRaised(r), Bangs(0));
    }
  }

  lemma ShortFactor() returns (f: Factor)
    ensures CanonicalFactor(f) && FiniteFactor(f) && CostFactor(f) == 0
  {
    f := Unsigned(Postfix(Plain(Name("x")), 0));
  }

  lemma RaiseFacts(a: Atom, f: Factor)
    ensures var r := Raise(a, f);
            && YieldRaised(r) == YieldAtom(a) + ([Caret] + YieldFactor(f))
            && CanonicalRaised(r) == (CanonicalAtom(a) && CanonicalFactor(f))
            && FiniteRaised(r) == (FiniteAtom(a) && FiniteFactor(f))
            && CostRaised(r) == Max(CostAtom(a), 1 + CostFactor(f))
  {
  }

  lemma {:induction false} BeginsRaised(ks: seq<Kind>, d: nat, max: nat, at: nat) returns (r: Raised)
    requires FailsAfter(ParsePower(ks, d, max), ks, at) && d <= max
    ensures CanonicalRaised(r) && FiniteRaised(r) && d + CostRaised(r) <= max && ks[..at] <= YieldRaised(r)
    decreases |ks|, 1
  {
    hide ParseAtom, ParseUnary, YieldFactor, CanonicalFactor, FiniteFactor, CostFactor, YieldAtom, CanonicalAtom, FiniteAtom,
         CostAtom, TreeAtom;
    var p := ParseAtom(ks, d, max);
    if p.Failure? {
      var a := BeginsAtom(ks, d, max, at);
      r := Plain(a);
    } else {
      var a := SoundAtom(ks, d, max);
      var n, rest := |YieldAtom(a)|, p.value.rest;
      if d + 1 > max {
        r := Plain(a);
        assert ks[..at] == YieldAtom(a);
      } else {
        var f := BeginsFactor(rest[1..], d + 1, max, at - n - 1);
        r := Raise(a, f);
        RaiseFacts(a, f);
        assert rest[..1] == [Caret];
        JoinsFirst(rest, 1, at - n, YieldFactor(f));
        Joins(YieldAtom(a), rest, at - n, [Caret] + YieldFactor(f));
      }
    }
  }

  /** An atom the tokens begin. Nothing yet: a name could stand there. */
  lemma {:induction false} BeginsAtom(ks: seq<Kind>, d: nat, max: nat, at: nat) returns (a: Atom)
    requires FailsAfter(ParseAtom(ks, d, max), ks, at) && d <= max
    ensures CanonicalAtom(a) && FiniteAtom(a) && d + CostAtom(a) <= max && ks[..at] <= YieldAtom(a)
    decreases |ks|, 0
  {
    hide ParseParenthesised, ParseArguments;
    if Starts(ks, LParen) {
      a := BeginsParen(ks, d, max, at);
    } else if ks != [] && ks[0].Ident? && Starts(ks[1..], LParen) {
      a := BeginsCall(ks, d, max, at);
    } else {
      a := Name("x");
    }
  }

  lemma ShortAtom(name: string) returns (a: Atom)
    ensures CanonicalAtom(a) && FiniteAtom(a) && CostAtom(a) == 0 && YieldAtom(a) == [Ident(name)]
  {
    a := Name(name);
  }

  lemma ParenFacts(e: Expr)
    ensures var a := Paren(e);
            && YieldAtom(a) == [LParen] + (YieldExpr(e) + [RParen])
            && CanonicalAtom(a) == CanonicalExpr(e) && FiniteAtom(a) == FiniteExpr(e) && CostAtom(a) == 1 + CostExpr(e)
  {
  }

  lemma {:induction false} BeginsParen(ks: seq<Kind>, d: nat, max: nat, at: nat) returns (a: Atom)
    requires Starts(ks, LParen) && FailsAfter(ParseParenthesised(ks[1..], d, max), ks[1..], at - 1) && d <= max
    ensures CanonicalAtom(a) && FiniteAtom(a) && d + CostAtom(a) <= max && at <= |ks| && ks[..at] <= YieldAtom(a)
    decreases |ks|, 0, 0
  {
    hide ParseExpression, YieldExpr, CanonicalExpr, FiniteExpr, CostExpr, YieldAtom, CanonicalAtom, FiniteAtom, CostAtom,
         TreeExpr;
    var r := ParseExpression(ks[1..], d + 1, max);
    if at == 0 {
      a := ShortAtom("x");
      return;
    }
    var e;
    if r.Failure? {
      e := BeginsExpr(ks[1..], d + 1, max, at - 1);
    } else {
      e := SoundExpr(ks[1..], d + 1, max);
      assert ks[1..][..at - 1] == YieldExpr(e);
    }
    a := Paren(e);
    ParenFacts(e);
    Extends(ks[1..][..at - 1], YieldExpr(e), [RParen]);
    assert ks[..1] == [LParen];
    JoinsFirst(ks, 1, at, YieldExpr(e) + [RParen]);
  }

  lemma CallFacts(name: string, e: Expr, t: ArgTail)
    ensures var a := CallSome(name, e, t);
            && YieldAtom(a) == [Ident(name), LParen] + (YieldExpr(e) + YieldArgTail(t))
            && CanonicalAtom(a) == (CanonicalExpr(e) && CanonicalArgTail(t))
            && FiniteAtom(a) == (FiniteExpr(e) && FiniteArgTail(t))
            && CostAtom(a) == 1 + Max(CostExpr(e), CostArgTail(t))
  {
  }

  lemma ArgFacts(e: Expr, t: ArgTail)
    ensures YieldArgTail(ArgEnd) == [RParen] && CanonicalArgTail(ArgEnd) && FiniteArgTail(ArgEnd) && CostArgTail(ArgEnd) == 0
    ensures var a := ArgMore(e, t);
            && YieldArgTail(a) == [Comma] + (YieldExpr(e) + YieldArgTail(t))
            && CanonicalArgTail(a) == (CanonicalExpr(e) && CanonicalArgTail(t))
            && FiniteArgTail(a) == (FiniteExpr(e) && FiniteArgTail(t))
            && CostArgTail(a) == Max(CostExpr(e), CostArgTail(t))
  {
  }

  lemma {:induction false} BeginsCall(ks: seq<Kind>, d: nat, max: nat, at: nat) returns (a: Atom)
    requires ks != [] && ks[0].Ident? && Starts(ks[1..], LParen) && d <= max
    requires FailsAfter(ParseArguments(ks[2..], d, max), ks[2..], at - 2)
    ensures CanonicalAtom(a) && FiniteAtom(a) && d + CostAtom(a) <= max && at <= |ks| && ks[..at] <= YieldAtom(a)
    decreases |ks|, 0, 0
  {
    hide ParseExpression, ArgumentRest, YieldExpr, CanonicalExpr, FiniteExpr, CostExpr, YieldAtom, CanonicalAtom, FiniteAtom,
         CostAtom, YieldArgTail, CanonicalArgTail, FiniteArgTail, CostArgTail, TreeExpr;
    var r := ParseExpression(ks[2..], d + 1, max);
    if at == 1 {
      a := ShortAtom(ks[0].name);
      assert ks[..1] == [Ident(ks[0].name)];
      return;
    }
    var e, t;
    if r.Failure? {
      e := BeginsExpr(ks[2..], d + 1, max, at - 2);
      t := ArgEnd;
      Extends(ks[2..][..at - 2], YieldExpr(e), YieldArgTail(t));
    } else {
      e := SoundExpr(ks[2..], d + 1, max);
      var n := |YieldExpr(e)|;
      t := BeginsArgTail([r.value.tree], r.value.rest, d + 1, max, at - 2 - n);
      Joins(YieldExpr(e), r.value.rest, at - 2 - n, YieldArgTail(t));
    }
    a := CallSome(ks[0].name, e, t);
    CallFacts(ks[0].name, e, t);
    ArgFacts(e, t);
    assert ks[..2] == [Ident(ks[0].name), LParen];
    JoinsFirst(ks, 2, at, YieldExpr(e) + YieldArgTail(t));
  }

  lemma {:induction false} BeginsArgTail(done: seq<Ast>, ks: seq<Kind>, d: nat, max: nat, at: nat) returns (t: ArgTail)
    requires FailsAfter(ArgumentRest(done, ks, d, max), ks, at) && d <= max
    ensures CanonicalArgTail(t) && FiniteArgTail(t) && d + CostArgTail(t) <= max && ks[..at] <= YieldArgTail(t)
    decreases |ks|, 0
  {
    hide ParseExpression, YieldExpr, CanonicalExpr, FiniteExpr, CostExpr, YieldArgTail, CanonicalArgTail, FiniteArgTail,
         CostArgTail, TreeExpr;
    if Starts(ks, Comma) && at > 0 {
      var r := ParseExpression(ks[1..], d, max);
      var e, rest;
      assert ks[..1] == [Comma];
      if r.Failure? {
        e := BeginsExpr(ks[1..], d, max, at - 1);
        rest := ArgEnd;
        Extends(ks[1..][..at - 1], YieldExpr(e), YieldArgTail(rest));
      } else {
        e := SoundExpr(ks[1..], d, max);
        var n := |YieldExpr(e)|;
        rest := BeginsArgTail(done + [r.value.tree], r.value.rest, d, max, at - 1 - n);
        Joins(YieldExpr(e), r.value.rest, at - 1 - n, YieldArgTail(rest));
      }
      t := ArgMore(e, rest);
      ArgFacts(e, rest);
      JoinsFirst(ks, 1, at, YieldExpr(e) + YieldArgTail(rest));
    } else {
      t := ArgEnd;
      ArgFacts(Expr(Term(Unsigned(Postfix(Plain(Name("")), 0)), MulEnd), AddEnd), ArgEnd);
    }
  }

  lemma BeginsSentence(ks: seq<Kind>, max: nat, at: nat) returns (e: Expr)
    requires FailsAfter(ParseProgram(ks, max), ks, at)
    ensures CanonicalExpr(e) && FiniteExpr(e) && CostExpr(e) <= max && ks[..at] <= YieldExpr(e)
  {
    hide ParseExpression, YieldExpr, CanonicalExpr, FiniteExpr, CostExpr, TreeExpr;
    var r := ParseExpression(ks, 0, max);
    if r.Failure? {
      e := BeginsExpr(ks, 0, max, at);
    } else {
      e := SoundExpr(ks, 0, max);
      assert ks[..at] == YieldExpr(e);
    }
  }

  // ----- What the parser says depends on the tokens it has seen -----

  ghost predicate SameStart(ks: seq<Kind>, ks': seq<Kind>, n: nat) {
    n <= |ks| && n <= |ks'| && ks[..n] == ks'[..n]
  }

  /** An outcome settled by the first n tokens is the same for any list that starts with them. */
  ghost predicate SameOutcome<T>(r: Outcome<T>, r': Outcome<T>, ks: seq<Kind>, ks': seq<Kind>, n: nat) {
    match r
    case Success(p) =>
      var c := |ks| - |p.rest|;
      0 <= c && (c < n && c <= |ks'| ==> r' == Success(Parsed(p.tree, ks'[c..])))
    case Failure(e) =>
      var at := |ks| - e.unread;
      0 <= at && (at < n && at <= |ks'| ==> r' == Failure(ParseError(e.reason, |ks'| - at)))
  }

  lemma StartDrop(ks: seq<Kind>, ks': seq<Kind>, n: nat, k: nat)
    requires SameStart(ks, ks', n) && k <= n
    ensures SameStart(ks[k..], ks'[k..], n - k)
    ensures n > 0 ==> ks[0] == ks'[0]
    ensures k < n ==> ks[k] == ks'[k]
  {
    assert ks[k..][..n - k] == ks[..n][k..];
    assert ks'[k..][..n - k] == ks'[..n][k..];
    if n > 0 { assert ks[..n][0] == ks'[..n][0]; }
    if k < n { assert ks[..n][k] == ks'[..n][k]; }
  }

  /** The outcome of reading on from token k is the outcome of reading from the start. */
  lemma OutcomeShift<T>(r: Outcome<T>, r': Outcome<T>, ks: seq<Kind>, ks': seq<Kind>, n: nat, k: nat)
    requires SameStart(ks, ks', n) && k <= n && SameOutcome(r, r', ks[k..], ks'[k..], n - k)
    ensures SameOutcome(r, r', ks, ks', n)
  {
    if r.Success? {
      var c := |ks| - |r.value.rest|;
      if k <= c < n { assert ks'[k..][c - k..] == ks'[c..]; }
    }
  }

  lemma RestAfterTerm(ks: seq<Kind>, d: nat, max: nat) returns (c: nat)
    requires ParseMultiplicative(ks, d, max).Success? && d <= max
    ensures c == |ks| - |ParseMultiplicative(ks, d, max).value.rest| && ks[c..] == ParseMultiplicative(ks, d, max).value.rest
  {
    hide ParseMultiplicative, YieldTerm, CanonicalTerm, FiniteTerm, CostTerm, TreeTerm;
    var t := SoundTerm(ks, d, max);
    c := |YieldTerm(t)|;
  }

  lemma RestAfterFactor(ks: seq<Kind>, d: nat, max: nat) returns (c: nat)
    requires ParseUnary(ks, d, max).Success? && d <= max
    ensures c == |ks| - |ParseUnary(ks, d, max).value.rest| && ks[c..] == ParseUnary(ks, d, max).value.rest
  {
    hide ParseUnary, YieldFactor, CanonicalFactor, FiniteFactor, CostFactor, TreeFactor;
    var f := SoundFactor(ks, d, max);
    c := |YieldFactor(f)|;
  }

  lemma RestAfterPower(ks: seq<Kind>, d: nat, max: nat) returns (c: nat)
    requires ParsePower(ks, d, max).Success? && d <= max
    ensures c == |ks| - |ParsePower(ks, d, max).value.rest| && ks[c..] == ParsePower(ks, d, max).value.rest
  {
    hide ParsePower, YieldRaised, CanonicalRaised, FiniteRaised, CostRaised, TreeRaised;
    var r := SoundRaised(ks, d, max);
    c := |YieldRaised(r)|;
  }

  lemma RestAfterAtom(ks: seq<Kind>, d: nat, max: nat) returns (c: nat)
    requires ParseAtom(ks, d, max).Success? && d <= max
    ensures c == |ks| - |ParseAtom(ks, d, max).value.rest| && ks[c..] == ParseAtom(ks, d, max).value.rest
  {
    hide ParseAtom, YieldAtom, CanonicalAtom, FiniteAtom, CostAtom, TreeAtom;
    var a := SoundAtom(ks, d, max);
    c := |YieldAtom(a)|;
  }

  lemma RestAfterExpr(ks: seq<Kind>, d: nat, max: nat) returns (c: nat)
    requires ParseExpression(ks, d, max).Success?
    ensures c == |ks| - |ParseExpression(ks, d, max).value.rest| && ks[c..] == ParseExpression(ks, d, max).value.rest
  {
    hide ParseExpression, YieldExpr, CanonicalExpr, FiniteExpr, CostExpr, TreeExpr;
    var e := SoundExpr(ks, d, max);
    c := |YieldExpr(e)|;
  }

  lemma {:induction false} LocalExpr(ks: seq<Kind>, ks': seq<Kind>, n: nat, d: nat, max: nat)
    requires SameStart(ks, ks', n)
    ensures SameOutcome(ParseExpression(ks, d, max), ParseExpression(ks', d, max), ks, ks', n)
    decreases |ks|, 6
  {
    hide ParseMultiplicative, AdditiveRest;
    if d + 1 <= max {
      LocalTerm(ks, ks', n, d + 1, max);
      var r := ParseMultiplicative(ks, d + 1, max);
      if r.Success? {
        var c := RestAfterTerm(ks, d + 1, max);
        if c < n {
          StartDrop(ks, ks', n, c);
          LocalAddTail(r.value.tree, ks[c..], ks'[c..], n - c, d + 1, max);
          OutcomeShift(AdditiveRest(r.value.tree, ks[c..], d + 1, max), AdditiveRest(r.value.tree, ks'[c..], d + 1, max),
                       ks, ks', n, c);
        }
      }
    }
  }

  /** The part of a sum after its sign. */
  ghost function AfterSign(left: Ast, op: Operator, ks: seq<Kind>, d: nat, max: nat): Outcome<Ast> {
    var r := ParseMultiplicative(ks, d, max);
    if r.Failure? then r else AdditiveRest(Binary(op, left, r.value.tree), r.value.rest, d, max)
  }

  lemma AddUnfold(left: Ast, ks: seq<Kind>, d: nat, max: nat)
    ensures AdditiveRest(left, ks, d, max) ==
              if Starts(ks, Plus) || Starts(ks, Minus) then AfterSign(left, SignOp(ks[0] == Minus), ks[1..], d, max)
              else Success(Parsed(left, ks))
  {
    hide ParseMultiplicative;
  }

  lemma {:induction false} LocalAddTail(left: Ast, ks: seq<Kind>, ks': seq<Kind>, n: nat, d: nat, max: nat)
    requires SameStart(ks, ks', n) && d <= max
    ensures SameOutcome(AdditiveRest(left, ks, d, max), AdditiveRest(left, ks', d, max), ks, ks', n)
    decreases |ks|, 5
  {
    if n > 0 {
      hide ParseMultiplicative, AdditiveRest, AfterSign;
      StartDrop(ks, ks', n, 1);
      AddUnfold(left, ks, d, max);
      AddUnfold(left, ks', d, max);
      if Starts(ks, Plus) || Starts(ks, Minus) {
        var op := SignOp(ks[0] == Minus);
        LocalAfterSign(left, op, ks[1..], ks'[1..], n - 1, d, max);
        OutcomeShift(AfterSign(left, op, ks[1..], d, max), AfterSign(left, op, ks'[1..], d, max), ks, ks', n, 1);
      }
    }
  }

  lemma {:induction false} LocalAfterSign(left: Ast, op: Operator, ks: seq<Kind>, ks': seq<Kind>, n: nat, d: nat, max: nat)
    requires SameStart(ks, ks', n) && d <= max
    ensures SameOutcome(AfterSign(left, op, ks, d, max), AfterSign(left, op, ks', d, max), ks, ks', n)
    decreases |ks|, 6
  {
    hide ParseMultiplicative, AdditiveRest;
    LocalTerm(ks, ks', n, d, max);
    var r := ParseMultiplicative(ks, d, max);
    if r.Success? {
      var c := RestAfterTerm(ks, d, max);
      if c < n {
        var node := Binary(op, left, r.value.tree);
        StartDrop(ks, ks', n, c);
        LocalAddTail(node, ks[c..], ks'[c..], n - c, d, max);
        OutcomeShift(AdditiveRest(node, ks[c..], d, max), AdditiveRest(node, ks'[c..], d, max), ks, ks', n, c);
      }
    }
  }

  lemma {:induction false} LocalTerm(ks: seq<Kind>, ks': seq<Kind>, n: nat, d: nat, max: nat)
    requires SameStart(ks, ks', n) && d <= max
    ensures SameOutcome(ParseMultiplicative(ks, d, max), ParseMultiplicative(ks', d, max), ks, ks', n)
    decreases |ks|, 4
  {
    hide ParseUnary, MultiplicativeRest;
    LocalFactor(ks, ks', n, d, max);
    var r := ParseUnary(ks, d, max);
    if r.Success? {
      var c := RestAfterFactor(ks, d, max);
      if c < n {
        StartDrop(ks, ks', n, c);
        LocalMulTail(r.value.tree, ks[c..], ks'[c..], n - c, d, max);
        OutcomeShift(MultiplicativeRest(r.value.tree, ks[c..], d, max), MultiplicativeRest(r.value.tree, ks'[c..], d, max),
                     ks, ks', n, c);
      }
    }
  }

  /** The part of a product after its operator. */
  ghost function AfterOperator(left: Ast, op: Operator, ks: seq<Kind>, d: nat, max: nat): Outcome<Ast> {
    var r := ParseUnary(ks, d, max);
    if r.Failure? then r else MultiplicativeRest(Binary(op, left, r.value.tree), r.value.rest, d, max)
  }

  lemma MulUnfold(left: Ast, ks: seq<Kind>, d: nat, max: nat)
    ensures MultiplicativeRest(left, ks, d, max) ==
              if ks != [] && IsMulKind(ks[0]) then AfterOperator(left, MulOperator(MulOpOf(ks[0])), ks[1..], d, max)
              else Success(Parsed(left, ks))
  {
    hide ParseUnary;
  }

  lemma {:induction false} LocalMulTail(left: Ast, ks: seq<Kind>, ks': seq<Kind>, n: nat, d: nat, max: nat)
    requires SameStart(ks, ks', n) && d <= max
    ensures SameOutcome(MultiplicativeRest(left, ks, d, max), MultiplicativeRest(left, ks', d, max), ks, ks', n)
    decreases |ks|, 4
  {
    if n > 0 {
      hide ParseUnary, MultiplicativeRest, AfterOperator;
      StartDrop(ks, ks', n, 1);
      MulUnfold(left, ks, d, max);
      MulUnfold(left, ks', d, max);
      if IsMulKind(ks[0]) {
        var op := MulOperator(MulOpOf(ks[0]));
        LocalAfterOperator(left, op, ks[1..], ks'[1..], n - 1, d, max);
        OutcomeShift(AfterOperator(left, op, ks[1..], d, max), AfterOperator(left, op, ks'[1..], d, max), ks, ks', n, 1);
      }
    }
  }

  lemma {:induction false} LocalAfterOperator(left: Ast, op: Operator, ks: seq<Kind>, ks': seq<Kind>, n: nat, d: nat, max: nat)
    requires SameStart(ks, ks', n) && d <= max
    ensures SameOutcome(AfterOperator(left, op, ks, d, max), AfterOperator(left, op, ks', d, max), ks, ks', n)
    decreases |ks|, 5
  {
    hide ParseUnary, MultiplicativeRest;
    LocalFactor(ks, ks', n, d, max);
    var r := ParseUnary(ks, d, max);
    if r.Success? {
      var c := RestAfterFactor(ks, d, max);
      if c < n {
        var node := Binary(op, left, r.value.tree);
        StartDrop(ks, ks', n, c);
        LocalMulTail(node, ks[c..], ks'[c..], n - c, d, max);
        OutcomeShift(MultiplicativeRest(node, ks[c..], d, max), MultiplicativeRest(node, ks'[c..], d, max), ks, ks', n, c);
      }
    }
  }

  lemma UnaryUnfold(ks: seq<Kind>, d: nat, max: nat)
    ensures ParseUnary(ks, d, max) ==
              if Starts(ks, Plus) || Starts(ks, Minus) then
                if d + 1 > max then Failure(ParseError(TooDeep, |ks| - 1))
                else
                  var r := ParseUnary(ks[1..], d + 1, max);
                  if r.Failure? then r else Success(Parsed(Unary(ks[0] == Minus, r.value.tree), r.value.rest))
              else
                var r := ParsePower(ks, d, max);
                if r.Failure? then r else Success(BangRest(r.value.tree, r.value.rest))
  {
    hide ParsePower, BangRest;
  }

  function SignedOutcome(minus: bool, r: Outcome<Ast>): Outcome<Ast> {
    if r.Failure? then r else Success(Parsed(Unary(minus, r.value.tree), r.value.rest))
  }

  function PostfixOutcome(r: Outcome<Ast>): Outcome<Ast> {
    if r.Failure? then r else Success(BangRest(r.value.tree, r.value.rest))
  }

  lemma SignedSame(minus: bool, r: Outcome<Ast>, r': Outcome<Ast>, ks: seq<Kind>, ks': seq<Kind>, n: nat)
    requires SameOutcome(r, r', ks, ks', n)
    ensures SameOutcome(SignedOutcome(minus, r), SignedOutcome(minus, r'), ks, ks', n)
  {
  }

  lemma UnaryIs(ks: seq<Kind>, d: nat, max: nat)
    ensures ParseUnary(ks, d, max) ==
              if Starts(ks, Plus) || Starts(ks, Minus) then
                if d + 1 > max then Failure(ParseError(TooDeep, |ks| - 1))
                else SignedOutcome(ks[0] == Minus, ParseUnary(ks[1..], d + 1, max))
              else PostfixOutcome(ParsePower(ks, d, max))
  {
    hide ParsePower, BangRest;
    UnaryUnfold(ks, d, max);
  }

  lemma {:induction false} LocalFactor(ks: seq<Kind>, ks': seq<Kind>, n: nat, d: nat, max: nat)
    requires SameStart(ks, ks', n) && d <= max
    ensures SameOutcome(ParseUnary(ks, d, max), ParseUnary(ks', d, max), ks, ks', n)
    decreases |ks|, 3
  {
    hide ParseUnary, ParsePower, SignedOutcome, PostfixOutcome;
    if n > 0 {
      StartDrop(ks, ks', n, 1);
      UnaryIs(ks, d, max);
      UnaryIs(ks', d, max);
      if Starts(ks, Plus) || Starts(ks, Minus) {
        if d + 1 <= max {
          var r, r' := ParseUnary(ks[1..], d + 1, max), ParseUnary(ks'[1..], d + 1, max);
          LocalFactor(ks[1..], ks'[1..], n - 1, d + 1, max);
          OutcomeShift(r, r', ks, ks', n, 1);
          SignedSame(ks[0] == Minus, r, r', ks, ks', n);
        }
      } else {
        LocalRaised(ks, ks', n, d, max);
        LocalPostfix(ks, ks', n, d, max);
      }
    } else {
      NothingSeen(ks, ks', d, max);
    }
  }

  lemma NothingSeen(ks: seq<Kind>, ks': seq<Kind>, d: nat, max: nat)
    ensures SameOutcome(ParseUnary(ks, d, max), ParseUnary(ks', d, max), ks, ks', 0)
  {
    hide ParseUnary;
  }

  lemma LocalPostfix(ks: seq<Kind>, ks': seq<Kind>, n: nat, d: nat, max: nat)
    requires SameStart(ks, ks', n) && d <= max
    requires SameOutcome(ParsePower(ks, d, max), ParsePower(ks', d, max), ks, ks', n)
    ensures SameOutcome(PostfixOutcome(ParsePower(ks, d, max)), PostfixOutcome(ParsePower(ks', d, max)), ks, ks', n)
  {
    hide ParsePower, BangRest;
    var r := ParsePower(ks, d, max);
    if r.Success? {
      var c := RestAfterPower(ks, d, max);
      if c < n {
        StartDrop(ks, ks', n, c);
        LocalBangs(r.value.tree, ks[c..], ks'[c..], n - c);
        OutcomeShift(Success(BangRest(r.value.tree, ks[c..])), Success(BangRest(r.value.tree, ks'[c..])), ks, ks', n, c);
      }
    }
  }

  lemma {:induction false} LocalBangs(node: Ast, ks: seq<Kind>, ks': seq<Kind>, n: nat)
    requires SameStart(ks, ks', n)
    ensures SameOutcome(Success(BangRest(node, ks)), Success(BangRest(node, ks')), ks, ks', n)
    decreases |ks|
  {
    if n > 0 {
      StartDrop(ks, ks', n, 1);
      if Starts(ks, Bang) {
        LocalBangs(Factorial(node), ks[1..], ks'[1..], n - 1);
        OutcomeShift(Success(BangRest(node, ks)), Success(BangRest(node, ks')), ks, ks', n, 1);
      }
    }
  }

  lemma {:induction false} LocalRaised(ks: seq<Kind>, ks': seq<Kind>, n: nat, d: nat, max: nat)
    requires SameStart(ks, ks', n) && d <= max
    ensures SameOutcome(ParsePower(ks, d, max), ParsePower(ks', d, max), ks, ks', n)
    decreases |ks|, 1
  {
    hide ParseAtom, ParseUnary;
    LocalAtom(ks, ks', n, d, max);
    var r := ParseAtom(ks, d, max);
    if r.Success? {
      var c := RestAfterAtom(ks, d, max);
      if c < n {
        StartDrop(ks, ks', n, c);
        if ks[c] == Caret && d + 1 <= max {
          StartDrop(ks, ks', n, c + 1);
          assert ks[c..][1..] == ks[c + 1..] && ks'[c..][1..] == ks'[c + 1..];
          LocalFactor(ks[c + 1..], ks'[c + 1..], n - c - 1, d + 1, max);
          OutcomeShift(ParseUnary(ks[c + 1..], d + 1, max), ParseUnary(ks'[c + 1..], d + 1, max), ks, ks', n, c + 1);
        }
      }
    }
  }

  lemma {:induction false} LocalAtom(ks: seq<Kind>, ks': seq<Kind>, n: nat, d: nat, max: nat)
    requires SameStart(ks, ks', n) && d <= max
    ensures SameOutcome(ParseAtom(ks, d, max), ParseAtom(ks', d, max), ks, ks', n)
    decreases |ks|, 0
  {
    hide ParseAtom, ParseParenthesised, ParseArguments, SameOutcome, CallOutcome;
    if n == 0 {
      NoTokenSeen(ks, ks', d, max);
    } else {
      StartDrop(ks, ks', n, 1);
      if ks[0] == LParen {
        LocalParen(ks[1..], ks'[1..], n - 1, d, max);
        OutcomeShift(ParseParenthesised(ks[1..], d, max), ParseParenthesised(ks'[1..], d, max), ks, ks', n, 1);
        ParenAtom(ks, d, max);
        ParenAtom(ks', d, max);
      } else if ks[0].Ident? && n > 1 && ks[1] == LParen {
        LocalCall(ks, ks', n, d, max);
      } else {
        LocalLeaf(ks, ks', n, d, max);
      }
    }
  }

  lemma {:induction false} LocalCall(ks: seq<Kind>, ks': seq<Kind>, n: nat, d: nat, max: nat)
    requires SameStart(ks, ks', n) && n > 1 && ks[0].Ident? && ks[1] == LParen && d <= max
    ensures SameOutcome(ParseAtom(ks, d, max), ParseAtom(ks', d, max), ks, ks', n)
    decreases |ks|, 0, 0
  {
    hide ParseAtom, ParseArguments, SameOutcome, CallOutcome;
    StartDrop(ks, ks', n, 1);
    StartDrop(ks, ks', n, 2);
    var r, r' := ParseArguments(ks[2..], d, max), ParseArguments(ks'[2..], d, max);
    LocalArguments(ks[2..], ks'[2..], n - 2, d, max);
    OutcomeShift(r, r', ks, ks', n, 2);
    CallSame(ks[0].name, r, r', ks, ks', n);
    CallAtom(ks, d, max);
    CallAtom(ks', d, max);
  }

  lemma ParenAtom(ks: seq<Kind>, d: nat, max: nat)
    requires Starts(ks, LParen)
    ensures ParseAtom(ks, d, max) == ParseParenthesised(ks[1..], d, max)
  {
    hide ParseParenthesised;
  }

  lemma CallAtom(ks: seq<Kind>, d: nat, max: nat)
    requires ks != [] && ks[0].Ident? && Starts(ks[1..], LParen)
    ensures ParseAtom(ks, d, max) == CallOutcome(ks[0].name, ParseArguments(ks[2..], d, max))
  {
    hide ParseArguments;
  }

  function CallOutcome(name: string, r: Outcome<seq<Ast>>): Outcome<Ast> {
    if r.Failure? then Failure(r.error) else Success(Parsed(Call(name, r.value.tree), r.value.rest))
  }

  lemma CallSame(name: string, r: Outcome<seq<Ast>>, r': Outcome<seq<Ast>>, ks: seq<Kind>, ks': seq<Kind>, n: nat)
    requires SameOutcome(r, r', ks, ks', n)
    ensures SameOutcome(CallOutcome(name, r), CallOutcome(name, r'), ks, ks', n)
  {
  }

  lemma NoTokenSeen(ks: seq<Kind>, ks': seq<Kind>, d: nat, max: nat)
    ensures SameOutcome(ParseAtom(ks, d, max), ParseAtom(ks', d, max), ks, ks', 0)
  {
    hide ParseAtom;
  }

  /** A number, a name, or an error at the first token. */
  lemma LocalLeaf(ks: seq<Kind>, ks': seq<Kind>, n: nat, d: nat, max: nat)
    requires SameStart(ks, ks', n) && n > 0 && ks[0] != LParen && !(ks[0].Ident? && n > 1 && ks[1] == LParen)
    ensures SameOutcome(ParseAtom(ks, d, max), ParseAtom(ks', d, max), ks, ks', n)
  {
    hide ParseArguments, ParseParenthesised;
    StartDrop(ks, ks', n, if n > 1 then 1 else 0);
    if ks[0].Ident? && n == 1 && Starts(ks[1..], LParen) { ArgumentsLater(ks, d, max); }
  }

  lemma ArgumentsLater(ks: seq<Kind>, d: nat, max: nat)
    requires ks != [] && ks[0].Ident? && Starts(ks[1..], LParen)
    ensures var r := ParseAtom(ks, d, max); if r.Success? then |r.value.rest| <= |ks| - 2 else r.error.unread <= |ks| - 2
  {
    hide ParseArguments;
  }

  lemma {:induction false} LocalParen(ks: seq<Kind>, ks': seq<Kind>, n: nat, d: nat, max: nat)
    requires SameStart(ks, ks', n)
    ensures SameOutcome(ParseParenthesised(ks, d, max), ParseParenthesised(ks', d, max), ks, ks', n)
    decreases |ks|, 7
  {
    hide ParseExpression;
    if d + 1 <= max {
      LocalExpr(ks, ks', n, d + 1, max);
      var r := ParseExpression(ks, d + 1, max);
      if r.Success? {
        var c := RestAfterExpr(ks, d + 1, max);
        if c < n {
          StartDrop(ks, ks', n, c);
          assert ks'[c..][1..] == ks'[c + 1..];
        }
      }
    }
  }

  /** The part of a call that has arguments. */
  ghost function FirstArgument(ks: seq<Kind>, d: nat, max: nat): Outcome<seq<Ast>> {
    var r := ParseExpression(ks, d, max);
    if r.Failure? then Failure(r.error) else ArgumentRest([r.value.tree], r.value.rest, d, max)
  }

  lemma ArgumentsUnfold(ks: seq<Kind>, d: nat, max: nat)
    ensures ParseArguments(ks, d, max) ==
              if Starts(ks, RParen) then Success(Parsed([], ks[1..]))
              else if d + 1 > max then Failure(ParseError(TooDeep, |ks|))
              else FirstArgument(ks, d + 1, max)
  {
    hide ParseExpression, ArgumentRest;
  }

  lemma {:induction false} LocalArguments(ks: seq<Kind>, ks': seq<Kind>, n: nat, d: nat, max: nat)
    requires SameStart(ks, ks', n)
    ensures SameOutcome(ParseArguments(ks, d, max), ParseArguments(ks', d, max), ks, ks', n)
    decreases |ks|, 8
  {
    if n > 0 {
      hide ParseArguments, FirstArgument;
      StartDrop(ks, ks', n, 0);
      ArgumentsUnfold(ks, d, max);
      ArgumentsUnfold(ks', d, max);
      if ks[0] != RParen && d + 1 <= max { LocalFirstArgument(ks, ks', n, d + 1, max); }
    }
  }

  lemma {:induction false} LocalFirstArgument(ks: seq<Kind>, ks': seq<Kind>, n: nat, d: nat, max: nat)
    requires SameStart(ks, ks', n)
    ensures SameOutcome(FirstArgument(ks, d, max), FirstArgument(ks', d, max), ks, ks', n)
    decreases |ks|, 7
  {
    hide ParseExpression, ArgumentRest;
    LocalExpr(ks, ks', n, d, max);
    var r := ParseExpression(ks, d, max);
    if r.Success? {
      var c := RestAfterExpr(ks, d, max);
      if c < n {
        StartDrop(ks, ks', n, c);
        LocalArgTail([r.value.tree], ks[c..], ks'[c..], n - c, d, max);
        OutcomeShift(ArgumentRest([r.value.tree], ks[c..], d, max), ArgumentRest([r.value.tree], ks'[c..], d, max),
                     ks, ks', n, c);
      }
    }
  }

  /** The part of an argument list after a comma. */
  ghost function AfterComma(done: seq<Ast>, ks: seq<Kind>, d: nat, max: nat): Outcome<seq<Ast>> {
    var r := ParseExpression(ks, d, max);
    if r.Failure? then Failure(r.error) else ArgumentRest(done + [r.value.tree], r.value.rest, d, max)
  }

  lemma ArgUnfold(done: seq<Ast>, ks: seq<Kind>, d: nat, max: nat)
    ensures ArgumentRest(done, ks, d, max) ==
              if Starts(ks, Comma) then AfterComma(done, ks[1..], d, max)
              else if Starts(ks, RParen) then Success(Parsed(done, ks[1..]))
              else Failure(ParseError(ExpectedRParen, |ks|))
  {
    hide ParseExpression;
  }

  lemma {:induction false} LocalArgTail(done: seq<Ast>, ks: seq<Kind>, ks': seq<Kind>, n: nat, d: nat, max: nat)
    requires SameStart(ks, ks', n)
    ensures SameOutcome(ArgumentRest(done, ks, d, max), ArgumentRest(done, ks', d, max), ks, ks', n)
    decreases |ks|, 0
  {
    if n > 0 {
      hide ParseExpression, ArgumentRest, AfterComma;
      StartDrop(ks, ks', n, 1);
      ArgUnfold(done, ks, d, max);
      ArgUnfold(done, ks', d, max);
      if ks[0] == Comma {
        LocalAfterComma(done, ks[1..], ks'[1..], n - 1, d, max);
        OutcomeShift(AfterComma(done, ks[1..], d, max), AfterComma(done, ks'[1..], d, max), ks, ks', n, 1);
      }
    }
  }

  lemma {:induction false} LocalAfterComma(done: seq<Ast>, ks: seq<Kind>, ks': seq<Kind>, n: nat, d: nat, max: nat)
    requires SameStart(ks, ks', n)
    ensures SameOutcome(AfterComma(done, ks, d, max), AfterComma(done, ks', d, max), ks, ks', n)
    decreases |ks|, 7
  {
    hide ParseExpression, ArgumentRest;
    LocalExpr(ks, ks', n, d, max);
    var r := ParseExpression(ks, d, max);
    if r.Success? {
      var c := RestAfterExpr(ks, d, max);
      if c < n {
        var all := done + [r.value.tree];
        StartDrop(ks, ks', n, c);
        LocalArgTail(all, ks[c..], ks'[c..], n - c, d, max);
        OutcomeShift(ArgumentRest(all, ks[c..], d, max), ArgumentRest(all, ks'[c..], d, max), ks, ks', n, c);
      }
    }
  }

  /** A failure is the failure of every list that agrees up to the offending token. */
  lemma LocalProgram(ks: seq<Kind>, ks': seq<Kind>, max: nat, at: nat)
    requires ParseProgram(ks, max).Failure? && at == |ks| - ParseProgram(ks, max).error.unread
    requires SameStart(ks, ks', at + 1)
    ensures ParseProgram(ks', max).Failure?
  {
    hide ParseExpression;
    LocalExpr(ks, ks', at + 1, 0, max);
    var r := ParseExpression(ks, 0, max);
    if r.Success? { var c := RestAfterExpr(ks, 0, max); }
  }

  // ----- Where errors are -----

  /** No sentence starts with these tokens. */
  ghost predicate StartsNoSentence(p: seq<Kind>) {
    forall e: Expr | FiniteExpr(e) :: !(p <= YieldExpr(e))
  }

  lemma NotContinued(ks: seq<Kind>, max: nat, at: nat, e: Expr)
    requires ParseProgram(ks, max).Failure? && at == |ks| - ParseProgram(ks, max).error.unread && at < |ks|
    requires FiniteExpr(e) && CostExpr(e) <= max
    ensures !(ks[..at + 1] <= YieldExpr(e))
  {
    hide ParseProgram, YieldExpr, FiniteExpr, CostExpr;
    if ks[..at + 1] <= YieldExpr(e) {
      LocalProgram(ks, YieldExpr(e), max, at);
      SentenceAcceptedIff(e, max);
    }
  }

  /** A syntax error is reported at the first token that cannot stand there: what comes before it
      begins a sentence, and together with it none. */
  lemma ErrorAtFirstBadToken(ks: seq<Kind>, max: nat, at: nat) returns (e: Expr)
    requires ParseProgram(ks, max).Failure? && !RefusedDeep(ParseProgram(ks, max))
    requires at == |ks| - ParseProgram(ks, max).error.unread
    ensures FiniteExpr(e) && CostExpr(e) <= max && ks[..at] <= YieldExpr(e)
    ensures at < |ks| ==> StartsNoSentence(ks[..at + 1])
  {
    hide ParseProgram, YieldExpr, FiniteExpr, CostExpr;
    e := BeginsSentence(ks, max, at);
    if at < |ks| {
      forall f: Expr | FiniteExpr(f)
        ensures !(ks[..at + 1] <= YieldExpr(f))
      {
        var m := Max(CostExpr(f), max);
        HigherProgram(ks, max, m);
        NotContinued(ks, m, at, f);
      }
    }
  }

  /** A nesting error is reported right after the token that nests too deeply: without it the tokens
      begin a sentence within the limit, together with the one reported they begin none. */
  lemma DeepErrorAfterNestingToken(ks: seq<Kind>, max: nat, at: nat) returns (e: Expr)
    requires RefusedDeep(ParseProgram(ks, max)) && max > 0 && at == |ks| - ParseProgram(ks, max).error.unread
    ensures at > 0 && FiniteExpr(e) && CostExpr(e) <= max && ks[..at - 1] <= YieldExpr(e)
    ensures at < |ks| ==> forall f: Expr | FiniteExpr(f) && CostExpr(f) <= max :: !(ks[..at + 1] <= YieldExpr(f))
  {
    hide ParseProgram, YieldExpr, FiniteExpr, CostExpr;
    DeepAfterSome(ks, max);
    e := BeginsSentence(ks, max, at - 1);
    if at < |ks| {
      forall f: Expr | FiniteExpr(f) && CostExpr(f) <= max
        ensures !(ks[..at + 1] <= YieldExpr(f))
      {
        NotContinued(ks, max, at, f);
      }
    }
  }

  lemma DeepAfterSome(ks: seq<Kind>, max: nat)
    requires RefusedDeep(ParseProgram(ks, max)) && max > 0
    ensures ParseProgram(ks, max).error.unread < |ks|
  {
    hide ParseAdditive;
  }
}
