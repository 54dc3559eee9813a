/** The documented rules allow one factorial sign per postfix, the parser any number. What is
    gained, and when nothing is. */
module FactorialSigns {
  import opened Wrappers
  import opened Syntax
  import opened Grammar
  import opened ParserSpec
  import opened ParserTheorems

  // ----- Derivations with at most one sign per postfix -----

  predicate SingleExpr(e: Expr) {
    SingleTerm(e.first) && SingleAddTail(e.rest)
  }

  predicate SingleAddTail(t: AddTail) {
    match t
    case AddEnd => true
    case AddMore(_, term, rest) => SingleTerm(term) && SingleAddTail(rest)
  }

  predicate SingleTerm(t: Term) {
    SingleFactor(t.first) && SingleMulTail(t.rest)
  }

  predicate SingleMulTail(t: MulTail) {
    match t
    case MulEnd => true
    case MulMore(_, factor, rest) => SingleFactor(factor) && SingleMulTail(rest)
  }

  predicate SingleFactor(f: Factor) {
    match f
    case Signed(_, operand) => SingleFactor(operand)
    case Unsigned(postfix) => SingleRaised(postfix.base) && postfix.bangs <= 1
  }

  predicate SingleRaised(r: Raised) {
    match r
    case Plain(atom) => SingleAtom(atom)
    case Raise(atom, exponent) => SingleAtom(atom) && SingleFactor(exponent)
  }

  predicate SingleAtom(a: Atom) {
    match a
    case CallSome(_, first, rest) => SingleExpr(first) && SingleArgTail(rest)
    case Paren(inner) => SingleExpr(inner)
    case _ => true
  }

  predicate SingleArgTail(t: ArgTail) {
    match t
    case ArgEnd => true
    case ArgMore(arg, rest) => SingleExpr(arg) && SingleArgTail(rest)
  }

  ghost predicate DerivesSingly(ks: seq<Kind>, t: Ast, max: nat) {
    exists e: Expr ::
      SingleExpr(e) && YieldExpr(e) == ks && TreeExpr(e) == t && FiniteExpr(e) && CostExpr(e) <= max
  }

  // ----- Which canonical derivations correspond to one with single signs -----

  predicate FitsExpr(e: Expr) {
    FitsTerm(e.first) && FitsAddTail(e.rest)
  }

  predicate FitsAddTail(t: AddTail) {
    match t
    case AddEnd => true
    case AddMore(_, term, rest) => FitsTerm(term) && FitsAddTail(rest)
  }

  predicate FitsTerm(t: Term) {
    FitsFactor(t.first, 0) && FitsMulTail(t.rest)
  }

  predicate FitsMulTail(t: MulTail) {
    match t
    case MulEnd => true
    case MulMore(_, factor, rest) => FitsFactor(factor, 0) && FitsMulTail(rest)
  }

  /** free counts the enclosing powers, each of which can take one sign from the end of the
      factor; a plain base keeps one more. */
  predicate FitsFactor(f: Factor, free: nat) {
    match f
    case Signed(_, operand) => FitsFactor(operand, free)
    case Unsigned(postfix) =>
      match postfix.base
      case Plain(atom) => FitsAtom(atom) && postfix.bangs <= free + 1
      case Raise(atom, exponent) => FitsAtom(atom) && FitsFactor(exponent, free + 1)
  }

  predicate FitsAtom(a: Atom) {
    match a
    case CallSome(_, first, rest) => FitsExpr(first) && FitsArgTail(rest)
    case Paren(inner) => FitsExpr(inner)
    case _ => true
  }

  predicate FitsArgTail(t: ArgTail) {
    match t
    case ArgEnd => true
    case ArgMore(arg, rest) => FitsExpr(arg) && FitsArgTail(rest)
  }

  // ----- The canonical form of a derivation with single signs fits -----

  lemma {:induction false} FitsMore(f: Factor, k: nat, m: nat)
    requires FitsFactor(f, k) && k <= m
    ensures FitsFactor(f, m)
  {
    match f
    case Signed(_, operand) => FitsMore(operand, k, m);
    case Unsigned(postfix) =>
      match postfix.base
      case Plain(_) =>
      case Raise(_, exponent) => FitsMore(exponent, k + 1, m + 1);
  }

  lemma {:induction false} PushFits(f: Factor, k: nat, n: nat)
    requires CanonicalFactor(f) && FitsFactor(f, k)
    ensures FitsFactor(Push(f, n), k + n)
  {
    match f
    case Signed(_, operand) => PushFits(operand, k, n);
    case Unsigned(postfix) =>
      match postfix.base
      case Plain(_) =>
      case Raise(_, exponent) =>
        assert CanonicalRaised(postfix.base);
        PushFits(exponent, k + 1, n);
  }

  lemma {:induction false} NormFitsExpr(e: Expr)
    requires SingleExpr(e)
    ensures FitsExpr(NormExpr(e))
  {
    NormFitsTerm(e.first);
    NormFitsAddTail(e.rest);
  }

  lemma {:induction false} NormFitsAddTail(t: AddTail)
    requires SingleAddTail(t)
    ensures FitsAddTail(NormAddTail(t))
  {
    match t
    case AddEnd =>
    case AddMore(_, term, rest) =>
      NormFitsTerm(term);
      NormFitsAddTail(rest);
  }

  lemma {:induction false} NormFitsTerm(t: Term)
    requires SingleTerm(t)
    ensures FitsTerm(NormTerm(t))
  {
    NormFitsFactor(t.first);
    NormFitsMulTail(t.rest);
  }

  lemma {:induction false} NormFitsMulTail(t: MulTail)
    requires SingleMulTail(t)
    ensures FitsMulTail(NormMulTail(t))
  {
    match t
    case MulEnd =>
    case MulMore(_, factor, rest) =>
      NormFitsFactor(factor);
      NormFitsMulTail(rest);
  }

  lemma {:induction false} NormFitsFactor(f: Factor)
    requires SingleFactor(f)
    ensures FitsFactor(NormFactor(f), 0)
  {
    match f
    case Signed(_, operand) => NormFitsFactor(operand);
    case Unsigned(postfix) =>
      match postfix.base
      case Plain(atom) => NormFitsAtom(atom);
      case Raise(atom, exponent) =>
        NormFitsAtom(atom);
        NormFitsFactor(exponent);
        PushFits(NormFactor(exponent), 0, postfix.bangs);
        FitsMore(Push(NormFactor(exponent), postfix.bangs), postfix.bangs, 1);
  }

  lemma {:induction false} NormFitsAtom(a: Atom)
    requires SingleAtom(a)
    ensures FitsAtom(NormAtom(a))
  {
    match a
    case CallSome(_, first, rest) =>
      NormFitsExpr(first);
      NormFitsArgTail(rest);
    case Paren(inner) => NormFitsExpr(inner);
    case _ =>
  }

  lemma {:induction false} NormFitsArgTail(t: ArgTail)
    requires SingleArgTail(t)
    ensures FitsArgTail(NormArgTail(t))
  {
    match t
    case ArgEnd =>
    case ArgMore(arg, rest) =>
      NormFitsExpr(arg);
      NormFitsArgTail(rest);
  }

  // ----- A fitting derivation spreads its signs over the enclosing powers -----

  lemma {:induction false} SpreadExpr(e: Expr) returns (s: Expr)
    requires CanonicalExpr(e) && FitsExpr(e)
    ensures SingleExpr(s) && YieldExpr(s) == YieldExpr(e) && CostExpr(s) == CostExpr(e) && FiniteExpr(s) == FiniteExpr(e)
    decreases e
  {
    var first := SpreadTerm(e.first);
    var rest := SpreadAddTail(e.rest);
    s := Expr(first, rest);
  }

  lemma {:induction false} SpreadAddTail(t: AddTail) returns (s: AddTail)
    requires CanonicalAddTail(t) && FitsAddTail(t)
    ensures SingleAddTail(s) && YieldAddTail(s) == YieldAddTail(t)
    ensures CostAddTail(s) == CostAddTail(t) && FiniteAddTail(s) == FiniteAddTail(t)
    decreases t
  {
    match t
    case AddEnd => s := t;
    case AddMore(minus, term, rest) =>
      var term' := SpreadTerm(term);
      var rest' := SpreadAddTail(rest);
      s := AddMore(minus, term', rest');
  }

  lemma {:induction false} SpreadTerm(t: Term) returns (s: Term)
    requires CanonicalTerm(t) && FitsTerm(t)
    ensures SingleTerm(s) && YieldTerm(s) == YieldTerm(t) && CostTerm(s) == CostTerm(t) && FiniteTerm(s) == FiniteTerm(t)
    decreases t
  {
    var first := SpreadFactor(t.first, 0);
    var rest := SpreadMulTail(t.rest);
    assert YieldFactor(first) + Bangs(0) == YieldFactor(first);
    s := Term(first, rest);
  }

  lemma {:induction false} SpreadMulTail(t: MulTail) returns (s: MulTail)
    requires CanonicalMulTail(t) && FitsMulTail(t)
    ensures SingleMulTail(s) && YieldMulTail(s) == YieldMulTail(t)
    ensures CostMulTail(s) == CostMulTail(t) && FiniteMulTail(s) == FiniteMulTail(t)
    decreases t
  {
    match t
    case MulEnd => s := t;
    case MulMore(op, factor, rest) =>
      var factor' := SpreadFactor(factor, 0);
      var rest' := SpreadMulTail(rest);
      assert YieldFactor(factor') + Bangs(0) == YieldFactor(factor');
      s := MulMore(op, factor', rest');
  }

  /** How many signs the factor ends with. */
  function Trail(f: Factor): nat {
    match f
    case Signed(_, operand) => Trail(operand)
    case Unsigned(postfix) => if postfix.base.Plain? then postfix.bangs else Trail(postfix.base.exponent)
  }

  lemma {:induction false} FitsTight(f: Factor, k: nat, m: nat)
    requires FitsFactor(f, m) && Trail(f) <= k + 1
    ensures FitsFactor(f, k)
  {
    match f
    case Signed(_, operand) => FitsTight(operand, k, m);
    case Unsigned(postfix) =>
      match postfix.base
      case Plain(_) =>
      case Raise(_, exponent) => FitsTight(exponent, k + 1, m + 1);
  }

  /** The factor without its last j signs. */
  lemma {:induction false} SpreadFactor(f: Factor, j: nat) returns (s: Factor)
    requires CanonicalFactor(f) && FitsFactor(f, j) && j <= Trail(f)
    ensures SingleFactor(s) && YieldFactor(s) + Bangs(j) == YieldFactor(f)
    ensures CostFactor(s) == CostFactor(f) && FiniteFactor(s) == FiniteFactor(f)
    decreases f
  {
    match f
    case Signed(minus, operand) =>
      var operand' := SpreadFactor(operand, j);
      s := Signed(minus, operand');
      assert YieldFactor(s) + Bangs(j) == [Sign(minus)] + (YieldFactor(operand') + Bangs(j));
    case Unsigned(postfix) =>
      match postfix.base
      case Plain(atom) =>
        var atom' := SpreadAtom(atom);
        s := Unsigned(Postfix(Plain(atom'), postfix.bangs - j));
        PlainYield(atom, atom', postfix.bangs - j, j);
      case Raise(atom, exponent) =>
        var atom' := SpreadAtom(atom);
        assert CanonicalRaised(postfix.base);
        var b := if Trail(exponent) > j then 1 else 0;
        if b == 0 { FitsTight(exponent, j, j + 1); }
        var exponent' := SpreadFactor(exponent, j + b);
        s := Unsigned(Postfix(Raise(atom', exponent'), b));
        RaiseYield(atom, atom', exponent, exponent', b, j);
        RaiseMeasures(atom, atom', exponent, exponent', b);
  }

  lemma PlainYield(a: Atom, a': Atom, n: nat, j: nat)
    requires YieldAtom(a') == YieldAtom(a)
    ensures YieldFactor(Unsigned(Postfix(Plain(a'), n))) + Bangs(j) == YieldFactor(Unsigned(Postfix(Plain(a), n + j)))
  {
    BangsAppend(n, j);
    PostfixYield(Plain(a), n + j);
    PostfixYield(Plain(a'), n);
    assert (YieldAtom(a) + Bangs(n)) + Bangs(j) == YieldAtom(a) + (Bangs(n) + Bangs(j));
  }

  lemma RaiseYield(a: Atom, a': Atom, e: Factor, e': Factor, b: nat, j: nat)
    requires YieldAtom(a') == YieldAtom(a) && YieldFactor(e') + Bangs(j + b) == YieldFactor(e)
    ensures YieldFactor(Unsigned(Postfix(Raise(a', e'), b))) + Bangs(j) == YieldFactor(Unsigned(Postfix(Raise(a, e), 0)))
  {
    hide YieldFactor, YieldPostfix, Bangs;
    BangsAppend(b, j);
    PostfixYield(Raise(a, e), 0);
    PostfixYield(Raise(a', e'), b);
    var y, y' := YieldFactor(e), YieldFactor(e');
    assert ((YieldAtom(a) + ([Caret] + y')) + Bangs(b)) + Bangs(j) == YieldAtom(a) + ([Caret] + (y' + (Bangs(b) + Bangs(j))));
  }

  lemma PostfixYield(r: Raised, n: nat)
    ensures YieldFactor(Unsigned(Postfix(r, n))) == YieldRaised(r) + Bangs(n)
    ensures n == 0 ==> YieldFactor(Unsigned(Postfix(r, n))) == YieldRaised(r)
  {
  }

  lemma RaiseMeasures(a: Atom, a': Atom, e: Factor, e': Factor, b: nat)
    requires CostAtom(a') == CostAtom(a) && CostFactor(e') == CostFactor(e)
    requires FiniteAtom(a') == FiniteAtom(a) && FiniteFactor(e') == FiniteFactor(e)
    ensures var f, f' := Unsigned(Postfix(Raise(a, e), 0)), Unsigned(Postfix(Raise(a', e'), b));
            CostFactor(f') == CostFactor(f) && FiniteFactor(f') == FiniteFactor(f)
  {
    var r, r' := Raise(a, e), Raise(a', e');
    assert CostRaised(r') == CostRaised(r) && FiniteRaised(r') == FiniteRaised(r);
  }

  lemma {:induction false} SpreadAtom(a: Atom) returns (s: Atom)
    requires CanonicalAtom(a) && FitsAtom(a)
    ensures SingleAtom(s) && YieldAtom(s) == YieldAtom(a) && CostAtom(s) == CostAtom(a) && FiniteAtom(s) == FiniteAtom(a)
    decreases a
  {
    match a
    case CallSome(name, first, rest) =>
      var first' := SpreadExpr(first);
      var rest' := SpreadArgTail(rest);
      s := CallSome(name, first', rest');
    case Paren(inner) =>
      var inner' := SpreadExpr(inner);
      s := Paren(inner');
    case _ => s := a;
  }

  lemma {:induction false} SpreadArgTail(t: ArgTail) returns (s: ArgTail)
    requires CanonicalArgTail(t) && FitsArgTail(t)
    ensures SingleArgTail(s) && YieldArgTail(s) == YieldArgTail(t)
    ensures CostArgTail(s) == CostArgTail(t) && FiniteArgTail(s) == FiniteArgTail(t)
    decreases t
  {
    match t
    case ArgEnd => s := t;
    case ArgMore(arg, rest) =>
      var arg' := SpreadExpr(arg);
      var rest' := SpreadArgTail(rest);
      s := ArgMore(arg', rest');
  }

  /** The tokens have a canonical derivation, the one the parser follows, that fits. */
  ghost predicate DerivesFitting(ks: seq<Kind>, max: nat) {
    exists e: Expr :: CanonicalExpr(e) && FitsExpr(e) && YieldExpr(e) == ks && FiniteExpr(e) && CostExpr(e) <= max
  }

  /** Exactly which token lists the rules as written derive: every run of signs must fit on its
      base and the powers around it, one each. The parser accepts all of these. */
  lemma AcceptsAsWritten(ks: seq<Kind>, max: nat)
    ensures (exists t: Ast :: DerivesSingly(ks, t, max)) <==> DerivesFitting(ks, max)
    ensures DerivesFitting(ks, max) ==> ParseProgram(ks, max).Success?
  {
    hide ParseProgram;
    if t: Ast :| DerivesSingly(ks, t, max) {
      var e: Expr :| SingleExpr(e) && YieldExpr(e) == ks && TreeExpr(e) == t && FiniteExpr(e) && CostExpr(e) <= max;
      NormExprSame(e);
      NormFitsExpr(e);
      assert DerivesFitting(ks, max);
      assert Derives(ks, t, max);
      AcceptsDocumentedLanguage(ks, max);
    }
    if DerivesFitting(ks, max) {
      var e: Expr :| CanonicalExpr(e) && FitsExpr(e) && YieldExpr(e) == ks && FiniteExpr(e) && CostExpr(e) <= max;
      var s := SpreadExpr(e);
      assert DerivesSingly(ks, TreeExpr(s), max);
    }
  }

  // ----- Without adjacent signs nothing is gained -----

  predicate NoDouble(ks: seq<Kind>) {
    forall i | 0 <= i < |ks| - 1 :: !(ks[i] == Bang && ks[i + 1] == Bang)
  }

  lemma NoDoubleParts(a: seq<Kind>, b: seq<Kind>)
    requires NoDouble(a + b)
    ensures NoDouble(a) && NoDouble(b)
  {
    forall i | 0 <= i < |a| - 1
      ensures !(a[i] == Bang && a[i + 1] == Bang)
    {
      assert (a + b)[i] == a[i] && (a + b)[i + 1] == a[i + 1];
    }
    forall i | 0 <= i < |b| - 1
      ensures !(b[i] == Bang && b[i + 1] == Bang)
    {
      assert (a + b)[|a| + i] == b[i] && (a + b)[|a| + i + 1] == b[i + 1];
    }
  }

  lemma ManyBangs(n: nat)
    ensures n >= 2 ==> !NoDouble(Bangs(n))
  {
    if n >= 2 {
      assert Bangs(n) == [Bang] + Bangs(n - 1) && Bangs(n - 1) == [Bang] + Bangs(n - 2);
      assert Bangs(n)[0] == Bang && Bangs(n)[0 + 1] == Bang;
    }
  }

  lemma {:induction false} SingleIfNoDoubleExpr(e: Expr)
    requires NoDouble(YieldExpr(e))
    ensures SingleExpr(e)
  {
    NoDoubleParts(YieldTerm(e.first), YieldAddTail(e.rest));
    SingleIfNoDoubleTerm(e.first);
    SingleIfNoDoubleAddTail(e.rest);
  }

  lemma {:induction false} SingleIfNoDoubleAddTail(t: AddTail)
    requires NoDouble(YieldAddTail(t))
    ensures SingleAddTail(t)
  {
    match t
    case AddEnd =>
    case AddMore(minus, term, rest) =>
      NoDoubleParts([Sign(minus)], YieldTerm(term) + YieldAddTail(rest));
      NoDoubleParts(YieldTerm(term), YieldAddTail(rest));
      SingleIfNoDoubleTerm(term);
      SingleIfNoDoubleAddTail(rest);
  }

  lemma {:induction false} SingleIfNoDoubleTerm(t: Term)
    requires NoDouble(YieldTerm(t))
    ensures SingleTerm(t)
  {
    NoDoubleParts(YieldFactor(t.first), YieldMulTail(t.rest));
    SingleIfNoDoubleFactor(t.first);
    SingleIfNoDoubleMulTail(t.rest);
  }

  lemma {:induction false} SingleIfNoDoubleMulTail(t: MulTail)
    requires NoDouble(YieldMulTail(t))
    ensures SingleMulTail(t)
  {
    match t
    case MulEnd =>
    case MulMore(op, factor, rest) =>
      NoDoubleParts([MulKind(op)], YieldFactor(factor) + YieldMulTail(rest));
      NoDoubleParts(YieldFactor(factor), YieldMulTail(rest));
      SingleIfNoDoubleFactor(factor);
      SingleIfNoDoubleMulTail(rest);
  }

  lemma {:induction false} SingleIfNoDoubleFactor(f: Factor)
    requires NoDouble(YieldFactor(f))
    ensures SingleFactor(f)
  {
    match f
    case Signed(minus, operand) =>
      NoDoubleParts([Sign(minus)], YieldFactor(operand));
      SingleIfNoDoubleFactor(operand);
    case Unsigned(postfix) =>
      assert YieldFactor(f) == YieldRaised(postfix.base) + Bangs(postfix.bangs);
      NoDoubleParts(YieldRaised(postfix.base), Bangs(postfix.bangs));
      ManyBangs(postfix.bangs);
      SingleIfNoDoubleRaised(postfix.base);
  }

  lemma {:induction false} SingleIfNoDoubleRaised(r: Raised)
    requires NoDouble(YieldRaised(r))
    ensures SingleRaised(r)
  {
    match r
    case Plain(atom) => SingleIfNoDoubleAtom(atom);
    case Raise(atom, exponent) =>
      NoDoubleParts(YieldAtom(atom), [Caret] + YieldFactor(exponent));
      NoDoubleParts([Caret], YieldFactor(exponent));
      SingleIfNoDoubleAtom(atom);
      SingleIfNoDoubleFactor(exponent);
  }

  lemma {:induction false} SingleIfNoDoubleAtom(a: Atom)
    requires NoDouble(YieldAtom(a))
    ensures SingleAtom(a)
  {
    match a
    case CallSome(name, first, rest) =>
      NoDoubleParts([Ident(name), LParen], YieldExpr(first) + YieldArgTail(rest));
      NoDoubleParts(YieldExpr(first), YieldArgTail(rest));
      SingleIfNoDoubleExpr(first);
      SingleIfNoDoubleArgTail(rest);
    case Paren(inner) =>
      NoDoubleParts([LParen], YieldExpr(inner) + [RParen]);
      NoDoubleParts(YieldExpr(inner), [RParen]);
      SingleIfNoDoubleExpr(inner);
    case _ =>
  }

  lemma {:induction false} SingleIfNoDoubleArgTail(t: ArgTail)
    requires NoDouble(YieldArgTail(t))
    ensures SingleArgTail(t)
  {
    match t
    case ArgEnd =>
    case ArgMore(arg, rest) =>
      NoDoubleParts([Comma], YieldExpr(arg) + YieldArgTail(rest));
      NoDoubleParts(YieldExpr(arg), YieldArgTail(rest));
      SingleIfNoDoubleExpr(arg);
      SingleIfNoDoubleArgTail(rest);
  }

  /** On token lists without adjacent factorial signs the parser accepts exactly what the rules
      as written derive, and the tree it returns is one of theirs. */
  lemma AcceptsWithoutAdjacentSigns(ks: seq<Kind>, max: nat)
    requires NoDouble(ks)
    ensures ParseProgram(ks, max).Success? <==> exists t: Ast :: DerivesSingly(ks, t, max)
    ensures ParseProgram(ks, max).Success? ==> DerivesSingly(ks, ParseProgram(ks, max).value, max)
  {
    hide ParseProgram;
    if ParseProgram(ks, max).Success? {
      var t := ParseProgram(ks, max).value;
      ParserDecidesGrammar(ks, max, t);
      var e: Expr :| CanonicalExpr(e)
        && YieldExpr(e) == ks && TreeExpr(e) == t && FiniteExpr(e) && CostExpr(e) <= max;
      SingleIfNoDoubleExpr(e);
      assert DerivesSingly(ks, t, max);
    }
    if t: Ast :| DerivesSingly(ks, t, max) {
      assert Derives(ks, t, max);
      AcceptsDocumentedLanguage(ks, max);
    }
  }

  // ----- With adjacent signs the parser accepts more, but not always -----

  /** A derivation of x followed by two signs puts both on one postfix. */
  lemma TwoSignsOnOne(e: Expr)
    requires YieldExpr(e) == [Ident("x"), Bang, Bang]
    ensures !SingleExpr(e)
  {
    hide YieldAddTail, YieldMulTail, YieldFactor, YieldRaised;
    var ks, f := [Ident("x"), Bang, Bang], e.first.first;
    var after := YieldMulTail(e.first.rest) + YieldAddTail(e.rest);
    assert ks == YieldFactor(f) + after;
    OnlyName(f, ks, after);
    TailStart(e.first.rest, e.rest);
    assert ks[1..] == Bangs(f.postfix.bangs) + after;
    AllBangs(f.postfix.bangs, after);
    assert !SingleFactor(f);
  }

  lemma AllBangs(n: nat, after: seq<Kind>)
    requires [Bang, Bang] == Bangs(n) + after && (after != [] ==> after[0] != Bang)
    ensures n >= 2
  {
    Joined(Bangs(n), after);
    assert Bangs(n) + after == Bangs(n) + [];
    assert Bangs(n) == [Bang, Bang];
    assert Bangs(1) == [Bang] + Bangs(0);
  }

  lemma Joined(a: seq<Kind>, b: seq<Kind>)
    ensures a != [] ==> (a + b)[0] == a[0]
    ensures |a| > 1 ==> (a + b)[1] == a[1]
    ensures b != [] ==> (a + b)[|a|] == b[0]
  {
  }

  lemma SignedStart(f: Factor)
    ensures f.Signed? ==> YieldFactor(f) != [] && YieldFactor(f)[0] in {Plus, Minus}
  {
    if f.Signed? { assert YieldFactor(f)[0] == Sign(f.minus); }
  }

  lemma NameAlone(r: Raised)
    requires YieldRaised(r) != [] && YieldRaised(r)[0].Ident?
    ensures |YieldRaised(r)| > 1 ==> YieldRaised(r)[1] != Bang
  {
    AtomStart(r.atom);
    Joined(YieldAtom(r.atom), if r.Raise? then [Caret] + YieldFactor(r.exponent) else []);
  }

  lemma OnlyName(f: Factor, ks: seq<Kind>, after: seq<Kind>)
    requires ks == [Ident("x"), Bang, Bang] && ks == YieldFactor(f) + after
    ensures f.Unsigned? && YieldFactor(f) == [Ident("x")] + Bangs(f.postfix.bangs)
  {
    FactorStart(f);
    SignedStart(f);
    Joined(YieldFactor(f), after);
    var y, more := YieldRaised(f.postfix.base), Bangs(f.postfix.bangs) + after;
    assert YieldFactor(f) == y + Bangs(f.postfix.bangs);
    assert ks == y + more;
    AtomStart(f.postfix.base.atom);
    Joined(y, more);
    NameAlone(f.postfix.base);
    assert y == [Ident("x")];
  }

  lemma TailStart(m: MulTail, t: AddTail)
    ensures var after := YieldMulTail(m) + YieldAddTail(t); after != [] ==> after[0] != Bang
  {
  }

  /** x!! is accepted, although the rules as written derive no tree for it. */
  lemma DoubleSignAccepted(max: nat)
    requires max >= 1
    ensures var ks := [Ident("x"), Bang, Bang];
            && ParseProgram(ks, max) == Success(Factorial(Factorial(Identifier("x"))))
            && forall t: Ast, m: nat :: !DerivesSingly(ks, t, m)
  {
    hide ParseProgram;
    var ks := [Ident("x"), Bang, Bang];
    var f := NamedFactor("x", 2);
    var e := Expr(Term(f, MulEnd), AddEnd);
    NamedFacts("x");
    assert YieldTerm(e.first) == YieldFactor(f) + [] && YieldExpr(e) == YieldTerm(e.first) + [];
    assert YieldExpr(e) == ks && TreeExpr(e) == TreeFactor(f);
    assert CostExpr(e) == 1 && FiniteExpr(e) && CanonicalExpr(e);
    ReturnsTreeIffCanonical(e, max);
    forall t: Ast, m: nat
      ensures !DerivesSingly(ks, t, m)
    {
      forall d: Expr | YieldExpr(d) == ks
        ensures !SingleExpr(d)
      {
        TwoSignsOnOne(d);
      }
    }
  }

  /** x^y!! is derived by the rules as written, one sign on y and one on the power, but the
      parser puts both on y. */
  lemma AdjacentSignsMayBeDerived()
    ensures var ks := [Ident("x"), Caret, Ident("y"), Bang, Bang];
            var x, y := Identifier("x"), Identifier("y");
            && DerivesSingly(ks, Factorial(Binary(Power, x, Factorial(y))), 100)
            && ParseProgram(ks, 100) == Success(Binary(Power, x, Factorial(Factorial(y))))
  {
    hide ParseProgram, YieldFactor, TreeFactor, CanonicalFactor, FiniteFactor, CostFactor, Bangs, Factorials;
    var ks := [Ident("x"), Caret, Ident("y"), Bang, Bang];
    var y1, y2 := NamedFactor("y", 1), NamedFactor("y", 2);
    var split, inner := PowerExpr(y1, 1), PowerExpr(y2, 0);
    NamedFacts("y");
    PowerExprFacts(y1, 1);
    PowerExprFacts(y2, 0);
    FactorialsTwice(Binary(Power, Identifier("x"), Factorial(Identifier("y"))));
    FactorialsTwice(Binary(Power, Identifier("x"), Factorial(Factorial(Identifier("y")))));
    assert YieldExpr(split) == ks && YieldExpr(inner) == ks;
    assert SingleExpr(split);
    assert DerivesSingly(ks, TreeExpr(split), 100);
    ReturnsTreeIffCanonical(inner, 100);
  }

  lemma FactorialsTwice(t: Ast)
    ensures Bangs(0) == [] && Bangs(1) == [Bang] && Bangs(2) == [Bang, Bang]
    ensures Factorials(t, 0) == t && Factorials(t, 1) == Factorial(t) && Factorials(t, 2) == Factorial(Factorial(t))
  {
    assert Bangs(2) == [Bang] + Bangs(1) && Bangs(1) == [Bang] + Bangs(0);
    assert Factorials(t, 2) == Factorials(Factorial(t), 1);
  }

  lemma NamedFacts(name: string)
    ensures var f, g, t := NamedFactor(name, 1), NamedFactor(name, 2), Identifier(name);
            && YieldFactor(f) == [Ident(name), Bang] && YieldFactor(g) == [Ident(name), Bang, Bang]
            && TreeFactor(f) == Factorial(t) && TreeFactor(g) == Factorial(Factorial(t))
            && CanonicalFactor(f) && CanonicalFactor(g) && SingleFactor(f) && FiniteFactor(f) && FiniteFactor(g)
            && CostFactor(f) == CostFactor(g) == 0
  {
    hide YieldFactor, TreeFactor, CanonicalFactor, FiniteFactor, CostFactor, Bangs, Factorials;
    FactorialsTwice(Identifier(name));
    var b := Plain(Name(name));
    assert YieldRaised(b) == YieldAtom(b.atom) == [Ident(name)] && TreeRaised(b) == TreeAtom(b.atom) == Identifier(name);
    assert CanonicalRaised(b) && SingleRaised(b) && FiniteRaised(b) && CostRaised(b) == CostAtom(b.atom) == 0;
    UnsignedFacts(b, 1);
    UnsignedFacts(b, 2);
  }
}
