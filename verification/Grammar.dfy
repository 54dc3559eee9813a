/** The expression grammar as derivation trees: what each rule yields as tokens, which
    syntax tree it stands for, and how much nesting budget it uses up. */
module Grammar {
  import opened Wrappers
  import opened Syntax

  // ----- Derivations, one datatype per rule -----

  datatype Expr = Expr(first: Term, rest: AddTail)

  datatype AddTail = AddEnd | AddMore(minus: bool, term: Term, rest: AddTail)

  datatype Term = Term(first: Factor, rest: MulTail)

  datatype MulTail = MulEnd | MulMore(op: MulOp, factor: Factor, rest: MulTail)

  datatype MulOp = ByStar | BySlash | ByPercent

  datatype Factor = Signed(minus: bool, operand: Factor) | Unsigned(postfix: Postfix)

  /** The factorial sign may be repeated. */
  datatype Postfix = Postfix(base: Raised, bangs: nat)

  datatype Raised = Plain(atom: Atom) | Raise(atom: Atom, exponent: Factor)

  datatype Atom =
    | Num(text: string)
    | Name(name: string)
    | CallNone(name: string)
    | CallSome(name: string, first: Expr, rest: ArgTail)
    | Paren(inner: Expr)

  datatype ArgTail = ArgEnd | ArgMore(arg: Expr, rest: ArgTail)

  // ----- Tokens -----

  function Sign(minus: bool): Kind {
    if minus then Minus else Plus
  }

  function MulKind(op: MulOp): Kind {
    match op
    case ByStar => Star
    case BySlash => Slash
    case ByPercent => Percent
  }

  function YieldExpr(e: Expr): seq<Kind> {
    YieldTerm(e.first) + YieldAddTail(e.rest)
  }

  function YieldAddTail(t: AddTail): seq<Kind> {
    match t
    case AddEnd => []
    case AddMore(minus, term, rest) => [Sign(minus)] + (YieldTerm(term) + YieldAddTail(rest))
  }

  function YieldTerm(t: Term): seq<Kind> {
    YieldFactor(t.first) + YieldMulTail(t.rest)
  }

  function YieldMulTail(t: MulTail): seq<Kind> {
    match t
    case MulEnd => []
    case MulMore(op, factor, rest) => [MulKind(op)] + (YieldFactor(factor) + YieldMulTail(rest))
  }

  function YieldFactor(f: Factor): seq<Kind> {
    match f
    case Signed(minus, operand) => [Sign(minus)] + YieldFactor(operand)
    case Unsigned(postfix) => YieldPostfix(postfix)
  }

  function YieldPostfix(p: Postfix): seq<Kind> {
    YieldRaised(p.base) + Bangs(p.bangs)
  }

  function Bangs(n: nat): seq<Kind> {
    if n == 0 then [] else [Bang] + Bangs(n - 1)
  }

  function YieldRaised(r: Raised): seq<Kind> {
    match r
    case Plain(atom) => YieldAtom(atom)
    case Raise(atom, exponent) => YieldAtom(atom) + ([Caret] + YieldFactor(exponent))
  }

  function YieldAtom(a: Atom): seq<Kind> {
    match a
    case Num(text) => [Number(text)]
    case Name(name) => [Ident(name)]
    case CallNone(name) => [Ident(name), LParen, RParen]
    case CallSome(name, first, rest) => [Ident(name), LParen] + (YieldExpr(first) + YieldArgTail(rest))
    case Paren(inner) => [LParen] + (YieldExpr(inner) + [RParen])
  }

  /** The arguments after the first, up to and including the closing parenthesis. */
  function YieldArgTail(t: ArgTail): seq<Kind> {
    match t
    case ArgEnd => [RParen]
    case ArgMore(arg, rest) => [Comma] + (YieldExpr(arg) + YieldArgTail(rest))
  }

  // ----- Syntax trees -----

  function SignOp(minus: bool): Operator {
    if minus then Subtraction else Addition
  }

  function MulOperator(op: MulOp): Operator {
    match op
    case ByStar => Times
    case BySlash => Divide
    case ByPercent => Modulo
  }

  function TreeExpr(e: Expr): Ast {
    TreeAddTail(TreeTerm(e.first), e.rest)
  }

  /** Sums group to the left. */
  function TreeAddTail(left: Ast, t: AddTail): Ast
    decreases t
  {
    match t
    case AddEnd => left
    case AddMore(minus, term, rest) => TreeAddTail(Binary(SignOp(minus), left, TreeTerm(term)), rest)
  }

  function TreeTerm(t: Term): Ast {
    TreeMulTail(TreeFactor(t.first), t.rest)
  }

  function TreeMulTail(left: Ast, t: MulTail): Ast
    decreases t
  {
    match t
    case MulEnd => left
    case MulMore(op, factor, rest) => TreeMulTail(Binary(MulOperator(op), left, TreeFactor(factor)), rest)
  }

  function TreeFactor(f: Factor): Ast {
    match f
    case Signed(minus, operand) => Unary(minus, TreeFactor(operand))
    case Unsigned(postfix) => TreePostfix(postfix)
  }

  function TreePostfix(p: Postfix): Ast {
    Factorials(TreeRaised(p.base), p.bangs)
  }

  function Factorials(base: Ast, n: nat): Ast
    decreases n
  {
    if n == 0 then base else Factorials(Factorial(base), n - 1)
  }

  function TreeRaised(r: Raised): Ast {
    match r
    case Plain(atom) => TreeAtom(atom)
    case Raise(atom, exponent) => Binary(Power, TreeAtom(atom), TreeFactor(exponent))
  }

  function TreeAtom(a: Atom): Ast {
    match a
    case Num(text) => Literal(if LiteralValue(text).Some? then LiteralValue(text).value else 0.0)
    case Name(name) => Identifier(name)
    case CallNone(name) => Call(name, [])
    case CallSome(name, first, rest) => Call(name, TreeArgTail([TreeExpr(first)], rest))
    case Paren(inner) => TreeExpr(inner)
  }

  function TreeArgTail(done: seq<Ast>, t: ArgTail): seq<Ast>
    decreases t
  {
    match t
    case ArgEnd => done
    case ArgMore(arg, rest) => TreeArgTail(done + [TreeExpr(arg)], rest)
  }

  // ----- Literals -----

  predicate FiniteExpr(e: Expr) {
    FiniteTerm(e.first) && FiniteAddTail(e.rest)
  }

  predicate FiniteAddTail(t: AddTail) {
    match t
    case AddEnd => true
    case AddMore(_, term, rest) => FiniteTerm(term) && FiniteAddTail(rest)
  }

  predicate FiniteTerm(t: Term) {
    FiniteFactor(t.first) && FiniteMulTail(t.rest)
  }

  predicate FiniteMulTail(t: MulTail) {
    match t
    case MulEnd => true
    case MulMore(_, factor, rest) => FiniteFactor(factor) && FiniteMulTail(rest)
  }

  predicate FiniteFactor(f: Factor) {
    match f
    case Signed(_, operand) => FiniteFactor(operand)
    case Unsigned(postfix) => FiniteRaised(postfix.base)
  }

  predicate FiniteRaised(r: Raised) {
    match r
    case Plain(atom) => FiniteAtom(atom)
    case Raise(atom, exponent) => FiniteAtom(atom) && FiniteFactor(exponent)
  }

  predicate FiniteAtom(a: Atom) {
    match a
    case Num(text) => LiteralValue(text).Some?
    case Name(_) => true
    case CallNone(_) => true
    case CallSome(_, first, rest) => FiniteExpr(first) && FiniteArgTail(rest)
    case Paren(inner) => FiniteExpr(inner)
  }

  predicate FiniteArgTail(t: ArgTail) {
    match t
    case ArgEnd => true
    case ArgMore(arg, rest) => FiniteExpr(arg) && FiniteArgTail(rest)
  }

  // ----- Canonical derivations -----

  // The rules leave one choice open: in 2^3! the factorial sign may belong to the power or
  // to the exponent. A derivation is canonical when it always belongs to the exponent.

  predicate CanonicalExpr(e: Expr) {
    CanonicalTerm(e.first) && CanonicalAddTail(e.rest)
  }

  predicate CanonicalAddTail(t: AddTail) {
    match t
    case AddEnd => true
    case AddMore(_, term, rest) => CanonicalTerm(term) && CanonicalAddTail(rest)
  }

  predicate CanonicalTerm(t: Term) {
    CanonicalFactor(t.first) && CanonicalMulTail(t.rest)
  }

  predicate CanonicalMulTail(t: MulTail) {
    match t
    case MulEnd => true
    case MulMore(_, factor, rest) => CanonicalFactor(factor) && CanonicalMulTail(rest)
  }

  predicate CanonicalFactor(f: Factor) {
    match f
    case Signed(_, operand) => CanonicalFactor(operand)
    case Unsigned(postfix) => CanonicalRaised(postfix.base) && (postfix.base.Raise? ==> postfix.bangs == 0)
  }

  predicate CanonicalRaised(r: Raised) {
    match r
    case Plain(atom) => CanonicalAtom(atom)
    case Raise(atom, exponent) => CanonicalAtom(atom) && CanonicalFactor(exponent)
  }

  predicate CanonicalAtom(a: Atom) {
    match a
    case CallSome(_, first, rest) => CanonicalExpr(first) && CanonicalArgTail(rest)
    case Paren(inner) => CanonicalExpr(inner)
    case _ => true
  }

  predicate CanonicalArgTail(t: ArgTail) {
    match t
    case ArgEnd => true
    case ArgMore(arg, rest) => CanonicalExpr(arg) && CanonicalArgTail(rest)
  }

  // ----- Nesting cost -----

  function Max(a: nat, b: nat): nat {
    if a < b then b else a
  }

  function CostExpr(e: Expr): nat {
    1 + Max(CostTerm(e.first), CostAddTail(e.rest))
  }

  function CostAddTail(t: AddTail): nat {
    match t
    case AddEnd => 0
    case AddMore(_, term, rest) => Max(CostTerm(term), CostAddTail(rest))
  }

  function CostTerm(t: Term): nat {
    Max(CostFactor(t.first), CostMulTail(t.rest))
  }

  function CostMulTail(t: MulTail): nat {
    match t
    case MulEnd => 0
    case MulMore(_, factor, rest) => Max(CostFactor(factor), CostMulTail(rest))
  }

  function CostFactor(f: Factor): nat {
    match f
    case Signed(_, operand) => 1 + CostFactor(operand)
    case Unsigned(postfix) => CostRaised(postfix.base)
  }

  function CostRaised(r: Raised): nat {
    match r
    case Plain(atom) => CostAtom(atom)
    case Raise(atom, exponent) => Max(CostAtom(atom), 1 + CostFactor(exponent))
  }

  function CostAtom(a: Atom): nat {
    match a
    case Num(_) => 0
    case Name(_) => 0
    case CallNone(_) => 0
    case CallSome(_, first, rest) => 1 + Max(CostExpr(first), CostArgTail(rest))
    case Paren(inner) => 1 + CostExpr(inner)
  }

  function CostArgTail(t: ArgTail): nat {
    match t
    case ArgEnd => 0
    case ArgMore(arg, rest) => Max(CostExpr(arg), CostArgTail(rest))
  }

  /** The documented rules derive tree t from the tokens within the nesting limit. */
  ghost predicate Derives(ks: seq<Kind>, t: Ast, limit: nat) {
    exists e: Expr :: YieldExpr(e) == ks && TreeExpr(e) == t && FiniteExpr(e) && CostExpr(e) <= limit
  }

  /** The same, with factorial signs attached as tightly as possible. */
  ghost predicate DerivesCanonically(ks: seq<Kind>, t: Ast, limit: nat) {
    exists e: Expr :: CanonicalExpr(e)
      && YieldExpr(e) == ks && TreeExpr(e) == t && FiniteExpr(e) && CostExpr(e) <= limit
  }

  // ----- Size -----

  function Nodes(t: Ast): nat {
    match t
    case Literal(_) => 1
    case Identifier(_) => 1
    case Binary(_, left, right) => 1 + Nodes(left) + Nodes(right)
    case Unary(_, operand) => 1 + Nodes(operand)
    case Factorial(operand) => 1 + Nodes(operand)
    case Call(_, args) => 1 + NodesOf(args)
  }

  function NodesOf(ts: seq<Ast>): nat {
    if ts == [] then 0 else Nodes(ts[0]) + NodesOf(ts[1..])
  }

  lemma {:induction false} NodesOfAppend(ts: seq<Ast>, t: Ast)
    ensures NodesOf(ts + [t]) == NodesOf(ts) + Nodes(t)
  {
    if ts != [] {
      NodesOfAppend(ts[1..], t);
      assert (ts + [t])[1..] == ts[1..] + [t];
    }
  }

  /** A syntax tree has no more nodes than its derivation has tokens. */
  lemma {:induction false} SizeExpr(e: Expr)
    ensures Nodes(TreeExpr(e)) <= |YieldExpr(e)|
  {
    SizeTerm(e.first);
    SizeAddTail(TreeTerm(e.first), e.rest);
  }

  lemma {:induction false} SizeAddTail(left: Ast, t: AddTail)
    ensures Nodes(TreeAddTail(left, t)) <= Nodes(left) + |YieldAddTail(t)|
    decreases t
  {
    match t
    case AddEnd =>
    case AddMore(minus, term, rest) =>
      SizeTerm(term);
      SizeAddTail(Binary(SignOp(minus), left, TreeTerm(term)), rest);
  }

  lemma {:induction false} SizeTerm(t: Term)
    ensures Nodes(TreeTerm(t)) <= |YieldTerm(t)|
  {
    SizeFactor(t.first);
    SizeMulTail(TreeFactor(t.first), t.rest);
  }

  lemma {:induction false} SizeMulTail(left: Ast, t: MulTail)
    ensures Nodes(TreeMulTail(left, t)) <= Nodes(left) + |YieldMulTail(t)|
    decreases t
  {
    match t
    case MulEnd =>
    case MulMore(op, factor, rest) =>
      SizeFactor(factor);
      SizeMulTail(Binary(MulOperator(op), left, TreeFactor(factor)), rest);
  }

  lemma {:induction false} SizeFactor(f: Factor)
    ensures Nodes(TreeFactor(f)) <= |YieldFactor(f)|
  {
    match f
    case Signed(_, operand) => SizeFactor(operand);
    case Unsigned(postfix) =>
      SizeRaised(postfix.base);
      SizeBangs(TreeRaised(postfix.base), postfix.bangs);
  }

  lemma {:induction false} SizeBangs(base: Ast, n: nat)
    ensures Nodes(Factorials(base, n)) == Nodes(base) + |Bangs(n)|
    decreases n
  {
    if n > 0 {
      SizeBangs(Factorial(base), n - 1);
    }
  }

  lemma {:induction false} SizeRaised(r: Raised)
    ensures Nodes(TreeRaised(r)) <= |YieldRaised(r)|
  {
    match r
    case Plain(atom) => SizeAtom(atom);
    case Raise(atom, exponent) =>
      SizeAtom(atom);
      SizeFactor(exponent);
  }

  lemma {:induction false} SizeAtom(a: Atom)
    ensures Nodes(TreeAtom(a)) <= |YieldAtom(a)|
  {
    match a
    case Num(_) =>
    case Name(_) =>
    case CallNone(_) =>
    case CallSome(_, first, rest) =>
      SizeExpr(first);
      SizeArgTail([TreeExpr(first)], rest);
      assert NodesOf([TreeExpr(first)]) == Nodes(TreeExpr(first)) + NodesOf([]);
    case Paren(inner) => SizeExpr(inner);
  }

  lemma {:induction false} SizeArgTail(done: seq<Ast>, t: ArgTail)
    ensures NodesOf(TreeArgTail(done, t)) <= NodesOf(done) + |YieldArgTail(t)|
    decreases t
  {
    match t
    case ArgEnd =>
    case ArgMore(arg, rest) =>
      SizeExpr(arg);
      NodesOfAppend(done, TreeExpr(arg));
      SizeArgTail(done + [TreeExpr(arg)], rest);
  }
}
