/** The recursive-descent parser with its cursor and depth counter, proved against
    ParserSpec level by level. */
module Parser {
  import opened Wrappers
  import opened Syntax
  import opened Grammar
  import Spec = ParserSpec
  import DepthLimit

  const MAX_PARSE_DEPTH: nat := 100

  /** A token with its span in the source text. */
  datatype Token = Token(kind: Kind, start: nat, end: nat)

  function Kinds(ts: seq<Token>): (ks: seq<Kind>)
    ensures |ks| == |ts| && forall i | 0 <= i < |ks| :: ks[i] == ts[i].kind
  {
    seq(|ts|, i requires 0 <= i < |ts| => ts[i].kind)
  }

  class Parser {
    const tokens: seq<Token>
    var pos: nat
    var depth: nat

    constructor (tokens: seq<Token>)
      ensures this.tokens == tokens && pos == 0 && depth == 0
    {
      this.tokens := tokens;
      pos, depth := 0, 0;
    }

    ghost predicate Valid()
      reads this
    {
      pos <= |tokens|
    }

    ghost function Unread(): (ks: seq<Kind>)
      reads this
      requires Valid()
      ensures |ks| == |tokens| - pos
    {
      Kinds(tokens)[pos..]
    }

    /** How a method's outcome and new cursor relate to the specified outcome. */
    ghost predicate Follows<T>(spec: Spec.Outcome<T>, r: Result<T, Spec.ParseError>)
      reads this
    {
      Valid() &&
      match spec
      case Success(p) => r == Success(p.tree) && Unread() == p.rest
      case Failure(e) => r == Failure(e)
    }

    /** The depth counter is back where it was, except that the frame whose entry was
        refused leaves it one too high. */
    ghost predicate DepthAfter<T>(before: nat, r: Result<T, Spec.ParseError>)
      reads this
    {
      depth == if r.Failure? && r.error.reason == Spec.TooDeep then before + 1 else before
    }

    method Enter() returns (r: Option<Spec.ParseError>)
      requires Valid()
      modifies this`depth
      ensures depth == old(depth) + 1
      ensures r == if depth > MAX_PARSE_DEPTH then Some(Spec.ParseError(Spec.TooDeep, |Unread()|)) else None
    {
      depth := depth + 1;
      return if depth > MAX_PARSE_DEPTH then Some(Spec.ParseError(Spec.TooDeep, |tokens| - pos)) else None;
    }

    method Leave()
      requires depth > 0
      modifies this`depth
      ensures depth == old(depth) - 1
    {
      depth := depth - 1;
    }

    predicate At(kind: Kind)
      reads this
      requires Valid()
      ensures At(kind) == Spec.Starts(Unread(), kind)
    {
      pos < |tokens| && tokens[pos].kind == kind
    }

    method Advance()
      requires Valid() && pos < |tokens|
      modifies this`pos
      ensures Valid() && pos == old(pos) + 1 && Unread() == old(Unread())[1..]
    {
      pos := pos + 1;
    }

    method Eat(kind: Kind) returns (ate: bool)
      requires Valid()
      modifies this`pos
      ensures Valid() && ate == Spec.Starts(old(Unread()), kind)
      ensures Unread() == if ate then old(Unread())[1..] else old(Unread())
      ensures pos == if ate then old(pos) + 1 else old(pos)
    {
      ate := At(kind);
      if ate { Advance(); }
    }

    method ParseExpression() returns (r: Result<Ast, Spec.ParseError>)
      requires Valid()
      modifies this`pos, this`depth
      ensures Follows(Spec.ParseExpression(old(Unread()), old(depth), MAX_PARSE_DEPTH), r)
      ensures DepthAfter(old(depth), r)
      decreases |tokens| - pos, 6
    {
      var refused := Enter();
      if refused.Some? { return Failure(refused.value); }
      r := ParseAdditive();
      Leave();
    }

    method ParseAdditive() returns (r: Result<Ast, Spec.ParseError>)
      requires Valid()
      modifies this`pos, this`depth
      ensures Follows(Spec.ParseAdditive(old(Unread()), old(depth), MAX_PARSE_DEPTH), r)
      ensures DepthAfter(old(depth), r)
      decreases |tokens| - pos, 5
    {
      hide Spec.ParseMultiplicative;
      ghost var d := depth;
      ghost var spec := Spec.ParseAdditive(Unread(), d, MAX_PARSE_DEPTH);
      r := ParseMultiplicative();
      if r.Failure? { return; }
      while At(Plus) || At(Minus)
        invariant Valid() && depth == d && r.Success? && pos > old(pos)
        invariant spec == Spec.AdditiveRest(r.value, Unread(), d, MAX_PARSE_DEPTH)
        decreases |tokens| - pos
      {
        var left, minus := r.value, At(Minus);
        Advance();
        r := ParseMultiplicative();
        if r.Failure? { return; }
        r := Success(Binary(SignOp(minus), left, r.value));
      }
    }

    method ParseMultiplicative() returns (r: Result<Ast, Spec.ParseError>)
      requires Valid()
      modifies this`pos, this`depth
      ensures Follows(Spec.ParseMultiplicative(old(Unread()), old(depth), MAX_PARSE_DEPTH), r)
      ensures DepthAfter(old(depth), r)
      decreases |tokens| - pos, 4
    {
      hide Spec.ParseUnary;
      ghost var d := depth;
      ghost var spec := Spec.ParseMultiplicative(Unread(), d, MAX_PARSE_DEPTH);
      r := ParseUnary();
      if r.Failure? { return; }
      while At(Star) || At(Slash) || At(Percent)
        invariant Valid() && depth == d && r.Success? && pos > old(pos)
        invariant spec == Spec.MultiplicativeRest(r.value, Unread(), d, MAX_PARSE_DEPTH)
        decreases |tokens| - pos
      {
        var left := r.value;
        var op := if At(Star) then Times else if At(Slash) then Divide else Modulo;
        Advance();
        r := ParseUnary();
        if r.Failure? { return; }
        r := Success(Binary(op, left, r.value));
      }
    }

    method ParseUnary() returns (r: Result<Ast, Spec.ParseError>)
      requires Valid()
      modifies this`pos, this`depth
      ensures Follows(Spec.ParseUnary(old(Unread()), old(depth), MAX_PARSE_DEPTH), r)
      ensures DepthAfter(old(depth), r)
      decreases |tokens| - pos, 3
    {
      hide Spec.ParsePostfix;
      if At(Plus) || At(Minus) {
        var minus := At(Minus);
        Advance();
        var refused := Enter();
        if refused.Some? { return Failure(refused.value); }
        r := ParseUnary();
        Leave();
        if r.Success? { r := Success(Unary(minus, r.value)); }
      } else {
        r := ParsePostfix();
      }
    }

    method ParsePostfix() returns (r: Result<Ast, Spec.ParseError>)
      requires Valid()
      modifies this`pos, this`depth
      ensures Follows(Spec.ParsePostfix(old(Unread()), old(depth), MAX_PARSE_DEPTH), r)
      ensures DepthAfter(old(depth), r)
      decreases |tokens| - pos, 2
    {
      hide Spec.ParsePower;
      ghost var d := depth;
      ghost var spec := Spec.ParsePostfix(Unread(), d, MAX_PARSE_DEPTH);
      r := ParsePower();
      if r.Failure? { return; }
      var node := r.value;
      var ate := Eat(Bang);
      while ate
        invariant Valid() && depth == d && spec.Success?
        invariant spec.value == Spec.BangRest(if ate then Factorial(node) else node, Unread())
        invariant !ate ==> !Spec.Starts(Unread(), Bang)
        decreases ate, |tokens| - pos
      {
        node := Factorial(node);
        ate := Eat(Bang);
      }
      r := Success(node);
    }

    method ParsePower() returns (r: Result<Ast, Spec.ParseError>)
      requires Valid()
      modifies this`pos, this`depth
      ensures Follows(Spec.ParsePower(old(Unread()), old(depth), MAX_PARSE_DEPTH), r)
      ensures DepthAfter(old(depth), r)
      decreases |tokens| - pos, 1
    {
      hide Spec.ParseAtom, Spec.ParseUnary;
      r := ParseAtom();
      if r.Failure? { return; }
      var base := r.value;
      var ate := Eat(Caret);
      if ate {
        var refused := Enter();
        if refused.Some? { return Failure(refused.value); }
        r := ParseUnary();
        Leave();
        if r.Success? { r := Success(Binary(Power, base, r.value)); }
      }
    }

    method ParseAtom() returns (r: Result<Ast, Spec.ParseError>)
      requires Valid()
      modifies this`pos, this`depth
      ensures Follows(Spec.ParseAtom(old(Unread()), old(depth), MAX_PARSE_DEPTH), r)
      ensures DepthAfter(old(depth), r)
      decreases |tokens| - pos, 0
    {
      hide Spec.ParseParenthesised, Spec.ParseArguments;
      if pos == |tokens| { return Failure(Spec.ParseError(Spec.UnexpectedEnd, 0)); }
      var unread := |tokens| - pos;
      match tokens[pos].kind
      case Number(text) =>
        Advance();
        var value := LiteralValue(text);
        r := if value.None? then Failure(Spec.ParseError(Spec.NotFinite, unread)) else Success(Literal(value.value));
      case LParen =>
        Advance();
        r := ParseParenthesised();
      case Ident(name) =>
        Advance();
        var call := Eat(LParen);
        if call {
          var args := ParseArguments();
          r := if args.Failure? then Failure(args.error) else Success(Call(name, args.value));
        } else {
          r := Success(Identifier(name));
        }
      case _ =>
        r := Failure(Spec.ParseError(Spec.UnexpectedToken, unread));
    }

    /** The part of an atom after its opening parenthesis. */
    method ParseParenthesised() returns (r: Result<Ast, Spec.ParseError>)
      requires Valid()
      modifies this`pos, this`depth
      ensures Follows(Spec.ParseParenthesised(old(Unread()), old(depth), MAX_PARSE_DEPTH), r)
      ensures DepthAfter(old(depth), r)
      decreases |tokens| - pos, 7
    {
      hide Spec.ParseExpression;
      var refused := Enter();
      if refused.Some? { return Failure(refused.value); }
      r := ParseExpression();
      if r.Success? && !At(RParen) {
        r := Failure(Spec.ParseError(Spec.ExpectedRParen, |tokens| - pos));
      } else if r.Success? {
        Advance();
      }
      Leave();
    }

    /** The part of a call after its opening parenthesis. */
    method ParseArguments() returns (r: Result<seq<Ast>, Spec.ParseError>)
      requires Valid()
      modifies this`pos, this`depth
      ensures Follows(Spec.ParseArguments(old(Unread()), old(depth), MAX_PARSE_DEPTH), r)
      ensures DepthAfter(old(depth), r)
      decreases |tokens| - pos, 7
    {
      hide Spec.ParseExpression, Spec.ArgumentRest;
      var empty := Eat(RParen);
      if empty { return Success([]); }
      var refused := Enter();
      if refused.Some? { return Failure(refused.value); }
      var first := ParseExpression();
      if first.Failure? {
        r := Failure(first.error);
      } else {
        r := ParseMoreArguments(first.value);
      }
      Leave();
    }

    method ParseMoreArguments(first: Ast) returns (r: Result<seq<Ast>, Spec.ParseError>)
      requires Valid()
      modifies this`pos, this`depth
      ensures Follows(Spec.ArgumentRest([first], old(Unread()), old(depth), MAX_PARSE_DEPTH), r)
      ensures DepthAfter(old(depth), r)
      decreases |tokens| - pos, 7
    {
      hide Spec.ParseExpression;
      ghost var d := depth;
      ghost var spec := Spec.ArgumentRest([first], Unread(), d, MAX_PARSE_DEPTH);
      var args := [first];
      while At(Comma)
        invariant Valid() && depth == d && pos >= old(pos)
        invariant spec == Spec.ArgumentRest(args, Unread(), d, MAX_PARSE_DEPTH)
        decreases |tokens| - pos
      {
        Advance();
        var arg := ParseExpression();
        if arg.Failure? { return Failure(arg.error); }
        args := args + [arg.value];
      }
      if At(RParen) {
        Advance();
        r := Success(args);
      } else {
        r := Failure(Spec.ParseError(Spec.ExpectedRParen, |tokens| - pos));
      }
    }

    /** The depth is restored exactly when no higher limit would change the answer; for a sentence,
        when its cost is within the limit. */
    method ParseProgram() returns (r: Result<Ast, Spec.ParseError>)
      requires pos == 0 && depth == 0
      modifies this`pos, this`depth
      ensures r == Spec.ParseProgram(Kinds(tokens), MAX_PARSE_DEPTH)
      ensures DepthAfter(0, r)
      ensures depth == 0 <==> forall m: nat :: m >= MAX_PARSE_DEPTH ==> Spec.ParseProgram(Kinds(tokens), m) == r
      ensures forall e: Expr | FiniteExpr(e) && YieldExpr(e) == Kinds(tokens) ::
                depth == 0 <==> CostExpr(e) <= MAX_PARSE_DEPTH
    {
      hide Spec.ParseExpression;
      r := ParseExpression();
      if r.Success? && pos < |tokens| {
        r := Failure(Spec.ParseError(Spec.UnexpectedToken, |tokens| - pos));
      }
      DepthLimit.RefusedDeepIff(Kinds(tokens), MAX_PARSE_DEPTH);
      forall e: Expr | FiniteExpr(e) && YieldExpr(e) == Kinds(tokens)
        ensures depth == 0 <==> CostExpr(e) <= MAX_PARSE_DEPTH
      {
        DepthLimit.SentenceAcceptedIff(e, MAX_PARSE_DEPTH);
      }
    }
  }
}
