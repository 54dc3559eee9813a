/** From source text to syntax tree, and back. */
module Expressions {
  import opened Wrappers
  import opened Syntax
  import opened Grammar
  import opened Parser
  import Spec = ParserSpec
  import ParserTheorems
  import Tokenizer
  import Evaluator
  import Meaning
  import SyntaxErrors

  datatype Error = Lexical(lexical: Tokenizer.LexError) | Empty | Syntactic(reason: Spec.Reason, at: nat)

  /** Character position of a parse error: the start of the offending token, or the end. */
  function Position(source: string, ts: seq<Token>, unread: nat): nat
    requires unread <= |ts|
  {
    if unread == 0 then |source| else ts[|ts| - unread].start
  }

  function ParseSource(source: string): Result<Ast, Error> {
    match Tokenizer.Lex(source)
    case Failure(e) => Failure(Lexical(e))
    case Success(tokens) =>
      if tokens == [] then Failure(Empty)
      else match Spec.ParseProgram(Kinds(tokens), MAX_PARSE_DEPTH)
        case Failure(e) => Failure(Syntactic(e.reason, Position(source, tokens, e.unread)))
        case Success(t) => Success(t)
  }

  method Parse(source: string) returns (r: Result<Ast, Error>)
    ensures r == ParseSource(source)
  {
    hide Spec.ParseProgram, Tokenizer.Lex;
    var lexed := Tokenizer.Tokenize(source);
    if lexed.Failure? { return Failure(Lexical(lexed.error)); }
    var tokens := lexed.value;
    if |tokens| == 0 { return Failure(Empty); }
    var parser := new Parser(tokens);
    var parsed := parser.ParseProgram();
    if parsed.Failure? {
      return Failure(Syntactic(parsed.error.reason, Position(source, tokens, parsed.error.unread)));
    }
    return Success(parsed.value);
  }

  /** A source is accepted exactly when it tokenizes into a sentence of the documented
      grammar whose nesting cost is at most 100. */
  lemma SourceAcceptedIff(source: string)
    ensures ParseSource(source).Success? <==>
              && Tokenizer.Lex(source).Success?
              && exists t: Ast :: Derives(Kinds(Tokenizer.Lex(source).value), t, MAX_PARSE_DEPTH)
  {
    hide Spec.ParseProgram, Derives;
    if Tokenizer.Lex(source).Success? {
      var ks := Kinds(Tokenizer.Lex(source).value);
      ParserTheorems.AcceptsDocumentedLanguage(ks, MAX_PARSE_DEPTH);
      if ks == [] { EmptyRejected(); }
    }
  }

  lemma EmptyRejected()
    ensures Spec.ParseProgram([], MAX_PARSE_DEPTH).Failure?
  {
    var r := Spec.ParseExpression([], 0, MAX_PARSE_DEPTH);
    if r.Success? {
      assert false;
    }
  }

  /** A syntax error is positioned at the first token that cannot stand where it does, or at the end
      of a source that only begins a sentence. */
  lemma SourceErrorLocated(source: string) returns (at: nat, e: Expr)
    requires ParseSource(source).Failure? && ParseSource(source).error.Syntactic?
    requires ParseSource(source).error.reason != Spec.TooDeep
    ensures Tokenizer.Lex(source).Success?
    ensures var ts := Tokenizer.Lex(source).value;
            && at <= |ts| && ParseSource(source).error.at == (if at < |ts| then ts[at].start else |source|)
            && FiniteExpr(e) && CostExpr(e) <= MAX_PARSE_DEPTH && Kinds(ts)[..at] <= YieldExpr(e)
            && (at < |ts| ==> SyntaxErrors.StartsNoSentence(Kinds(ts)[..at + 1]))
  {
    hide Spec.ParseProgram, Tokenizer.Lex, YieldExpr, FiniteExpr, CostExpr, SyntaxErrors.StartsNoSentence;
    var ks := Kinds(Tokenizer.Lex(source).value);
    at := |ks| - Spec.ParseProgram(ks, MAX_PARSE_DEPTH).error.unread;
    e := SyntaxErrors.ErrorAtFirstBadToken(ks, MAX_PARSE_DEPTH, at);
  }

  /** The tree of an accepted source evaluates to what the source means, value or error: the tokens
      of the source are those of a derivation with that meaning. */
  lemma SourceMeans(source: string, env: Evaluator.Env) returns (e: Expr)
    requires ParseSource(source).Success?
    ensures Tokenizer.Lex(source).Success? && YieldExpr(e) == Kinds(Tokenizer.Lex(source).value) && CanonicalExpr(e)
    ensures Evaluator.Evaluate(ParseSource(source).value, env) == Meaning.MeanExpr(e, env)
  {
    hide Spec.ParseProgram, Tokenizer.Lex, Evaluator.Evaluate, Meaning.MeanExpr;
    e := Meaning.AcceptedTokensMean(Kinds(Tokenizer.Lex(source).value), MAX_PARSE_DEPTH, env);
  }

  /** Writing out any canonical derivation within the limits and parsing the text gives back
      its syntax tree. */
  lemma WrittenExpressionReadBack(e: Expr)
    requires CanonicalExpr(e) && FiniteExpr(e) && CostExpr(e) <= MAX_PARSE_DEPTH
    requires forall k | k in YieldExpr(e) :: Tokenizer.Writable(k)
    requires |YieldExpr(e)| <= Tokenizer.MAX_TOKEN_COUNT
    requires |Tokenizer.WriteAll(YieldExpr(e))| <= Tokenizer.MAX_EXPRESSION_LENGTH
    ensures ParseSource(Tokenizer.WriteAll(YieldExpr(e))) == Success(TreeExpr(e))
  {
    hide Spec.ParseProgram, Tokenizer.Lex;
    var ks := YieldExpr(e);
    Tokenizer.WrittenTokensReadBack(ks);
    ParserTheorems.ReturnsTreeIffCanonical(e, MAX_PARSE_DEPTH);
    if ks == [] { EmptyRejected(); }
  }
}
