/** The meaning of a syntax tree: evaluation over exact reals with the errors the
    evaluator throws. Functions are parameters of the environment. */
module Evaluator {
  import opened Wrappers
  import opened Syntax

  datatype RuntimeError =
    | UnknownIdentifier(name: string)
    | UnknownFunction(name: string)
    | WrongArity(name: string)
    | DivisionByZero
    | ModuloByZero
    | UndefinedPower
    | Domain

  /** arity.max is absent for functions with any number of arguments. */
  datatype Builtin = Builtin(min: nat, max: Option<nat>, impl: seq<real> -> Result<real, RuntimeError>)

  /** Powers with exponents that are not natural numbers are given by `power`. */
  datatype Env = Env(
    variables: map<string, real>,
    constants: map<string, real>,
    builtins: map<string, Builtin>,
    power: (real, real) -> Option<real>)

  predicate IsNatural(x: real) {
    x >= 0.0 && x.Floor as real == x
  }

  function RaiseTo(l: real, r: real, env: Env): Result<real, RuntimeError> {
    if IsNatural(r) then Success(PowerOf(l, r.Floor))
    else match env.power(l, r)
      case Some(v) => Success(v)
      case None => Failure(UndefinedPower)
  }

  /** Remainder of truncating division: it has the sign of the dividend. */
  function Remainder(l: real, r: real): real
    requires r != 0.0
  {
    var q := l / r;
    var t := if q >= 0.0 then q.Floor else -(-q).Floor;
    l - r * t as real
  }

  function ApplyBinary(op: Operator, l: real, r: real, env: Env): Result<real, RuntimeError> {
    match op
    case Addition => Success(l + r)
    case Subtraction => Success(l - r)
    case Times => Success(l * r)
    case Divide => if r == 0.0 then Failure(DivisionByZero) else Success(l / r)
    case Modulo => if r == 0.0 then Failure(ModuloByZero) else Success(Remainder(l, r))
    case Power => RaiseTo(l, r, env)
  }

  function FactorialOf(n: nat): real {
    if n == 0 then 1.0 else n as real * FactorialOf(n - 1)
  }

  function EvalFactorial(v: real): Result<real, RuntimeError> {
    if IsNatural(v) && v <= 170.0 then Success(FactorialOf(v.Floor)) else Failure(Domain)
  }

  function Evaluate(node: Ast, env: Env): Result<real, RuntimeError> {
    match node
    case Literal(value) => Success(value)
    case Identifier(name) =>
      if name in env.variables then Success(env.variables[name])
      else if name in env.constants then Success(env.constants[name])
      else Failure(UnknownIdentifier(name))
    case Binary(op, left, right) =>
      var l :- Evaluate(left, env);
      var r :- Evaluate(right, env);
      ApplyBinary(op, l, r, env)
    case Unary(minus, operand) =>
      var v :- Evaluate(operand, env);
      Success(if minus then -v else v)
    case Factorial(operand) =>
      var v :- Evaluate(operand, env);
      EvalFactorial(v)
    case Call(name, args) =>
      if name !in env.builtins then Failure(UnknownFunction(name))
      else
        var def := env.builtins[name];
        var values :- EvaluateAll(args, env);
        if |values| < def.min || (def.max.Some? && |values| > def.max.value) then Failure(WrongArity(name))
        else def.impl(values)
  }

  function EvaluateAll(args: seq<Ast>, env: Env): Result<seq<real>, RuntimeError> {
    if args == [] then Success([])
    else
      var v :- Evaluate(args[0], env);
      var vs :- EvaluateAll(args[1..], env);
      Success([v] + vs)
  }

  /** The tree as a function of one variable, the others fixed. */
  function CompileSingleVariable(node: Ast, variable: string, env: Env): real -> Result<real, RuntimeError> {
    x => Evaluate(node, env.(variables := env.variables[variable := x]))
  }
}
