/** Tokens and syntax trees of the expression language, and the value of a numeral. */
module Syntax {
  import opened Wrappers

  datatype Kind =
    | Number(text: string)
    | Ident(name: string)
    | Plus | Minus | Star | Slash | Percent | Caret | Bang | LParen | RParen | Comma

  datatype Operator = Addition | Subtraction | Times | Divide | Modulo | Power

  datatype Ast =
    | Literal(value: real)
    | Identifier(name: string)
    | Binary(op: Operator, left: Ast, right: Ast)
    | Unary(minus: bool, operand: Ast)
    | Factorial(operand: Ast)
    | Call(fn: string, args: seq<Ast>)

  // ----- Characters -----

  predicate IsDigit(c: char) {
    '0' <= c <= '9'
  }

  predicate IsIdentStart(c: char) {
    'A' <= c <= 'Z' || 'a' <= c <= 'z' || c == '_'
  }

  predicate IsIdentCont(c: char) {
    IsIdentStart(c) || IsDigit(c)
  }

  predicate IsBlank(c: char) {
    c == ' ' || c == '\t' || c == '\n' || c == '\r'
  }

  // ----- Numerals -----

  /** End of the run of digits that starts at i. */
  function DigitsEnd(s: string, i: nat): (j: nat)
    requires i <= |s|
    ensures i <= j <= |s|
    decreases |s| - i
  {
    if i < |s| && IsDigit(s[i]) then DigitsEnd(s, i + 1) else i
  }

  lemma {:induction false} DigitsEndAreDigits(s: string, i: nat)
    requires i <= |s|
    ensures forall k | i <= k < DigitsEnd(s, i) :: IsDigit(s[k])
    ensures DigitsEnd(s, i) < |s| ==> !IsDigit(s[DigitsEnd(s, i)])
    decreases |s| - i
  {
    if i < |s| && IsDigit(s[i]) {
      DigitsEndAreDigits(s, i + 1);
    }
  }

  /** The digit run that starts at i. */
  function DigitRun(s: string, i: nat): (t: string)
    requires i <= |s|
    ensures forall k | 0 <= k < |t| :: IsDigit(t[k])
  {
    DigitsEndAreDigits(s, i);
    s[i..DigitsEnd(s, i)]
  }

  /** End of the integer and fractional digits. */
  function MantissaEnd(s: string, i: nat): (j: nat)
    requires i <= |s|
    ensures i <= j <= |s|
  {
    var j := DigitsEnd(s, i);
    if j < |s| && s[j] == '.' then DigitsEnd(s, j + 1) else j
  }

  /** First digit of the exponent that follows the letter at i, after an optional sign. */
  function ExponentStart(s: string, i: nat): (j: nat)
    requires i < |s|
    ensures i < j <= |s|
  {
    if i + 1 < |s| && (s[i + 1] == '+' || s[i + 1] == '-') then i + 2 else i + 1
  }

  /** End of the numeral at i, or the position of an exponent letter without digits. */
  function NumeralEnd(s: string, i: nat): (r: Result<nat, nat>)
    requires i <= |s|
    ensures r.Success? ==> i <= r.value <= |s|
  {
    var m := MantissaEnd(s, i);
    if m < |s| && (s[m] == 'e' || s[m] == 'E') then
      var d := ExponentStart(s, m);
      if DigitsEnd(s, d) == d then Failure(m) else Success(DigitsEnd(s, d))
    else
      Success(m)
  }

  function DigitsValue(s: string): nat
    requires forall k | 0 <= k < |s| :: IsDigit(s[k])
  {
    if s == [] then 0
    else
      assert IsDigit(s[|s| - 1]);
      10 * DigitsValue(s[..|s| - 1]) + (s[|s| - 1] as int - '0' as int)
  }

  function PowerOf(base: real, n: nat): real {
    if n == 0 then 1.0 else base * PowerOf(base, n - 1)
  }

  lemma {:induction false} PowerOfPositive(base: real, n: nat)
    requires base > 0.0
    ensures PowerOf(base, n) > 0.0
  {
    if n > 0 {
      PowerOfPositive(base, n - 1);
    }
  }

  /** Decimals from here on round to infinity in double precision. */
  function OverflowBound(): real {
    PowerOf(2.0, 1024) - PowerOf(2.0, 970)
  }

  predicate IsNumeral(s: string) {
    && |s| > 0 && (IsDigit(s[0]) || (s[0] == '.' && |s| > 1 && IsDigit(s[1])))
    && NumeralEnd(s, 0) == Success(|s|)
  }

  /** Integer digits and fractional digits. */
  function Decimal(whole: string, fraction: string): real
    requires forall k | 0 <= k < |whole| :: IsDigit(whole[k])
    requires forall k | 0 <= k < |fraction| :: IsDigit(fraction[k])
  {
    DigitsValue(whole) as real + (DigitsValue(fraction) as real) / Positive(10.0, |fraction|)
  }

  /** x times a power of ten, or divided by it. */
  function Scaled(x: real, digits: string, down: bool): real
    requires forall k | 0 <= k < |digits| :: IsDigit(digits[k])
  {
    var scale := Positive(10.0, DigitsValue(digits));
    if down then x / scale else x * scale
  }

  /** The exact decimal value of a numeral. */
  function NumeralValue(s: string): real
    requires IsNumeral(s)
  {
    var dot := DigitsEnd(s, 0);
    var fraction := if dot < |s| && s[dot] == '.' then DigitRun(s, dot + 1) else "";
    var mantissa := Decimal(DigitRun(s, 0), fraction);
    var m := MantissaEnd(s, 0);
    if m == |s| then mantissa else Scaled(mantissa, DigitRun(s, ExponentStart(s, m)), s[m + 1] == '-')
  }

  function Positive(base: real, n: nat): (r: real)
    requires base > 0.0
    ensures r == PowerOf(base, n) && r > 0.0
  {
    PowerOfPositive(base, n);
    PowerOf(base, n)
  }

  /** The number a literal denotes, when it is finite. */
  function LiteralValue(s: string): Option<real> {
    if IsNumeral(s) && NumeralValue(s) < OverflowBound() then Some(NumeralValue(s)) else None
  }
}
