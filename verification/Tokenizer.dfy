/** The tokenizer: its loops, what they compute, that tokens spell out the source, and that
    any token list written out with blanks is read back. */
module Tokenizer {
  import opened Wrappers
  import opened Syntax
  import opened Parser

  const MAX_EXPRESSION_LENGTH: nat := 2000
  const MAX_TOKEN_COUNT: nat := 1000

  datatype LexError = TooLong | TooManyTokens(at: nat) | BadCharacter(at: nat) | MalformedNumber(at: nat)

  // ----- One step -----

  datatype Lexeme = Blank | Found(kind: Kind, end: nat) | Broken(error: LexError)

  function IdentEnd(s: string, i: nat): (j: nat)
    requires i <= |s|
    ensures i <= j <= |s|
    decreases |s| - i
  {
    if i < |s| && IsIdentCont(s[i]) then IdentEnd(s, i + 1) else i
  }

  lemma {:induction false} IdentEndAreCont(s: string, i: nat)
    requires i <= |s|
    ensures forall k | i <= k < IdentEnd(s, i) :: IsIdentCont(s[k])
    decreases |s| - i
  {
    if i < |s| && IsIdentCont(s[i]) {
      IdentEndAreCont(s, i + 1);
    }
  }

  function SingleCharToken(c: char): Option<Kind> {
    match c
    case '+' => Some(Plus)
    case '-' => Some(Minus)
    case '*' => Some(Star)
    case '/' => Some(Slash)
    case '%' => Some(Percent)
    case '^' => Some(Caret)
    case '!' => Some(Bang)
    case '(' => Some(LParen)
    case ')' => Some(RParen)
    case ',' => Some(Comma)
    case _ => None
  }

  /** A digit, or a point followed by one. */
  predicate StartsNumber(s: string, i: nat)
    requires i < |s|
  {
    IsDigit(s[i]) || (s[i] == '.' && i + 1 < |s| && IsDigit(s[i + 1]))
  }

  lemma NumeralAdvances(s: string, i: nat)
    requires i < |s| && StartsNumber(s, i)
    ensures MantissaEnd(s, i) > i && (NumeralEnd(s, i).Success? ==> NumeralEnd(s, i).value > i)
  {
  }

  function Scan(s: string, i: nat): (l: Lexeme)
    requires i < |s|
    ensures l.Found? ==> i < l.end <= |s|
  {
    if IsBlank(s[i]) then Blank
    else if StartsNumber(s, i) then
      NumeralAdvances(s, i);
      match NumeralEnd(s, i)
      case Success(j) => Found(Number(s[i..j]), j)
      case Failure(m) => Broken(MalformedNumber(m))
    else if IsIdentStart(s[i]) then Found(Ident(s[i..IdentEnd(s, i + 1)]), IdentEnd(s, i + 1))
    else if s[i] == '*' && i + 1 < |s| && s[i + 1] == '*' then Found(Caret, i + 2)
    else match SingleCharToken(s[i])
      case Some(kind) => Found(kind, i + 1)
      case None => Broken(BadCharacter(i))
  }

  /** The tokens from position i on, n having been found before. */
  function LexFrom(s: string, i: nat, n: nat): Result<seq<Token>, LexError>
    requires i <= |s|
    decreases |s| - i
  {
    if i == |s| then Success([])
    else match Scan(s, i)
      case Blank => LexFrom(s, i + 1, n)
      case Broken(e) => Failure(e)
      case Found(kind, j) =>
        if n + 1 > MAX_TOKEN_COUNT then Failure(TooManyTokens(i))
        else
          var rest :- LexFrom(s, j, n + 1);
          Success([Token(kind, i, j)] + rest)
  }

  function Lex(s: string): Result<seq<Token>, LexError> {
    if |s| > MAX_EXPRESSION_LENGTH then Failure(TooLong) else LexFrom(s, 0, 0)
  }

  // ----- The loops -----

  method SkipDigits(s: string, start: nat) returns (i: nat)
    requires start <= |s|
    ensures i == DigitsEnd(s, start)
  {
    i := start;
    while i < |s| && IsDigit(s[i])
      invariant start <= i <= |s| && DigitsEnd(s, start) == DigitsEnd(s, i)
    {
      i := i + 1;
    }
  }

  method ScanNumber(s: string, start: nat) returns (r: Result<nat, LexError>)
    requires start <= |s|
    ensures r == match NumeralEnd(s, start) case Success(j) => Success(j) case Failure(m) => Failure(MalformedNumber(m))
  {
    var i := SkipDigits(s, start);
    if i < |s| && s[i] == '.' {
      i := SkipDigits(s, i + 1);
    }
    if i < |s| && (s[i] == 'e' || s[i] == 'E') {
      var expStart := i;
      i := i + 1;
      if i < |s| && (s[i] == '+' || s[i] == '-') { i := i + 1; }
      var digitsStart := i;
      i := SkipDigits(s, i);
      if i == digitsStart { return Failure(MalformedNumber(expStart)); }
    }
    return Success(i);
  }

  method Tokenize(s: string) returns (r: Result<seq<Token>, LexError>)
    ensures r == Lex(s)
  {
    if |s| > MAX_EXPRESSION_LENGTH { return Failure(TooLong); }
    hide NumeralEnd, LexFrom, Prepend;
    var tokens: seq<Token> := [];
    var i := 0;
    PrependNothing(LexFrom(s, i, 0));
    while i < |s|
      invariant i <= |s|
      invariant Lex(s) == Prepend(tokens, LexFrom(s, i, |tokens|))
      decreases |s| - i
    {
      var start := i;
      var kind: Kind;
      LexOne(s, i, tokens);
      if IsBlank(s[i]) {
        i := i + 1;
        continue;
      } else if StartsNumber(s, i) {
        var end := ScanNumber(s, i);
        if end.Failure? { return Failure(end.error); }
        i := end.value;
        kind := Number(s[start..i]);
      } else if IsIdentStart(s[i]) {
        i := i + 1;
        while i < |s| && IsIdentCont(s[i])
          invariant start < i <= |s| && IdentEnd(s, start + 1) == IdentEnd(s, i)
        {
          i := i + 1;
        }
        kind := Ident(s[start..i]);
      } else if s[i] == '*' && i + 1 < |s| && s[i + 1] == '*' {
        kind := Caret;
        i := i + 2;
      } else {
        var single := SingleCharToken(s[i]);
        if single.None? { return Failure(BadCharacter(start)); }
        kind := single.value;
        i := i + 1;
      }
      assert Scan(s, start) == Found(kind, i);
      PrependStep(s, start, tokens, kind, i);
      tokens := tokens + [Token(kind, start, i)];
      if |tokens| > MAX_TOKEN_COUNT { return Failure(TooManyTokens(start)); }
    }
    LexNothing(s, tokens);
    return Success(tokens);
  }

  /** What the tokens found so far become when the rest is a blank, or cannot be scanned. */
  lemma LexOne(s: string, i: nat, done: seq<Token>)
    requires i < |s|
    ensures Scan(s, i).Blank? ==> Prepend(done, LexFrom(s, i, |done|)) == Prepend(done, LexFrom(s, i + 1, |done|))
    ensures Scan(s, i).Broken? ==> Prepend(done, LexFrom(s, i, |done|)) == Failure(Scan(s, i).error)
  {
    hide Scan;
  }

  lemma LexNothing(s: string, done: seq<Token>)
    ensures Prepend(done, LexFrom(s, |s|, |done|)) == Success(done)
  {
    assert done + [] == done;
  }

  ghost function Prepend(done: seq<Token>, r: Result<seq<Token>, LexError>): Result<seq<Token>, LexError> {
    if r.Success? then Success(done + r.value) else r
  }

  lemma PrependNothing(r: Result<seq<Token>, LexError>)
    ensures Prepend([], r) == r
  {
    if r.Success? { assert [] + r.value == r.value; }
  }

  lemma PrependStep(s: string, i: nat, done: seq<Token>, kind: Kind, j: nat)
    requires i < |s| && Scan(s, i) == Found(kind, j)
    ensures Prepend(done, LexFrom(s, i, |done|)) ==
            if |done| + 1 > MAX_TOKEN_COUNT then Failure(TooManyTokens(i))
            else Prepend(done + [Token(kind, i, j)], LexFrom(s, j, |done| + 1))
  {
    hide Scan;
    var rest := LexFrom(s, j, |done| + 1);
    if rest.Success? {
      assert done + ([Token(kind, i, j)] + rest.value) == (done + [Token(kind, i, j)]) + rest.value;
    }
  }

  // ----- Tokens spell out the source -----

  /** By character code: letters and the underscore, digits, and the four blanks. */
  predicate IsLetter(c: char) {
    65 <= c as int <= 90 || 97 <= c as int <= 122 || c as int == 95
  }

  predicate IsFigure(c: char) {
    48 <= c as int <= 57
  }

  predicate IsSpace(c: char) {
    c as int in {9, 10, 13, 32}
  }

  predicate IsIdentifier(t: string) {
    t != [] && IsLetter(t[0]) && forall k | 0 <= k < |t| :: IsLetter(t[k]) || IsFigure(t[k])
  }

  /** The text is a way to write the token. */
  predicate Spells(text: string, k: Kind) {
    match k
    case Number(t) => text == t && IsNumeral(t)
    case Ident(t) => text == t && IsIdentifier(t)
    case Caret => text == "^" || text == "**"
    case _ => |text| == 1 && SingleCharToken(text[0]) == Some(k)
  }

  predicate AllBlank(s: string, i: nat, j: nat)
    requires i <= j <= |s|
  {
    forall k | i <= k < j :: IsSpace(s[k])
  }

  /** In order and without overlap, the tokens cover everything from i on but blanks. */
  ghost predicate Covers(s: string, i: nat, ts: seq<Token>)
    requires i <= |s|
    decreases |ts|
  {
    if ts == [] then AllBlank(s, i, |s|)
    else
      var t := ts[0];
      && i <= t.start < t.end <= |s|
      && AllBlank(s, i, t.start)
      && Spells(s[t.start..t.end], t.kind)
      && Covers(s, t.end, ts[1..])
  }

  /** A digit run read inside a slice that contains it is the same run. */
  lemma {:induction false} DigitsInSlice(s: string, i: nat, k: nat, j: nat)
    requires i <= k <= j <= |s| && DigitsEnd(s, k) <= j
    ensures DigitsEnd(s[i..j], k - i) == DigitsEnd(s, k) - i
    decreases j - k
  {
    if k < j && IsDigit(s[k]) {
      DigitsInSlice(s, i, k + 1, j);
    }
  }

  lemma MantissaInSlice(s: string, i: nat, j: nat)
    requires i <= j <= |s| && MantissaEnd(s, i) <= j
    ensures MantissaEnd(s[i..j], 0) == MantissaEnd(s, i) - i
  {
    hide DigitsEnd;
    DigitsInSlice(s, i, i, j);
    var a := DigitsEnd(s, i);
    if a < |s| && s[a] == '.' { DigitsInSlice(s, i, a + 1, j); }
  }

  lemma NumeralInSlice(s: string, i: nat)
    requires i < |s| && StartsNumber(s, i) && NumeralEnd(s, i).Success?
    ensures IsNumeral(s[i..NumeralEnd(s, i).value])
  {
    hide DigitsEnd, MantissaEnd;
    var j := NumeralEnd(s, i).value;
    var t := s[i..j];
    var m := MantissaEnd(s, i);
    NumeralLength(s, i);
    MantissaInSlice(s, i, j);
    if m < |s| && (s[m] == 'e' || s[m] == 'E') {
      var d := ExponentStart(s, m);
      DigitsInSlice(s, i, d, j);
      assert ExponentStart(t, m - i) == d - i;
    }
  }

  lemma NumeralLength(s: string, i: nat)
    requires i < |s| && StartsNumber(s, i) && NumeralEnd(s, i).Success?
    ensures NumeralEnd(s, i).value >= MantissaEnd(s, i) >= if s[i] == '.' then i + 2 else i + 1
  {
  }

  lemma ScanSpells(s: string, i: nat)
    requires i < |s| && Scan(s, i).Found?
    ensures var l := Scan(s, i); Spells(s[i..l.end], l.kind)
  {
    hide NumeralEnd;
    if StartsNumber(s, i) {
      NumeralInSlice(s, i);
    } else if IsIdentStart(s[i]) {
      IdentEndAreCont(s, i + 1);
    }
  }

  lemma {:induction false} LexCovers(s: string, i: nat, n: nat, from: nat)
    requires from <= i <= |s| && AllBlank(s, from, i) && LexFrom(s, i, n).Success?
    ensures Covers(s, from, LexFrom(s, i, n).value)
    ensures n + |LexFrom(s, i, n).value| <= if n > MAX_TOKEN_COUNT then n else MAX_TOKEN_COUNT
    decreases |s| - i
  {
    if i < |s| {
      match Scan(s, i)
      case Blank => LexCovers(s, i + 1, n, from);
      case Found(kind, j) =>
        ScanSpells(s, i);
        LexCovers(s, j, n + 1, j);
        var ts := LexFrom(s, i, n).value;
        assert ts[1..] == LexFrom(s, j, n + 1).value;
    }
  }

  /** Whatever tokenizes, its tokens are its text, blanks aside, and there are at most 1000. */
  lemma TokensCoverSource(s: string)
    requires Lex(s).Success?
    ensures Covers(s, 0, Lex(s).value) && |Lex(s).value| <= MAX_TOKEN_COUNT
  {
    LexCovers(s, 0, 0, 0);
  }

  // ----- Writing tokens and reading them back -----

  predicate Writable(k: Kind) {
    match k
    case Number(t) => IsNumeral(t)
    case Ident(t) => IsIdentifier(t)
    case _ => true
  }

  function Write(k: Kind): (t: string) {
    match k
    case Number(text) => text
    case Ident(name) => name
    case Plus => "+"
    case Minus => "-"
    case Star => "*"
    case Slash => "/"
    case Percent => "%"
    case Caret => "^"
    case Bang => "!"
    case LParen => "("
    case RParen => ")"
    case Comma => ","
  }

  /** The tokens separated by blanks. */
  function WriteAll(ks: seq<Kind>): string {
    if ks == [] then [] else Write(ks[0]) + ([' '] + WriteAll(ks[1..]))
  }

  /** s continues at position i with t and then a blank. */
  ghost predicate Continues(s: string, i: nat, t: string) {
    && i + |t| < |s| && s[i + |t|] == ' '
    && forall k | 0 <= k < |t| :: s[i + k] == t[k]
  }

  lemma {:induction false} DigitsInText(s: string, i: nat, t: string, k: nat)
    requires Continues(s, i, t) && k <= |t|
    ensures DigitsEnd(s, i + k) == i + DigitsEnd(t, k)
    decreases |t| - k
  {
    if k < |t| {
      assert s[i + k] == t[k];
      if IsDigit(t[k]) { DigitsInText(s, i, t, k + 1); }
    }
  }

  lemma MantissaInText(s: string, i: nat, t: string)
    requires Continues(s, i, t)
    ensures MantissaEnd(s, i) == i + MantissaEnd(t, 0)
  {
    hide DigitsEnd;
    DigitsInText(s, i, t, 0);
    var a := DigitsEnd(t, 0);
    if a < |t| {
      assert s[i + a] == t[a];
      if t[a] == '.' { DigitsInText(s, i, t, a + 1); }
    }
  }

  lemma NumeralInText(s: string, i: nat, t: string)
    requires Continues(s, i, t) && IsNumeral(t)
    ensures NumeralEnd(s, i) == Success(i + |t|) && StartsNumber(s, i)
  {
    hide DigitsEnd, MantissaEnd;
    MantissaInText(s, i, t);
    var m := MantissaEnd(t, 0);
    if m < |t| {
      assert s[i + m] == t[m];
      var d := ExponentStart(t, m);
      if m + 1 < |t| { assert s[i + (m + 1)] == t[m + 1]; }
      assert ExponentStart(s, i + m) == i + d;
      DigitsInText(s, i, t, d);
    }
    assert s[i + 0] == t[0];
    if |t| > 1 { assert s[i + 1] == t[1]; }
  }

  lemma {:induction false} IdentInText(s: string, i: nat, t: string, k: nat)
    requires Continues(s, i, t) && IsIdentifier(t) && 0 < k <= |t|
    ensures IdentEnd(s, i + k) == i + |t|
    decreases |t| - k
  {
    if k < |t| {
      assert s[i + k] == t[k];
      IdentInText(s, i, t, k + 1);
    }
  }

  lemma ScanWritten(s: string, i: nat, k: Kind)
    requires Writable(k) && Continues(s, i, Write(k))
    ensures Scan(s, i) == Found(k, i + |Write(k)|)
  {
    hide NumeralEnd, IdentEnd;
    var t := Write(k);
    assert s[i + 0] == t[0];
    match k
    case Number(text) =>
      NumeralInText(s, i, t);
      assert s[i..i + |t|] == t;
    case Ident(name) =>
      IdentInText(s, i, t, 1);
      assert s[i..i + |t|] == t;
    case _ =>
  }

  lemma BlankStep(s: string, i: nat, n: nat)
    requires i < |s| && IsBlank(s[i])
    ensures LexFrom(s, i, n) == LexFrom(s, i + 1, n)
  {
  }

  lemma DropMore(s: string, i: nat, n: nat)
    requires i + n <= |s|
    ensures s[i + n..] == s[i..][n..]
  {
  }

  lemma KindsCons(t: Token, ts: seq<Token>)
    ensures Kinds([t] + ts) == [t.kind] + Kinds(ts)
  {
  }

  lemma {:induction false} LexWritten(s: string, i: nat, ks: seq<Kind>, n: nat)
    requires i <= |s| && s[i..] == WriteAll(ks) && (forall k | k in ks :: Writable(k))
    requires n + |ks| <= MAX_TOKEN_COUNT
    ensures LexFrom(s, i, n).Success? && Kinds(LexFrom(s, i, n).value) == ks
    decreases |ks|
  {
    hide Scan, Write;
    if ks == [] {
      assert Kinds([]) == [];
    } else {
      var t := Write(ks[0]);
      var j := i + |t|;
      var w := WriteAll(ks[1..]);
      var line := t + ([' '] + w);
      assert s[i..] == line && line[|t| + 1..] == w;
      assert s[i..][|t|] == ' ';
      forall k | 0 <= k < |t|
        ensures s[i + k] == t[k]
      {
        assert s[i..][k] == t[k];
      }
      ScanWritten(s, i, ks[0]);
      DropMore(s, i, |t| + 1);
      assert s[j + 1..] == line[|t| + 1..];
      LexWritten(s, j + 1, ks[1..], n + 1);
      BlankStep(s, j, n + 1);
      var rest := LexFrom(s, j + 1, n + 1).value;
      assert LexFrom(s, i, n) == Success([Token(ks[0], i, j)] + rest);
      KindsCons(Token(ks[0], i, j), rest);
      assert ks == [ks[0]] + ks[1..];
    }
  }

  /** Any writable token list within the limits is read back unchanged. */
  lemma WrittenTokensReadBack(ks: seq<Kind>)
    requires (forall k | k in ks :: Writable(k)) && |ks| <= MAX_TOKEN_COUNT
    requires |WriteAll(ks)| <= MAX_EXPRESSION_LENGTH
    ensures Lex(WriteAll(ks)).Success? && Kinds(Lex(WriteAll(ks)).value) == ks
  {
    var s := WriteAll(ks);
    assert s[0..] == s;
    LexWritten(s, 0, ks, 0);
  }
}
