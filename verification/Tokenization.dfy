/** Exactly which token lists a source has, and exactly which error is reported where: the longest
    token at every position, and nothing but blanks between. */
module Tokenization {
  import opened Wrappers
  import opened Syntax
  import opened Parser
  import opened Tokenizer

  // ----- Longest tokens -----

  ghost predicate SpellsSome(text: string) {
    exists k: Kind :: Spells(text, k)
  }

  /** No token text that starts at i ends after j. */
  ghost predicate NothingLonger(s: string, i: nat, j: nat)
    requires i <= j <= |s|
  {
    forall m | j < m <= |s| :: !SpellsSome(s[i..m])
  }

  predicate ExponentLetter(c: char) {
    c == 'e' || c == 'E'
  }

  /** A numeral without exponent that an exponent letter follows: what comes is no exponent. */
  predicate Dangling(s: string, i: nat, j: nat)
    requires i <= j <= |s|
  {
    j < |s| && ExponentLetter(s[j]) && forall k | i <= k < j :: !ExponentLetter(s[k])
  }

  ghost predicate IsLexeme(s: string, t: Token) {
    && t.start < t.end <= |s| && Spells(s[t.start..t.end], t.kind)
    && NothingLonger(s, t.start, t.end) && (t.kind.Number? ==> !Dangling(s, t.start, t.end))
  }

  /** The tokens lie between i and j, each the longest, and only blanks lie beside them. */
  ghost predicate TokenizesTo(s: string, i: nat, j: nat, ts: seq<Token>)
    requires i <= j <= |s|
    decreases |ts|
  {
    if ts == [] then AllBlank(s, i, j)
    else
      var t := ts[0];
      && i <= t.start < t.end <= j && AllBlank(s, i, t.start) && IsLexeme(s, t)
      && TokenizesTo(s, t.end, j, ts[1..])
  }

  // ----- Numerals in their surroundings -----

  /** A digit run read to the end of a piece may go on after it; one that ends inside is the same. */
  lemma {:induction false} DigitsInPiece(s: string, i: nat, j: nat, k: nat)
    requires i <= j <= |s| && k <= j - i
    ensures var e := DigitsEnd(s[i..j], k); DigitsEnd(s, i + k) >= i + e && (e < j - i ==> DigitsEnd(s, i + k) == i + e)
    decreases j - i - k
  {
    var t := s[i..j];
    if k < |t| {
      assert t[k] == s[i + k];
      if IsDigit(t[k]) { DigitsInPiece(s, i, j, k + 1); }
    }
  }

  lemma MantissaInPiece(s: string, i: nat, j: nat)
    requires i <= j <= |s|
    ensures var e := MantissaEnd(s[i..j], 0); MantissaEnd(s, i) >= i + e && (e < j - i ==> MantissaEnd(s, i) == i + e)
  {
    hide DigitsEnd;
    var t := s[i..j];
    DigitsInPiece(s, i, j, 0);
    var a := DigitsEnd(t, 0);
    if a < |t| {
      assert t[a] == s[i + a];
      if t[a] == '.' { DigitsInPiece(s, i, j, a + 1); }
    }
  }

  /** A numeral that starts at i is part of the one the scanner finds. */
  lemma NumeralInPiece(s: string, i: nat, j: nat)
    requires i < j <= |s| && IsNumeral(s[i..j])
    ensures StartsNumber(s, i)
    ensures match NumeralEnd(s, i) case Success(e) => e >= j case Failure(m) => m >= j
  {
    hide DigitsEnd, MantissaEnd;
    var t := s[i..j];
    assert t[0] == s[i];
    if |t| > 1 { assert t[1] == s[i + 1]; }
    MantissaInPiece(s, i, j);
    var m := MantissaEnd(t, 0);
    if m < |t| {
      assert t[m] == s[i + m];
      if m + 1 < |t| { assert t[m + 1] == s[i + m + 1]; }
      var d := ExponentStart(t, m);
      assert ExponentStart(s, i + m) == i + d;
      DigitsInPiece(s, i, j, d);
    }
  }

  lemma {:induction false} RunHasDigits(s: string, i: nat)
    requires i <= |s|
    ensures forall k | i <= k < DigitsEnd(s, i) :: IsDigit(s[k])
    ensures DigitsEnd(s, i) < |s| ==> !IsDigit(s[DigitsEnd(s, i)])
  {
    DigitsEndAreDigits(s, i);
  }

  lemma MantissaHasNoLetter(s: string, i: nat)
    requires i <= |s|
    ensures forall k | i <= k < MantissaEnd(s, i) :: !ExponentLetter(s[k])
  {
    hide DigitsEnd;
    RunHasDigits(s, i);
    var a := DigitsEnd(s, i);
    if a < |s| && s[a] == '.' { RunHasDigits(s, a + 1); }
  }

  /** What the scanner finds of a numeral: never left dangling; when it fails, the mantissa is a
      numeral that is. */
  lemma NumeralOutcome(s: string, i: nat)
    requires i < |s| && StartsNumber(s, i)
    ensures match NumeralEnd(s, i)
      case Success(e) => i < e <= |s| && IsNumeral(s[i..e]) && !Dangling(s, i, e)
      case Failure(m) => i < m < |s| && IsNumeral(s[i..m]) && Dangling(s, i, m)
  {
    hide DigitsEnd, MantissaEnd;
    NumeralAdvances(s, i);
    MantissaHasNoLetter(s, i);
    var m := MantissaEnd(s, i);
    match NumeralEnd(s, i)
    case Success(e) =>
      NumeralInSlice(s, i);
      NumeralLength(s, i);
      if m < |s| && ExponentLetter(s[m]) { assert i <= m < e; }
    case Failure(_) => MantissaIsNumeral(s, i);
  }

  lemma MantissaIsNumeral(s: string, i: nat)
    requires i < |s| && StartsNumber(s, i)
    ensures MantissaEnd(s, i) > i && IsNumeral(s[i..MantissaEnd(s, i)])
  {
    hide DigitsEnd;
    NumeralAdvances(s, i);
    var m := MantissaEnd(s, i);
    MantissaInSlice(s, i, m);
    if !IsDigit(s[i]) { PointThenDigit(s, i); }
    assert s[i..m][0] == s[i];
  }

  lemma PointThenDigit(s: string, i: nat)
    requires i < |s| && StartsNumber(s, i) && !IsDigit(s[i])
    ensures MantissaEnd(s, i) >= i + 2
  {
  }

  // ----- The scanner finds exactly the longest token -----

  lemma {:induction false} IdentInPiece(s: string, i: nat, j: nat, k: nat)
    requires i < k <= j <= |s| && forall m | i <= m < j :: IsIdentCont(s[m])
    ensures IdentEnd(s, k) >= j
    decreases j - k
  {
    if k < j {
      IdentInPiece(s, i, j, k + 1);
    }
  }

  /** Any token text that starts at i is covered by what is scanned there. */
  lemma ScanCovers(s: string, i: nat, j: nat, k: Kind)
    requires i < j <= |s| && Spells(s[i..j], k)
    ensures match Scan(s, i)
      case Blank => false
      case Found(_, e) => e >= j
      case Broken(error) => k.Number? && error.MalformedNumber? && j <= error.at
  {
    hide NumeralEnd, IdentEnd;
    var t := s[i..j];
    assert t[0] == s[i];
    match k
    case Number(_) => NumeralInPiece(s, i, j);
    case Ident(_) =>
      forall m | i <= m < j
        ensures IsIdentCont(s[m])
      {
        assert t[m - i] == s[m];
      }
      IdentInPiece(s, i, j, i + 1);
    case Caret =>
      if |t| == 2 { assert t[1] == s[i + 1]; }
    case _ =>
  }

  /** A text is the text of one token at most. */
  lemma SpellsOne(text: string, k: Kind, k': Kind)
    requires Spells(text, k) && Spells(text, k')
    ensures k == k'
  {
    hide NumeralEnd;
  }

  lemma ScanFindsLexeme(s: string, i: nat)
    requires i < |s| && Scan(s, i).Found?
    ensures IsLexeme(s, Token(Scan(s, i).kind, i, Scan(s, i).end))
  {
    hide Scan, Spells;
    ScanSpells(s, i);
    var l := Scan(s, i);
    forall m | l.end < m <= |s|
      ensures !SpellsSome(s[i..m])
    {
      if SpellsSome(s[i..m]) {
        var k: Kind :| Spells(s[i..m], k);
        ScanCovers(s, i, m, k);
      }
    }
    ScannedNumberStands(s, i);
  }

  lemma ScannedNumberStands(s: string, i: nat)
    requires i < |s| && Scan(s, i).Found?
    ensures Scan(s, i).kind.Number? ==> !Dangling(s, i, Scan(s, i).end)
  {
    hide NumeralEnd, IdentEnd;
    if StartsNumber(s, i) { NumeralOutcome(s, i); }
  }

  /** A scan that fails: no token starts here, or the longest one is a numeral left dangling. */
  ghost predicate BrokenAt(s: string, i: nat, e: LexError)
    requires i < |s|
  {
    match e
    case BadCharacter(at) => at == i && !IsSpace(s[i]) && NothingLonger(s, i, i)
    case MalformedNumber(at) => i < at < |s| && IsNumeral(s[i..at]) && NothingLonger(s, i, at) && Dangling(s, i, at)
    case _ => false
  }

  lemma ScanBreaksAt(s: string, i: nat)
    requires i < |s| && Scan(s, i).Broken?
    ensures BrokenAt(s, i, Scan(s, i).error)
  {
    hide Scan, Spells, IsNumeral;
    var e := Scan(s, i).error;
    BrokenScan(s, i);
    var from := if e.BadCharacter? then i else e.at;
    forall m | from < m <= |s|
      ensures !SpellsSome(s[i..m])
    {
      if SpellsSome(s[i..m]) {
        var k: Kind :| Spells(s[i..m], k);
        ScanCovers(s, i, m, k);
      }
    }
  }

  lemma BrokenScan(s: string, i: nat)
    requires i < |s| && Scan(s, i).Broken?
    ensures match Scan(s, i).error
      case BadCharacter(at) => at == i && !IsBlank(s[i])
      case MalformedNumber(at) => i < at < |s| && IsNumeral(s[i..at]) && Dangling(s, i, at)
      case _ => false
  {
    hide NumeralEnd, IdentEnd, IsNumeral;
    if StartsNumber(s, i) { NumeralOutcome(s, i); }
  }

  lemma LexemeScanned(s: string, t: Token)
    requires IsLexeme(s, t)
    ensures Scan(s, t.start) == Found(t.kind, t.end)
  {
    hide Scan, Spells, IsNumeral;
    var i, j := t.start, t.end;
    ScanCovers(s, i, j, t.kind);
    match Scan(s, i)
    case Found(k, e) =>
      ScanSpells(s, i);
      assert SpellsSome(s[i..e]);
      SpellsOne(s[i..j], t.kind, k);
    case Broken(error) =>
      BrokenScan(s, i);
      NumeralSpells(s[i..error.at]);
      assert false;
    case Blank =>
  }

  lemma NumeralSpells(text: string)
    requires IsNumeral(text)
    ensures SpellsSome(text)
  {
    assert Spells(text, Number(text));
  }

  // ----- The tokenizer decides -----

  lemma SkipBlank(s: string, i: nat, j: nat, ts: seq<Token>)
    requires i < j <= |s| && IsBlank(s[i])
    ensures TokenizesTo(s, i, j, ts) <==> TokenizesTo(s, i + 1, j, ts)
  {
    hide Spells, NothingLonger, Dangling;
    if ts != [] && i <= ts[0].start < ts[0].end <= j && IsLexeme(s, ts[0]) && ts[0].start == i {
      hide Scan;
      BlankScanned(s, i);
      LexemeScanned(s, ts[0]);
    }
  }

  lemma BlankScanned(s: string, i: nat)
    requires i < |s|
    ensures Scan(s, i).Blank? <==> IsBlank(s[i])
  {
    hide NumeralEnd, IdentEnd;
  }

  /** At a position that is not blank the first token starts, if any. */
  lemma FirstToken(s: string, i: nat, j: nat, ts: seq<Token>)
    requires i < j <= |s| && !IsBlank(s[i])
    ensures TokenizesTo(s, i, j, ts) <==>
              ts != [] && ts[0].start == i && ts[0].end <= j && IsLexeme(s, ts[0]) && TokenizesTo(s, ts[0].end, j, ts[1..])
  {
    hide Spells, NothingLonger, Dangling;
  }

  lemma {:induction false} LexFromIff(s: string, i: nat, n: nat, ts: seq<Token>)
    requires i <= |s| && n <= MAX_TOKEN_COUNT
    ensures LexFrom(s, i, n) == Success(ts) <==> TokenizesTo(s, i, |s|, ts) && n + |ts| <= MAX_TOKEN_COUNT
    decreases |s| - i
  {
    hide Scan, IsLexeme, TokenizesTo;
    if i == |s| {
      AtEnd(s, ts);
    } else {
      BlankScanned(s, i);
      match Scan(s, i)
      case Blank =>
        LexFromIff(s, i + 1, n, ts);
        SkipBlank(s, i, |s|, ts);
      case Broken(e) =>
        FirstToken(s, i, |s|, ts);
        if ts != [] && IsLexeme(s, ts[0]) { LexemeScanned(s, ts[0]); }
      case Found(kind, j) =>
        FirstToken(s, i, |s|, ts);
        ScanFindsLexeme(s, i);
        if ts != [] && ts[0].start == i && IsLexeme(s, ts[0]) { LexemeScanned(s, ts[0]); }
        if n < MAX_TOKEN_COUNT && ts != [] {
          LexFromIff(s, j, n + 1, ts[1..]);
          LexCons(s, i, n, ts, kind, j);
        }
    }
  }

  lemma AtEnd(s: string, ts: seq<Token>)
    ensures TokenizesTo(s, |s|, |s|, ts) <==> ts == []
  {
  }

  lemma LexCons(s: string, i: nat, n: nat, ts: seq<Token>, kind: Kind, j: nat)
    requires i < |s| && Scan(s, i) == Found(kind, j) && n < MAX_TOKEN_COUNT && ts != []
    ensures LexFrom(s, i, n) == Success(ts) <==> ts[0] == Token(kind, i, j) && LexFrom(s, j, n + 1) == Success(ts[1..])
  {
    hide Scan;
    var rest := LexFrom(s, j, n + 1);
    if rest.Success? {
      assert ([Token(kind, i, j)] + rest.value)[1..] == rest.value;
      assert ts == [ts[0]] + ts[1..];
    }
  }

  /** A source tokenizes into these tokens iff it is short enough, there are at most 1000 of them,
      and they are the longest ones from left to right with only blanks between. */
  lemma TokenizerDecides(s: string, ts: seq<Token>)
    ensures Lex(s) == Success(ts) <==>
              |s| <= MAX_EXPRESSION_LENGTH && |ts| <= MAX_TOKEN_COUNT && TokenizesTo(s, 0, |s|, ts)
  {
    hide LexFrom, TokenizesTo;
    LexFromIff(s, 0, 0, ts);
  }

  // ----- Where the tokenizer fails, and how -----

  /** The first p characters tokenize, and at p comes one token too many or none. */
  ghost predicate StopsAt(s: string, i: nat, n: nat, p: nat, ts: seq<Token>, e: LexError) {
    && i <= p < |s| && TokenizesTo(s, i, p, ts) && n + |ts| <= MAX_TOKEN_COUNT
    && if e.TooManyTokens? then
         e.at == p && n + |ts| == MAX_TOKEN_COUNT && exists t: Token :: t.start == p && IsLexeme(s, t)
       else BrokenAt(s, p, e)
  }

  lemma {:induction false} LexFailsAt(s: string, i: nat, n: nat) returns (p: nat, ts: seq<Token>)
    requires i <= |s| && n <= MAX_TOKEN_COUNT && LexFrom(s, i, n).Failure?
    ensures StopsAt(s, i, n, p, ts, LexFrom(s, i, n).error)
    decreases |s| - i
  {
    hide Scan, IsLexeme, TokenizesTo, BrokenAt;
    BlankScanned(s, i);
    match Scan(s, i)
    case Blank =>
      p, ts := LexFailsAt(s, i + 1, n);
      SkipBlank(s, i, p, ts);
    case Broken(e) =>
      p, ts := i, [];
      NothingYet(s, i);
      ScanBreaksAt(s, i);
      NotTooMany(s, i, e);
    case Found(kind, j) =>
      ScanFindsLexeme(s, i);
      var t := Token(kind, i, j);
      if n == MAX_TOKEN_COUNT {
        p, ts := i, [];
        NothingYet(s, i);
        assert t.start == i && IsLexeme(s, t);
      } else {
        var q, rest := LexFailsAt(s, j, n + 1);
        p, ts := q, [t] + rest;
        assert ts[1..] == rest;
        FirstToken(s, i, p, ts);
      }
  }

  lemma NothingYet(s: string, i: nat)
    requires i <= |s|
    ensures TokenizesTo(s, i, i, [])
  {
  }

  lemma NotTooMany(s: string, i: nat, e: LexError)
    requires i < |s| && BrokenAt(s, i, e)
    ensures !e.TooManyTokens? && !e.TooLong?
  {
  }

  /** Every failure is reported where it is: after a stretch that tokenizes, one token more than
      1000, a character at which no token starts, or a numeral whose exponent has no digits. */
  lemma TokenizerFailsAt(s: string) returns (p: nat, ts: seq<Token>)
    requires Lex(s).Failure?
    ensures Lex(s).error.TooLong? <==> |s| > MAX_EXPRESSION_LENGTH
    ensures !Lex(s).error.TooLong? ==> StopsAt(s, 0, 0, p, ts, Lex(s).error)
  {
    if |s| > MAX_EXPRESSION_LENGTH {
      p, ts := 0, [];
    } else {
      hide LexFrom, TokenizesTo;
      p, ts := LexFailsAt(s, 0, 0);
      StopsNotTooLong(s, p, ts, Lex(s).error);
    }
  }

  lemma StopsNotTooLong(s: string, p: nat, ts: seq<Token>, e: LexError)
    requires StopsAt(s, 0, 0, p, ts, e)
    ensures !e.TooLong?
  {
  }
}
