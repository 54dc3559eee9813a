/** What a numeral denotes, digit by digit, and that the value given to literals is this one. */
module Numerals {
  import opened Wrappers
  import opened Syntax

  // ----- Numerals by their parts -----

  datatype Exponent = Exponent(letter: char, sign: string, digits: string)

  datatype Parts = Parts(whole: string, point: bool, fraction: string, exponent: Option<Exponent>)

  predicate AllDigits(s: string) {
    forall k | 0 <= k < |s| :: s[k] in {'0', '1', '2', '3', '4', '5', '6', '7', '8', '9'}
  }

  predicate Valid(p: Parts) {
    && AllDigits(p.whole) && AllDigits(p.fraction)
    && (!p.point ==> p.fraction == "")
    && (p.whole == "" ==> p.fraction != "")
    && (p.exponent.Some? ==>
          var e := p.exponent.value;
          e.letter in {'e', 'E'} && e.sign in {"", "+", "-"} && e.digits != "" && AllDigits(e.digits))
  }

  function Spell(p: Parts): string {
    p.whole + (PointPart(p) + ExponentPart(p))
  }

  function PointPart(p: Parts): string {
    if p.point then "." + p.fraction else ""
  }

  function ExponentPart(p: Parts): string {
    if p.exponent.None? then "" else [p.exponent.value.letter] + (p.exponent.value.sign + p.exponent.value.digits)
  }

  // ----- Their value -----

  function DigitOf(c: char): nat {
    match c
    case '0' => 0
    case '1' => 1
    case '2' => 2
    case '3' => 3
    case '4' => 4
    case '5' => 5
    case '6' => 6
    case '7' => 7
    case '8' => 8
    case _ => 9
  }

  function Tens(k: nat): nat {
    if k == 0 then 1 else 10 * Tens(k - 1)
  }

  /** Each digit times the power of ten of its place. */
  function Places(s: string): nat {
    if s == "" then 0 else DigitOf(s[0]) * Tens(|s| - 1) + Places(s[1..])
  }

  /** Tenths, hundredths and so on. */
  function FractionPlaces(s: string): real {
    if s == "" then 0.0 else (DigitOf(s[0]) as real + FractionPlaces(s[1..])) / 10.0
  }

  /** x times ten, or divided by ten, n times. */
  function MovePoint(x: real, n: nat, left: bool): real
    decreases n
  {
    if n == 0 then x else MovePoint(if left then x / 10.0 else x * 10.0, n - 1, left)
  }

  function ValueOf(p: Parts): real {
    var m := Places(p.whole) as real + FractionPlaces(p.fraction);
    if p.exponent.None? then m
    else MovePoint(m, Places(p.exponent.value.digits), p.exponent.value.sign == "-")
  }

  // ----- Place values and the running value agree -----

  lemma DigitIs(c: char)
    requires IsDigit(c)
    ensures DigitOf(c) == c as int - '0' as int
  {
  }

  lemma {:induction false} PlacesSnoc(s: string, c: char)
    ensures Places(s + [c]) == 10 * Places(s) + DigitOf(c)
  {
    if s == "" {
      assert [c][1..] == "" && Places([c]) == DigitOf(c) * Tens(0) + Places("");
    } else {
      PlacesSnoc(s[1..], c);
      assert (s + [c])[0] == s[0] && (s + [c])[1..] == s[1..] + [c];
      TenfoldPlace(DigitOf(s[0]), |s| - 1);
    }
  }

  lemma TenfoldPlace(d: nat, k: nat)
    ensures d * Tens(k + 1) == 10 * (d * Tens(k))
  {
  }

  lemma {:induction false} PlacesAreValue(s: string)
    requires AllDigits(s)
    ensures DigitsValue(s) == Places(s)
  {
    if s != "" {
      var n := |s| - 1;
      PlacesAreValue(s[..n]);
      PlacesSnoc(s[..n], s[n]);
      DigitIs(s[n]);
      assert s == s[..n] + [s[n]];
    }
  }

  lemma {:induction false} TensArePowers(k: nat)
    ensures Tens(k) as real == PowerOf(10.0, k) && Tens(k) > 0
  {
    if k > 0 {
      TensArePowers(k - 1);
    }
  }

  /** f is p tenths, hundredths, ..., one t-th each. */
  ghost predicate IsQuotient(f: real, t: nat, p: nat) {
    f * t as real == p as real
  }

  lemma {:induction false} FractionIsQuotient(s: string)
    ensures IsQuotient(FractionPlaces(s), Tens(|s|), Places(s))
  {
    if s != "" {
      hide FractionPlaces, Tens, Places, IsQuotient;
      FractionIsQuotient(s[1..]);
      FirstPlace(s);
      FractionStep(DigitOf(s[0]), Tens(|s| - 1), FractionPlaces(s[1..]), Places(s[1..]),
                   FractionPlaces(s), Tens(|s|), Places(s));
    }
  }

  lemma FirstPlace(s: string)
    requires s != ""
    ensures FractionPlaces(s) == (DigitOf(s[0]) as real + FractionPlaces(s[1..])) / 10.0
    ensures Places(s) == DigitOf(s[0]) * Tens(|s| - 1) + Places(s[1..]) && Tens(|s|) == 10 * Tens(|s| - 1)
  {
  }

  lemma FractionStep(d: nat, t: nat, f: real, p: nat, f': real, t': nat, p': nat)
    requires IsQuotient(f, t, p) && f' == (d as real + f) / 10.0 && t' == 10 * t && p' == d * t + p
    ensures IsQuotient(f', t', p')
  {
    var u := t as real;
    ProductAsReal(d, t);
    assert t' as real == 10.0 * u && p' as real == d as real * u + f * u;
    assert f' * (10.0 * u) == (d as real + f) * u;
  }

  lemma ProductAsReal(d: nat, t: nat)
    ensures (d * t) as real == d as real * t as real
  {
  }

  lemma {:induction false} MovedByPower(x: real, n: nat, left: bool)
    ensures Positive(10.0, n) > 0.0
    ensures MovePoint(x, n, left) == if left then x / Positive(10.0, n) else x * Positive(10.0, n)
    decreases n
  {
    if n > 0 {
      MovedByPower(if left then x / 10.0 else x * 10.0, n - 1, left);
      MoveStep(x, Positive(10.0, n - 1));
    }
  }

  lemma MoveStep(x: real, p: real)
    requires p > 0.0
    ensures x / 10.0 / p == x / (10.0 * p) && x * 10.0 * p == x * (10.0 * p)
  {
    var q := x / 10.0 / p;
    assert q * p == x / 10.0;
    assert q * (10.0 * p) == x;
  }

  // ----- Scanning a spelled numeral -----

  lemma {:induction false} DigitsEndIs(s: string, i: nat, j: nat)
    requires i <= j <= |s| && (forall k | i <= k < j :: IsDigit(s[k])) && (j < |s| ==> !IsDigit(s[j]))
    ensures DigitsEnd(s, i) == j
    decreases j - i
  {
    if i < j {
      DigitsEndIs(s, i + 1, j);
    }
  }

  /** Where the parts of a spelled numeral lie. */
  lemma ScansParts(p: Parts)
    requires Valid(p)
    ensures var s, w := Spell(p), |p.whole|; var m := w + |PointPart(p)|;
            && DigitsEnd(s, 0) == w && s[..w] == p.whole
            && (p.point <==> w < |s| && s[w] == '.')
            && (p.point ==> DigitsEnd(s, w + 1) == m && s[w + 1..m] == p.fraction)
            && MantissaEnd(s, 0) == m <= |s|
            && (p.exponent.None? <==> m == |s|)
  {
    var s, w := Spell(p), |p.whole|;
    var m := w + |PointPart(p)|;
    if p.point { assert s[w] == PointPart(p)[0] == '.'; }
    if p.exponent.Some? { assert s[m] == ExponentPart(p)[0]; }
    DigitsEndIs(s, 0, w);
    if p.point {
      forall k | w + 1 <= k < m
        ensures IsDigit(s[k])
      {
        assert s[k] == p.fraction[k - w - 1];
      }
      DigitsEndIs(s, w + 1, m);
    }
  }

  lemma Suffix(a: string, b: string)
    ensures (a + b)[|a|..] == b && forall k | 0 <= k < |b| :: (a + b)[|a| + k] == b[k]
  {
  }

  lemma ScansExponent(p: Parts)
    requires Valid(p) && p.exponent.Some?
    ensures var s, e := Spell(p), p.exponent.value; var m := |p.whole| + |PointPart(p)|;
            && m + 1 < |s| && s[m] == e.letter && (s[m + 1] == '-' <==> e.sign == "-")
            && ExponentStart(s, m) == |s| - |e.digits| && DigitsEnd(s, |s| - |e.digits|) == |s|
            && s[|s| - |e.digits|..] == e.digits
  {
    hide DigitsEnd;
    var s, e := Spell(p), p.exponent.value;
    var a := p.whole + PointPart(p);
    assert s == a + ExponentPart(p);
    ExponentPlaces(a, e);
    RunAtEnd(a + [e.letter] + e.sign, e.digits);
  }

  lemma ExponentPlaces(a: string, e: Exponent)
    requires e.sign in {"", "+", "-"} && e.digits != "" && AllDigits(e.digits)
    ensures var s := a + ([e.letter] + (e.sign + e.digits));
            && s == (a + [e.letter] + e.sign) + e.digits
            && s[|a|] == e.letter && s[|a| + 1] == (e.sign + e.digits)[0]
            && (s[|a| + 1] == '-' <==> e.sign == "-")
            && ExponentStart(s, |a|) == |s| - |e.digits|
  {
    Suffix(a, [e.letter] + (e.sign + e.digits));
    assert IsDigit(e.digits[0]);
  }

  lemma RunAtEnd(x: string, digits: string)
    requires AllDigits(digits)
    ensures DigitsEnd(x + digits, |x|) == |x + digits| && (x + digits)[|x|..] == digits
  {
    hide DigitsEnd;
    Suffix(x, digits);
    forall k | |x| <= k < |x + digits|
      ensures IsDigit((x + digits)[k])
    {
      assert (x + digits)[k] == digits[k - |x|];
    }
    DigitsEndIs(x + digits, |x|, |x + digits|);
  }

  lemma FirstCharacter(p: Parts)
    requires Valid(p)
    ensures var s := Spell(p); |s| > 0 && (IsDigit(s[0]) || (s[0] == '.' && |s| > 1 && IsDigit(s[1])))
  {
    var s := Spell(p);
    if p.whole != "" {
      assert s[0] == p.whole[0];
    } else {
      assert PointPart(p)[1] == p.fraction[0];
      assert s[0] == '.' && s[1] == p.fraction[0];
    }
  }

  lemma SpelledIsNumeral(p: Parts)
    requires Valid(p)
    ensures IsNumeral(Spell(p))
  {
    hide DigitsEnd, MantissaEnd, ExponentStart, Spell, AllDigits, PointPart;
    ScansParts(p);
    FirstCharacter(p);
    if p.exponent.Some? { ScansExponent(p); }
  }

  /** The value of a numeral in terms of where its digits were found. */
  lemma ValueFromScan(s: string, whole: string, fraction: string, digits: string, down: bool)
    requires AllDigits(whole) && AllDigits(fraction) && AllDigits(digits)
    requires IsNumeral(s) && DigitRun(s, 0) == whole
    requires var w := DigitsEnd(s, 0); fraction == if w < |s| && s[w] == '.' then DigitRun(s, w + 1) else ""
    requires var m := MantissaEnd(s, 0);
             m < |s| ==> m + 1 < |s| && DigitRun(s, ExponentStart(s, m)) == digits && (s[m + 1] == '-' <==> down)
    ensures var v := Decimal(whole, fraction);
            NumeralValue(s) == if MantissaEnd(s, 0) == |s| then v else Scaled(v, digits, down)
  {
    hide DigitsEnd, MantissaEnd, ExponentStart, IsNumeral, DigitRun, Decimal, Scaled;
  }

  lemma ScannedRuns(p: Parts)
    requires Valid(p)
    ensures var s, w := Spell(p), |p.whole|;
            && DigitRun(s, 0) == p.whole && DigitsEnd(s, 0) == w
            && p.fraction == (if w < |s| && s[w] == '.' then DigitRun(s, w + 1) else "")
            && (MantissaEnd(s, 0) < |s| <==> p.exponent.Some?)
  {
    hide DigitsEnd, MantissaEnd, Spell;
    ScansParts(p);
  }

  lemma ScannedExponent(p: Parts)
    requires Valid(p) && p.exponent.Some?
    ensures var s := Spell(p); var m := MantissaEnd(s, 0);
            && m + 1 < |s| && DigitRun(s, ExponentStart(s, m)) == p.exponent.value.digits
            && (s[m + 1] == '-' <==> p.exponent.value.sign == "-")
  {
    hide DigitsEnd, MantissaEnd, ExponentStart, Spell;
    ScansParts(p);
    ScansExponent(p);
  }

  lemma DecimalIs(whole: string, fraction: string)
    requires AllDigits(whole) && AllDigits(fraction)
    ensures Decimal(whole, fraction) == Places(whole) as real + FractionPlaces(fraction)
  {
    hide Places, FractionPlaces, DigitsValue, Tens, PowerOf;
    PlacesAreValue(whole);
    PlacesAreValue(fraction);
    FractionIsQuotient(fraction);
    TensArePowers(|fraction|);
  }

  lemma ScaledIs(x: real, digits: string, down: bool)
    requires AllDigits(digits)
    ensures Scaled(x, digits, down) == MovePoint(x, Places(digits), down)
  {
    hide Places, DigitsValue, MovePoint;
    PlacesAreValue(digits);
    MovedByPower(x, Places(digits), down);
  }

  /** Spelled from valid parts a numeral is accepted and has the value of its parts. */
  lemma SpelledNumeral(p: Parts)
    requires Valid(p)
    ensures IsNumeral(Spell(p)) && NumeralValue(Spell(p)) == ValueOf(p)
  {
    hide DigitsEnd, MantissaEnd, ExponentStart, IsNumeral, NumeralValue, DigitRun, Spell, Places, FractionPlaces, DigitsValue,
         MovePoint, Decimal, Scaled, AllDigits;
    SpelledIsNumeral(p);
    ScannedRuns(p);
    DecimalIs(p.whole, p.fraction);
    if p.exponent.None? {
      ValueFromScan(Spell(p), p.whole, p.fraction, p.whole, false);
    } else {
      var e := p.exponent.value;
      ScannedExponent(p);
      ValueFromScan(Spell(p), p.whole, p.fraction, e.digits, e.sign == "-");
      ScaledIs(Decimal(p.whole, p.fraction), e.digits, e.sign == "-");
    }
  }

  /** Every numeral is spelled from valid parts. */
  lemma NumeralHasParts(s: string) returns (p: Parts)
    requires IsNumeral(s)
    ensures Valid(p) && Spell(p) == s
  {
    hide DigitsEnd, DigitsValue, MantissaEnd, ExponentStart, Valid, IsNumeral, AllDigits, Spell, PointPart, ExponentPart;
    var w, m := DigitsEnd(s, 0), MantissaEnd(s, 0);
    var d := if m < |s| then ExponentStart(s, m) else m;
    NumeralRuns(s);
    var point := w < |s| && s[w] == '.';
    p := Parts(s[..w], point, if point then s[w + 1..m] else "",
               if m < |s| then Some(Exponent(s[m], s[m + 1..d], s[d..])) else None);
    PartsValid(s, p);
    PointSpelled(s, w, m, p);
    ExponentSpelled(s, m, d, p);
    PiecesJoin(s, w, m, p);
  }

  lemma PointSpelled(s: string, w: nat, m: nat, p: Parts)
    requires w <= m <= |s| && if p.point then w < m && s[w] == '.' && p.fraction == s[w + 1..m] else w == m
    ensures PointPart(p) == s[w..m]
  {
  }

  lemma ExponentSpelled(s: string, m: nat, d: nat, p: Parts)
    requires m <= d <= |s|
    requires if m < |s| then m < d && p.exponent == Some(Exponent(s[m], s[m + 1..d], s[d..])) else p.exponent == None
    ensures ExponentPart(p) == s[m..]
  {
    if m < |s| { ThreeParts(s, m, d); }
  }

  lemma PiecesJoin(s: string, w: nat, m: nat, p: Parts)
    requires w <= m <= |s| && p.whole == s[..w] && PointPart(p) == s[w..m] && ExponentPart(p) == s[m..]
    ensures Spell(p) == s
  {
    hide PointPart, ExponentPart;
    MiddleCut(s, w, m);
    Cut(s, w);
  }

  lemma Cut(s: string, w: nat)
    requires w <= |s|
    ensures s[..w] + s[w..] == s
  {
  }

  lemma MiddleCut(s: string, w: nat, m: nat)
    requires w <= m <= |s|
    ensures s[w..m] + s[m..] == s[w..]
  {
    Cut(s[w..], m - w);
  }

  lemma NumeralRuns(s: string)
    requires IsNumeral(s)
    ensures var w, m := DigitsEnd(s, 0), MantissaEnd(s, 0);
            && AllDigits(s[..w]) && w <= m <= |s|
            && (if w < |s| && s[w] == '.' then w < m && AllDigits(s[w + 1..m]) else w == m)
            && (w == 0 ==> m > 1 && s[0] == '.')
            && (m < |s| ==>
                  var d := ExponentStart(s, m);
                  && s[m] in {'e', 'E'} && m < d < |s| && AllDigits(s[d..]) && s[m + 1..d] in {"", "+", "-"})
  {
    hide DigitsEnd, MantissaEnd, ExponentStart, IsNumeral, AllDigits;
    MantissaRuns(s);
    if DigitsEnd(s, 0) == 0 { DotFirst(s); }
    if MantissaEnd(s, 0) < |s| { ExponentRuns(s); }
  }

  lemma RunIsDigits(s: string, i: nat)
    requires i <= |s|
    ensures AllDigits(s[i..DigitsEnd(s, i)])
  {
    hide DigitsEnd;
    DigitsEndAreDigits(s, i);
    forall k | 0 <= k < DigitsEnd(s, i) - i
      ensures IsDigit(s[i..DigitsEnd(s, i)][k])
    {
      assert s[i..DigitsEnd(s, i)][k] == s[i + k];
    }
  }

  lemma MantissaRuns(s: string)
    ensures var w, m := DigitsEnd(s, 0), MantissaEnd(s, 0);
            && AllDigits(s[..w]) && w <= m <= |s|
            && (if w < |s| && s[w] == '.' then w < m && AllDigits(s[w + 1..m]) else w == m)
  {
    hide DigitsEnd, AllDigits;
    var w := DigitsEnd(s, 0);
    RunIsDigits(s, 0);
    assert s[0..w] == s[..w];
    if w < |s| && s[w] == '.' { RunIsDigits(s, w + 1); }
  }

  lemma ExponentRuns(s: string)
    requires IsNumeral(s) && MantissaEnd(s, 0) < |s|
    ensures var m := MantissaEnd(s, 0); var d := ExponentStart(s, m);
            s[m] in {'e', 'E'} && m < d < |s| && AllDigits(s[d..]) && s[m + 1..d] in {"", "+", "-"}
  {
    hide DigitsEnd, MantissaEnd, AllDigits;
    var m := MantissaEnd(s, 0);
    var d := ExponentStart(s, m);
    RunIsDigits(s, d);
    assert DigitsEnd(s, d) == |s| && s[d..|s|] == s[d..];
    SignPart(s, m);
  }

  lemma SignPart(s: string, m: nat)
    requires m < |s|
    ensures s[m + 1..ExponentStart(s, m)] in {"", "+", "-"}
  {
    var sign := s[m + 1..ExponentStart(s, m)];
    if ExponentStart(s, m) == m + 2 {
      OneLetter(s, m + 1);
      if s[m + 1] == '+' { assert sign == "+"; } else { assert sign == "-"; }
    } else {
      assert sign == "";
    }
  }

  lemma OneLetter(s: string, i: nat)
    requires i < |s|
    ensures s[i..i + 1] == [s[i]]
  {
  }

  lemma PartsValid(s: string, p: Parts)
    requires IsNumeral(s)
    requires var w, m := DigitsEnd(s, 0), MantissaEnd(s, 0);
             && p.whole == s[..w] && p.point == (w < |s| && s[w] == '.') && w <= m
             && p.fraction == (if p.point && w < m then s[w + 1..m] else "")
             && (if m == |s| then p.exponent == None
                 else p.exponent == Some(Exponent(s[m], s[m + 1..ExponentStart(s, m)], s[ExponentStart(s, m)..])))
    ensures Valid(p)
  {
    hide DigitsEnd, MantissaEnd, ExponentStart, IsNumeral;
    NumeralRuns(s);
  }

  lemma ThreeParts(s: string, m: nat, d: nat)
    requires m < d <= |s|
    ensures s[m..] == [s[m]] + (s[m + 1..d] + s[d..])
  {
  }

  lemma DotFirst(s: string)
    requires IsNumeral(s) && DigitsEnd(s, 0) == 0
    ensures s[0] == '.' && MantissaEnd(s, 0) > 1
  {
  }

  /** The number a text denotes: the value of the parts it is spelled from. */
  ghost function Denoted(s: string): real {
    if exists p: Parts :: Valid(p) && Spell(p) == s then
      var p: Parts :| Valid(p) && Spell(p) == s;
      ValueOf(p)
    else 0.0
  }

  /** A literal has a value iff it is a numeral below the overflow bound, and then the number its
      digits denote. */
  lemma LiteralDenotes(s: string)
    ensures LiteralValue(s).Some? <==> IsNumeral(s) && Denoted(s) < OverflowBound()
    ensures LiteralValue(s).Some? ==> LiteralValue(s).value == Denoted(s)
  {
    hide NumeralValue, IsNumeral, ValueOf, Spell, Valid, OverflowBound;
    if IsNumeral(s) {
      var p0 := NumeralHasParts(s);
      assert exists p: Parts :: Valid(p) && Spell(p) == s;
      var p: Parts :| Valid(p) && Spell(p) == s && Denoted(s) == ValueOf(p);
      SpelledNumeral(p);
    }
  }

  /** The bound is halfway between the largest double and the next power of two. */
  lemma OverflowIsMidpoint()
    ensures 2.0 * OverflowBound() == (PowerOf(2.0, 53) - 1.0) * PowerOf(2.0, 971) + PowerOf(2.0, 1024)
  {
    hide PowerOf;
    TwoPower(970);
    TwoPowers(53, 971);
  }

  lemma TwoPower(n: nat)
    ensures PowerOf(2.0, n + 1) == 2.0 * PowerOf(2.0, n)
  {
  }

  lemma {:induction false} TwoPowers(m: nat, n: nat)
    ensures PowerOf(2.0, m + n) == PowerOf(2.0, m) * PowerOf(2.0, n)
  {
    if m > 0 {
      TwoPowers(m - 1, n);
    }
  }
}
