/** Adaptive integration and the difference-quotient derivative, over exact reals. */
module Calculus {
  import opened Arithmetic
  import opened Syntax
  import opened Polynomials

  const ADAPT_DEPTH_LIMIT: nat := 24

  function Abs(x: real): (a: real)
    ensures a >= 0.0 && (a == x || a == -x)
  {
    if x < 0.0 then -x else x
  }

  // ----- The algorithm -----

  datatype Estimate = Estimate(value: real, error: real)

  function Simpson(fa: real, fc: real, fb: real, width: real): real {
    (width / 6.0) * (fa + 4.0 * fc + fb)
  }

  function Midpoint(lo: real, hi: real): real {
    (lo + hi) / 2.0
  }

  /** What is known about an interval before it is split: the three samples and Simpson's value. */
  datatype Span = Span(lo: real, hi: real, fa: real, fc: real, fb: real, whole: real)

  function Left(f: real -> real, s: Span): Span {
    var c := Midpoint(s.lo, s.hi);
    var fd := f(Midpoint(s.lo, c));
    Span(s.lo, c, s.fa, fd, s.fc, Simpson(s.fa, fd, s.fc, c - s.lo))
  }

  function Right(f: real -> real, s: Span): Span {
    var c := Midpoint(s.lo, s.hi);
    var fe := f(Midpoint(c, s.hi));
    Span(c, s.hi, s.fc, fe, s.fb, Simpson(s.fc, fe, s.fb, s.hi - c))
  }

  /** The value and error of an interval that is not split further. */
  function LeafEstimate(f: real -> real, s: Span): Estimate {
    var both := Left(f, s).whole + Right(f, s).whole;
    Estimate(both + (both - s.whole) / 15.0, Abs(both - s.whole) / 15.0)
  }

  predicate Accept(f: real -> real, s: Span, tol: real, depth: nat) {
    depth >= ADAPT_DEPTH_LIMIT || LeafEstimate(f, s).error < tol
  }

  function Adapt(f: real -> real, s: Span, tol: real, depth: nat): Estimate
    decreases ADAPT_DEPTH_LIMIT - depth
  {
    if Accept(f, s, tol, depth) then LeafEstimate(f, s)
    else
      var l := Adapt(f, Left(f, s), tol / 2.0, depth + 1);
      var r := Adapt(f, Right(f, s), tol / 2.0, depth + 1);
      Estimate(l.value + r.value, l.error + r.error)
  }

  function StartSpan(f: real -> real, lo: real, hi: real): Span {
    var fa, fb, fc := f(lo), f(hi), f(Midpoint(lo, hi));
    Span(lo, hi, fa, fc, fb, Simpson(fa, fc, fb, hi - lo))
  }

  function Integrate(f: real -> real, a: real, b: real, tol: real): Estimate {
    if a == b then Estimate(0.0, 0.0)
    else
      var lo, hi := if a < b then a else b, if a < b then b else a;
      var e := Adapt(f, StartSpan(f, lo, hi), tol, 0);
      Estimate(if a < b then e.value else -e.value, e.error)
  }

  // ----- The leaves of a run -----

  datatype Leaf = Leaf(lo: real, hi: real, tol: real, depth: nat, value: real, error: real)

  ghost function Leaves(f: real -> real, s: Span, tol: real, depth: nat): (ls: seq<Leaf>)
    requires depth <= ADAPT_DEPTH_LIMIT
    ensures ls != []
    decreases ADAPT_DEPTH_LIMIT - depth
  {
    if Accept(f, s, tol, depth) then
      var e := LeafEstimate(f, s);
      [Leaf(s.lo, s.hi, tol, depth, e.value, e.error)]
    else
      Leaves(f, Left(f, s), tol / 2.0, depth + 1) + Leaves(f, Right(f, s), tol / 2.0, depth + 1)
  }

  /** The leaves cover [lo, hi] from left to right without gap or overlap. */
  ghost predicate Tiles(ls: seq<Leaf>, lo: real, hi: real) {
    if ls == [] then lo == hi
    else ls[0].lo == lo && ls[0].lo < ls[0].hi && Tiles(ls[1..], ls[0].hi, hi)
  }

  ghost function Total(ls: seq<Leaf>, part: Leaf -> real): real {
    if ls == [] then 0.0 else part(ls[0]) + Total(ls[1..], part)
  }

  lemma {:induction false} TilesAppend(ls: seq<Leaf>, rs: seq<Leaf>, lo: real, mid: real, hi: real)
    requires Tiles(ls, lo, mid) && Tiles(rs, mid, hi)
    ensures Tiles(ls + rs, lo, hi)
  {
    if ls == [] {
      assert ls + rs == rs;
    } else {
      TilesAppend(ls[1..], rs, ls[0].hi, mid, hi);
      assert (ls + rs)[1..] == ls[1..] + rs;
    }
  }

  lemma {:induction false} TotalAppend(ls: seq<Leaf>, rs: seq<Leaf>, part: Leaf -> real)
    ensures Total(ls + rs, part) == Total(ls, part) + Total(rs, part)
  {
    if ls == [] {
      assert ls + rs == rs;
    } else {
      TotalAppend(ls[1..], rs, part);
      assert (ls + rs)[1..] == ls[1..] + rs;
    }
  }

  const TolOf: Leaf -> real := (l: Leaf) => l.tol
  const ValueOf: Leaf -> real := (l: Leaf) => l.value
  const ErrorOf: Leaf -> real := (l: Leaf) => l.error

  /** For any integrand: the leaves tile the interval, their tolerances add up to the one
      requested, and values and error estimates are the sums over the leaves. */
  lemma {:induction false} LeavesAccount(f: real -> real, s: Span, tol: real, depth: nat)
    requires depth <= ADAPT_DEPTH_LIMIT && s.lo < s.hi
    ensures var ls := Leaves(f, s, tol, depth); var e := Adapt(f, s, tol, depth);
            && Tiles(ls, s.lo, s.hi) && Total(ls, TolOf) == tol
            && Total(ls, ValueOf) == e.value && Total(ls, ErrorOf) == e.error
    decreases ADAPT_DEPTH_LIMIT - depth
  {
    hide Left, Right, LeafEstimate, Total;
    if Accept(f, s, tol, depth) {
      var e := LeafEstimate(f, s);
      SingleLeaf(Leaf(s.lo, s.hi, tol, depth, e.value, e.error));
    } else {
      HalvesMeet(f, s);
      var l, r := Left(f, s), Right(f, s);
      LeavesAccount(f, l, tol / 2.0, depth + 1);
      LeavesAccount(f, r, tol / 2.0, depth + 1);
      var p, q := Leaves(f, l, tol / 2.0, depth + 1), Leaves(f, r, tol / 2.0, depth + 1);
      TilesAppend(p, q, s.lo, l.hi, s.hi);
      TotalAppend(p, q, TolOf);
      TotalAppend(p, q, ValueOf);
      TotalAppend(p, q, ErrorOf);
    }
  }

  lemma SingleLeaf(l: Leaf)
    requires l.lo < l.hi
    ensures Tiles([l], l.lo, l.hi) && forall part: Leaf -> real :: Total([l], part) == part(l)
  {
    assert [l][1..] == [];
  }

  lemma HalvesJoin(f: real -> real, s: Span)
    ensures var l, r := Left(f, s), Right(f, s);
            l.lo == s.lo && l.hi == r.lo && r.hi == s.hi
  {
  }

  lemma HalvesMeet(f: real -> real, s: Span)
    requires s.lo < s.hi
    ensures var l, r := Left(f, s), Right(f, s);
            l.lo == s.lo < l.hi == r.lo < r.hi == s.hi
  {
  }

  ghost predicate LeafConverged(l: Leaf) {
    l.error < l.tol
  }

  lemma {:induction false} LeavesStopReason(f: real -> real, s: Span, tol: real, depth: nat)
    requires depth <= ADAPT_DEPTH_LIMIT
    ensures forall l | l in Leaves(f, s, tol, depth) ::
              depth <= l.depth <= ADAPT_DEPTH_LIMIT && (l.depth == ADAPT_DEPTH_LIMIT || LeafConverged(l))
    decreases ADAPT_DEPTH_LIMIT - depth
  {
    if !Accept(f, s, tol, depth) {
      LeavesStopReason(f, Left(f, s), tol / 2.0, depth + 1);
      LeavesStopReason(f, Right(f, s), tol / 2.0, depth + 1);
    }
  }

  lemma {:induction false} TotalBelow(ls: seq<Leaf>)
    requires ls != [] && forall l | l in ls :: LeafConverged(l)
    ensures Total(ls, ErrorOf) < Total(ls, TolOf)
  {
    assert LeafConverged(ls[0]);
    if |ls| > 1 {
      TotalBelow(ls[1..]);
    } else {
      assert ls[1..] == [];
    }
  }

  /** Unless some leaf was cut off at depth 24 without converging, the reported error is
      strictly below the requested tolerance. */
  lemma ErrorBelowTolerance(f: real -> real, a: real, b: real, tol: real)
    requires a != b
    requires var lo, hi := if a < b then a else b, if a < b then b else a;
             forall l | l in Leaves(f, StartSpan(f, lo, hi), tol, 0) && l.depth == ADAPT_DEPTH_LIMIT :: LeafConverged(l)
    ensures Integrate(f, a, b, tol).error < tol
  {
    var lo, hi := if a < b then a else b, if a < b then b else a;
    var s := StartSpan(f, lo, hi);
    LeavesAccount(f, s, tol, 0);
    LeavesStopReason(f, s, tol, 0);
    TotalBelow(Leaves(f, s, tol, 0));
  }

  // ----- Each leaf is Boole's rule -----

  /** The samples stored in a span are the ones of f. */
  ghost predicate Sampled(f: real -> real, s: Span) {
    s == StartSpan(f, s.lo, s.hi)
  }

  lemma HalvesSampled(f: real -> real, s: Span)
    requires Sampled(f, s)
    ensures Sampled(f, Left(f, s)) && Sampled(f, Right(f, s))
  {
  }

  function Boole(f: real -> real, lo: real, hi: real): real {
    var c := Midpoint(lo, hi);
    BooleSum(hi - lo, f(lo), f(Midpoint(lo, c)), f(c), f(Midpoint(c, hi)), f(hi))
  }

  function BooleSum(w: real, v0: real, v1: real, v2: real, v3: real, v4: real): real {
    (w / 90.0) * (7.0 * v0 + 32.0 * v1 + 12.0 * v2 + 32.0 * v3 + 7.0 * v4)
  }

  lemma LeafIsBoole(f: real -> real, s: Span)
    requires Sampled(f, s)
    ensures LeafEstimate(f, s).value == Boole(f, s.lo, s.hi)
  {
    var c := Midpoint(s.lo, s.hi);
    BooleWeights(s.hi - s.lo, c - s.lo, s.hi - c, s.fa, f(Midpoint(s.lo, c)), s.fc, f(Midpoint(c, s.hi)), s.fb);
  }

  lemma BooleWeights(w: real, l: real, r: real, f0: real, f1: real, f2: real, f3: real, f4: real)
    requires l == w / 2.0 == r
    ensures var both := Simpson(f0, f1, f2, l) + Simpson(f2, f3, f4, r);
            both + (both - Simpson(f0, f2, f4, w)) / 15.0
            == BooleSum(w, f0, f1, f2, f3, f4)
  {
  }

  /** Simpson's rule on both halves. */
  function Composite(f: real -> real, lo: real, hi: real): real {
    var c := Midpoint(lo, hi);
    CompositeSum(hi - lo, f(lo), f(Midpoint(lo, c)), f(c), f(Midpoint(c, hi)), f(hi))
  }

  function CompositeSum(w: real, v0: real, v1: real, v2: real, v3: real, v4: real): real {
    (w / 12.0) * (v0 + 4.0 * v1 + 2.0 * v2 + 4.0 * v3 + v4)
  }

  /** The error estimate is how far the correction moved the value. */
  lemma LeafErrorIsCorrection(f: real -> real, s: Span)
    requires Sampled(f, s)
    ensures LeafEstimate(f, s).error == Abs(Boole(f, s.lo, s.hi) - Composite(f, s.lo, s.hi))
  {
    hide Boole;
    LeafIsBoole(f, s);
    var c := Midpoint(s.lo, s.hi);
    CompositeWeights(s.hi - s.lo, c - s.lo, s.hi - c, s.fa, f(Midpoint(s.lo, c)), s.fc, f(Midpoint(c, s.hi)), s.fb);
    var both := Left(f, s).whole + Right(f, s).whole;
    AbsQuotient(both - s.whole);
  }

  lemma CompositeWeights(w: real, l: real, r: real, f0: real, f1: real, f2: real, f3: real, f4: real)
    requires l == w / 2.0 == r
    ensures Simpson(f0, f1, f2, l) + Simpson(f2, f3, f4, r) == CompositeSum(w, f0, f1, f2, f3, f4)
  {
  }

  lemma AbsQuotient(d: real)
    ensures Abs(d) / 15.0 == Abs(d / 15.0)
  {
  }

  /** A half of [lo, hi], whose own error estimate was not below its tolerance. */
  ghost predicate HalfOf(f: real -> real, l: Leaf, lo: real, hi: real) {
    && ((l.lo == lo && l.hi == Midpoint(lo, hi)) || (l.lo == Midpoint(lo, hi) && l.hi == hi))
    && Abs(Boole(f, lo, hi) - Composite(f, lo, hi)) >= 2.0 * l.tol
  }

  /** Every leaf carries Boole's value and the size of its correction, and was split off only from
      an interval whose correction was too large. */
  lemma {:induction false} LeavesNeeded(f: real -> real, s: Span, tol: real, depth: nat)
    requires Sampled(f, s) && depth <= ADAPT_DEPTH_LIMIT
    ensures forall l | l in Leaves(f, s, tol, depth) ::
              && l.value == Boole(f, l.lo, l.hi) && l.error == Abs(Boole(f, l.lo, l.hi) - Composite(f, l.lo, l.hi))
              && (if l.depth == depth then l.lo == s.lo && l.hi == s.hi && l.tol == tol
                  else l.depth > depth && exists lo, hi :: HalfOf(f, l, lo, hi))
    decreases ADAPT_DEPTH_LIMIT - depth
  {
    hide Sampled, LeafEstimate, Left, Right, Boole, Composite;
    LeafIsBoole(f, s);
    LeafErrorIsCorrection(f, s);
    if !Accept(f, s, tol, depth) {
      HalvesSampled(f, s);
      HalvesAt(f, s);
      LeavesNeeded(f, Left(f, s), tol / 2.0, depth + 1);
      LeavesNeeded(f, Right(f, s), tol / 2.0, depth + 1);
      forall l | l in Leaves(f, s, tol, depth)
        ensures l.depth > depth && exists lo, hi :: HalfOf(f, l, lo, hi)
      {
        if l.depth == depth + 1 { assert HalfOf(f, l, s.lo, s.hi); }
      }
    }
  }

  lemma HalvesAt(f: real -> real, s: Span)
    ensures var c := Midpoint(s.lo, s.hi);
            Left(f, s).lo == s.lo && Left(f, s).hi == c && Right(f, s).lo == c && Right(f, s).hi == s.hi
  {
  }

  // ----- Exactness on quintics -----

  /** Boole's rule is linear in the five samples. */
  lemma BooleLinear(w: real, k: real, u0: real, u1: real, u2: real, u3: real, u4: real,
                    v0: real, v1: real, v2: real, v3: real, v4: real,
                    z0: real, z1: real, z2: real, z3: real, z4: real)
    requires z0 == u0 + k * v0 && z1 == u1 + k * v1 && z2 == u2 + k * v2 && z3 == u3 + k * v3 && z4 == u4 + k * v4
    ensures BooleSum(w, z0, z1, z2, z3, z4) == BooleSum(w, u0, u1, u2, u3, u4) + k * BooleSum(w, v0, v1, v2, v3, v4)
  {
    var u := 7.0 * u0 + 32.0 * u1 + 12.0 * u2 + 32.0 * u3 + 7.0 * u4;
    var v := 7.0 * v0 + 32.0 * v1 + 12.0 * v2 + 32.0 * v3 + 7.0 * v4;
    assert (w / 90.0) * (u + k * v) == (w / 90.0) * u + k * ((w / 90.0) * v);
  }

  /** Sum and difference of the powers of m + t and m - t. */
  function Both(m: real, t: real, k: nat): real {
    PowerOf(m + t, k) + PowerOf(m - t, k)
  }

  function Apart(m: real, t: real, k: nat): real {
    PowerOf(m + t, k) - PowerOf(m - t, k)
  }

  function Mono(m: real, h: real, i: nat, j: nat): real {
    PowerOf(m, i) * PowerOf(h, j)
  }

  lemma NextSums(m: real, t: real, k: nat, s: real, d: real)
    requires s == Both(m, t, k) && d == Apart(m, t, k)
    ensures Both(m, t, k + 1) == m * s + t * d && Apart(m, t, k + 1) == m * d + t * s
  {
    hide PowerOf;
    PowerStep(m + t, k);
    PowerStep(m - t, k);
    NextPair(m, t, PowerOf(m + t, k), PowerOf(m - t, k), s, d);
  }

  lemma PowerStep(x: real, k: nat)
    ensures PowerOf(x, k + 1) == x * PowerOf(x, k)
  {
  }

  lemma NextPair(m: real, t: real, p: real, q: real, s: real, d: real)
    requires s == p + q && d == p - q
    ensures (m + t) * p + (m - t) * q == m * s + t * d
    ensures (m + t) * p - (m - t) * q == m * d + t * s
  {
    assert m * s == m * (p + q) && t * d == t * (p - q);
    assert m * d == m * (p - q) && t * s == t * (p + q);
  }

  lemma NextMono(m: real, h: real, i: nat, j: nat)
    ensures m * Mono(m, h, i, j) == Mono(m, h, i + 1, j)
    ensures h * Mono(m, h, i, j) == Mono(m, h, i, j + 1)
  {
    hide PowerOf;
    PowerStep(m, i);
    PowerStep(h, j);
    Regroup(m, h, PowerOf(m, i), PowerOf(h, j), PowerOf(m, i + 1), PowerOf(h, j + 1));
  }

  lemma Regroup(m: real, h: real, p: real, q: real, p': real, q': real)
    requires p' == m * p && q' == h * q
    ensures m * (p * q) == p' * q && h * (p * q) == p * q'
  {
    assert p' * q == (m * p) * q && p * q' == p * (h * q);
  }

  lemma MonoIsPower(m: real, h: real, i: nat)
    ensures Mono(m, h, i, 0) == PowerOf(m, i)
  {
    assert PowerOf(h, 0) == 1.0;
  }

  // Sums and differences for the pair of samples h from the middle.

  lemma Inner1(m: real, h: real)
    ensures Both(m, h, 1) == 2.0 * Mono(m, h, 1, 0)
    ensures Apart(m, h, 1) == 2.0 * Mono(m, h, 0, 1)
  {
    NextSums(m, h, 0, 2.0, 0.0);
    MonoIsPower(m, h, 0);
    NextMono(m, h, 0, 0);
  }

  lemma Inner2(m: real, h: real)
    ensures Both(m, h, 2) == 2.0 * Mono(m, h, 2, 0) + 2.0 * Mono(m, h, 0, 2)
    ensures Apart(m, h, 2) == 4.0 * Mono(m, h, 1, 1)
  {
    hide PowerOf, Both, Apart, Mono;
    Inner1(m, h);
    NextSums(m, h, 1, 2.0 * Mono(m, h, 1, 0),
             2.0 * Mono(m, h, 0, 1));
    NextMono(m, h, 1, 0); NextMono(m, h, 0, 1);
  }

  lemma Inner3(m: real, h: real)
    ensures Both(m, h, 3) == 2.0 * Mono(m, h, 3, 0) + 6.0 * Mono(m, h, 1, 2)
    ensures Apart(m, h, 3) == 6.0 * Mono(m, h, 2, 1) + 2.0 * Mono(m, h, 0, 3)
  {
    hide PowerOf, Both, Apart, Mono;
    Inner2(m, h);
    NextSums(m, h, 2, 2.0 * Mono(m, h, 2, 0) + 2.0 * Mono(m, h, 0, 2),
             4.0 * Mono(m, h, 1, 1));
    NextMono(m, h, 2, 0); NextMono(m, h, 1, 1); NextMono(m, h, 0, 2);
  }

  lemma Inner4(m: real, h: real)
    ensures Both(m, h, 4) == 2.0 * Mono(m, h, 4, 0) + 12.0 * Mono(m, h, 2, 2) + 2.0 * Mono(m, h, 0, 4)
    ensures Apart(m, h, 4) == 8.0 * Mono(m, h, 3, 1) + 8.0 * Mono(m, h, 1, 3)
  {
    hide PowerOf, Both, Apart, Mono;
    Inner3(m, h);
    NextSums(m, h, 3, 2.0 * Mono(m, h, 3, 0) + 6.0 * Mono(m, h, 1, 2),
             6.0 * Mono(m, h, 2, 1) + 2.0 * Mono(m, h, 0, 3));
    NextMono(m, h, 3, 0); NextMono(m, h, 2, 1); NextMono(m, h, 1, 2); NextMono(m, h, 0, 3);
  }

  lemma Inner5(m: real, h: real)
    ensures Both(m, h, 5) == 2.0 * Mono(m, h, 5, 0) + 20.0 * Mono(m, h, 3, 2) + 10.0 * Mono(m, h, 1, 4)
    ensures Apart(m, h, 5) == 10.0 * Mono(m, h, 4, 1) + 20.0 * Mono(m, h, 2, 3) + 2.0 * Mono(m, h, 0, 5)
  {
    hide PowerOf, Both, Apart, Mono;
    Inner4(m, h);
    NextSums(m, h, 4, 2.0 * Mono(m, h, 4, 0) + 12.0 * Mono(m, h, 2, 2) + 2.0 * Mono(m, h, 0, 4),
             8.0 * Mono(m, h, 3, 1) + 8.0 * Mono(m, h, 1, 3));
    NextMono(m, h, 4, 0); NextMono(m, h, 3, 1); NextMono(m, h, 2, 2); NextMono(m, h, 1, 3); NextMono(m, h, 0, 4);
  }

  lemma Inner6(m: real, h: real)
    ensures Apart(m, h, 6) == 12.0 * Mono(m, h, 5, 1) + 40.0 * Mono(m, h, 3, 3) + 12.0 * Mono(m, h, 1, 5)
  {
    hide PowerOf, Both, Apart, Mono;
    Inner5(m, h);
    NextSums(m, h, 5, 2.0 * Mono(m, h, 5, 0) + 20.0 * Mono(m, h, 3, 2) + 10.0 * Mono(m, h, 1, 4),
             10.0 * Mono(m, h, 4, 1) + 20.0 * Mono(m, h, 2, 3) + 2.0 * Mono(m, h, 0, 5));
    NextMono(m, h, 5, 0); NextMono(m, h, 4, 1); NextMono(m, h, 3, 2);
    NextMono(m, h, 2, 3); NextMono(m, h, 1, 4); NextMono(m, h, 0, 5);
  }

  /** The outer pair of samples, 2h from the middle, is the inner one at twice the distance. */
  lemma Doubled(m: real, h: real, i: nat)
    ensures Mono(m, 2.0 * h, i, 0) == Mono(m, h, i, 0) && Mono(m, 2.0 * h, i, 1) == 2.0 * Mono(m, h, i, 1)
    ensures Mono(m, 2.0 * h, i, 2) == 4.0 * Mono(m, h, i, 2) && Mono(m, 2.0 * h, i, 3) == 8.0 * Mono(m, h, i, 3)
    ensures Mono(m, 2.0 * h, i, 4) == 16.0 * Mono(m, h, i, 4) && Mono(m, 2.0 * h, i, 5) == 32.0 * Mono(m, h, i, 5)
  {
    hide PowerOf, Mono;
    MonoIsPower(m, h, i);
    MonoIsPower(m, 2.0 * h, i);
    DoubledNext(m, h, i, 0, 1.0);
    DoubledNext(m, h, i, 1, 2.0);
    DoubledNext(m, h, i, 2, 4.0);
    DoubledNext(m, h, i, 3, 8.0);
    DoubledNext(m, h, i, 4, 16.0);
  }

  lemma DoubledNext(m: real, h: real, i: nat, j: nat, w: real)
    requires Mono(m, 2.0 * h, i, j) == w * Mono(m, h, i, j)
    ensures Mono(m, 2.0 * h, i, j + 1) == 2.0 * w * Mono(m, h, i, j + 1)
  {
    hide Mono;
    NextMono(m, h, i, j);
    NextMono(m, 2.0 * h, i, j);
    DoubledProduct(h, w, Mono(m, h, i, j), Mono(m, 2.0 * h, i, j), Mono(m, h, i, j + 1), Mono(m, 2.0 * h, i, j + 1));
  }

  lemma DoubledProduct(h: real, w: real, p: real, q: real, p': real, q': real)
    requires q == w * p && p' == h * p && q' == (2.0 * h) * q
    ensures q' == 2.0 * w * p'
  {
    assert (2.0 * h) * (w * p) == 2.0 * w * (h * p);
  }

  /** Boole's rule integrates x^k exactly for k up to 5, on [m - 2h, m + 2h]. */
  ghost predicate BooleExact(m: real, h: real, k: nat) {
    BooleSum(4.0 * h, PowerOf(m - 2.0 * h, k), PowerOf(m - h, k), PowerOf(m, k), PowerOf(m + h, k), PowerOf(m + 2.0 * h, k))
    == (PowerOf(m + 2.0 * h, k + 1) - PowerOf(m - 2.0 * h, k + 1)) / (k + 1) as real
  }

  /** It suffices that the weighted pairs of samples add up. */
  lemma BooleFromPairs(m: real, h: real, k: nat, n: real, s: real, p: real)
    requires s == 7.0 * Both(m, 2.0 * h, k) + 32.0 * Both(m, h, k) + 12.0 * PowerOf(m, k)
    requires n == (k + 1) as real && p == h * s && 2.0 * n * p == 45.0 * Apart(m, 2.0 * h, k + 1)
    ensures BooleExact(m, h, k)
  {
    hide PowerOf, BooleSum;
    BooleWeighted(h, s, PowerOf(m - 2.0 * h, k), PowerOf(m - h, k), PowerOf(m, k), PowerOf(m + h, k), PowerOf(m + 2.0 * h, k));
    Divided(p, Apart(m, 2.0 * h, k + 1), n);
  }

  lemma BooleWeighted(h: real, s: real, v0: real, v1: real, v2: real, v3: real, v4: real)
    requires s == 7.0 * v0 + 32.0 * v1 + 12.0 * v2 + 32.0 * v3 + 7.0 * v4
    ensures BooleSum(4.0 * h, v0, v1, v2, v3, v4) == (4.0 / 90.0) * (h * s)
  {
    WeightedProduct(h, 7.0 * v0 + 32.0 * v1 + 12.0 * v2 + 32.0 * v3 + 7.0 * v4, s, 90.0);
  }

  lemma WeightedProduct(h: real, t: real, s: real, n: real)
    requires s == t && n != 0.0
    ensures ((4.0 * h) / n) * t == (4.0 / n) * (h * s)
  {
    assert (4.0 * h) / n == (4.0 / n) * h;
  }

  lemma Divided(p: real, d: real, n: real)
    requires n != 0.0 && 2.0 * n * p == 45.0 * d
    ensures (4.0 / 90.0) * p == d / n
  {
    assert d == ((4.0 / 90.0) * p) * n;
  }

  lemma BooleMonomial(m: real, h: real, k: nat)
    requires k <= 5
    ensures BooleExact(m, h, k)
  {
    hide BooleExact;
    if k <= 1 { BooleMonomialLow(m, h, k); }
    if k == 2 { BooleMonomialTwo(m, h); }
    if k == 3 { BooleMonomialThree(m, h); }
    if k == 4 { BooleMonomialFour(m, h); }
    if k == 5 { BooleMonomialFive(m, h); }
  }

  lemma BooleMonomialLow(m: real, h: real, k: nat)
    requires k <= 1
    ensures BooleExact(m, h, k)
  {
    hide BooleSum;
    Inner1(m, 2.0 * h);
    Inner2(m, 2.0 * h);
    Doubled(m, h, 1); Doubled(m, h, 0);
    Inner1(m, h);
    MonoIsPower(m, h, 0);
    MonoIsPower(m, h, 1);
    NextMono(m, h, 0, 0);
    NextMono(m, h, 1, 0);
    if k == 0 {
      BooleFromPairs(m, h, 0, 1.0, 90.0, h * (90.0));
    } else {
      BooleFromPairs(m, h, 1, 2.0, 90.0 * Mono(m, h, 1, 0), h * (90.0 * Mono(m, h, 1, 0)));
    }
  }

  lemma BooleMonomialTwo(m: real, h: real)
    ensures BooleExact(m, h, 2)
  {
    hide PowerOf, Both, Apart, Mono, BooleExact;
    Inner2(m, 2.0 * h);
    Inner3(m, 2.0 * h);
    Doubled(m, h, 2); Doubled(m, h, 0);
    Inner2(m, h);
    MonoIsPower(m, h, 2);
    NextMono(m, h, 2, 0); NextMono(m, h, 0, 2);
    BooleFromPairs(m, h, 2, 3.0, 90.0 * Mono(m, h, 2, 0) + 120.0 * Mono(m, h, 0, 2), h * (90.0 * Mono(m, h, 2,
                   0) + 120.0 * Mono(m, h, 0, 2)));
  }

  lemma BooleMonomialThree(m: real, h: real)
    ensures BooleExact(m, h, 3)
  {
    hide PowerOf, Both, Apart, Mono, BooleExact;
    Inner3(m, 2.0 * h);
    Inner4(m, 2.0 * h);
    Doubled(m, h, 3); Doubled(m, h, 1);
    Inner3(m, h);
    MonoIsPower(m, h, 3);
    NextMono(m, h, 3, 0); NextMono(m, h, 1, 2);
    BooleFromPairs(m, h, 3, 4.0, 90.0 * Mono(m, h, 3, 0) + 360.0 * Mono(m, h, 1, 2), h * (90.0 * Mono(m, h, 3,
                   0) + 360.0 * Mono(m, h, 1, 2)));
  }

  lemma BooleMonomialFour(m: real, h: real)
    ensures BooleExact(m, h, 4)
  {
    hide PowerOf, Both, Apart, Mono, BooleExact;
    Inner4(m, 2.0 * h);
    Inner5(m, 2.0 * h);
    Doubled(m, h, 4); Doubled(m, h, 2); Doubled(m, h, 0);
    Inner4(m, h);
    MonoIsPower(m, h, 4);
    NextMono(m, h, 4, 0); NextMono(m, h, 2, 2); NextMono(m, h, 0, 4);
    BooleFromPairs(m, h, 4, 5.0, 90.0 * Mono(m, h, 4, 0) + 720.0 * Mono(m, h, 2, 2) + 288.0 * Mono(m, h, 0, 4),
                   h * (90.0 * Mono(m, h, 4, 0) + 720.0 * Mono(m, h, 2, 2) + 288.0 * Mono(m, h, 0, 4)));
  }

  lemma BooleMonomialFive(m: real, h: real)
    ensures BooleExact(m, h, 5)
  {
    hide PowerOf, Both, Apart, Mono, BooleExact;
    Inner5(m, 2.0 * h);
    Inner6(m, 2.0 * h);
    Doubled(m, h, 5); Doubled(m, h, 3); Doubled(m, h, 1);
    Inner5(m, h);
    MonoIsPower(m, h, 5);
    NextMono(m, h, 5, 0); NextMono(m, h, 3, 2); NextMono(m, h, 1, 4);
    BooleFromPairs(m, h, 5, 6.0, 90.0 * Mono(m, h, 5, 0) + 1200.0 * Mono(m, h, 3, 2) + 1440.0 * Mono(m, h, 1, 4),
                   h * (90.0 * Mono(m, h, 5, 0) + 1200.0 * Mono(m, h, 3, 2) + 1440.0 * Mono(m, h, 1, 4)));
  }

  /** c[0]*x + c[1]*x^2/2 + ... + c[n-1]*x^n/n */
  function Antiderivative(c: Coeffs, x: real, n: nat): real {
    if n == 0 then 0.0 else Antiderivative(c, x, n - 1) + At(c, n - 1) * (PowerOf(x, n) / n as real)
  }

  lemma {:induction false} BoolePolynomial(c: Coeffs, m: real, h: real, n: nat)
    requires n <= 6
    ensures BooleSum(4.0 * h, PolySum(c, m - 2.0 * h, n), PolySum(c, m - h, n), PolySum(c, m, n),
                     PolySum(c, m + h, n), PolySum(c, m + 2.0 * h, n))
         == Antiderivative(c, m + 2.0 * h, n) - Antiderivative(c, m - 2.0 * h, n)
  {
    var lo, hi := m - 2.0 * h, m + 2.0 * h;
    hide PowerOf, BooleSum, PolySum, Antiderivative;
    if n == 0 {
      EmptyPolynomial(c, lo, m - h, m, m + h, hi, 4.0 * h);
    } else {
      var k, e := n - 1, At(c, n - 1);
      BoolePolynomial(c, m, h, k);
      PolySumStep(c, lo, n); PolySumStep(c, m - h, n); PolySumStep(c, m, n); PolySumStep(c, m + h, n); PolySumStep(c,
                  hi, n);
      BooleLinear(4.0 * h, e, PolySum(c, lo, k), PolySum(c, m - h, k), PolySum(c, m, k), PolySum(c, m + h, k), PolySum(c, hi, k),
                  PowerOf(lo, k), PowerOf(m - h, k), PowerOf(m, k), PowerOf(m + h, k), PowerOf(hi, k),
                  PolySum(c, lo, n), PolySum(c, m - h, n), PolySum(c, m, n), PolySum(c, m + h, n), PolySum(c, hi, n));
      BooleMonomial(m, h, k);
      var boole := BooleSum(4.0 * h, PowerOf(lo, k), PowerOf(m - h, k), PowerOf(m, k), PowerOf(m + h, k), PowerOf(hi, k));
      DifferenceOfQuotients(e, boole, PowerOf(hi, n), PowerOf(lo, n), n as real);
      AntiderivativeStep(c, lo, n);
      AntiderivativeStep(c, hi, n);
    }
  }

  lemma {:induction false} EmptyPolynomial(c: Coeffs, x0: real, x1: real, x2: real, x3: real, x4: real, w: real)
    ensures BooleSum(w, PolySum(c, x0, 0), PolySum(c, x1, 0), PolySum(c, x2, 0), PolySum(c, x3, 0), PolySum(c, x4, 0)) == 0.0
    ensures Antiderivative(c, x0, 0) == 0.0 == Antiderivative(c, x4, 0)
  {
    hide PolySum, BooleSum, PowerOf, At;
    PolySumEmpty(c, x0); PolySumEmpty(c, x1); PolySumEmpty(c, x2); PolySumEmpty(c, x3); PolySumEmpty(c, x4);
    BooleOfZeros(w);
  }

  lemma BooleOfZeros(w: real)
    ensures BooleSum(w, 0.0, 0.0, 0.0, 0.0, 0.0) == 0.0
  {
  }

  lemma AntiderivativeStep(c: Coeffs, x: real, n: nat)
    requires n > 0
    ensures Antiderivative(c, x, n) == Antiderivative(c, x, n - 1) + At(c, n - 1) * (PowerOf(x, n) / n as real)
  {
  }

  lemma DifferenceOfQuotients(e: real, d: real, p: real, q: real, n: real)
    requires n != 0.0 && d == (p - q) / n
    ensures e * d == e * (p / n) - e * (q / n)
  {
    assert d == p / n - q / n;
  }

  /** f is the polynomial with coefficients c, of degree at most five. */
  ghost predicate IsQuintic(f: real -> real, c: Coeffs) {
    |c| <= 6 && forall x: real :: f(x) == Poly(c, x)
  }

  ghost function Area(c: Coeffs, lo: real, hi: real): real {
    Antiderivative(c, hi, |c|) - Antiderivative(c, lo, |c|)
  }

  lemma LeafExact(f: real -> real, c: Coeffs, s: Span)
    requires IsQuintic(f, c) && Sampled(f, s)
    ensures LeafEstimate(f, s).value == Area(c, s.lo, s.hi)
  {
    LeafIsBoole(f, s);
    var m, h := Midpoint(s.lo, s.hi), (s.hi - s.lo) / 4.0;
    assert s.lo == m - 2.0 * h && s.hi == m + 2.0 * h;
    assert Midpoint(s.lo, m) == m - h && Midpoint(m, s.hi) == m + h;
    BoolePolynomial(c, m, h, |c|);
  }

  /** On quintics the error estimate is the exact error of Simpson's rule on both halves. */
  lemma LeafErrorExact(f: real -> real, c: Coeffs, s: Span)
    requires IsQuintic(f, c) && Sampled(f, s)
    ensures LeafEstimate(f, s).error == Abs(Area(c, s.lo, s.hi) - Composite(f, s.lo, s.hi))
  {
    hide IsQuintic, LeafEstimate, Boole, Composite, Antiderivative;
    LeafIsBoole(f, s);
    LeafExact(f, c, s);
    LeafErrorIsCorrection(f, s);
  }

  lemma {:induction false} AdaptExact(f: real -> real, c: Coeffs, s: Span, tol: real, depth: nat)
    requires IsQuintic(f, c) && Sampled(f, s)
    ensures Adapt(f, s, tol, depth).value == Area(c, s.lo, s.hi)
    decreases ADAPT_DEPTH_LIMIT - depth
  {
    hide IsQuintic, Sampled, LeafEstimate, Left, Right, Antiderivative;
    if Accept(f, s, tol, depth) {
      LeafExact(f, c, s);
    } else {
      HalvesSampled(f, s);
      HalvesJoin(f, s);
      AdaptExact(f, c, Left(f, s), tol / 2.0, depth + 1);
      AdaptExact(f, c, Right(f, s), tol / 2.0, depth + 1);
    }
  }

  /** For any tolerance, any splitting and either order of the bounds. */
  lemma IntegrateExactOnQuintics(f: real -> real, c: Coeffs, a: real, b: real, tol: real)
    requires IsQuintic(f, c)
    ensures Integrate(f, a, b, tol).value == Area(c, a, b)
  {
    if a != b {
      var lo, hi := if a < b then a else b, if a < b then b else a;
      AdaptExact(f, c, StartSpan(f, lo, hi), tol, 0);
    }
  }

  // ----- Cubics are accepted without splitting -----

  /** Simpson's rule is already exact on cubics, so the first error estimate is zero. */
  lemma CubicErrorZero(f: real -> real, c: Coeffs, s: Span, tol: real, depth: nat)
    requires IsQuintic(f, c) && |c| <= 4 && Sampled(f, s) && tol > 0.0
    ensures Adapt(f, s, tol, depth) == Estimate(Area(c, s.lo, s.hi), 0.0)
  {
    var l, r := Left(f, s), Right(f, s);
    SimpsonCubic(f, c, s.lo, s.hi);
    SimpsonCubic(f, c, l.lo, l.hi);
    SimpsonCubic(f, c, r.lo, r.hi);
    HalvesSampled(f, s);
  }

  /** So integrating a cubic gives the area with error estimate zero, an empty interval included. */
  lemma IntegrateCubics(f: real -> real, c: Coeffs, a: real, b: real, tol: real)
    requires IsQuintic(f, c) && |c| <= 4 && tol > 0.0
    ensures Integrate(f, a, b, tol) == Estimate(Area(c, a, b), 0.0)
  {
    hide IsQuintic, Antiderivative;
    if a != b {
      var lo, hi := if a < b then a else b, if a < b then b else a;
      CubicErrorZero(f, c, StartSpan(f, lo, hi), tol, 0);
    }
  }

  lemma SimpsonCubic(f: real -> real, c: Coeffs, lo: real, hi: real)
    requires IsQuintic(f, c) && |c| <= 4
    ensures StartSpan(f, lo, hi).whole == Area(c, lo, hi)
  {
    var m, h := Midpoint(lo, hi), (hi - lo) / 2.0;
    assert lo == m - h && hi == m + h;
    SimpsonPolynomial(c, m, h, |c|);
  }

  lemma SimpsonMonomial(m: real, h: real, k: nat)
    requires k <= 3
    ensures Simpson(PowerOf(m - h, k), PowerOf(m, k), PowerOf(m + h, k), 2.0 * h)
         == (PowerOf(m + h, k + 1) - PowerOf(m - h, k + 1)) / (k + 1) as real
  {
    hide PowerOf, Simpson;
    if k <= 1 { SimpsonMonomialLow(m, h, k); }
    if k == 2 { SimpsonMonomialTwo(m, h); }
    if k == 3 { SimpsonMonomialThree(m, h); }
  }

  ghost predicate SimpsonExact(m: real, h: real, k: nat) {
    Simpson(PowerOf(m - h, k), PowerOf(m, k), PowerOf(m + h, k), 2.0 * h)
    == (PowerOf(m + h, k + 1) - PowerOf(m - h, k + 1)) / (k + 1) as real
  }

  lemma SimpsonMonomialLow(m: real, h: real, k: nat)
    requires k <= 1
    ensures SimpsonExact(m, h, k)
  {
    hide PowerOf, Mono, Both, Apart, SimpsonExact;
    Inner1(m, h);
    Inner2(m, h);
    MonoIsPower(m, h, k);
    NextMono(m, h, k, 0);
    if k == 0 {
      BothAtZero(m, h);
      SimpsonFromPair(m, h, 0, 1.0, 6.0 * Mono(m, h, 0, 0), h * (6.0 * Mono(m, h, 0, 0)));
    } else {
      SimpsonFromPair(m, h, 1, 2.0, 6.0 * Mono(m, h, 1, 0), h * (6.0 * Mono(m, h, 1, 0)));
    }
  }

  lemma SimpsonMonomialTwo(m: real, h: real)
    ensures SimpsonExact(m, h, 2)
  {
    hide PowerOf, Mono, Both, Apart, SimpsonExact;
    Inner2(m, h);
    Inner3(m, h);
    MonoIsPower(m, h, 2);
    NextMono(m, h, 2, 0);
    NextMono(m, h, 0, 2);
    SimpsonFromPair(m, h, 2, 3.0, 6.0 * Mono(m, h, 2, 0) + 2.0 * Mono(m, h, 0, 2),
                    h * (6.0 * Mono(m, h, 2, 0) + 2.0 * Mono(m, h, 0, 2)));
  }

  lemma SimpsonMonomialThree(m: real, h: real)
    ensures SimpsonExact(m, h, 3)
  {
    hide PowerOf, Mono, Both, Apart, SimpsonExact;
    Inner3(m, h);
    Inner4(m, h);
    MonoIsPower(m, h, 3);
    NextMono(m, h, 3, 0);
    NextMono(m, h, 1, 2);
    SimpsonFromPair(m, h, 3, 4.0, 6.0 * Mono(m, h, 3, 0) + 6.0 * Mono(m, h, 1, 2),
                    h * (6.0 * Mono(m, h, 3, 0) + 6.0 * Mono(m, h, 1, 2)));
  }

  lemma BothAtZero(m: real, t: real)
    ensures Both(m, t, 0) == 2.0 && Apart(m, t, 0) == 0.0 && PowerOf(m, 0) == 1.0
  {
  }

  lemma SimpsonFromPair(m: real, h: real, k: nat, n: real, s: real, p: real)
    requires s == Both(m, h, k) + 4.0 * PowerOf(m, k)
    requires n == (k + 1) as real && p == h * s && n * p == 3.0 * Apart(m, h, k + 1)
    ensures SimpsonExact(m, h, k)
  {
    hide PowerOf, Simpson;
    SimpsonWeighted(h, s, PowerOf(m - h, k), PowerOf(m, k), PowerOf(m + h, k));
    Thirds(p, Apart(m, h, k + 1), n);
  }

  lemma SimpsonWeighted(h: real, s: real, v0: real, v1: real, v2: real)
    requires s == v0 + 4.0 * v1 + v2
    ensures Simpson(v0, v1, v2, 2.0 * h) == (h * s) / 3.0
  {
    assert h * s == h * (v0 + 4.0 * v1 + v2);
  }

  lemma Thirds(p: real, d: real, n: real)
    requires n != 0.0 && n * p == 3.0 * d
    ensures p / 3.0 == d / n
  {
    assert d == (p / 3.0) * n;
  }

  lemma {:induction false} SimpsonPolynomial(c: Coeffs, m: real, h: real, n: nat)
    requires n <= 4
    ensures Simpson(PolySum(c, m - h, n), PolySum(c, m, n), PolySum(c, m + h, n), 2.0 * h)
         == Antiderivative(c, m + h, n) - Antiderivative(c, m - h, n)
  {
    var lo, hi, w := m - h, m + h, 2.0 * h;
    hide PowerOf, PolySum, Antiderivative, Simpson;
    if n == 0 {
      EmptyPolynomial(c, lo, lo, m, hi, hi, w);
      PolySumEmpty(c, lo); PolySumEmpty(c, m); PolySumEmpty(c, hi);
      SimpsonLinear(w, 0.0, 0.0, 0.0, 0.0, 0.0, 0.0, 0.0, 0.0, 0.0, 0.0);
      assert PolySum(c, lo, n) == 0.0 && PolySum(c, m, n) == 0.0 && PolySum(c, hi, n) == 0.0;
      assert Antiderivative(c, lo, n) == 0.0 && Antiderivative(c, hi, n) == 0.0;
    } else {
      var k, e := n - 1, At(c, n - 1);
      SimpsonPolynomial(c, m, h, k);
      PolySumStep(c, lo, n); PolySumStep(c, m, n); PolySumStep(c, hi, n);
      SimpsonLinear(w, e, PolySum(c, lo, k), PolySum(c, m, k), PolySum(c, hi, k),
                    PowerOf(lo, k), PowerOf(m, k), PowerOf(hi, k), PolySum(c, lo, n), PolySum(c, m, n), PolySum(c, hi, n));
      SimpsonMonomial(m, h, k);
      DifferenceOfQuotients(e, Simpson(PowerOf(lo, k), PowerOf(m, k), PowerOf(hi, k), w), PowerOf(hi, n), PowerOf(lo,
                            n), n as real);
      AntiderivativeStep(c, lo, n);
      AntiderivativeStep(c, hi, n);
    }
  }

  lemma SimpsonLinear(w: real, k: real, u0: real, u1: real, u2: real, v0: real, v1: real, v2: real, z0: real,
                      z1: real, z2: real)
    requires z0 == u0 + k * v0 && z1 == u1 + k * v1 && z2 == u2 + k * v2
    ensures Simpson(z0, z1, z2, w) == Simpson(u0, u1, u2, w) + k * Simpson(v0, v1, v2, w)
    ensures Simpson(0.0, 0.0, 0.0, w) == 0.0
  {
    var u, v := u0 + 4.0 * u1 + u2, v0 + 4.0 * v1 + v2;
    assert (w / 6.0) * (u + k * v) == (w / 6.0) * u + k * ((w / 6.0) * v);
  }

  // ----- Derivative -----

  function Sample5(f: real -> real, x: real, h: real): real
    requires h != 0.0
  {
    (f(x - 2.0 * h) - 8.0 * f(x - h) + 8.0 * f(x + h) - f(x + 2.0 * h)) / (12.0 * h)
  }

  function Halved(h: real, n: nat): (r: real)
    requires h != 0.0
    ensures r != 0.0
  {
    if n == 0 then h else Halved(h, n - 1) / 2.0
  }

  lemma HalvedSteps(h: real, n: nat)
    requires h != 0.0
    ensures Halved(h, 0) == h
    ensures n > 0 ==> Halved(h, n) == Halved(h, n - 1) / 2.0
  {
  }

  function Max(a: real, b: real): (m: real)
    ensures m >= a && m >= b && (m == a || m == b)
  {
    if a < b then b else a
  }

  /** The estimates after m and m - 1 halvings differ by less than the tolerance. */
  ghost predicate Close(f: real -> real, x: real, h0: real, tol: real, m: nat)
    requires h0 != 0.0 && m > 0
  {
    var cur := Sample5(f, x, Halved(h0, m));
    Abs(cur - Sample5(f, x, Halved(h0, m - 1))) < tol * Max(1.0, Abs(cur))
  }

  /** Stopped after n halvings: at the first close pair, or after 12 halvings without one. */
  ghost predicate StoppedAfter(f: real -> real, x: real, h0: real, tol: real, value: real, err: real, n: nat)
    requires h0 != 0.0
  {
    && 1 <= n <= 12
    && value == Sample5(f, x, Halved(h0, n))
    && err == Abs(value - Sample5(f, x, Halved(h0, n - 1)))
    && (forall m | 1 <= m < n :: !Close(f, x, h0, tol, m))
    && (n < 12 ==> Close(f, x, h0, tol, n))
  }

  method Derivative(f: real -> real, x: real, h0: real, tol: real) returns (value: real, err: real)
    requires h0 != 0.0
    ensures exists n: nat :: StoppedAfter(f, x, h0, tol, value, err, n)
  {
    hide Sample5, Halved;
    var prev := Sample5(f, x, h0);
    var h := h0;
    HalvedSteps(h0, 0);
    err := 0.0;
    for iter := 0 to 12
      invariant h == Halved(h0, iter) && prev == Sample5(f, x, h)
      invariant iter > 0 ==> err == Abs(prev - Sample5(f, x, Halved(h0, iter - 1)))
      invariant forall m | 1 <= m <= iter :: !Close(f, x, h0, tol, m)
    {
      HalvedSteps(h0, iter + 1);
      h := h / 2.0;
      var cur := Sample5(f, x, h);
      err := Abs(cur - prev);
      if err < tol * Max(1.0, Abs(cur)) {
        assert Close(f, x, h0, tol, iter + 1);
        assert StoppedAfter(f, x, h0, tol, cur, err, iter + 1);
        return cur, err;
      }
      assert !Close(f, x, h0, tol, iter + 1);
      prev := cur;
    }
    assert StoppedAfter(f, x, h0, tol, prev, err, 12);
    return prev, err;
  }

  /** c[1] + 2 c[2] x + ... + (n-1) c[n-1] x^(n-2) */
  function DerivativeSum(c: Coeffs, x: real, n: nat): real {
    if n <= 1 then 0.0 else DerivativeSum(c, x, n - 1) + At(c, n - 1) * ((n - 1) as real * PowerOf(x, n - 2))
  }

  function Stencil(a: real, b: real, c: real, d: real): real {
    a - 8.0 * b + 8.0 * c - d
  }

  lemma StencilMonomial(x: real, h: real, k: nat)
    requires 1 <= k <= 4
    ensures Stencil(PowerOf(x - 2.0 * h, k), PowerOf(x - h, k), PowerOf(x + h, k), PowerOf(x + 2.0 * h, k))
         == (12.0 * h) * (k as real * PowerOf(x, k - 1))
  {
    hide PowerOf, Mono, Both, Apart, Stencil;
    if k == 1 {
      Inner1(x, h);
      Inner1(x, 2.0 * h);
      Doubled(x, h, 0);
      MonoIsPower(x, h, 0);
      NextMono(x, h, 0, 0);
      StencilFromPairs(x, h, 1, 1.0, Mono(x, h, 0, 0), Mono(x, h, 0, 1));
    } else if k == 2 {
      Inner2(x, h);
      Inner2(x, 2.0 * h);
      Doubled(x, h, 1);
      MonoIsPower(x, h, 1);
      NextMono(x, h, 1, 0);
      StencilFromPairs(x, h, 2, 2.0, Mono(x, h, 1, 0), Mono(x, h, 1, 1));
    } else if k == 3 {
      Inner3(x, h);
      Inner3(x, 2.0 * h);
      Doubled(x, h, 2); Doubled(x, h, 0);
      MonoIsPower(x, h, 2);
      NextMono(x, h, 2, 0);
      StencilFromPairs(x, h, 3, 3.0, Mono(x, h, 2, 0), Mono(x, h, 2, 1));
    } else {
      Inner4(x, h);
      Inner4(x, 2.0 * h);
      Doubled(x, h, 3); Doubled(x, h, 1);
      MonoIsPower(x, h, 3);
      NextMono(x, h, 3, 0);
      StencilFromPairs(x, h, 4, 4.0, Mono(x, h, 3, 0), Mono(x, h, 3, 1));
    }
  }

  lemma StencilFromPairs(x: real, h: real, k: nat, n: real, q: real, p: real)
    requires k >= 1 && n == k as real && q == PowerOf(x, k - 1) && p == h * q
    requires 8.0 * Apart(x, h, k) - Apart(x, 2.0 * h, k) == 12.0 * (n * p)
    ensures Stencil(PowerOf(x - 2.0 * h, k), PowerOf(x - h, k), PowerOf(x + h, k), PowerOf(x + 2.0 * h, k))
         == (12.0 * h) * (k as real * PowerOf(x, k - 1))
  {
    hide PowerOf;
    TwelveTimes(h, n, q, p, k as real, PowerOf(x, k - 1));
  }

  lemma TwelveTimes(h: real, n: real, q: real, p: real, n': real, q': real)
    requires n == n' && q == q' && p == h * q
    ensures (12.0 * h) * (n' * q') == 12.0 * (n * p)
  {
    assert n * (h * q) == h * (n * q);
  }

  lemma {:induction false} StencilPolynomial(c: Coeffs, x: real, h: real, n: nat)
    requires n <= 5
    ensures Stencil(PolySum(c, x - 2.0 * h, n), PolySum(c, x - h, n), PolySum(c, x + h, n), PolySum(c, x + 2.0 * h, n))
         == (12.0 * h) * DerivativeSum(c, x, n)
  {
    var a, b, d, e := x - 2.0 * h, x - h, x + h, x + 2.0 * h;
    hide PowerOf, PolySum, DerivativeSum;
    if n <= 1 {
      LowSums(c, a, b, x, n);
      LowSums(c, d, e, x, n);
      LowSums(c, a, d, x, n);
    } else {
      var k, v := n - 1, At(c, n - 1);
      StencilPolynomial(c, x, h, k);
      PolySumStep(c, a, n); PolySumStep(c, b, n); PolySumStep(c, d, n); PolySumStep(c, e, n);
      StencilMonomial(x, h, k);
      DerivativeStep(c, x, n);
      StencilStep(v, 12.0 * h, PolySum(c, a, k), PolySum(c, b, k), PolySum(c, d, k), PolySum(c, e, k),
                  PowerOf(a, k), PowerOf(b, k), PowerOf(d, k), PowerOf(e, k), DerivativeSum(c, x, k),
                  k as real * PowerOf(x, k - 1));
    }
  }

  lemma LowSums(c: Coeffs, u: real, v: real, x: real, n: nat)
    requires n <= 1
    ensures PolySum(c, u, n) == PolySum(c, v, n) && DerivativeSum(c, x, n) == 0.0
  {
    if n == 1 {
      assert PowerOf(u, 0) == PowerOf(v, 0) == 1.0;
      assert PolySum(c, u, 0) == PolySum(c, v, 0) == 0.0;
    }
  }

  lemma DerivativeStep(c: Coeffs, x: real, n: nat)
    requires n > 1
    ensures DerivativeSum(c, x, n) == DerivativeSum(c, x, n - 1) + At(c, n - 1) * ((n - 1) as real * PowerOf(x, n - 2))
  {
  }

  lemma StencilStep(v: real, w: real, sa: real, sb: real, sd: real, se: real, a: real, b: real, d: real, e: real,
                    s: real, t: real)
    requires Stencil(sa, sb, sd, se) == w * s && Stencil(a, b, d, e) == w * t
    ensures Stencil(sa + v * a, sb + v * b, sd + v * d, se + v * e) == w * (s + v * t)
  {
    assert Stencil(sa + v * a, sb + v * b, sd + v * d, se + v * e) == Stencil(sa, sb, sd, se) + v * Stencil(a, b, d, e);
    assert w * (s + v * t) == w * s + v * (w * t);
  }

  /** The five-point quotient is exact on quartics, so the method returns the derivative
      with error estimate zero, whatever the step and tolerance. */
  lemma DerivativeExactOnQuartics(f: real -> real, c: Coeffs, x: real, h0: real, tol: real, value: real, err: real,
                                  n: nat)
    requires IsQuintic(f, c) && |c| <= 5 && h0 != 0.0 && StoppedAfter(f, x, h0, tol, value, err, n)
    ensures value == DerivativeSum(c, x, |c|) && err == 0.0
  {
    Sample5Exact(f, c, x, Halved(h0, n));
    Sample5Exact(f, c, x, Halved(h0, n - 1));
  }

  lemma Sample5Exact(f: real -> real, c: Coeffs, x: real, h: real)
    requires IsQuintic(f, c) && |c| <= 5 && h != 0.0
    ensures Sample5(f, x, h) == DerivativeSum(c, x, |c|)
  {
    hide PolySum, DerivativeSum, Stencil, Sample5;
    var n := |c|;
    StencilPolynomial(c, x, h, n);
    SampleIs(f, x, h, PolySum(c, x - 2.0 * h, n), PolySum(c, x - h, n), PolySum(c, x + h, n), PolySum(c, x + 2.0 * h, n));
    CancelFactor(12.0 * h, DerivativeSum(c, x, n), Stencil(PolySum(c, x - 2.0 * h, n), PolySum(c, x - h, n),
                                                           PolySum(c, x + h, n), PolySum(c, x + 2.0 * h, n)));
  }

  lemma SampleIs(f: real -> real, x: real, h: real, a: real, b: real, d: real, e: real)
    requires h != 0.0
    requires f(x - 2.0 * h) == a && f(x - h) == b && f(x + h) == d && f(x + 2.0 * h) == e
    ensures Sample5(f, x, h) == Stencil(a, b, d, e) / (12.0 * h)
  {
  }

  lemma CancelFactor(w: real, d: real, s: real)
    requires w != 0.0 && s == w * d
    ensures s / w == d
  {
  }

  // ----- How far off a quintic is -----

  lemma StencilFifth(x: real, h: real)
    ensures Stencil(PowerOf(x - 2.0 * h, 5), PowerOf(x - h, 5), PowerOf(x + h, 5), PowerOf(x + 2.0 * h, 5))
         == (12.0 * h) * (5.0 * PowerOf(x, 4) - 4.0 * PowerOf(h, 4))
  {
    hide PowerOf, Mono, Both, Apart;
    Inner5(x, h);
    Inner5(x, 2.0 * h);
    Doubled(x, h, 4); Doubled(x, h, 2); Doubled(x, h, 0);
    MonoIsPower(x, h, 4);
    PureStep(x, h, 4);
    NextMono(x, h, 4, 0);
    NextMono(x, h, 0, 4);
    FifthFromPairs(x, h, Mono(x, h, 4, 1), Mono(x, h, 0, 5), PowerOf(x, 4), PowerOf(h, 4));
  }

  lemma PureStep(x: real, h: real, j: nat)
    ensures Mono(x, h, 0, j) == PowerOf(h, j)
  {
    assert PowerOf(x, 0) == 1.0;
  }

  lemma FifthFromPairs(x: real, h: real, p: real, q: real, x4: real, h4: real)
    requires p == h * Mono(x, h, 4, 0) && q == h * Mono(x, h, 0, 4) && x4 == Mono(x, h, 4, 0) && h4 == Mono(x, h, 0, 4)
    requires 8.0 * Apart(x, h, 5) - Apart(x, 2.0 * h, 5) == 60.0 * p - 48.0 * q
    ensures Stencil(PowerOf(x - 2.0 * h, 5), PowerOf(x - h, 5), PowerOf(x + h, 5), PowerOf(x + 2.0 * h, 5))
         == (12.0 * h) * (5.0 * x4 - 4.0 * h4)
  {
    hide PowerOf, Mono;
    TwoTerms(h, Mono(x, h, 4, 0), Mono(x, h, 0, 4), p, q, x4, h4);
  }

  lemma TwoTerms(h: real, u: real, v: real, p: real, q: real, u': real, v': real)
    requires p == h * u && q == h * v && u' == u && v' == v
    ensures (12.0 * h) * (5.0 * u' - 4.0 * v') == 60.0 * p - 48.0 * q
  {
  }

  /** On a quintic the five-point quotient is off by exactly 4 c[5] h^4. */
  lemma Sample5OnQuintics(f: real -> real, c: Coeffs, x: real, h: real)
    requires IsQuintic(f, c) && h != 0.0
    ensures Sample5(f, x, h) == DerivativeSum(c, x, |c|) - 4.0 * (At(c, 5) * PowerOf(h, 4))
  {
    hide PolySum, DerivativeSum, Stencil, Sample5, PowerOf;
    if |c| <= 5 {
      Sample5Exact(f, c, x, h);
      assert At(c, 5) == 0.0;
    } else {
      var s, t := DerivativeSum(c, x, 5), 5.0 * PowerOf(x, 4) - 4.0 * PowerOf(h, 4);
      StencilPolynomial(c, x, h, 5);
      StencilFifth(x, h);
      SixthTerm(c, x, h, s, t);
      SampleIs(f, x, h, PolySum(c, x - 2.0 * h, 6), PolySum(c, x - h, 6), PolySum(c, x + h, 6), PolySum(c, x + 2.0 * h, 6));
      DerivativeStep(c, x, 6);
      QuinticTerm(s, At(c, 5), PowerOf(x, 4), PowerOf(h, 4), t);
    }
  }

  lemma SixthTerm(c: Coeffs, x: real, h: real, s: real, t: real)
    requires h != 0.0
    requires Stencil(PolySum(c, x - 2.0 * h, 5), PolySum(c, x - h, 5), PolySum(c, x + h, 5), PolySum(c, x + 2.0 * h, 5))
          == (12.0 * h) * s
    requires Stencil(PowerOf(x - 2.0 * h, 5), PowerOf(x - h, 5), PowerOf(x + h, 5), PowerOf(x + 2.0 * h, 5))
          == (12.0 * h) * t
    ensures Stencil(PolySum(c, x - 2.0 * h, 6), PolySum(c, x - h, 6), PolySum(c, x + h, 6), PolySum(c, x + 2.0 * h, 6))
            / (12.0 * h) == s + At(c, 5) * t
  {
    hide PolySum, PowerOf, At;
    var a, b, d, e := x - 2.0 * h, x - h, x + h, x + 2.0 * h;
    var v := At(c, 5);
    PolySumStep(c, a, 6); PolySumStep(c, b, 6); PolySumStep(c, d, 6); PolySumStep(c, e, 6);
    StencilStep(v, 12.0 * h, PolySum(c, a, 5), PolySum(c, b, 5), PolySum(c, d, 5), PolySum(c, e, 5),
                PowerOf(a, 5), PowerOf(b, 5), PowerOf(d, 5), PowerOf(e, 5), s, t);
    CancelFactor(12.0 * h, s + v * t, Stencil(PolySum(c, a, 6), PolySum(c, b, 6), PolySum(c, d, 6), PolySum(c, e, 6)));
  }

  lemma QuinticTerm(s: real, v: real, p: real, q: real, t: real)
    requires t == 5.0 * p - 4.0 * q
    ensures s + v * t == s + v * (5.0 * p) - 4.0 * (v * q)
  {
  }

  lemma FourthPowerPositive(h: real)
    requires h != 0.0
    ensures PowerOf(h, 4) > 0.0
  {
    hide PowerOf;
    PowerStep(h, 0); PowerStep(h, 1); PowerStep(h, 2); PowerStep(h, 3);
    UnitPower(h);
    FourthPositive(h, PowerOf(h, 2), PowerOf(h, 3), PowerOf(h, 4));
  }

  lemma UnitPower(h: real)
    ensures PowerOf(h, 1) == h
  {
    assert PowerOf(h, 0) == 1.0;
  }

  lemma FourthPositive(h: real, p2: real, p3: real, p4: real)
    requires h != 0.0 && p2 == h * h && p3 == h * p2 && p4 == h * p3
    ensures p4 > 0.0
  {
    SquareSign(h, p2);
    assert h * (h * p2) == (h * h) * p2;
    SameProduct(h * h, p2, p2, p2);
    ProductPositive(p2, p2, p4);
  }

  /** The returned value is off by 4 c[5] h^4 for the last step h: exact iff there is no fifth
      power. Combining the last two estimates would have been exact on every quintic. */
  lemma DerivativeErrorOnQuintics(f: real -> real, c: Coeffs, x: real, h0: real, tol: real, value: real, err: real,
                                  n: nat)
    requires IsQuintic(f, c) && h0 != 0.0 && StoppedAfter(f, x, h0, tol, value, err, n)
    ensures value == DerivativeSum(c, x, |c|) - 4.0 * (At(c, 5) * PowerOf(Halved(h0, n), 4))
    ensures value == DerivativeSum(c, x, |c|) <==> At(c, 5) == 0.0
    ensures (16.0 * value - Sample5(f, x, Halved(h0, n - 1))) / 15.0 == DerivativeSum(c, x, |c|)
  {
    hide PowerOf, Sample5, IsQuintic, DerivativeSum, Halved;
    var h, v := Halved(h0, n), At(c, 5);
    HalvedSteps(h0, n);
    Sample5OnQuintics(f, c, x, h);
    Sample5OnQuintics(f, c, x, Halved(h0, n - 1));
    FourthPowerPositive(h);
    DoubledFourth(h, Halved(h0, n - 1));
    ErrorTerm(v, PowerOf(h, 4), PowerOf(Halved(h0, n - 1), 4));
  }

  lemma ErrorTerm(v: real, p: real, q: real)
    requires p > 0.0 && q == 16.0 * p
    ensures v * q == 16.0 * (v * p) && (v * p == 0.0 <==> v == 0.0)
  {
    assert v * (16.0 * p) == 16.0 * (v * p);
    SameProduct(v, v, q, 16.0 * p);
    if v != 0.0 { assert v * p != 0.0; }
  }

  lemma DoubledFourth(h: real, g: real)
    requires h == g / 2.0
    ensures PowerOf(g, 4) == 16.0 * PowerOf(h, 4)
  {
    hide PowerOf, Mono;
    assert g == 2.0 * h;
    Doubled(1.0, h, 0);
    PureStep(1.0, h, 4);
    PureStep(1.0, 2.0 * h, 4);
  }
}
