/** The two-row edit distance, and the metric it computes: the least number of single-symbol
    edits that turn one string into another. */
module EditDistance {

  /** One UTF-16 code unit. */
  newtype CodeUnit = x: int | 0 <= x < 0x1_0000

  type Text = seq<CodeUnit>

  // ----- The recurrence behind the table -----

  function Min(a: nat, b: nat): nat {
    if a < b then a else b
  }

  function Cost(x: CodeUnit, y: CodeUnit): nat {
    if x == y then 0 else 1
  }

  function DropLast(s: Text): Text
    requires s != []
  {
    s[..|s| - 1]
  }

  function Last(s: Text): CodeUnit
    requires s != []
  {
    s[|s| - 1]
  }

  function Levenshtein(a: Text, b: Text): nat
    decreases |a| + |b|
  {
    if a == [] then |b|
    else if b == [] then |a|
    else Min(Min(Levenshtein(a, DropLast(b)) + 1, Levenshtein(DropLast(a), b) + 1),
             Levenshtein(DropLast(a), DropLast(b)) + Cost(Last(a), Last(b)))
  }

  // ----- The loops -----

  method EditDistance(a: Text, b: Text) returns (d: nat)
    ensures d == Levenshtein(a, b)
  {
    hide Levenshtein;
    if a == b {
      DistanceToSelf(a);
      return 0;
    }
    FromEmpty(b);
    ToEmpty(a);
    var m, n := |a|, |b|;
    if m == 0 { return n; }
    if n == 0 { return m; }
    var prev, curr := new nat[n + 1], new nat[n + 1];
    for j := 0 to n + 1
      invariant forall k | 0 <= k < j :: prev[k] == Levenshtein(a[..0], b[..k])
    {
      FromEmpty(b[..j]);
      prev[j] := j;
    }
    for i := 1 to m + 1
      invariant forall k | 0 <= k <= n :: prev[k] == Levenshtein(a[..i - 1], b[..k])
    {
      FillRow(a, b, i, prev, curr);
      for j := 0 to n + 1
        invariant forall k | 0 <= k < j :: prev[k] == curr[k]
        invariant forall k | 0 <= k <= n :: curr[k] == Levenshtein(a[..i], b[..k])
      {
        prev[j] := curr[j];
      }
    }
    assert a[..m] == a && b[..n] == b;
    return prev[n];
  }

  method FillRow(a: Text, b: Text, i: nat, prev: array<nat>, curr: array<nat>)
    requires 1 <= i <= |a| && prev.Length == curr.Length == |b| + 1 && prev != curr
    requires forall k | 0 <= k <= |b| :: prev[k] == Levenshtein(a[..i - 1], b[..k])
    modifies curr
    ensures forall k | 0 <= k <= |b| :: curr[k] == Levenshtein(a[..i], b[..k])
  {
    hide Levenshtein;
    ToEmpty(a[..i]);
    curr[0] := i;
    for j := 1 to |b| + 1
      invariant forall k | 0 <= k < j :: curr[k] == Levenshtein(a[..i], b[..k])
    {
      var cost := if a[i - 1] == b[j - 1] then 0 else 1;
      TableEntry(a, b, i, j);
      curr[j] := Min(Min(curr[j - 1] + 1, prev[j] + 1), prev[j - 1] + cost);
    }
  }

  lemma FromEmpty(b: Text)
    ensures Levenshtein([], b) == |b|
  {
  }

  lemma ToEmpty(a: Text)
    ensures Levenshtein(a, []) == |a|
  {
  }

  lemma Recurrence(a: Text, b: Text)
    requires a != [] && b != []
    ensures Levenshtein(a, b)
         == Min(Min(Levenshtein(a, DropLast(b)) + 1, Levenshtein(DropLast(a), b) + 1),
                Levenshtein(DropLast(a), DropLast(b)) + Cost(Last(a), Last(b)))
  {
    hide Min, Cost, DropLast, Last;
  }

  lemma TableEntry(a: Text, b: Text, i: nat, j: nat)
    requires 1 <= i <= |a| && 1 <= j <= |b|
    ensures Levenshtein(a[..i], b[..j])
         == Min(Min(Levenshtein(a[..i], b[..j - 1]) + 1, Levenshtein(a[..i - 1], b[..j]) + 1),
                Levenshtein(a[..i - 1], b[..j - 1]) + Cost(a[i - 1], b[j - 1]))
  {
    hide Levenshtein;
    Recurrence(a[..i], b[..j]);
    assert DropLast(a[..i]) == a[..i - 1] && DropLast(b[..j]) == b[..j - 1];
  }

  lemma {:induction false} DistanceToSelf(a: Text)
    ensures Levenshtein(a, a) == 0
  {
    if a != [] {
      DistanceToSelf(DropLast(a));
    }
  }

  // ----- Scripts: aligned edits, read from left to right -----

  datatype Script =
    | Start
    | Keep(before: Script, x: CodeUnit)
    | Replace(before: Script, x: CodeUnit, y: CodeUnit)
    | Delete(before: Script, x: CodeUnit)
    | Insert(before: Script, y: CodeUnit)

  function Source(s: Script): Text {
    match s
    case Start => []
    case Keep(r, x) => Source(r) + [x]
    case Replace(r, x, _) => Source(r) + [x]
    case Delete(r, x) => Source(r) + [x]
    case Insert(r, _) => Source(r)
  }

  function Target(s: Script): Text {
    match s
    case Start => []
    case Keep(r, x) => Target(r) + [x]
    case Replace(r, _, y) => Target(r) + [y]
    case Delete(r, _) => Target(r)
    case Insert(r, y) => Target(r) + [y]
  }

  function Edits(s: Script): nat {
    match s
    case Start => 0
    case Keep(r, _) => Edits(r)
    case Replace(r, _, _) => Edits(r) + 1
    case Delete(r, _) => Edits(r) + 1
    case Insert(r, _) => Edits(r) + 1
  }

  /** No script beats the table. */
  lemma {:induction false} ScriptAtLeast(s: Script)
    ensures Levenshtein(Source(s), Target(s)) <= Edits(s)
    decreases s
  {
    var a, b := Source(s), Target(s);
    match s
    case Start =>
    case Keep(r, x) =>
      ScriptAtLeast(r);
      assert DropLast(a) == Source(r) && DropLast(b) == Target(r);
    case Replace(r, x, y) =>
      ScriptAtLeast(r);
      assert DropLast(a) == Source(r) && DropLast(b) == Target(r);
    case Delete(r, x) =>
      ScriptAtLeast(r);
      assert DropLast(a) == Source(r);
      if b == [] { ToEmpty(Source(r)); }
    case Insert(r, y) =>
      ScriptAtLeast(r);
      assert DropLast(b) == Target(r);
  }

  /** Some script achieves the table's value. */
  lemma {:induction false} BestScript(a: Text, b: Text) returns (s: Script)
    ensures Source(s) == a && Target(s) == b && Edits(s) == Levenshtein(a, b)
    decreases |a| + |b|
  {
    hide Levenshtein;
    FromEmpty(b);
    ToEmpty(a);
    if a == [] && b == [] {
      s := Start;
    } else if a == [] {
      FromEmpty(DropLast(b));
      var r := BestScript(a, DropLast(b));
      s := Insert(r, Last(b));
    } else if b == [] {
      ToEmpty(DropLast(a));
      var r := BestScript(DropLast(a), b);
      s := Delete(r, Last(a));
    } else {
      var d := Levenshtein(a, b);
      Recurrence(a, b);
      if d == Levenshtein(a, DropLast(b)) + 1 {
        var r := BestScript(a, DropLast(b));
        s := Insert(r, Last(b));
      } else if d == Levenshtein(DropLast(a), b) + 1 {
        var r := BestScript(DropLast(a), b);
        s := Delete(r, Last(a));
      } else {
        var r := BestScript(DropLast(a), DropLast(b));
        s := if Last(a) == Last(b) then Keep(r, Last(a)) else Replace(r, Last(a), Last(b));
      }
    }
  }

  // ----- Scripts compose and reverse -----

  /** Editing a into b and b into c edits a into c at no more than the joint cost. */
  lemma {:induction false} Compose(s: Script, t: Script) returns (u: Script)
    requires Target(s) == Source(t)
    ensures Source(u) == Source(s) && Target(u) == Target(t) && Edits(u) <= Edits(s) + Edits(t)
    decreases s, t
  {
    if s.Delete? {
      var r := Compose(s.before, t);
      u := Delete(r, s.x);
    } else if t.Insert? {
      var r := Compose(s, t.before);
      u := Insert(r, t.y);
    } else if s.Start? || t.Start? {
      u := Start;
    } else {
      assert DropLast(Target(s)) == Target(s.before) && DropLast(Source(t)) == Source(t.before);
      var r := Compose(s.before, t.before);
      if s.Insert? {
        u := if t.Keep? then Insert(r, t.x) else if t.Replace? then Insert(r, t.y) else r;
      } else {
        u := if t.Delete? then Delete(r, s.x)
             else
               var y := if t.Keep? then t.x else t.y;
               if s.Keep? && t.Keep? then Keep(r, s.x) else Replace(r, s.x, y);
      }
    }
  }

  function Reversed(s: Script): Script {
    match s
    case Start => Start
    case Keep(r, x) => Keep(Reversed(r), x)
    case Replace(r, x, y) => Replace(Reversed(r), y, x)
    case Delete(r, x) => Insert(Reversed(r), x)
    case Insert(r, y) => Delete(Reversed(r), y)
  }

  lemma {:induction false} ReversedSwaps(s: Script)
    ensures Source(Reversed(s)) == Target(s) && Target(Reversed(s)) == Source(s) && Edits(Reversed(s)) == Edits(s)
  {
    if !s.Start? {
      ReversedSwaps(s.before);
    }
  }

  // ----- The metric -----

  lemma {:induction false} ZeroEditsKeep(s: Script)
    requires Edits(s) == 0
    ensures Source(s) == Target(s)
  {
    if !s.Start? {
      ZeroEditsKeep(s.before);
    }
  }

  lemma {:induction false} ZeroIffEqual(a: Text, b: Text)
    ensures Levenshtein(a, b) == 0 <==> a == b
  {
    var s := BestScript(a, b);
    if Levenshtein(a, b) == 0 { ZeroEditsKeep(s); }
    if a == b { DistanceToSelf(a); }
  }

  lemma {:induction false} AtMostReverse(a: Text, b: Text)
    ensures Levenshtein(b, a) <= Levenshtein(a, b)
  {
    var s := BestScript(a, b);
    ReversedSwaps(s);
    ScriptAtLeast(Reversed(s));
  }

  lemma {:induction false} Symmetric(a: Text, b: Text)
    ensures Levenshtein(a, b) == Levenshtein(b, a)
  {
    AtMostReverse(a, b);
    AtMostReverse(b, a);
  }

  lemma {:induction false} TriangleInequality(a: Text, b: Text, c: Text)
    ensures Levenshtein(a, c) <= Levenshtein(a, b) + Levenshtein(b, c)
  {
    var s := BestScript(a, b);
    var t := BestScript(b, c);
    var u := Compose(s, t);
    ScriptAtLeast(u);
  }

  lemma {:induction false} LengthBounds(a: Text, b: Text)
    ensures |a| - |b| <= Levenshtein(a, b) && |b| - |a| <= Levenshtein(a, b)
    ensures Levenshtein(a, b) <= if |a| < |b| then |b| else |a|
    decreases |a| + |b|
  {
    if a != [] && b != [] {
      LengthBounds(a, DropLast(b));
      LengthBounds(DropLast(a), b);
      LengthBounds(DropLast(a), DropLast(b));
    }
  }

  // ----- Single edits anywhere in the string -----

  /** t results from s by inserting, deleting or replacing one symbol at position i. */
  ghost predicate EditAt(s: Text, t: Text, i: nat) {
    || (i <= |s| && |t| == |s| + 1 && t[..i] == s[..i] && t[i + 1..] == s[i..])
    || (i < |s| && |t| == |s| - 1 && t[..i] == s[..i] && t[i..] == s[i + 1..])
    || (i < |s| && |t| == |s| && t[..i] == s[..i] && t[i + 1..] == s[i + 1..])
  }

  ghost predicate SingleEdit(s: Text, t: Text) {
    exists i: nat :: EditAt(s, t, i)
  }

  /** A sequence of strings, each a single edit of the one before. */
  ghost predicate Chain(path: seq<Text>) {
    path != [] && forall k | 0 <= k < |path| - 1 :: SingleEdit(path[k], path[k + 1])
  }

  lemma {:induction false} IdentityScript(a: Text) returns (s: Script)
    ensures Source(s) == a == Target(s) && Edits(s) == 0
  {
    if a == [] {
      s := Start;
    } else {
      var r := IdentityScript(DropLast(a));
      s := Keep(r, Last(a));
    }
  }

  /** The script s followed by keeping c. */
  lemma {:induction false} ThenKeep(s: Script, c: Text) returns (u: Script)
    ensures Source(u) == Source(s) + c && Target(u) == Target(s) + c && Edits(u) == Edits(s)
    decreases |c|
  {
    if c == [] {
      u := s;
    } else {
      var r := ThenKeep(s, DropLast(c));
      u := Keep(r, Last(c));
      assert c == DropLast(c) + [Last(c)];
    }
  }

  lemma SingleEditScript(a: Text, b: Text)
    requires SingleEdit(a, b)
    ensures Levenshtein(a, b) <= 1
  {
    var i: nat :| EditAt(a, b, i);
    var p := IdentityScript(a[..i]);
    if |b| == |a| + 1 {
      AroundEdit(Insert(p, b[i]), a, b, a[i..]);
    } else if |b| == |a| - 1 {
      AroundEdit(Delete(p, a[i]), a, b, a[i + 1..]);
    } else {
      AroundEdit(Replace(p, a[i], b[i]), a, b, a[i + 1..]);
    }
  }

  lemma AroundEdit(s: Script, a: Text, b: Text, rest: Text)
    requires Source(s) + rest == a && Target(s) + rest == b && Edits(s) <= 1
    ensures Levenshtein(a, b) <= 1
  {
    var u := ThenKeep(s, rest);
    ScriptAtLeast(u);
  }

  /** No chain of single edits is shorter than the distance. */
  lemma {:induction false} ChainAtLeast(path: seq<Text>)
    requires Chain(path)
    ensures Levenshtein(path[0], path[|path| - 1]) <= |path| - 1
    decreases |path|
  {
    if |path| == 1 {
      DistanceToSelf(path[0]);
    } else {
      hide SingleEdit, Levenshtein;
      var n := |path| - 2;
      ChainPrefix(path);
      ChainAtLeast(path[..n + 1]);
      SingleEditScript(path[n], path[n + 1]);
      TriangleInequality(path[0], path[n], path[n + 1]);
    }
  }

  lemma ChainPrefix(path: seq<Text>)
    requires Chain(path) && |path| > 1
    ensures Chain(path[..|path| - 1]) && SingleEdit(path[|path| - 2], path[|path| - 1])
  {
    hide SingleEdit;
    var init, n := path[..|path| - 1], |path| - 2;
    assert SingleEdit(path[n], path[n + 1]);
    forall k | 0 <= k < |init| - 1
      ensures SingleEdit(init[k], init[k + 1])
    {
      assert SingleEdit(path[k], path[k + 1]);
    }
  }

  /** Every script unrolls into a chain with one step per edit, the tail c untouched. */
  lemma {:induction false} ScriptChain(s: Script, c: Text) returns (path: seq<Text>)
    ensures Chain(path) && |path| == Edits(s) + 1
    ensures path[0] == Source(s) + c && path[|path| - 1] == Target(s) + c
    decreases s
  {
    hide SingleEdit;
    match s
    case Start =>
      path := [c];
    case Keep(r, x) =>
      path := ScriptChain(r, [x] + c);
      Reassociate(Source(r), x, c);
      Reassociate(Target(r), x, c);
    case Replace(r, x, y) =>
      var p := ScriptChain(r, [x] + c);
      Reassociate(Source(r), x, c);
      EditedBefore(Target(r), x, y, c);
      path := ExtendChain(p, Target(s) + c);
    case Delete(r, x) =>
      var p := ScriptChain(r, [x] + c);
      Reassociate(Source(r), x, c);
      EditedBefore(Target(r), x, x, c);
      path := ExtendChain(p, Target(s) + c);
    case Insert(r, y) =>
      var p := ScriptChain(r, c);
      EditedBefore(Target(r), y, y, c);
      path := ExtendChain(p, Target(s) + c);
  }

  lemma Reassociate(t: Text, x: CodeUnit, c: Text)
    ensures t + ([x] + c) == (t + [x]) + c
  {
  }

  /** Replacing, deleting or inserting a symbol between t and c is a single edit. */
  lemma EditedBefore(t: Text, x: CodeUnit, y: CodeUnit, c: Text)
    ensures SingleEdit(t + ([x] + c), (t + [y]) + c)
    ensures SingleEdit(t + ([x] + c), t + c)
    ensures SingleEdit(t + c, (t + [y]) + c)
  {
    assert EditAt(t + ([x] + c), (t + [y]) + c, |t|);
    assert EditAt(t + ([x] + c), t + c, |t|);
    assert EditAt(t + c, (t + [y]) + c, |t|);
  }

  lemma ExtendChain(path: seq<Text>, t: Text) returns (p: seq<Text>)
    requires Chain(path) && SingleEdit(path[|path| - 1], t)
    ensures Chain(p) && p == path + [t]
  {
    p := path + [t];
    forall k | 0 <= k < |p| - 1
      ensures SingleEdit(p[k], p[k + 1])
    {
      if k < |path| - 1 { assert SingleEdit(path[k], path[k + 1]); }
    }
  }

  /** The distance is the least number of single edits: some chain has that many, and every
      chain has at least that many. */
  lemma DistanceIsLeastEdits(a: Text, b: Text)
    ensures exists path: seq<Text> ::
              Chain(path) && path[0] == a && path[|path| - 1] == b && |path| - 1 == Levenshtein(a, b)
    ensures forall path: seq<Text> | Chain(path) && path[0] == a && path[|path| - 1] == b ::
              Levenshtein(a, b) <= |path| - 1
  {
    var s := BestScript(a, b);
    var path := ScriptChain(s, []);
    assert Source(s) + [] == a && Target(s) + [] == b;
    assert Chain(path) && path[0] == a && path[|path| - 1] == b && |path| - 1 == Levenshtein(a, b);
    forall p: seq<Text> | Chain(p) && p[0] == a && p[|p| - 1] == b
      ensures Levenshtein(a, b) <= |p| - 1
    {
      ChainAtLeast(p);
    }
  }
}
