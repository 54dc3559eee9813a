/** Row permutations and their parity, counted by inversions. */
module Permutations {

  /** Each of 0 .. |p|-1 occurs exactly once. */
  ghost predicate IsPermutation(p: seq<nat>) {
    && (forall i | 0 <= i < |p| :: p[i] < |p|)
    && (forall i, j | 0 <= i < j < |p| :: p[i] != p[j])
    && (forall v: nat | v < |p| :: v in p)
  }

  function Swap<T>(p: seq<T>, i: nat, j: nat): (r: seq<T>)
    requires i < |p| && j < |p|
    ensures |r| == |p|
    ensures forall k | 0 <= k < |p| :: r[k] == if k == i then p[j] else if k == j then p[i] else p[k]
  {
    p[i := p[j]][j := p[i]]
  }

  lemma SwapIsPermutation(p: seq<nat>, i: nat, j: nat)
    requires IsPermutation(p) && i < |p| && j < |p|
    ensures IsPermutation(Swap(p, i, j))
  {
    var r := Swap(p, i, j);
    forall v: nat | v < |p|
      ensures v in r
    {
      assert v in p;
      var k :| 0 <= k < |p| && p[k] == v;
      assert r[if k == i then j else if k == j then i else k] == v;
    }
  }

  // ----- Parity -----

  /** How many elements of s are smaller than x. */
  function CountBelow(x: nat, s: seq<nat>): nat {
    if s == [] then 0 else (if s[0] < x then 1 else 0) + CountBelow(x, s[1..])
  }

  /** How many pairs stand in the wrong order. */
  function Inversions(p: seq<nat>): nat {
    if p == [] then 0 else CountBelow(p[0], p[1..]) + Inversions(p[1..])
  }

  function Parity(p: seq<nat>): real {
    if Inversions(p) % 2 == 0 then 1.0 else -1.0
  }

  lemma {:induction false} CountBelowSwap(x: nat, s: seq<nat>, i: nat)
    requires i + 1 < |s|
    ensures CountBelow(x, Swap(s, i, i + 1)) == CountBelow(x, s)
  {
    var r := Swap(s, i, i + 1);
    if i == 0 {
      assert r[1..][1..] == s[1..][1..];
    } else {
      assert r[1..] == Swap(s[1..], i - 1, i);
      CountBelowSwap(x, s[1..], i - 1);
    }
  }

  /** Exchanging unequal neighbours adds or removes exactly one inversion. */
  lemma {:induction false} SwapAdjacentInversions(p: seq<nat>, i: nat)
    requires i + 1 < |p| && p[i] != p[i + 1]
    ensures Inversions(Swap(p, i, i + 1)) == Inversions(p) + if p[i] < p[i + 1] then 1 else -1
  {
    hide Swap;
    var r := Swap(p, i, i + 1);
    if i == 0 {
      var rest := p[2..];
      assert p[1..] == [p[1]] + rest && r[1..] == [p[0]] + rest;
      assert ([p[1]] + rest)[1..] == rest && ([p[0]] + rest)[1..] == rest;
      assert Inversions(p) == CountBelow(p[0], p[1..]) + (CountBelow(p[1], rest) + Inversions(rest));
      assert Inversions(r) == CountBelow(p[1], r[1..]) + (CountBelow(p[0], rest) + Inversions(rest));
    } else {
      assert r[1..] == Swap(p[1..], i - 1, i);
      SwapAdjacentInversions(p[1..], i - 1);
      CountBelowSwap(p[0], p[1..], i - 1);
    }
  }

  lemma SwapAdjacentFlips(p: seq<nat>, i: nat)
    requires i + 1 < |p| && p[i] != p[i + 1]
    ensures Parity(Swap(p, i, i + 1)) == -Parity(p)
  {
    hide Inversions, Swap;
    SwapAdjacentInversions(p, i);
    OddStep(Inversions(p), Inversions(Swap(p, i, i + 1)));
  }

  lemma OddStep(a: nat, b: nat)
    requires b == a + 1 || a == b + 1
    ensures a % 2 == 0 <==> b % 2 != 0
  {
  }

  /** Exchanging any two positions flips the parity: it is an odd number of neighbour exchanges. */
  lemma {:induction false} SwapFlips(p: seq<nat>, i: nat, j: nat)
    requires i < j < |p| && forall a, b | 0 <= a < b < |p| :: p[a] != p[b]
    ensures Parity(Swap(p, i, j)) == -Parity(p)
    decreases j - i
  {
    SwapAdjacentFlips(p, i);
    if j > i + 1 {
      var b := Swap(p, i, i + 1);
      var c := Swap(b, i + 1, j);
      SwapFlips(b, i + 1, j);
      SwapAdjacentFlips(c, i);
      assert Swap(c, i, i + 1) == Swap(p, i, j);
    }
  }

  lemma {:induction false} IncreasingHasNoInversions(p: seq<nat>)
    requires forall i, j | 0 <= i < j < |p| :: p[i] < p[j]
    ensures Inversions(p) == 0
  {
    if p != [] {
      NoneBelow(p[0], p[1..]);
      IncreasingHasNoInversions(p[1..]);
    }
  }

  lemma {:induction false} NoneBelow(x: nat, s: seq<nat>)
    requires forall i | 0 <= i < |s| :: x < s[i]
    ensures CountBelow(x, s) == 0
  {
    if s != [] {
      NoneBelow(x, s[1..]);
    }
  }
}
