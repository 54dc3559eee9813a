/** Facts about products of reals that the solver is given by name. */
module Arithmetic {

  lemma SameProduct(a: real, b: real, c: real, d: real)
    requires a == b && c == d
    ensures a * c == b * d
  {
  }

  lemma SquareNonnegative(v: real)
    ensures v * v >= 0.0 && (v * v == 0.0 <==> v == 0.0)
  {
    SquareSign(v, v * v);
  }

  lemma SquareSign(v: real, q: real)
    requires q == v * v
    ensures q >= 0.0 && (q == 0.0 <==> v == 0.0)
  {
    if v > 0.0 {
      ProductPositive(v, v, q);
    } else if v < 0.0 {
      ProductOfNegatives(v, v, q);
    }
  }

  lemma ProductPositive(a: real, b: real, p: real)
    requires a > 0.0 && b > 0.0 && p == a * b
    ensures p > 0.0
  {
  }

  lemma ProductOfNegatives(a: real, b: real, p: real)
    requires a < 0.0 && b < 0.0 && p == a * b
    ensures p > 0.0
  {
  }

  lemma ProductNegative(a: real, b: real, p: real)
    requires a < 0.0 && b > 0.0 && p == a * b
    ensures p < 0.0
  {
  }

  lemma ProductNonnegative(a: real, b: real)
    requires a >= 0.0 && b >= 0.0
    ensures a * b >= 0.0 && (a * b == 0.0 <==> a == 0.0 || b == 0.0)
  {
  }

  lemma Cancel(a: real, b: real, c: real)
    requires c > 0.0 && a * c == b * c
    ensures a == b
  {
    assert (a - b) * c == 0.0;
  }
}
