// Division of products and sums, for offsets in tables whose unit is not a constant.
module Arith {

  function Max(a: int, b: int): int {
    if b > a then b else a
  }

  function Min(a: int, b: int): int {
    if a <= b then a else b
  }

  function Quo(x: nat, d: nat): nat
    requires d > 0
  {
    x / d
  }

  lemma MulMono(a: int, b: int, d: nat)
    requires a <= b
    ensures d * a <= d * b
  {
    assert d * b - d * a == d * (b - a);
  }

  // A quotient and a remainder determine each other.
  lemma Quotient(x: int, d: nat, q: int, r: int)
    requires d > 0 && x == d * q + r && 0 <= r < d
    ensures x / d == q && x % d == r
  {
    var p := x / d;
    assert x == d * p + x % d;
    assert d * (p + 1) == d * p + d && d * (q + 1) == d * q + d;
    if p < q {
      MulMono(p + 1, q, d);
    } else if q < p {
      MulMono(q + 1, p, d);
    }
  }

  // Dividing by a product is dividing by its factors in turn.
  lemma Split(i: nat, a: nat, c: nat)
    requires a > 0 && c > 0
    ensures a * c > 0
    ensures i / (a * c) == i / a / c
    ensures i % (a * c) == a * (i / a % c) + i % a
  {
    var q := i / a;
    var r := a * (q % c) + i % a;
    MulMono(q % c, c - 1, a);
    assert a * (c - 1) == a * c - a;
    assert r < a * c;
    assert q == c * (q / c) + q % c;
    assert a * q == a * (c * (q / c)) + a * (q % c);
    assert a * (c * (q / c)) == (a * c) * (q / c);
    MulMono(0, q % c, a);
    Quotient(i, a * c, q / c, r);
  }
}
