/** Products, spelled out for the solver. */
module Arithmetic {
  lemma Monotone(x: nat, a: int, b: int)
    requires a <= b
    ensures x * a <= x * b
  {}

  lemma Spread(x: int, a: int, b: int)
    ensures x * (a + b) == x * a + x * b
  {}

  lemma Swap(r: int, k: int, m: int)
    ensures r * (k * m) == k * (r * m)
  {}
}
