/** Small integer facts the solver is slow to find by itself. */
module Arith {

  lemma MulMono(d: int, a: int, b: int)
    requires d >= 0 && a <= b
    ensures d * a <= d * b
  {
  }

  lemma Distribute(d: int, a: int, b: int)
    ensures d * (a + b) == d * a + d * b
    ensures d * (a - b) == d * a - d * b
  {
  }

  lemma Successor(m: int, n: int)
    ensures (m + 1) * n == m * n + n
  {
  }

  lemma MulMonoLeft(a: int, b: int, d: int)
    requires d >= 0 && a <= b
    ensures a * d <= b * d
  {
    MulMono(d, a, b);
  }

  /** Division is characterised by its window. */
  lemma QuotientUnique(n: int, d: int, q: int)
    requires d > 0 && d * q <= n < d * q + d
    ensures n / d == q
  {
    var p := n / d;
    Distribute(d, p, 1);
    Distribute(d, q, 1);
    if p < q { MulMono(d, p + 1, q); } else if p > q { MulMono(d, q + 1, p); }
  }

  lemma DivWindow(n: int, d: int)
    requires d > 0
    ensures d * (n / d) <= n < d * (n / d) + d
  {
  }

  lemma Square(a: int)
    ensures (a + 1) * (a + 1) == a * a + 2 * a + 1
    ensures (-a) * (-a) == a * a
    ensures a * a >= 0
  {
  }

  /** Squares of different numbers are at least as far apart as the sum of the numbers. */
  lemma SquareMono(a: int, b: int)
    requires 0 <= a < b
    ensures a * a + a + b <= b * b
  {
    MulMono(b, a + 1, b);
    MulMono(a, a + 1, b);
  }

  function Pow2(n: nat): (p: nat)
    ensures p > 0
  {
    if n == 0 then 1 else 2 * Pow2(n - 1)
  }

  function Min(a: nat, b: nat): nat { if a < b then a else b }

  function Max(a: int, b: int): int { if a < b then b else a }

  function Total(ns: seq<nat>): nat {
    if ns == [] then 0 else Total(ns[..|ns| - 1]) + ns[|ns| - 1]
  }
}
