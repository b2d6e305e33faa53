/** Bits of basis-state indices: (i >> q) & 1, and i with one bit replaced. */
module Qubits {
  import opened Arith

  function Bit(i: nat, q: nat): (b: nat)
    ensures b < 2
  {
    if q == 0 then i % 2 else Bit(i / 2, q - 1)
  }

  /** A bit as text. */
  function Digit(b: nat): char { if b == 0 then '0' else '1' }

  /** (i & ~(1 << q)) | (b << q) */
  function Put(i: nat, q: nat, b: nat): nat
    requires b < 2
  {
    if q == 0 then 2 * (i / 2) + b else 2 * Put(i / 2, q - 1, b) + i % 2
  }

  /** i ^ (1 << q) */
  function Flip(i: nat, q: nat): nat {
    Put(i, q, 1 - Bit(i, q))
  }

  lemma PutHalves(i: nat, q: nat, b: nat)
    requires b < 2
    ensures Put(i, q, b) / 2 == if q == 0 then i / 2 else Put(i / 2, q - 1, b)
    ensures Put(i, q, b) % 2 == if q == 0 then b else i % 2
  {
  }

  /** The shift-and-mask forms, in terms of powers of two. */
  lemma {:induction false} PutIsMask(i: nat, q: nat, b: nat)
    requires b < 2
    ensures Put(i, q, b) == i - Bit(i, q) * Pow2(q) + b * Pow2(q)
    ensures Bit(i, q) == (i / Pow2(q)) % 2
  {
    if q > 0 {
      PutIsMask(i / 2, q - 1, b);
      MaskDoubled(i / 2, Put(i / 2, q - 1, b), Bit(i, q), b, Pow2(q - 1), Pow2(q));
      HalveThenDivide(i, Pow2(q - 1));
    }
  }

  lemma MaskDoubled(i: nat, put: nat, bit: nat, b: nat, p: nat, p2: nat)
    requires p2 == 2 * p && put == i - bit * p + b * p
    ensures 2 * put == 2 * i - bit * p2 + b * p2
  {
  }

  lemma HalveThenDivide(i: nat, p: nat)
    requires p > 0
    ensures (i / 2) / p == i / (2 * p)
  {
    var k := (i / 2) / p;
    DivWindow(i / 2, p);
    QuotientUnique(i, 2 * p, k);
  }

  lemma {:induction false} BitPut(i: nat, q: nat, b: nat, r: nat)
    requires b < 2
    ensures Bit(Put(i, q, b), r) == if r == q then b else Bit(i, r)
  {
    if q > 0 && r > 0 { BitPut(i / 2, q - 1, b, r - 1); }
  }

  lemma {:induction false} PutSame(i: nat, q: nat)
    ensures Put(i, q, Bit(i, q)) == i
  {
    if q > 0 { PutSame(i / 2, q - 1); }
  }

  lemma {:induction false} PutPut(i: nat, q: nat, b: nat, d: nat)
    requires b < 2 && d < 2
    ensures Put(Put(i, q, b), q, d) == Put(i, q, d)
  {
    PutHalves(i, q, b);
    PutHalves(i, q, d);
    PutHalves(Put(i, q, b), q, d);
    if q > 0 { PutPut(i / 2, q - 1, b, d); }
  }

  lemma {:induction false} PutCommutes(i: nat, q: nat, b: nat, r: nat, d: nat)
    requires b < 2 && d < 2 && q != r
    ensures Put(Put(i, q, b), r, d) == Put(Put(i, r, d), q, b)
  {
    PutHalves(i, q, b);
    PutHalves(i, r, d);
    PutHalves(Put(i, q, b), r, d);
    PutHalves(Put(i, r, d), q, b);
    if q > 0 && r > 0 { PutCommutes(i / 2, q - 1, b, r - 1, d); }
  }

  lemma {:induction false} PutBound(i: nat, q: nat, b: nat, n: nat)
    requires b < 2 && q < n && i < Pow2(n)
    ensures Put(i, q, b) < Pow2(n)
  {
    if q > 0 { PutBound(i / 2, q - 1, b, n - 1); }
  }

  lemma {:induction false} SameBits(i: nat, j: nat, n: nat)
    requires i < Pow2(n) && j < Pow2(n)
    requires forall q: nat | q < n :: Bit(i, q) == Bit(j, q)
    ensures i == j
  {
    if n > 0 {
      forall q: nat | q < n - 1 ensures Bit(i / 2, q) == Bit(j / 2, q) {
        assert Bit(i, q + 1) == Bit(j, q + 1);
      }
      SameBits(i / 2, j / 2, n - 1);
      assert Bit(i, 0) == Bit(j, 0);
    }
  }

  // ---------------------------------------------------------------- two registers side by side

  /** Index i * 2^m + j: the m low bits come from j, the high bits from i. */
  function Join(i: nat, j: nat, m: nat): nat {
    if m == 0 then i else 2 * Join(i, j / 2, m - 1) + j % 2
  }

  lemma {:induction false} JoinIs(i: nat, j: nat, m: nat)
    requires j < Pow2(m)
    ensures Join(i, j, m) == i * Pow2(m) + j
  {
    if m > 0 {
      JoinIs(i, j / 2, m - 1);
      Twice(i, Pow2(m - 1));
    }
  }

  lemma Twice(i: nat, p: nat)
    ensures i * (2 * p) == 2 * (i * p)
  {
  }

  lemma {:induction false} JoinBit(i: nat, j: nat, m: nat, q: nat)
    ensures Bit(Join(i, j, m), q) == if q < m then Bit(j, q) else Bit(i, q - m)
  {
    if m > 0 && q > 0 { JoinBit(i, j / 2, m - 1, q - 1); }
  }

  lemma JoinHalves(i: nat, j: nat, m: nat)
    requires m > 0
    ensures Join(i, j, m) / 2 == Join(i, j / 2, m - 1) && Join(i, j, m) % 2 == j % 2
  {
  }

  lemma {:induction false} JoinPut(i: nat, j: nat, m: nat, q: nat, b: nat)
    requires b < 2
    ensures Put(Join(i, j, m), q, b) == if q < m then Join(i, Put(j, q, b), m) else Join(Put(i, q - m, b), j, m)
  {
    if m > 0 {
      PutHalves(j, q, b);
      PutHalves(Join(i, j, m), q, b);
      JoinHalves(i, j, m);
      if q > 0 { JoinPut(i, j / 2, m - 1, q - 1, b); }
    }
  }

  lemma JoinHigh(i: nat, j: nat, m: nat, r: nat, b: nat, q: nat)
    requires b < 2 && q == m + r
    ensures Put(Join(i, j, m), q, b) == Join(Put(i, r, b), j, m)
    ensures Bit(Join(i, j, m), q) == Bit(i, r)
  {
  }

  // ---------------------------------------------------------------- sums over basis states

  ghost function Sum(f: nat -> real, n: nat): real {
    if n == 0 then 0.0 else Sum(f, n - 1) + f(n - 1)
  }

  lemma {:induction false} SumSame(f: nat -> real, g: nat -> real, n: nat)
    requires forall i: nat | i < n :: f(i) == g(i)
    ensures Sum(f, n) == Sum(g, n)
  {
    if n > 0 { SumSame(f, g, n - 1); }
  }

  lemma {:induction false} SumPlus(f: nat -> real, g: nat -> real, h: nat -> real, n: nat)
    requires forall i: nat | i < n :: h(i) == f(i) + g(i)
    ensures Sum(h, n) == Sum(f, n) + Sum(g, n)
  {
    if n > 0 { SumPlus(f, g, h, n - 1); }
  }

  ghost function Pairs(f: nat -> real): nat -> real {
    (i: nat) => f(2 * i) + f(2 * i + 1)
  }

  lemma {:induction false} SumPairs(f: nat -> real, m: nat)
    ensures Sum(f, 2 * m) == Sum(Pairs(f), m)
  {
    if m > 0 {
      SumPairs(f, m - 1);
      assert Sum(f, 2 * m) == Sum(f, 2 * m - 1) + f(2 * m - 1);
      assert Sum(f, 2 * m - 1) == Sum(f, 2 * m - 2) + f(2 * m - 2);
    }
  }

  lemma PairFlip(f: nat -> real, g: nat -> real, i: nat, q: nat)
    requires g(2 * i) == f(Flip(2 * i, q)) && g(2 * i + 1) == f(Flip(2 * i + 1, q))
    ensures Pairs(g)(i) == if q == 0 then Pairs(f)(i) else Pairs(f)(Flip(i, q - 1))
  {
  }

  lemma SumOfPairs(f: nat -> real, g: nat -> real, n: nat)
    requires n > 0 && Sum(Pairs(g), Pow2(n - 1)) == Sum(Pairs(f), Pow2(n - 1))
    ensures Sum(g, Pow2(n)) == Sum(f, Pow2(n))
  {
    SumPairs(f, Pow2(n - 1));
    SumPairs(g, Pow2(n - 1));
  }

  /** Flipping one bit of every index permutes the basis states, so it leaves a sum alone. */
  lemma {:induction false} SumFlip(f: nat -> real, g: nat -> real, n: nat, q: nat)
    requires q < n
    requires forall i: nat | i < Pow2(n) :: g(i) == f(Flip(i, q))
    ensures Sum(g, Pow2(n)) == Sum(f, Pow2(n))
    decreases q
  {
    var m := Pow2(n - 1);
    assert Pow2(n) == 2 * m;
    if q == 0 {
      forall i: nat | i < m ensures Pairs(g)(i) == Pairs(f)(i) { PairFlip(f, g, i, 0); }
      SumSame(Pairs(g), Pairs(f), m);
    } else {
      forall i: nat | i < m ensures Pairs(g)(i) == Pairs(f)(Flip(i, q - 1)) { PairFlip(f, g, i, q); }
      SumFlip(Pairs(f), Pairs(g), n - 1, q - 1);
    }
    SumOfPairs(f, g, n);
  }
}
