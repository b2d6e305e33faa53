/** Locality of the single-qubit gates: they commute across qubits and act on one factor of a tensor product. */
module QuantumLaws {
  import opened Arith
  import opened Qubits
  import opened Complex
  import opened QuantumGates

  // ---------------------------------------------------------------- gates on different qubits commute

  lemma TermsCommute(a: C, b: C, c: C, x: C, y: C)
    ensures a.Mul(b.Mul(x).Add(c.Mul(y))) == b.Mul(a.Mul(x)).Add(c.Mul(a.Mul(y)))
  {
    MulAdd(a, b.Mul(x), c.Mul(y));
    MulLeftCommutes(a, b, x);
    MulLeftCommutes(a, c, y);
  }

  lemma RowsCommute(g1: Matrix, r1: nat, g2: Matrix, r2: nat, s00: C, s01: C, s10: C, s11: C)
    requires TwoByTwo(g1) && TwoByTwo(g2) && r1 < 2 && r2 < 2
    ensures Row(g1, r1, Row(g2, r2, s00, s01), Row(g2, r2, s10, s11))
      == Row(g2, r2, Row(g1, r1, s00, s10), Row(g1, r1, s01, s11))
  {
    var a, b, c, d := g1[r1][0], g1[r1][1], g2[r2][0], g2[r2][1];
    RowIs(g2, r2, s00, s01);
    RowIs(g2, r2, s10, s11);
    RowIs(g1, r1, Row(g2, r2, s00, s01), Row(g2, r2, s10, s11));
    RowIs(g1, r1, s00, s10);
    RowIs(g1, r1, s01, s11);
    RowIs(g2, r2, Row(g1, r1, s00, s10), Row(g1, r1, s01, s11));
    TermsCommute(a, c, d, s00, s01);
    TermsCommute(b, c, d, s10, s11);
    MulAdd(c, a.Mul(s00), b.Mul(s10));
    MulAdd(d, a.Mul(s01), b.Mul(s11));
  }

  /** Amplitude k after two gates, from the four old amplitudes that agree with k off both qubits. */
  lemma ApplyTwice(g1: Matrix, q1: nat, g2: Matrix, q2: nat, s: seq<C>, n: nat, k: nat)
    requires TwoByTwo(g1) && TwoByTwo(g2) && q1 < n && q2 < n && q1 != q2 && IsState(s, n) && k < |s|
    ensures var a := (x: nat, y: nat) requires x < 2 && y < 2 => At(s, Put(Put(k, q1, x), q2, y));
      Apply(g1, q1, Apply(g2, q2, s))[k] == Row(g1, Bit(k, q1),
        Row(g2, Bit(k, q2), a(0, 0), a(0, 1)), Row(g2, Bit(k, q2), a(1, 0), a(1, 1)))
  {
    ApplyOnce(g2, q1, q2, s, n, k, 0);
    ApplyOnce(g2, q1, q2, s, n, k, 1);
  }

  lemma ApplyOnce(g: Matrix, q1: nat, q2: nat, s: seq<C>, n: nat, k: nat, x: nat)
    requires TwoByTwo(g) && q1 < n && q2 < n && q1 != q2 && IsState(s, n) && k < |s| && x < 2
    ensures At(Apply(g, q2, s), Put(k, q1, x)) == Row(g, Bit(k, q2),
      At(s, Put(Put(k, q1, x), q2, 0)), At(s, Put(Put(k, q1, x), q2, 1)))
  {
    PutBound(k, q1, x, n);
    BitPut(k, q1, x, q2);
  }

  lemma GatesCommute(g1: Matrix, q1: nat, g2: Matrix, q2: nat, s: seq<C>, n: nat)
    requires TwoByTwo(g1) && TwoByTwo(g2) && q1 < n && q2 < n && q1 != q2 && IsState(s, n)
    ensures Apply(g1, q1, Apply(g2, q2, s)) == Apply(g2, q2, Apply(g1, q1, s))
  {
    forall k: nat | k < |s|
      ensures Apply(g1, q1, Apply(g2, q2, s))[k] == Apply(g2, q2, Apply(g1, q1, s))[k]
    {
      ApplyTwice(g1, q1, g2, q2, s, n, k);
      ApplyTwice(g2, q2, g1, q1, s, n, k);
      AtCommutes(s, k, q1, 0, q2, 0);
      AtCommutes(s, k, q1, 0, q2, 1);
      AtCommutes(s, k, q1, 1, q2, 0);
      AtCommutes(s, k, q1, 1, q2, 1);
      RowsCommute(g1, Bit(k, q1), g2, Bit(k, q2), At(s, Put(Put(k, q1, 0), q2, 0)), At(s, Put(Put(k, q1, 0), q2, 1)),
        At(s, Put(Put(k, q1, 1), q2, 0)), At(s, Put(Put(k, q1, 1), q2, 1)));
    }
  }

  lemma AtCommutes(s: seq<C>, k: nat, q1: nat, x: nat, q2: nat, y: nat)
    requires q1 != q2 && x < 2 && y < 2
    ensures At(s, Put(Put(k, q1, x), q2, y)) == At(s, Put(Put(k, q2, y), q1, x))
  {
    PutCommutes(k, q1, x, q2, y);
  }

  // ---------------------------------------------------------------- tensor products

  function Scaled(z: C, b: seq<C>): (r: seq<C>)
    ensures |r| == |b|
  {
    if b == [] then [] else Scaled(z, b[..|b| - 1]) + [z.Mul(b[|b| - 1])]
  }

  lemma {:induction false} ScaledAt(z: C, b: seq<C>, j: nat)
    requires j < |b|
    ensures Scaled(z, b)[j] == z.Mul(b[j])
  {
    if j < |b| - 1 { ScaledAt(z, b[..|b| - 1], j); }
  }

  function Tensor(a: seq<C>, b: seq<C>): (t: seq<C>) {
    if a == [] then [] else Tensor(a[..|a| - 1], b) + Scaled(a[|a| - 1], b)
  }

  lemma {:induction false} TensorLength(a: seq<C>, b: seq<C>)
    ensures |Tensor(a, b)| == |a| * |b|
  {
    if a != [] {
      TensorLength(a[..|a| - 1], b);
      Successor(|a| - 1, |b|);
    }
  }

  lemma AtConcat(x: seq<C>, y: seq<C>, k: nat)
    ensures At(x + y, k) == if k < |x| then At(x, k) else At(y, k - |x|)
  {
  }

  /** Amplitude i * |b| + j of the product state is a[i] * b[j]. */
  lemma {:induction false} TensorAt(a: seq<C>, b: seq<C>, i: nat, j: nat)
    requires i < |a| && j < |b|
    ensures At(Tensor(a, b), i * |b| + j) == a[i].Mul(b[j])
  {
    var front, last := a[..|a| - 1], a[|a| - 1];
    TensorLength(front, b);
    AtConcat(Tensor(front, b), Scaled(last, b), i * |b| + j);
    if i < |a| - 1 {
      TensorAt(front, b, i, j);
      RowBefore(i, j, |a| - 1, |b|);
    } else {
      ScaledAt(last, b, j);
    }
  }

  lemma RowBefore(i: nat, j: nat, rows: nat, width: nat)
    requires i < rows && j < width
    ensures i * width + width <= rows * width
    ensures i * width + j < rows * width
  {
    Distribute(width, i, 1);
    MulMono(width, i + 1, rows);
  }

  method TensorProduct(a: seq<C>, b: seq<C>) returns (result: seq<C>)
    ensures result == Tensor(a, b)
  {
    var product := new C[|a| * |b|](_ => ZERO);
    for i := 0 to |a|
      invariant i * |b| <= product.Length && product[..i * |b|] == Tensor(a[..i], b)
    {
      if b != [] { RowBefore(i, 0, |a|, |b|); }
      FillRow(a[i], b, i * |b|, product);
      TensorNext(a, b, i);
      NextRow(i, |b|);
    }
    assert a[..|a|] == a;
    result := product[..];
  }

  lemma TensorNext(a: seq<C>, b: seq<C>, i: nat)
    requires i < |a|
    ensures Tensor(a[..i + 1], b) == Tensor(a[..i], b) + Scaled(a[i], b)
  {
    assert a[..i + 1][..i] == a[..i];
  }

  lemma NextRow(i: nat, width: nat)
    ensures (i + 1) * width == i * width + width
  {
  }

  method FillRow(z: C, b: seq<C>, start: nat, product: array<C>)
    requires start + |b| <= product.Length
    modifies product
    ensures product[..start + |b|] == old(product[..start]) + Scaled(z, b)
  {
    for j := 0 to |b|
      invariant product[..start + j] == old(product[..start]) + Scaled(z, b[..j])
    {
      product[start + j] := z.Mul(b[j]);
      assert b[..j + 1][..j] == b[..j];
    }
    assert b[..|b|] == b;
  }

  // ---------------------------------------------------------------- a gate touches one factor

  /** Every index of the product is a pair of factor indices. */
  lemma {:induction false} JoinSplit(k: nat, m: nat, size: nat) returns (i: nat, j: nat)
    requires k < size * Pow2(m)
    ensures i < size && j < Pow2(m) && k == Join(i, j, m)
  {
    if m == 0 {
      i, j := k, 0;
    } else {
      Twice(size, Pow2(m - 1));
      i, j := JoinSplit(k / 2, m - 1, size);
      j := 2 * j + k % 2;
    }
  }

  lemma MulCommutes(a: C, b: C)
    ensures a.Mul(b) == b.Mul(a)
  {
  }

  /** Row i of a tensor product is the right factor scaled, column j the left one. */
  lemma TensorRowColumn(a: seq<C>, b: seq<C>, m: nat, i: nat, j: nat)
    requires IsState(b, m) && i < |a| && j < |b|
    ensures At(Tensor(a, b), Join(i, j, m)) == At(Scaled(a[i], b), j)
    ensures At(Tensor(a, b), Join(i, j, m)) == At(Scaled(b[j], a), i)
  {
    JoinIs(i, j, m);
    TensorAt(a, b, i, j);
    ScaledAt(a[i], b, j);
    ScaledAt(b[j], a, i);
    MulCommutes(a[i], b[j]);
  }

  lemma RowScaled(g: Matrix, r: nat, z: C, x: C, y: C)
    requires TwoByTwo(g) && r < 2
    ensures Row(g, r, z.Mul(x), z.Mul(y)) == z.Mul(Row(g, r, x, y))
  {
    RowIs(g, r, x, y);
    RowIs(g, r, z.Mul(x), z.Mul(y));
    MulLeftCommutes(g[r][0], z, x);
    MulLeftCommutes(g[r][1], z, y);
    MulAdd(z, g[r][0].Mul(x), g[r][1].Mul(y));
  }

  /** A gate is linear. */
  lemma GateOnScaled(g: Matrix, q: nat, z: C, s: seq<C>, n: nat, k: nat)
    requires TwoByTwo(g) && q < n && IsState(s, n) && k < |s|
    ensures Gathered(g, q, Scaled(z, s), k) == At(Scaled(z, Apply(g, q, s)), k)
  {
    var p0, p1 := Put(k, q, 0), Put(k, q, 1);
    PutBound(k, q, 0, n);
    PutBound(k, q, 1, n);
    ScaledAt(z, s, p0);
    ScaledAt(z, s, p1);
    ScaledAt(z, Apply(g, q, s), k);
    RowScaled(g, Bit(k, q), z, s[p0], s[p1]);
  }

  /** Where a gate sees the same bit and the same pair, it computes the same amplitude. */
  lemma SamePair(g: Matrix, s: seq<C>, q: nat, k: nat, t: seq<C>, r: nat, j: nat)
    requires TwoByTwo(g) && Bit(k, q) == Bit(j, r)
    requires At(s, Put(k, q, 0)) == At(t, Put(j, r, 0)) && At(s, Put(k, q, 1)) == At(t, Put(j, r, 1))
    ensures Gathered(g, q, s, k) == Gathered(g, r, t, j)
  {
  }

  lemma RightFactorIndices(a: seq<C>, b: seq<C>, m: nat, q: nat, i: nat, j: nat, x: nat, k: nat)
    requires IsState(b, m) && q < m && i < |a| && j < |b| && x < 2 && k == Join(i, j, m)
    ensures At(Tensor(a, b), Put(k, q, x)) == At(Scaled(a[i], b), Put(j, q, x))
    ensures Bit(k, q) == Bit(j, q)
  {
    JoinBit(i, j, m, q);
    JoinPut(i, j, m, q, x);
    PutBound(j, q, x, m);
    TensorRowColumn(a, b, m, i, Put(j, q, x));
  }

  /** A gate on a low qubit acts on the right factor only. */
  lemma GateOnRightFactor(g: Matrix, q: nat, a: seq<C>, b: seq<C>, m: nat)
    requires TwoByTwo(g) && IsState(b, m) && q < m
    ensures Apply(g, q, Tensor(a, b)) == Tensor(a, Apply(g, q, b))
  {
    var t, b2 := Tensor(a, b), Apply(g, q, b);
    TensorLength(a, b);
    TensorLength(a, b2);
    forall k: nat | k < |t| ensures Apply(g, q, t)[k] == Tensor(a, b2)[k] {
      var i, j := JoinSplit(k, m, |a|);
      RightFactorEntry(g, q, a, b, m, i, j, k);
    }
  }

  lemma RightFactorEntry(g: Matrix, q: nat, a: seq<C>, b: seq<C>, m: nat, i: nat, j: nat, k: nat)
    requires TwoByTwo(g) && IsState(b, m) && q < m && i < |a| && j < |b| && k == Join(i, j, m)
    ensures Gathered(g, q, Tensor(a, b), k) == At(Tensor(a, Apply(g, q, b)), k)
  {
    RightFactorIndices(a, b, m, q, i, j, 0, k);
    RightFactorIndices(a, b, m, q, i, j, 1, k);
    SamePair(g, Tensor(a, b), q, k, Scaled(a[i], b), q, j);
    GateOnScaled(g, q, a[i], b, m, j);
    TensorRowColumn(a, Apply(g, q, b), m, i, j);
  }

  lemma LeftFactorIndices(a: seq<C>, b: seq<C>, n: nat, m: nat, r: nat, i: nat, j: nat, x: nat, k: nat, q: nat)
    requires IsState(a, n) && IsState(b, m) && r < n && q == m + r && i < |a| && j < |b| && x < 2 && k == Join(i, j, m)
    ensures At(Tensor(a, b), Put(k, q, x)) == At(Scaled(b[j], a), Put(i, r, x))
    ensures Bit(k, q) == Bit(i, r)
  {
    JoinHigh(i, j, m, r, x, q);
    PutBound(i, r, x, n);
    TensorRowColumn(a, b, m, Put(i, r, x), j);
  }

  lemma LeftFactorGathered(g: Matrix, q: nat, a: seq<C>, b: seq<C>, n: nat, m: nat, r: nat, i: nat, j: nat, k: nat)
    requires TwoByTwo(g) && IsState(a, n) && IsState(b, m) && r < n && q == m + r && i < |a| && j < |b|
    requires k == Join(i, j, m)
    ensures Gathered(g, q, Tensor(a, b), k) == Gathered(g, r, Scaled(b[j], a), i)
  {
    LeftFactorIndices(a, b, n, m, r, i, j, 0, k, q);
    LeftFactorIndices(a, b, n, m, r, i, j, 1, k, q);
    SamePair(g, Tensor(a, b), q, k, Scaled(b[j], a), r, i);
  }

  lemma LeftFactorEntry(g: Matrix, q: nat, a: seq<C>, b: seq<C>, n: nat, m: nat, r: nat, i: nat, j: nat, k: nat)
    requires TwoByTwo(g) && IsState(a, n) && IsState(b, m) && r < n && q == m + r && i < |a| && j < |b|
    requires k == Join(i, j, m)
    ensures Gathered(g, q, Tensor(a, b), k) == At(Tensor(Apply(g, r, a), b), k)
  {
    LeftFactorGathered(g, q, a, b, n, m, r, i, j, k);
    GateOnScaled(g, r, b[j], a, n, i);
    TensorRowColumn(Apply(g, r, a), b, m, i, j);
  }

  lemma SameSize(a: seq<C>, a2: seq<C>, b: seq<C>)
    requires |a| == |a2|
    ensures |Tensor(a, b)| == |Tensor(a2, b)|
  {
  }

  lemma AppliedIs(g: Matrix, q: nat, t: seq<C>, u: seq<C>)
    requires TwoByTwo(g) && |t| == |u| && forall k: nat | k < |t| :: Gathered(g, q, t, k) == At(u, k)
    ensures Apply(g, q, t) == u
  {
  }

  lemma LeftFactorAt(g: Matrix, q: nat, a: seq<C>, b: seq<C>, n: nat, m: nat, r: nat, k: nat)
    requires TwoByTwo(g) && IsState(a, n) && IsState(b, m) && r < n && q == m + r && k < |Tensor(a, b)|
    ensures Gathered(g, q, Tensor(a, b), k) == At(Tensor(Apply(g, r, a), b), k)
  {
    TensorLength(a, b);
    var i, j := JoinSplit(k, m, |a|);
    LeftFactorEntry(g, q, a, b, n, m, r, i, j, k);
  }

  /** A gate on a high qubit acts on the left factor only. */
  lemma GateOnLeftFactor(g: Matrix, r: nat, a: seq<C>, b: seq<C>, n: nat, m: nat)
    requires TwoByTwo(g) && IsState(a, n) && IsState(b, m) && r < n
    ensures Apply(g, m + r, Tensor(a, b)) == Tensor(Apply(g, r, a), b)
  {
    var q, t, a2 := m + r, Tensor(a, b), Apply(g, r, a);
    SameSize(a, a2, b);
    forall k: nat | k < |t| ensures Gathered(g, q, t, k) == At(Tensor(a2, b), k) {
      LeftFactorAt(g, q, a, b, n, m, r, k);
    }
    AppliedIs(g, q, t, Tensor(a2, b));
  }
}
