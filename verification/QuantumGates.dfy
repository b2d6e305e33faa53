/** Single-qubit gates and CNOT on state vectors (ctf-components/quantum/quantum.cpp), over exact reals. */
module QuantumGates {
  import opened Arith
  import opened Qubits
  import opened Complex

  type Matrix = seq<seq<C>>

  ghost predicate TwoByTwo(g: Matrix) { |g| == 2 && |g[0]| == 2 && |g[1]| == 2 }

  function PauliX(): Matrix { [[ZERO, ONE], [ONE, ZERO]] }
  function PauliY(): Matrix { [[ZERO, C(0.0, -1.0)], [C(0.0, 1.0), ZERO]] }
  function PauliZ(): Matrix { [[ONE, ZERO], [ZERO, C(-1.0, 0.0)]] }
  function Hadamard(h: real): Matrix { [[C(h, 0.0), C(h, 0.0)], [C(h, 0.0), C(-h, 0.0)]] }

  predicate KnownGate(kind: char) { kind == 'X' || kind == 'Y' || kind == 'Z' || kind == 'H' }

  /** The matrix of a gate letter; h stands for 1 / sqrt(2). */
  function GateOf(kind: char, h: real): (g: Matrix)
    requires KnownGate(kind)
    ensures TwoByTwo(g)
  {
    if kind == 'X' then PauliX() else if kind == 'Y' then PauliY() else if kind == 'Z' then PauliZ() else Hadamard(h)
  }

  ghost predicate IsState(s: seq<C>, n: nat) { |s| == Pow2(n) }

  function At(s: seq<C>, k: nat): C { if k < |s| then s[k] else ZERO }

  /** Row times column, summed from the left. */
  ghost function Dot(row: seq<C>, column: seq<C>): C
    requires |row| == |column|
  {
    if row == [] then ZERO
    else Dot(row[..|row| - 1], column[..|row| - 1]).Add(row[|row| - 1].Mul(column[|row| - 1]))
  }

  ghost function Row(g: Matrix, r: nat, a: C, b: C): C
    requires TwoByTwo(g) && r < 2
  {
    Dot(g[r], [a, b])
  }

  lemma RowIs(g: Matrix, r: nat, a: C, b: C)
    requires TwoByTwo(g) && r < 2
    ensures Row(g, r, a, b) == g[r][0].Mul(a).Add(g[r][1].Mul(b))
  {
    var row, column := g[r], [a, b];
    assert column[..1] == [a] && row[..1] == [row[0]] && column[..1][..0] == [] && row[..1][..0] == [];
    assert Dot(row[..1], column[..1]) == row[0].Mul(a);
  }

  /** Amplitude k after the gate: it mixes the two old amplitudes whose indices agree with k off qubit q. */
  ghost function Gathered(g: Matrix, q: nat, s: seq<C>, k: nat): C
    requires TwoByTwo(g)
  {
    Row(g, Bit(k, q), At(s, Put(k, q, 0)), At(s, Put(k, q, 1)))
  }

  ghost function Apply(g: Matrix, q: nat, s: seq<C>): (t: seq<C>)
    requires TwoByTwo(g)
    ensures |t| == |s| && forall k: nat | k < |s| :: t[k] == Gathered(g, q, s, k)
  {
    seq(|s|, k requires 0 <= k < |s| => Gathered(g, q, s, k))
  }

  // ---------------------------------------------------------------- the scatter loop

  /** What old amplitude i sends to the index with the qubit set to j. */
  function Term(g: Matrix, q: nat, s: seq<C>, j: nat, i: nat): C
    requires TwoByTwo(g)
  {
    if j < 2 then g[j][Bit(i, q)].Mul(At(s, i)) else ZERO
  }

  /** What the loop has added to amplitude k once it has handled the old amplitudes below i. */
  ghost function Partial(term: (nat, nat) -> C, q: nat, k: nat, i: nat): C {
    if i == 0 then ZERO
    else if k == Put(i - 1, q, Bit(k, q)) then Partial(term, q, k, i - 1).Add(term(Bit(k, q), i - 1))
    else Partial(term, q, k, i - 1)
  }

  lemma PutInverse(i: nat, q: nat, k: nat)
    ensures k == Put(i, q, Bit(k, q)) <==> i == Put(k, q, Bit(i, q))
    ensures Put(k, q, 1 - Bit(i, q)) != i
  {
    PutPut(i, q, Bit(k, q), Bit(i, q));
    PutPut(k, q, Bit(i, q), Bit(k, q));
    PutSame(i, q);
    PutSame(k, q);
    BitPut(k, q, 1 - Bit(i, q), q);
  }

  /** Exactly two old amplitudes reach amplitude k. */
  lemma {:induction false} PartialIs(term: (nat, nat) -> C, q: nat, k: nat, i: nat)
    ensures Partial(term, q, k, i) ==
      (if Put(k, q, 0) < i then term(Bit(k, q), Put(k, q, 0)) else ZERO).Add(
      if Put(k, q, 1) < i then term(Bit(k, q), Put(k, q, 1)) else ZERO)
  {
    if i > 0 {
      PartialIs(term, q, k, i - 1);
      PutInverse(i - 1, q, k);
      SourceNext(term, q, k, i - 1, Bit(i - 1, q));
    }
  }

  /** Old amplitude i, whose qubit reads v, is a source of amplitude k or changes nothing. */
  lemma SourceNext(term: (nat, nat) -> C, q: nat, k: nat, i: nat, v: nat)
    requires v < 2 && Put(k, q, 1 - v) != i
    ensures
      var b, from0, from1 := Bit(k, q), Put(k, q, 0), Put(k, q, 1);
      var sum := (if from0 < i then term(b, from0) else ZERO).Add(if from1 < i then term(b, from1) else ZERO);
      (if i == Put(k, q, v) then sum.Add(term(b, i)) else sum)
        == (if from0 < i + 1 then term(b, from0) else ZERO).Add(if from1 < i + 1 then term(b, from1) else ZERO)
  {
  }

  lemma PartialStep(term: (nat, nat) -> C, q: nat, k: nat, i: nat)
    ensures Put(i, q, 0) != Put(i, q, 1)
    ensures Partial(term, q, k, i + 1) ==
      if k == Put(i, q, 0) then Partial(term, q, k, i).Add(term(0, i))
      else if k == Put(i, q, 1) then Partial(term, q, k, i).Add(term(1, i))
      else Partial(term, q, k, i)
  {
    BitPut(i, q, 0, q);
    BitPut(i, q, 1, q);
  }

  /** The inner loop for one old amplitude: term(j, i) is what it sends to the index with qubit q set to j. */
  method Scatter(term: (nat, nat) -> C, q: nat, newState: array<C>, i: nat)
    requires Put(i, q, 0) != Put(i, q, 1) && Put(i, q, 0) < newState.Length && Put(i, q, 1) < newState.Length
    modifies newState
    ensures newState[Put(i, q, 0)] == old(newState[Put(i, q, 0)]).Add(term(0, i))
    ensures newState[Put(i, q, 1)] == old(newState[Put(i, q, 1)]).Add(term(1, i))
    ensures forall k: nat | k < newState.Length && k != Put(i, q, 0) && k != Put(i, q, 1) ::
      newState[k] == old(newState[k])
  {
    ghost var p0, p1 := Put(i, q, 0), Put(i, q, 1);
    for j := 0 to 2
      invariant newState[p0] == if j > 0 then old(newState[p0]).Add(term(0, i)) else old(newState[p0])
      invariant newState[p1] == if j > 1 then old(newState[p1]).Add(term(1, i)) else old(newState[p1])
      invariant forall k: nat | k < newState.Length && k != p0 && k != p1 :: newState[k] == old(newState[k])
    {
      var newIndex := Put(i, q, j);
      newState[newIndex] := newState[newIndex].Add(term(j, i));
    }
  }

  method ScatterAll(term: (nat, nat) -> C, q: nat, ghost n: nat, size: nat) returns (newState: array<C>)
    requires q < n && size == Pow2(n)
    ensures fresh(newState) && newState.Length == size
    ensures forall k: nat | k < size :: newState[k] == Partial(term, q, k, size)
  {
    newState := new C[size](_ => ZERO);
    for i := 0 to size
      invariant forall k: nat | k < size :: newState[k] == Partial(term, q, k, i)
    {
      PutBound(i, q, 0, n);
      PutBound(i, q, 1, n);
      PartialStep(term, q, 0, i);
      Scatter(term, q, newState, i);
      forall k: nat | k < size ensures newState[k] == Partial(term, q, k, i + 1) {
        PartialStep(term, q, k, i);
      }
    }
  }

  lemma PartialIsGathered(g: Matrix, q: nat, s: seq<C>, n: nat, term: (nat, nat) -> C, k: nat)
    requires TwoByTwo(g) && q < n && IsState(s, n) && k < |s|
    requires forall j: nat, i: nat :: term(j, i) == Term(g, q, s, j, i)
    ensures Partial(term, q, k, |s|) == Gathered(g, q, s, k)
  {
    PartialIs(term, q, k, |s|);
    PutBound(k, q, 0, n);
    PutBound(k, q, 1, n);
    BitPut(k, q, 0, q);
    BitPut(k, q, 1, q);
    assert term(Bit(k, q), Put(k, q, 0)) == g[Bit(k, q)][0].Mul(At(s, Put(k, q, 0)));
    assert term(Bit(k, q), Put(k, q, 1)) == g[Bit(k, q)][1].Mul(At(s, Put(k, q, 1)));
    RowIs(g, Bit(k, q), At(s, Put(k, q, 0)), At(s, Put(k, q, 1)));
  }

  /** An unknown gate letter leaves the state alone. */
  method ApplySingleQubitGate(kind: char, h: real, qubit: nat, state: seq<C>, ghost n: nat) returns (result: seq<C>)
    requires qubit < n && IsState(state, n)
    ensures result == if KnownGate(kind) then Apply(GateOf(kind, h), qubit, state) else state
  {
    if !KnownGate(kind) {
      return state;
    }
    var gate: Matrix := GateOf(kind, h);
    var term: (nat, nat) -> C := (j: nat, i: nat) => Term(gate, qubit, state, j, i);
    var newState := ScatterAll(term, qubit, n, |state|);
    result := newState[..];
    forall k: nat | k < |state| ensures result[k] == Gathered(gate, qubit, state, k) {
      PartialIsGathered(gate, qubit, state, n, term, k);
    }
  }

  // ---------------------------------------------------------------- algebra on one pair of amplitudes

  predicate IsInvSqrt2(h: real) { 2.0 * (h * h) == 1.0 }

  lemma HadamardTwice(h: real, x: real, y: real)
    requires IsInvSqrt2(h)
    ensures h * (h * x + h * y) + h * (h * x - h * y) == x
    ensures h * (h * x + h * y) - h * (h * x - h * y) == y
  {
  }

  lemma HadamardRow(h: real, a: C, b: C)
    ensures Row(Hadamard(h), 0, a, b) == C(h * a.re + h * b.re, h * a.im + h * b.im)
    ensures Row(Hadamard(h), 1, a, b) == C(h * a.re - h * b.re, h * a.im - h * b.im)
  {
    RowIs(Hadamard(h), 0, a, b);
    RowIs(Hadamard(h), 1, a, b);
  }

  lemma HadamardRowNorm(h: real, a: C, b: C)
    requires IsInvSqrt2(h)
    ensures C(h * a.re + h * b.re, h * a.im + h * b.im).Norm() + C(h * a.re - h * b.re, h * a.im - h * b.im).Norm()
      == a.Norm() + b.Norm()
  {
  }

  lemma XRow(a: C, b: C)
    ensures Row(PauliX(), 0, a, b) == b && Row(PauliX(), 1, a, b) == a
  {
    RowIs(PauliX(), 0, a, b);
    RowIs(PauliX(), 1, a, b);
  }

  lemma YRow(a: C, b: C)
    ensures Row(PauliY(), 0, a, b) == C(b.im, -b.re) && Row(PauliY(), 1, a, b) == C(-a.im, a.re)
  {
    RowIs(PauliY(), 0, a, b);
    RowIs(PauliY(), 1, a, b);
  }

  lemma ZRow(a: C, b: C)
    ensures Row(PauliZ(), 0, a, b) == a && Row(PauliZ(), 1, a, b) == C(-b.re, -b.im)
  {
    RowIs(PauliZ(), 0, a, b);
    RowIs(PauliZ(), 1, a, b);
  }

  lemma PauliRow(a: C, b: C)
    ensures Row(PauliX(), 0, a, b) == b && Row(PauliX(), 1, a, b) == a
    ensures Row(PauliY(), 0, a, b) == C(b.im, -b.re) && Row(PauliY(), 1, a, b) == C(-a.im, a.re)
    ensures Row(PauliZ(), 0, a, b) == a && Row(PauliZ(), 1, a, b) == C(-b.re, -b.im)
  {
    XRow(a, b);
    YRow(a, b);
    ZRow(a, b);
  }

  /** Each gate is its own inverse. */
  lemma RowTwice(kind: char, h: real, a: C, b: C)
    requires KnownGate(kind) && IsInvSqrt2(h)
    ensures var g := GateOf(kind, h); Row(g, 0, Row(g, 0, a, b), Row(g, 1, a, b)) == a
    ensures var g := GateOf(kind, h); Row(g, 1, Row(g, 0, a, b), Row(g, 1, a, b)) == b
  {
    var g := GateOf(kind, h);
    PauliRow(a, b);
    PauliRow(Row(g, 0, a, b), Row(g, 1, a, b));
    HadamardRow(h, a, b);
    HadamardRow(h, Row(g, 0, a, b), Row(g, 1, a, b));
    HadamardTwice(h, a.re, b.re);
    HadamardTwice(h, a.im, b.im);
  }

  /** Each gate preserves the squared length of a pair. */
  lemma RowNorm(kind: char, h: real, a: C, b: C)
    requires KnownGate(kind) && IsInvSqrt2(h)
    ensures var g := GateOf(kind, h); Row(g, 0, a, b).Norm() + Row(g, 1, a, b).Norm() == a.Norm() + b.Norm()
  {
    PauliRow(a, b);
    HadamardRow(h, a, b);
    if kind == 'H' { HadamardRowNorm(h, a, b); }
  }

  // ---------------------------------------------------------------- what each letter does

  lemma RowsOfPair(g: Matrix, q: nat, s: seq<C>, n: nat, k: nat) returns (own: C, other: C)
    requires TwoByTwo(g) && q < n && IsState(s, n) && k < |s|
    ensures Flip(k, q) < |s| && own == s[k] && other == s[Flip(k, q)]
    ensures Apply(g, q, s)[k]
      == if Bit(k, q) == 0 then Row(g, 0, own, other) else Row(g, 1, other, own)
  {
    PutBound(k, q, 1 - Bit(k, q), n);
    PutSame(k, q);
    own, other := s[k], s[Flip(k, q)];
  }

  /** X exchanges the amplitudes of the two values of the qubit. */
  lemma GateX(h: real, q: nat, s: seq<C>, n: nat, k: nat)
    requires q < n && IsState(s, n) && k < |s|
    ensures Flip(k, q) < |s| && Apply(GateOf('X', h), q, s)[k] == s[Flip(k, q)]
  {
    var own, other := RowsOfPair(GateOf('X', h), q, s, n, k);
    XRow(own, other);
    XRow(other, own);
  }

  /** Y exchanges them and multiplies by -i where the qubit is then 0 and by i where it is 1. */
  lemma GateY(h: real, q: nat, s: seq<C>, n: nat, k: nat)
    requires q < n && IsState(s, n) && k < |s|
    ensures Flip(k, q) < |s|
    ensures var z := s[Flip(k, q)];
      Apply(GateOf('Y', h), q, s)[k] == if Bit(k, q) == 0 then C(z.im, -z.re) else C(-z.im, z.re)
  {
    var own, other := RowsOfPair(GateOf('Y', h), q, s, n, k);
    YRow(own, other);
    YRow(other, own);
  }

  /** Z negates the amplitudes where the qubit is 1. */
  lemma GateZ(h: real, q: nat, s: seq<C>, n: nat, k: nat)
    requires q < n && IsState(s, n) && k < |s|
    ensures Apply(GateOf('Z', h), q, s)[k] == if Bit(k, q) == 0 then s[k] else C(-s[k].re, -s[k].im)
  {
    var own, other := RowsOfPair(GateOf('Z', h), q, s, n, k);
    ZRow(own, other);
    ZRow(other, own);
  }

  lemma HadamardPair(h: real, bit: nat, own: C, other: C, row: C)
    requires row == if bit == 0 then Row(Hadamard(h), 0, own, other) else Row(Hadamard(h), 1, other, own)
    ensures row ==
      if bit == 0 then C(h * own.re + h * other.re, h * own.im + h * other.im)
      else C(h * other.re - h * own.re, h * other.im - h * own.im)
  {
    if bit == 0 { HadamardRow(h, own, other); } else { HadamardRow(h, other, own); }
  }

  /** H leaves h times the sum of the pair where the qubit is 0, and h times the difference where it is 1. */
  lemma GateH(h: real, q: nat, s: seq<C>, n: nat, k: nat) returns (own: C, other: C)
    requires q < n && IsState(s, n) && k < |s|
    ensures Flip(k, q) < |s| && own == s[k] && other == s[Flip(k, q)]
    ensures Apply(GateOf('H', h), q, s)[k] ==
      if Bit(k, q) == 0 then C(h * own.re + h * other.re, h * own.im + h * other.im)
      else C(h * other.re - h * own.re, h * other.im - h * own.im)
  {
    own, other := RowsOfPair(GateOf('H', h), q, s, n, k);
    HadamardPair(h, Bit(k, q), own, other, Apply(GateOf('H', h), q, s)[k]);
  }

  // ---------------------------------------------------------------- every gate is an involution

  lemma GatheredPut(g: Matrix, q: nat, s: seq<C>, k: nat, b: nat)
    requires TwoByTwo(g) && b < 2
    ensures Gathered(g, q, s, Put(k, q, b)) == Row(g, b, At(s, Put(k, q, 0)), At(s, Put(k, q, 1)))
  {
    BitPut(k, q, b, q);
    PutPut(k, q, b, 0);
    PutPut(k, q, b, 1);
  }

  lemma AtApply(g: Matrix, q: nat, s: seq<C>, n: nat, k: nat, b: nat)
    requires TwoByTwo(g) && q < n && IsState(s, n) && k < |s| && b < 2
    ensures At(Apply(g, q, s), Put(k, q, b)) == Row(g, b, At(s, Put(k, q, 0)), At(s, Put(k, q, 1)))
  {
    PutBound(k, q, b, n);
    GatheredPut(g, q, s, k, b);
  }

  lemma GateIsInvolution(kind: char, h: real, q: nat, s: seq<C>, n: nat)
    requires KnownGate(kind) && IsInvSqrt2(h) && q < n && IsState(s, n)
    ensures Apply(GateOf(kind, h), q, Apply(GateOf(kind, h), q, s)) == s
  {
    var g := GateOf(kind, h);
    var t := Apply(g, q, s);
    forall k: nat | k < |s| ensures Gathered(g, q, t, k) == s[k] {
      AtApply(g, q, s, n, k, 0);
      AtApply(g, q, s, n, k, 1);
      RowTwice(kind, h, At(s, Put(k, q, 0)), At(s, Put(k, q, 1)));
      PutSame(k, q);
    }
  }

  // ---------------------------------------------------------------- every gate preserves the norm

  /** |amplitude i|^2 */
  ghost function Weight(s: seq<C>): nat -> real {
    (i: nat) => At(s, i).Norm()
  }

  /** The sum of the squared magnitudes. */
  ghost function Norm2(s: seq<C>): real {
    Sum(Weight(s), |s|)
  }

  /** The pair an amplitude belongs to, from either side. */
  lemma PairOf(s: seq<C>, q: nat, k: nat)
    ensures At(s, k) == At(s, Put(k, q, Bit(k, q)))
    ensures Bit(k, q) == 0 ==> At(s, k) == At(s, Put(k, q, 0)) && At(s, Flip(k, q)) == At(s, Put(k, q, 1))
    ensures Bit(k, q) == 1 ==> At(s, k) == At(s, Put(k, q, 1)) && At(s, Flip(k, q)) == At(s, Put(k, q, 0))
  {
    PutSame(k, q);
  }

  lemma PairNorm(kind: char, h: real, q: nat, s: seq<C>, n: nat, k: nat)
    requires KnownGate(kind) && IsInvSqrt2(h) && q < n && IsState(s, n) && k < |s|
    ensures var t := Apply(GateOf(kind, h), q, s);
      At(t, k).Norm() + At(t, Flip(k, q)).Norm() == At(s, k).Norm() + At(s, Flip(k, q)).Norm()
  {
    var g := GateOf(kind, h);
    var t := Apply(g, q, s);
    PairOf(s, q, k);
    PairOf(t, q, k);
    PairRows(g, q, s, n, k);
    RowNorm(kind, h, At(s, Put(k, q, 0)), At(s, Put(k, q, 1)));
  }

  lemma PairRows(g: Matrix, q: nat, s: seq<C>, n: nat, k: nat)
    requires TwoByTwo(g) && q < n && IsState(s, n) && k < |s|
    ensures At(Apply(g, q, s), Put(k, q, 0)) == Row(g, 0, At(s, Put(k, q, 0)), At(s, Put(k, q, 1)))
    ensures At(Apply(g, q, s), Put(k, q, 1)) == Row(g, 1, At(s, Put(k, q, 0)), At(s, Put(k, q, 1)))
  {
    AtApply(g, q, s, n, k, 0);
    AtApply(g, q, s, n, k, 1);
  }

  ghost function Flipped(f: nat -> real, q: nat): nat -> real {
    (i: nat) => f(Flip(i, q))
  }

  ghost function Plus(f: nat -> real, g: nat -> real): nat -> real {
    (i: nat) => f(i) + g(i)
  }

  lemma GatePreservesNorm(kind: char, h: real, q: nat, s: seq<C>, n: nat)
    requires KnownGate(kind) && IsInvSqrt2(h) && q < n && IsState(s, n)
    ensures Norm2(Apply(GateOf(kind, h), q, s)) == Norm2(s)
  {
    var t := Apply(GateOf(kind, h), q, s);
    var f, g := Weight(s), Weight(t);
    SumFlip(f, Flipped(f, q), n, q);
    SumFlip(g, Flipped(g, q), n, q);
    SumPlus(f, Flipped(f, q), Plus(f, Flipped(f, q)), |s|);
    SumPlus(g, Flipped(g, q), Plus(g, Flipped(g, q)), |s|);
    forall k: nat | k < |s| ensures Plus(f, Flipped(f, q))(k) == Plus(g, Flipped(g, q))(k) {
      PairNorm(kind, h, q, s, n, k);
    }
    SumSame(Plus(f, Flipped(f, q)), Plus(g, Flipped(g, q)), |s|);
  }
}
