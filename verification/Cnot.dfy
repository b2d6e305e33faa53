/** The CNOT gate: in-place form, dense-matrix form, and how Hadamards turn it around. */
module Cnot {
  import opened Arith
  import opened Qubits
  import opened Complex
  import opened QuantumGates

  /** i with the target bit flipped when the control bit is set. */
  function CFlip(i: nat, c: nat, t: nat): nat {
    if Bit(i, c) == 1 then Flip(i, t) else i
  }

  lemma CFlipTwice(i: nat, c: nat, t: nat)
    requires c != t
    ensures CFlip(CFlip(i, c, t), c, t) == i
  {
    BitPut(i, t, 1 - Bit(i, t), t);
    BitPut(i, t, 1 - Bit(i, t), c);
    PutPut(i, t, 1 - Bit(i, t), Bit(i, t));
    PutSame(i, t);
  }

  lemma CFlipBound(i: nat, c: nat, t: nat, n: nat)
    requires t < n && i < Pow2(n)
    ensures CFlip(i, c, t) < Pow2(n)
  {
    PutBound(i, t, 1 - Bit(i, t), n);
  }

  /** With one qubit as both control and target, index i with the bit set lands on the one below it. */
  lemma CFlipSelf(i: nat, c: nat)
    ensures CFlip(i, c, c) == Put(i, c, 0)
    ensures Bit(i, c) == 0 ==> i < Put(i, c, 1)
  {
  }

  /** What apply_cnot_gate leaves at index k: the last amplitude written there. */
  function CnotAmplitude(c: nat, t: nat, s: seq<C>, k: nat): C {
    if c != t then At(s, CFlip(k, c, t))
    else if Bit(k, c) == 0 then At(s, Put(k, c, 1)) else ZERO
  }

  ghost function CnotState(c: nat, t: nat, s: seq<C>): (r: seq<C>)
    ensures |r| == |s| && forall k: nat | k < |s| :: r[k] == CnotAmplitude(c, t, s, k)
  {
    seq(|s|, k requires 0 <= k < |s| => CnotAmplitude(c, t, s, k))
  }

  /** The amplitude last written at k once the old amplitudes below i are handled. */
  ghost function Written(c: nat, t: nat, s: seq<C>, k: nat, i: nat): C {
    if i == 0 then ZERO
    else if k == CFlip(i - 1, c, t) then At(s, i - 1)
    else Written(c, t, s, k, i - 1)
  }

  lemma {:induction false} WrittenOnce(c: nat, t: nat, s: seq<C>, k: nat, i: nat)
    requires c != t
    ensures Written(c, t, s, k, i) == if CFlip(k, c, t) < i then At(s, CFlip(k, c, t)) else ZERO
  {
    if i > 0 {
      WrittenOnce(c, t, s, k, i - 1);
      CFlipTwice(i - 1, c, t);
      CFlipTwice(k, c, t);
    }
  }

  lemma {:induction false} WrittenTwice(c: nat, s: seq<C>, k: nat, i: nat)
    ensures Bit(k, c) == 1 ==> Written(c, c, s, k, i) == ZERO
    ensures Bit(k, c) == 0 && Put(k, c, 1) < i ==> Written(c, c, s, k, i) == At(s, Put(k, c, 1))
  {
    if i > 0 {
      WrittenTwice(c, s, k, i - 1);
      CFlipSelf(i - 1, c);
      CFlipSelf(k, c);
      BitPut(i - 1, c, 0, c);
      PutInverse(i - 1, c, k);
    }
  }

  lemma WrittenAll(c: nat, t: nat, s: seq<C>, k: nat, n: nat)
    requires c < n && t < n && IsState(s, n) && k < |s|
    ensures Written(c, t, s, k, |s|) == CnotAmplitude(c, t, s, k)
  {
    if c != t {
      WrittenOnce(c, t, s, k, |s|);
      CFlipBound(k, c, t, n);
    } else {
      WrittenTwice(c, s, k, |s|);
      PutBound(k, c, 1, n);
    }
  }

  method ApplyCnotGate(c: nat, t: nat, n: nat, state: seq<C>) returns (result: seq<C>)
    requires c < n && t < n && IsState(state, n)
    ensures result == CnotState(c, t, state)
  {
    var newState := new C[|state|](_ => ZERO);
    for i := 0 to |state|
      invariant forall k: nat | k < |state| :: newState[k] == Written(c, t, state, k, i)
    {
      CFlipBound(i, c, t, n);
      newState[CFlip(i, c, t)] := state[i];
    }
    result := newState[..];
    forall k: nat | k < |state| ensures result[k] == CnotAmplitude(c, t, state, k) {
      WrittenAll(c, t, state, k, n);
    }
  }

  /** On distinct qubits: where the control is 1 the amplitudes of the target's two values are exchanged. */
  lemma CnotOnAmplitudes(control: nat, target: nat, s: seq<C>, n: nat, k: nat)
    requires control != target && control < n && target < n && IsState(s, n) && k < |s|
    ensures Flip(k, target) < |s|
    ensures CnotState(control, target, s)[k] == if Bit(k, control) == 1 then s[Flip(k, target)] else s[k]
  {
    PutBound(k, target, 1 - Bit(k, target), n);
    CFlipBound(k, control, target, n);
  }

  // ---------------------------------------------------------------- the dense form

  /** The matrix with a one in column i at row CFlip(i). */
  ghost predicate IsCnotMatrix(g: Matrix, c: nat, t: nat, n: nat) {
    && |g| == Pow2(n)
    && (forall r: nat | r < |g| :: |g[r]| == |g|)
    && (forall r: nat, i: nat | r < |g| && i < |g| :: g[r][i] == if r == CFlip(i, c, t) then ONE else ZERO)
  }

  method CnotGate(c: nat, t: nat, n: nat) returns (matrix: Matrix)
    requires c < n && t < n
    ensures IsCnotMatrix(matrix, c, t, n)
  {
    var size := Pow2(n);
    var rows := new seq<C>[size](_ => seq(size, _ => ZERO));
    for i := 0 to size
      invariant forall r: nat | r < size :: |rows[r]| == size
      invariant forall r: nat, j: nat | r < size && j < size ::
        rows[r][j] == if j < i && r == CFlip(j, c, t) then ONE else ZERO
    {
      CFlipBound(i, c, t, n);
      var row := CFlip(i, c, t);
      rows[row] := rows[row][i := ONE];
    }
    matrix := rows[..];
  }

  method ApplyGate(gate: Matrix, state: seq<C>) returns (result: seq<C>)
    requires |gate| == |state| && forall i: nat | i < |gate| :: |gate[i]| == |state|
    ensures |result| == |state| && forall i: nat | i < |state| :: result[i] == Dot(gate[i], state)
  {
    var amplitudes := new C[|state|](_ => ZERO);
    for i := 0 to |gate|
      invariant forall k: nat | k < i :: amplitudes[k] == Dot(gate[k], state)
    {
      amplitudes[i] := ZERO;
      for j := 0 to |gate[i]|
        invariant forall k: nat | k < i :: amplitudes[k] == Dot(gate[k], state)
        invariant amplitudes[i] == Dot(gate[i][..j], state[..j])
      {
        assert gate[i][..j + 1][..j] == gate[i][..j] && state[..j + 1][..j] == state[..j];
        amplitudes[i] := amplitudes[i].Add(gate[i][j].Mul(state[j]));
      }
      assert gate[i][..|state|] == gate[i] && state[..|state|] == state;
    }
    result := amplitudes[..];
  }

  ghost function SumC(zs: seq<C>): C {
    if zs == [] then ZERO else SumC(zs[..|zs| - 1]).Add(zs[|zs| - 1])
  }

  lemma {:induction false} DotIsSum(row: seq<C>, column: seq<C>, zs: seq<C>)
    requires |row| == |column| == |zs| && forall j: nat | j < |row| :: zs[j] == row[j].Mul(column[j])
    ensures Dot(row, column) == SumC(zs)
  {
    if row != [] { DotIsSum(row[..|row| - 1], column[..|row| - 1], zs[..|row| - 1]); }
  }

  /** Of a sum of zeros only the two terms that may differ remain. */
  lemma {:induction false} SumPicks(zs: seq<C>, p: nat, q: nat)
    requires p != q && forall j: nat | j < |zs| && j != p && j != q :: zs[j] == ZERO
    ensures SumC(zs) == At(zs, p).Add(At(zs, q))
  {
    if zs != [] {
      var front, last := zs[..|zs| - 1], zs[|zs| - 1];
      assert zs == front + [last];
      LastPicks(front, last, zs, p, q);
      SumPicks(front, p, q);
    }
  }

  lemma LastPicks(front: seq<C>, z: C, zs: seq<C>, p: nat, q: nat)
    requires p != q && zs == front + [z] && (|front| == p || |front| == q || z == ZERO)
    ensures At(front, p).Add(At(front, q)).Add(z) == At(zs, p).Add(At(zs, q))
  {
  }

  /** A row with ones at p and q picks out those two entries. */
  lemma DotPicks(row: seq<C>, column: seq<C>, p: nat, q: nat)
    requires |row| == |column| && p != q
    requires forall j: nat | j < |row| :: row[j] == if j == p || j == q then ONE else ZERO
    ensures Dot(row, column) == At(column, p).Add(At(column, q))
  {
    var zs := seq(|row|, j requires 0 <= j < |row| => if j == p || j == q then column[j] else ZERO);
    forall j: nat | j < |row| ensures zs[j] == row[j].Mul(column[j]) { MulUnit(column[j]); }
    DotIsSum(row, column, zs);
    SumPicks(zs, p, q);
  }

  lemma MulUnit(z: C)
    ensures ONE.Mul(z) == z && ZERO.Mul(z) == ZERO
  {
  }

  lemma DenseRowDistinct(g: Matrix, c: nat, t: nat, n: nat, s: seq<C>, k: nat)
    requires c < n && t < n && c != t && IsState(s, n) && k < |s| && IsCnotMatrix(g, c, t, n)
    ensures Dot(g[k], s) == At(s, CFlip(k, c, t))
  {
    var row, p := g[k], CFlip(k, c, t);
    CFlipBound(k, c, t, n);
    forall j: nat | j < |row| ensures row[j] == if j == p then ONE else ZERO { FlipsBack(j, k, c, t); }
    DotPicksOne(row, s, p);
  }

  lemma DotPicksOne(row: seq<C>, column: seq<C>, p: nat)
    requires |row| == |column| && p < |row| && forall j: nat | j < |row| :: row[j] == if j == p then ONE else ZERO
    ensures Dot(row, column) == At(column, p)
  {
    DotPicks(row, column, p, |row|);
  }

  lemma FlipsBack(j: nat, k: nat, c: nat, t: nat)
    requires c != t
    ensures k == CFlip(j, c, t) <==> j == CFlip(k, c, t)
  {
    CFlipTwice(j, c, t);
    CFlipTwice(k, c, t);
  }

  /** One row of the dense form. */
  lemma DenseRow(g: Matrix, c: nat, t: nat, n: nat, s: seq<C>, k: nat)
    requires c < n && t < n && IsState(s, n) && k < |s| && IsCnotMatrix(g, c, t, n)
    ensures c != t ==> Dot(g[k], s) == CnotAmplitude(c, t, s, k)
    ensures c == t && Bit(k, c) == 0 ==> Dot(g[k], s) == CnotAmplitude(c, t, s, k).Add(s[k])
    ensures c == t && Bit(k, c) == 1 ==> Dot(g[k], s) == CnotAmplitude(c, t, s, k)
  {
    if c != t {
      DenseRowDistinct(g, c, t, n, s, k);
    } else {
      DenseRowSelf(g, c, n, s, k);
    }
  }

  lemma SelfRow(j: nat, c: nat, k: nat)
    ensures k == CFlip(j, c, c) <==> Bit(k, c) == 0 && (j == k || j == Put(k, c, 1))
    ensures k != Put(k, c, 1) || Bit(k, c) == 1
  {
    CFlipSelf(j, c);
    BitPut(j, c, 0, c);
    PutInverse(j, c, k);
    PutSame(k, c);
    BitPut(k, c, 1, c);
    PutPut(k, c, 1, 0);
  }

  lemma DenseRowSelf(g: Matrix, c: nat, n: nat, s: seq<C>, k: nat)
    requires c < n && IsState(s, n) && k < |s| && IsCnotMatrix(g, c, c, n)
    ensures Bit(k, c) == 0 ==> Dot(g[k], s) == At(s, Put(k, c, 1)).Add(s[k])
    ensures Bit(k, c) == 1 ==> Dot(g[k], s) == ZERO
  {
    var row, other, isSet := g[k], Put(k, c, 1), Bit(k, c) == 1;
    forall j: nat | j < |s|
      ensures row[j] == if !isSet && (j == k || j == other) then ONE else ZERO
    {
      SelfRow(j, c, k);
    }
    SelfRow(k, c, k);
    RowOfOnesOrZeros(row, s, k, other, isSet);
  }

  lemma RowOfOnesOrZeros(row: seq<C>, s: seq<C>, k: nat, other: nat, isSet: bool)
    requires |row| == |s| && k < |s| && (!isSet ==> k != other)
    requires forall j: nat | j < |row| :: row[j] == if !isSet && (j == k || j == other) then ONE else ZERO
    ensures Dot(row, s) == if isSet then ZERO else At(s, other).Add(s[k])
  {
    if isSet { DotPicks(row, s, |s|, |s| + 1); } else { DotPicks(row, s, other, k); }
  }

  /** The in-place form is the dense form for distinct qubits; for equal ones only where no amplitude is overwritten. */
  lemma DenseAgrees(g: Matrix, c: nat, t: nat, n: nat, s: seq<C>, dense: seq<C>)
    requires c < n && t < n && IsState(s, n) && IsCnotMatrix(g, c, t, n)
    requires |dense| == |s| && forall i: nat | i < |s| :: dense[i] == Dot(g[i], s)
    ensures dense == CnotState(c, t, s) <==> c != t || forall k: nat | k < |s| && Bit(k, c) == 0 :: s[k] == ZERO
  {
    forall k: nat | k < |s|
      ensures dense[k] == CnotState(c, t, s)[k] <==> c != t || (Bit(k, c) == 0 ==> s[k] == ZERO)
    {
      DenseRow(g, c, t, n, s, k);
    }
  }

  // ---------------------------------------------------------------- norm and inverse

  lemma CnotIsInvolution(c: nat, t: nat, s: seq<C>, n: nat)
    requires c < n && t < n && c != t && IsState(s, n)
    ensures CnotState(c, t, CnotState(c, t, s)) == s
  {
    forall k: nat | k < |s| ensures CnotAmplitude(c, t, CnotState(c, t, s), k) == s[k] {
      CFlipBound(k, c, t, n);
      CFlipTwice(k, c, t);
    }
  }

  /** f on the indices whose bit q is b, zero elsewhere. */
  ghost function Where(f: nat -> real, q: nat, b: nat): nat -> real {
    (i: nat) => if Bit(i, q) == b then f(i) else 0.0
  }

  lemma SumSplits(f: nat -> real, q: nat, n: nat)
    ensures Sum(f, n) == Sum(Where(f, q, 0), n) + Sum(Where(f, q, 1), n)
  {
  }

  lemma CnotPreservesNorm(c: nat, t: nat, s: seq<C>, n: nat)
    requires c < n && t < n && c != t && IsState(s, n)
    ensures Norm2(CnotState(c, t, s)) == Norm2(s)
  {
    var r := CnotState(c, t, s);
    var f, g := Weight(s), Weight(r);
    SumSplits(f, c, |s|);
    var moved := Flipped(Where(f, c, 1), t);
    SumFlip(Where(f, c, 1), moved, n, t);
    forall k: nat | k < |s| ensures g(k) == Where(f, c, 0)(k) + moved(k) {
      CFlipBound(k, c, t, n);
      BitPut(k, t, 1 - Bit(k, t), c);
    }
    SumPlus(Where(f, c, 0), moved, g, |s|);
  }
}
