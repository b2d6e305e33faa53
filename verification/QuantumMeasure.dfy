/** Measuring all qubits in turn: collapse, renormalise, reinitialise. */
module QuantumMeasure {
  import opened Arith
  import opened Qubits
  import opened Complex
  import opened QuantumGates
  import opened Cnot

  /** What dividing by sqrt relies on, and what makes it the square root. */
  ghost predicate Positive(root: real -> real) {
    forall x: real | x > 0.0 :: root(x) > 0.0
  }

  ghost predicate IsSqrt(root: real -> real) {
    Positive(root) && forall x: real | x > 0.0 :: root(x) * root(x) == x
  }

  /** The probability that qubit q reads b. */
  ghost function Mass(s: seq<C>, q: nat, b: nat): real {
    Sum(Where(Weight(s), q, b), |s|)
  }

  /** The state with every amplitude whose bit q is not b cleared. */
  ghost function Keep(s: seq<C>, q: nat, b: nat): (r: seq<C>)
    ensures |r| == |s| && forall i: nat | i < |s| :: r[i] == if Bit(i, q) == b then s[i] else ZERO
  {
    seq(|s|, i requires 0 <= i < |s| => if Bit(i, q) == b then s[i] else ZERO)
  }

  function Over(z: C, d: real): C
    requires d > 0.0
  {
    C(z.re / d, z.im / d)
  }

  ghost function Divided(s: seq<C>, d: real): (r: seq<C>)
    requires d > 0.0
    ensures |r| == |s| && forall i: nat | i < |s| :: r[i] == Over(s[i], d)
  {
    seq(|s|, i requires 0 <= i < |s| => Over(s[i], d))
  }

  ghost function Normalised(root: real -> real, s: seq<C>): (r: seq<C>)
    requires Positive(root)
    ensures |r| == |s|
  {
    if Norm2(s) > 0.0 then Divided(s, root(Norm2(s))) else s
  }

  ghost function Outcome(s: seq<C>, q: nat, roll: real): (b: nat)
    ensures b < 2
  {
    if roll < Mass(s, q, 0) then 0 else 1
  }

  /** The state after measuring one qubit. */
  ghost function Collapsed(root: real -> real, s: seq<C>, q: nat, roll: real): (r: seq<C>)
    requires Positive(root)
    ensures |r| == |s|
  {
    Normalised(root, Keep(s, q, Outcome(s, q, roll)))
  }

  /** The bits read and the state left after measuring the first q qubits. */
  ghost function Measured(root: real -> real, s: seq<C>, rolls: seq<real>, q: nat): (m: (seq<nat>, seq<C>))
    requires Positive(root) && q <= |rolls|
    ensures |m.0| == q && |m.1| == |s| && forall r: nat | r < q :: m.0[r] < 2
  {
    if q == 0 then ([], s)
    else
      var (bits, t) := Measured(root, s, rolls, q - 1);
      (bits + [Outcome(t, q - 1, rolls[q - 1])], Collapsed(root, t, q - 1, rolls[q - 1]))
  }

  /** The bits as text, qubit 0 rightmost. */
  function Digits(bits: seq<nat>): (text: string)
    ensures |text| == |bits|
  {
    if bits == [] then [] else Digits(bits[..|bits| - 1]) + [Digit(bits[|bits| - 1])]
  }

  function Reversed(text: string): (r: string)
    ensures |r| == |text|
  {
    if text == [] then [] else [text[|text| - 1]] + Reversed(text[..|text| - 1])
  }

  function BitString(bits: seq<nat>): string { Reversed(Digits(bits)) }

  lemma {:induction false} BitStringAt(bits: seq<nat>, i: nat)
    requires i < |bits|
    ensures |BitString(bits)| == |bits| && BitString(bits)[i] == if bits[|bits| - 1 - i] == 0 then '0' else '1'
  {
    var front := bits[..|bits| - 1];
    assert Digits(bits)[..|front|] == Digits(front);
    if i > 0 { BitStringAt(front, i - 1); }
  }

  /** The text is the n binary digits of x, qubit 0 rightmost. */
  ghost predicate Spells(text: string, x: nat, n: nat) {
    |text| == n && forall i: nat | i < n :: text[i] == if Bit(x, n - 1 - i) == 1 then '1' else '0'
  }

  function Basis(n: nat, x: nat): (s: seq<C>)
    ensures |s| == Pow2(n) && forall i: nat | i < |s| :: s[i] == if i == x then ONE else ZERO
  {
    seq(Pow2(n), i requires 0 <= i < Pow2(n) => if i == x then ONE else ZERO)
  }

  // ---------------------------------------------------------------- the loops

  method MultiQubitState(n: nat, initial: nat) returns (state: seq<C>)
    requires initial < Pow2(n)
    ensures state == Basis(n, initial)
  {
    var amplitudes := new C[Pow2(n)](_ => ZERO);
    amplitudes[initial] := ONE;
    state := amplitudes[..];
  }

  method ProbabilityOfZero(state: array<C>, q: nat) returns (p: real)
    ensures p == Mass(state[..], q, 0)
  {
    p := 0.0;
    ghost var f := Where(Weight(state[..]), q, 0);
    for i := 0 to state.Length
      invariant p == Sum(f, i)
    {
      if Bit(i, q) == 0 { p := p + state[i].Norm(); }
    }
  }

  method Clear(state: array<C>, q: nat, b: nat)
    requires b < 2
    modifies state
    ensures state[..] == Keep(old(state[..]), q, 1 - b)
  {
    for i := 0 to state.Length
      invariant forall k: nat | k < i :: state[k] == if Bit(k, q) == 1 - b then old(state[k]) else ZERO
      invariant forall k: nat | i <= k < state.Length :: state[k] == old(state[k])
    {
      if Bit(i, q) == b { state[i] := ZERO; }
    }
  }

  method Renormalise(state: array<C>, root: real -> real)
    requires Positive(root)
    modifies state
    ensures state[..] == Normalised(root, old(state[..]))
  {
    var norm := 0.0;
    ghost var f := Weight(state[..]);
    for i := 0 to state.Length
      modifies {}
      invariant norm == Sum(f, i)
    {
      norm := norm + state[i].Norm();
    }
    if norm > 0.0 {
      var d := root(norm);
      for i := 0 to state.Length
        invariant forall k: nat | k < i :: state[k] == Over(old(state[k]), d)
        invariant forall k: nat | i <= k < state.Length :: state[k] == old(state[k])
      {
        state[i] := Over(state[i], d);
      }
      assert state[..] == Divided(old(state[..]), d);
    }
  }

  method MeasureQubit(state: array<C>, root: real -> real, q: nat, roll: real) returns (bit: nat)
    requires Positive(root)
    modifies state
    ensures bit == Outcome(old(state[..]), q, roll)
    ensures state[..] == Collapsed(root, old(state[..]), q, roll)
  {
    var probZero := ProbabilityOfZero(state, q);
    if roll < probZero {
      bit := 0;
      Clear(state, q, 1);
    } else {
      bit := 1;
      Clear(state, q, 0);
    }
    Renormalise(state, root);
  }

  lemma MeasuredNext(root: real -> real, s: seq<C>, rolls: seq<real>, q: nat, bits: seq<nat>, t: seq<C>, bit: nat,
      u: seq<C>)
    requires Positive(root) && q < |rolls| && Measured(root, s, rolls, q) == (bits, t)
    requires bit == Outcome(t, q, rolls[q]) && u == Collapsed(root, t, q, rolls[q])
    ensures Measured(root, s, rolls, q + 1) == (bits + [bit], u)
    ensures Digits(bits + [bit]) == Digits(bits) + [Digit(bit)]
  {
  }

  /** One collapse per qubit; the text grows with qubit 0 leftmost. */
  method MeasureEach(state: array<C>, n: nat, root: real -> real, rolls: seq<real>) returns (text: string)
    requires Positive(root) && n <= |rolls|
    modifies state
    ensures text == Digits(Measured(root, old(state[..]), rolls, n).0)
  {
    text := "";
    ghost var bits: seq<nat> := [];
    ghost var was := state[..];
    for q := 0 to n
      invariant Measured(root, was, rolls, q) == (bits, state[..])
      invariant text == Digits(bits)
    {
      ghost var before := state[..];
      var bit := MeasureQubit(state, root, q, rolls[q]);
      MeasuredNext(root, was, rolls, q, bits, before, bit, state[..]);
      text := text + [Digit(bit)];
      bits := bits + [bit];
    }
  }

  method Measure(state: seq<C>, n: nat, root: real -> real, rolls: seq<real>) returns (text: string, after: seq<C>)
    requires Positive(root) && n <= |rolls|
    ensures text == BitString(Measured(root, state, rolls, n).0)
    ensures after == if n == 0 then state else Basis(n, 0)
  {
    if n == 0 {
      return "", state;
    }
    var amplitudes := new C[|state|](i requires 0 <= i < |state| => state[i]);
    assert amplitudes[..] == state;
    text := MeasureEach(amplitudes, n, root, rolls);
    text := Reversed(text);
    after := MultiQubitState(n, 0);
  }
}
