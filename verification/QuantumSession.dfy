/** The simulator's interactive session (ctf-components/quantum/quantum_gates.cpp). */
module QuantumSession {
  import opened Arith
  import opened Complex
  import opened Qubits
  import opened QuantumGates
  import opened Cnot
  import opened QuantumMeasure
  import opened MeasurementSoundness

  datatype Command =
    | Initialize(qubits: int)
    | Single(kind: char, qubit: int)
    | Controlled(control: int, target: int)
    | MeasureAll(rolls: seq<real>)

  /** No state before the first initialisation; afterwards one to eight qubits. */
  ghost predicate WellSized(n: nat, s: seq<C>) {
    (n == 0 && s == []) || (1 <= n <= 8 && IsState(s, n))
  }

  predicate SingleAllowed(n: nat, kind: char, qubit: int) {
    0 <= qubit < n && KnownGate(kind)
  }

  predicate CnotAllowed(n: nat, control: int, target: int) {
    n >= 2 && 0 <= control < n && 0 <= target < n && control != target
  }

  /** The qubit count and state after one command; h stands for 1 / sqrt(2). */
  ghost function Step(h: real, n: nat, s: seq<C>, command: Command): (nat, seq<C>) {
    match command
    case Initialize(qubits) => if 1 <= qubits <= 8 then (qubits, Basis(qubits, 0)) else (n, s)
    case Single(kind, qubit) => if SingleAllowed(n, kind, qubit) then (n, Apply(GateOf(kind, h), qubit, s)) else (n, s)
    case Controlled(control, target) => if CnotAllowed(n, control, target) then (n, CnotState(control, target, s))
      else (n, s)
    case MeasureAll(_) => if n > 0 then (n, Basis(n, 0)) else (n, s)
  }

  /** A whole session. */
  ghost function Session(h: real, commands: seq<Command>): (nat, seq<C>) {
    if commands == [] then (0, [])
    else
      var (n, s) := Session(h, commands[..|commands| - 1]);
      Step(h, n, s, commands[|commands| - 1])
  }

  ghost predicate GoodState(n: nat, s: seq<C>) {
    WellSized(n, s) && (n > 0 ==> Norm2(s) == 1.0)
  }

  lemma BasisGood(n: nat)
    requires 1 <= n <= 8
    ensures GoodState(n, Basis(n, 0))
  {
    BasisIsUnit(n, 0);
  }

  lemma StepKeepsGoodState(h: real, n: nat, s: seq<C>, command: Command)
    requires IsInvSqrt2(h) && GoodState(n, s)
    ensures var (n2, s2) := Step(h, n, s, command); GoodState(n2, s2)
  {
    match command
    case Initialize(qubits) => if 1 <= qubits <= 8 { BasisGood(qubits); }
    case Single(kind, qubit) => if SingleAllowed(n, kind, qubit) { GatePreservesNorm(kind, h, qubit, s, n); }
    case Controlled(control, target) => if CnotAllowed(n, control, target) { CnotPreservesNorm(control, target, s, n); }
    case MeasureAll(_) => if n > 0 { BasisGood(n); }
  }

  /** Every state any session reaches has norm 1. */
  lemma {:induction false} SessionStatesAreUnit(h: real, commands: seq<Command>)
    requires IsInvSqrt2(h)
    ensures var (n, s) := Session(h, commands); GoodState(n, s)
  {
    if commands != [] {
      var front := commands[..|commands| - 1];
      SessionStatesAreUnit(h, front);
      var (n, s) := Session(h, front);
      StepKeepsGoodState(h, n, s, commands[|commands| - 1]);
    }
  }

  /** Entering the same gate twice restores the state. */
  lemma CommandTwice(h: real, n: nat, s: seq<C>, command: Command)
    requires IsInvSqrt2(h) && WellSized(n, s) && (command.Single? || command.Controlled?)
    ensures var (n2, s2) := Step(h, n, s, command); Step(h, n2, s2, command) == (n, s)
  {
    match command
    case Single(kind, qubit) => if SingleAllowed(n, kind, qubit) { GateIsInvolution(kind, h, qubit, s, n); }
    case Controlled(control, target) => if CnotAllowed(n, control, target) { CnotIsInvolution(control, target, s, n); }
  }

  /** The text names, qubit 0 rightmost, a basis state that s gives weight to. */
  ghost predicate Possible(s: seq<C>, n: nat, text: string) {
    exists x: nat :: x < |s| && s[x] != ZERO && Spells(text, x, n)
  }

  /** Whatever was entered before, measuring reports an outcome the state allows. */
  lemma SessionReportsPossible(root: real -> real, h: real, commands: seq<Command>, rolls: seq<real>)
    requires IsSqrt(root) && IsInvSqrt2(h) && UnitRolls(rolls)
    requires |rolls| == Session(h, commands).0 > 0
    ensures var (n, s) := Session(h, commands); Possible(s, n, BitString(Measured(root, s, rolls, n).0))
  {
    SessionStatesAreUnit(h, commands);
    var (n, s) := Session(h, commands);
    var x := MeasurementIsSound(root, s, n, rolls);
  }

  // ---------------------------------------------------------------- starting over

  /** All the weight on |0...0>. */
  ghost predicate AllZeros(s: seq<C>, n: nat) {
    |s| == Pow2(n) && forall i: nat | i < |s| :: s[i] == if i == 0 then C(1.0, 0.0) else C(0.0, 0.0)
  }

  /** An initialisation with one to eight qubits, and any measurement, leaves all qubits at zero ... */
  lemma StartsOver(h: real, commands: seq<Command>, last: Command)
    requires IsInvSqrt2(h) && commands != [] && commands[|commands| - 1] == last
    requires if last.Initialize? then 1 <= last.qubits <= 8 else last.MeasureAll? && Session(h, commands).0 > 0
    ensures var (n, s) := Session(h, commands);
      && AllZeros(s, n)
      && n == if last.Initialize? then last.qubits else Session(h, commands[..|commands| - 1]).0
  {
    var (n, s) := Session(h, commands[..|commands| - 1]);
    assert Session(h, commands) == Step(h, n, s, last);
  }

  /** ... so measuring right after either reports zeros only. */
  lemma MeasuresZeros(root: real -> real, h: real, commands: seq<Command>, rolls: seq<real>, last: Command, i: nat)
    requires IsSqrt(root) && IsInvSqrt2(h) && UnitRolls(rolls)
    requires commands != [] && commands[|commands| - 1] == last
    requires if last.Initialize? then 1 <= last.qubits <= 8 else last.MeasureAll? && Session(h, commands).0 > 0
    requires |rolls| == Session(h, commands).0 && i < |rolls|
    ensures var (n, s) := Session(h, commands); var text := BitString(Measured(root, s, rolls, n).0);
      |text| == n && text[i] == '0'
  {
    StartsOver(h, commands, last);
    SessionStatesAreUnit(h, commands);
    var (n, s) := Session(h, commands);
    ReadsZeros(root, s, n, rolls, i);
  }

  lemma ReadsZeros(root: real -> real, s: seq<C>, n: nat, rolls: seq<real>, i: nat)
    requires IsSqrt(root) && UnitRolls(rolls) && AllZeros(s, n) && Norm2(s) == 1.0 && i < n == |rolls|
    ensures var text := BitString(Measured(root, s, rolls, n).0); |text| == n && text[i] == '0'
  {
    var x := MeasurementIsSound(root, s, n, rolls);
    BitOfZero(n - 1 - i);
  }

  lemma {:induction false} BitOfZero(q: nat)
    ensures Bit(0, q) == 0
  {
    if q > 0 { BitOfZero(q - 1); }
  }

  // ---------------------------------------------------------------- which commands act

  /** The state with qubit q at one and the others at zero. */
  function OneAt(q: nat): nat { Put(0, q, 1) }

  lemma OneAtIs(q: nat, n: nat)
    requires q < n
    ensures OneAt(q) < Pow2(n) && Bit(OneAt(q), q) == 1
  {
    PutBound(0, q, 1, n);
    BitPut(0, q, 1, q);
  }

  lemma OneAtMoves(kind: char, h: real, q: nat, s: seq<C>, n: nat)
    requires IsInvSqrt2(h) && q < n && s == Basis(n, OneAt(q)) && kind in {'X', 'Y', 'Z', 'H'}
    ensures Apply(GateOf(kind, h), q, s) != s
  {
    var x := OneAt(q);
    OneAtIs(q, n);
    BitPut(x, q, 0, q);
    var t := Apply(GateOf(kind, h), q, s);
    assert s[x] == ONE && t[x] != ONE by {
      if kind == 'X' {
        GateX(h, q, s, n, x);
      } else if kind == 'Y' {
        GateY(h, q, s, n, x);
      } else if kind == 'Z' {
        GateZ(h, q, s, n, x);
      } else {
        var own, other := GateH(h, q, s, n, x);
      }
    }
  }

  /** A gate moves some state exactly if its qubit exists and its letter is X, Y, Z or H. */
  lemma GateActsExactlyWhen(h: real, n: nat, kind: char, qubit: int)
    requires IsInvSqrt2(h) && 1 <= n <= 8
    ensures (exists s :: IsState(s, n) && Step(h, n, s, Single(kind, qubit)) != (n, s))
      <==> 0 <= qubit < n && kind in {'X', 'Y', 'Z', 'H'}
  {
    if 0 <= qubit < n && kind in {'X', 'Y', 'Z', 'H'} {
      OneAtIs(qubit, n);
      var s := Basis(n, OneAt(qubit));
      OneAtMoves(kind, h, qubit, s, n);
      assert IsState(s, n);
    }
  }

  /** A CNOT exactly if both its qubits exist and differ. */
  lemma CnotActsExactlyWhen(h: real, n: nat, control: int, target: int)
    requires 1 <= n <= 8
    ensures (exists s :: IsState(s, n) && Step(h, n, s, Controlled(control, target)) != (n, s))
      <==> 0 <= control < n && 0 <= target < n && control != target
  {
    if 0 <= control < n && 0 <= target < n && control != target {
      var s := Basis(n, OneAt(control));
      OneAtMovesTarget(control, target, s, n);
      assert IsState(s, n);
    }
  }

  lemma OneAtMovesTarget(control: nat, target: nat, s: seq<C>, n: nat)
    requires control < n && target < n && control != target && s == Basis(n, OneAt(control))
    ensures CnotState(control, target, s) != s
  {
    var x := OneAt(control);
    OneAtIs(control, n);
    CnotOnAmplitudes(control, target, s, n, x);
    BitPut(x, target, 1 - Bit(x, target), target);
    assert s[x] == ONE && s[Flip(x, target)] == ZERO;
  }

  // ---------------------------------------------------------------- the simulator

  /** The factor the Hadamard gate is built from. */
  lemma HadamardFactor(root: real -> real)
    requires IsSqrt(root)
    ensures root(2.0) > 0.0 && IsInvSqrt2(1.0 / root(2.0))
  {
  }

  lemma MeasureStep(h: real, n: nat, s: seq<C>, rolls: seq<real>, after: seq<C>)
    requires WellSized(n, s) && after == if n == 0 then s else Basis(n, 0)
    ensures Step(h, n, s, MeasureAll(rolls)) == (n, after) && WellSized(n, after)
  {
  }

  class Simulator {
    const root: real -> real
    const h: real
    var numQubits: nat
    var state: seq<C>
    var history: seq<Command>

    ghost predicate Valid()
      reads this
    {
      Positive(root) && WellSized(numQubits, state)
    }

    constructor (root: real -> real)
      requires Positive(root)
      ensures Valid() && numQubits == 0 && state == [] && history == [] && this.root == root && h == 1.0 / root(2.0)
    {
      this.root := root;
      h := 1.0 / root(2.0);
      numQubits, state, history := 0, [], [];
    }

    method InitializeNQubits(qubits: int)
      requires Valid()
      modifies this
      ensures Valid() && (numQubits, state) == Step(h, old(numQubits), old(state), Initialize(qubits))
      ensures 1 <= qubits <= 8 ==> numQubits == qubits && AllZeros(state, qubits) && history == []
      ensures !(1 <= qubits <= 8) ==> numQubits == old(numQubits) && state == old(state) && history == old(history)
    {
      if qubits < 1 || qubits > 8 { return; }
      numQubits := qubits;
      state := MultiQubitState(numQubits, 0);
      history := [];
    }

    /** An unknown gate letter leaves the state alone, yet is written to the history. */
    method ApplySingleQubitGate(kind: char, qubit: int)
      requires Valid()
      modifies this`state, this`history
      ensures Valid() && (numQubits, state) == Step(h, numQubits, old(state), Single(kind, qubit))
      ensures history == if 0 <= qubit < numQubits then old(history) + [Single(kind, qubit)] else old(history)
    {
      if qubit >= numQubits || qubit < 0 { return; }
      state := QuantumGates.ApplySingleQubitGate(kind, h, qubit, state, numQubits);
      history := history + [Single(kind, qubit)];
    }

    method ApplyCnotGate(control: int, target: int)
      requires Valid()
      modifies this`state, this`history
      ensures Valid() && (numQubits, state) == Step(h, numQubits, old(state), Controlled(control, target))
      ensures history ==
        if 0 <= control < numQubits && 0 <= target < numQubits && control != target
        then old(history) + [Controlled(control, target)] else old(history)
    {
      if numQubits < 2 { return; }
      if control >= numQubits || target >= numQubits || control < 0 || target < 0 { return; }
      if control == target { return; }
      state := Cnot.ApplyCnotGate(control, target, numQubits, state);
      history := history + [Controlled(control, target)];
    }

    /** Starts over from |0...0>, keeping the history. */
    method MeasureQubits(rolls: seq<real>) returns (text: string)
      requires Valid() && |rolls| == numQubits
      modifies this`state
      ensures Valid() && (numQubits, state) == Step(h, numQubits, old(state), MeasureAll(rolls))
      ensures text == BitString(Measured(root, old(state), rolls, numQubits).0)
      ensures numQubits > 0 ==> AllZeros(state, numQubits)
    {
      var after;
      text, after := Measure(state, numQubits, root, rolls);
      MeasureStep(h, numQubits, state, rolls, after);
      state := after;
    }
  }
}
