/** What measuring promises: a possible outcome, the Born rule, and unit states throughout. */
module MeasurementSoundness {
  import opened Arith
  import opened Qubits
  import opened Complex
  import opened QuantumGates
  import opened Cnot
  import opened QuantumMeasure

  // ---------------------------------------------------------------- sums

  lemma {:induction false} SumNonNegative(f: nat -> real, n: nat)
    requires forall i: nat | i < n :: f(i) >= 0.0
    ensures Sum(f, n) >= 0.0
  {
    if n > 0 { SumNonNegative(f, n - 1); }
  }

  lemma {:induction false} SumScale(f: nat -> real, g: nat -> real, k: real, n: nat)
    requires forall i: nat | i < n :: g(i) == k * f(i)
    ensures Sum(g, n) == k * Sum(f, n)
  {
    if n > 0 {
      SumScale(f, g, k, n - 1);
      RealDistribute(k, Sum(f, n - 1), f(n - 1));
    }
  }

  lemma {:induction false} SumOnly(f: nat -> real, n: nat, x: nat)
    requires forall i: nat | i < n && i != x :: f(i) == 0.0
    ensures Sum(f, n) == if x < n then f(x) else 0.0
  {
    if n > 0 { SumOnly(f, n - 1, x); }
  }

  lemma MassNonNegative(s: seq<C>, q: nat, b: nat)
    ensures Mass(s, q, b) >= 0.0
  {
    forall i: nat | i < |s| ensures Where(Weight(s), q, b)(i) >= 0.0 { NormNonNegative(At(s, i)); }
    SumNonNegative(Where(Weight(s), q, b), |s|);
  }

  /** The two outcomes of a unit state share the whole probability. */
  lemma MassesShare(s: seq<C>, q: nat)
    requires Norm2(s) == 1.0
    ensures Mass(s, q, 0) + Mass(s, q, 1) == 1.0
  {
    SumSplits(Weight(s), q, |s|);
  }

  lemma KeepMass(s: seq<C>, q: nat, b: nat)
    ensures Norm2(Keep(s, q, b)) == Mass(s, q, b)
  {
    var t := Keep(s, q, b);
    forall i: nat | i < |s| ensures Weight(t)(i) == Where(Weight(s), q, b)(i) {}
    SumSame(Weight(t), Where(Weight(s), q, b), |s|);
  }

  // ---------------------------------------------------------------- one qubit

  /** The branch taken is one the state can be in, exactly when the roll leaves room for it. */
  lemma BranchPossible(s: seq<C>, q: nat, roll: real)
    requires Norm2(s) == 1.0 && 0.0 <= roll <= 1.0
    ensures Mass(s, q, Outcome(s, q, roll)) > 0.0 <==> roll < 1.0 || Mass(s, q, 0) != 1.0
  {
    MassesShare(s, q);
    MassNonNegative(s, q, 0);
    MassNonNegative(s, q, 1);
  }

  lemma InverseSquare(d: real, m: real)
    requires d > 0.0 && d * d == m
    ensures 1.0 / d > 0.0 && (1.0 / d) * (1.0 / d) * m == 1.0
  {
  }

  lemma WeightOver(z: C, d: real, e: real, k: real)
    requires d > 0.0 && e == 1.0 / d && k == e * e
    ensures Over(z, d).Norm() == k * z.Norm()
  {
  }

  lemma DividedNorm(s: seq<C>, d: real, e: real, k: real)
    requires d > 0.0 && e == 1.0 / d && k == e * e
    ensures Norm2(Divided(s, d)) == k * Norm2(s)
  {
    var f, g := Weight(s), Weight(Divided(s, d));
    forall i: nat | i < |s| ensures g(i) == k * f(i) { WeightOver(s[i], d, e, k); }
    SumScale(f, g, k, |s|);
  }

  lemma UnitAfterDivide(kept: seq<C>, m: real, d: real) returns (e: real)
    requires Norm2(kept) == m && m > 0.0 && d > 0.0 && d * d == m
    ensures e == 1.0 / d && e > 0.0 && e * e * m == 1.0
    ensures Norm2(Divided(kept, d)) == 1.0
  {
    InverseSquare(d, m);
    e := 1.0 / d;
    DividedNorm(kept, d, e, e * e);
  }

  lemma RootSquared(root: real -> real, m: real) returns (d: real)
    requires IsSqrt(root) && m > 0.0
    ensures Positive(root) && d == root(m) && d > 0.0 && d * d == m
  {
    d := root(m);
  }

  lemma CollapsedIs(root: real -> real, s: seq<C>, q: nat, roll: real, m: real, d: real)
    requires Positive(root) && m == Mass(s, q, Outcome(s, q, roll)) && m > 0.0 && d == root(m)
    ensures Norm2(Keep(s, q, Outcome(s, q, roll))) == m && d > 0.0
    ensures Collapsed(root, s, q, roll) == Divided(Keep(s, q, Outcome(s, q, roll)), d)
  {
    KeepMass(s, q, Outcome(s, q, roll));
  }

  /** After a possible branch the guard holds and the state has norm 1 again. */
  lemma CollapseIsUnit(root: real -> real, s: seq<C>, q: nat, roll: real)
    requires IsSqrt(root) && Mass(s, q, Outcome(s, q, roll)) > 0.0
    ensures Norm2(Keep(s, q, Outcome(s, q, roll))) > 0.0
    ensures Norm2(Collapsed(root, s, q, roll)) == 1.0
  {
    var m := Mass(s, q, Outcome(s, q, roll));
    var d := RootSquared(root, m);
    CollapsedIs(root, s, q, roll, m, d);
    var e := UnitAfterDivide(Keep(s, q, Outcome(s, q, roll)), m, d);
  }

  lemma ScaledKeep(s: seq<C>, q: nat, b: nat, d: real)
    requires d > 0.0
    ensures forall i: nat | i < |s| ::
      Divided(Keep(s, q, b), d)[i] == if Bit(i, q) == b then s[i].Scale(1.0 / d) else ZERO
  {
  }

  // ---------------------------------------------------------------- all qubits

  /** Index i reads as `bits` on its low qubits. */
  ghost predicate Agrees(i: nat, bits: seq<nat>) {
    forall r: nat | r < |bits| :: Bit(i, r) == bits[r]
  }

  /** t is s cleared off the indices that agree with the bits, and scaled by k on them. */
  ghost predicate IsRestriction(t: seq<C>, s: seq<C>, bits: seq<nat>, k: real) {
    |t| == |s| && forall i: nat | i < |s| :: t[i] == if Agrees(i, bits) then s[i].Scale(k) else ZERO
  }

  lemma AgreesNext(i: nat, bits: seq<nat>, b: nat)
    ensures Agrees(i, bits + [b]) <==> Agrees(i, bits) && Bit(i, |bits|) == b
  {
  }

  lemma ScaleTwice(z: C, k: real, e: real, ek: real)
    requires ek == e * k
    ensures z.Scale(k).Scale(e) == z.Scale(ek) && ZERO.Scale(e) == ZERO
  {
  }

  lemma RestrictNext(s: seq<C>, t: seq<C>, u: seq<C>, bits: seq<nat>, b: nat, k: real, e: real, ek: real)
    requires IsRestriction(t, s, bits, k) && |u| == |t| && ek == e * k
    requires forall i: nat | i < |t| :: u[i] == if Bit(i, |bits|) == b then t[i].Scale(e) else ZERO
    ensures IsRestriction(u, s, bits + [b], ek)
  {
    forall i: nat | i < |s| ensures u[i] == if Agrees(i, bits + [b]) then s[i].Scale(ek) else ZERO {
      AgreesNext(i, bits, b);
      ScaleTwice(s[i], k, e, ek);
    }
  }

  /** The probabilities of the branches taken. */
  ghost function Branches(root: real -> real, s: seq<C>, rolls: seq<real>, q: nat): seq<real>
    requires Positive(root) && q <= |rolls|
  {
    if q == 0 then []
    else
      var t := Measured(root, s, rolls, q - 1).1;
      Branches(root, s, rolls, q - 1) + [Mass(t, q - 1, Outcome(t, q - 1, rolls[q - 1]))]
  }

  ghost function Product(ps: seq<real>): real {
    if ps == [] then 1.0 else Product(ps[..|ps| - 1]) * ps[|ps| - 1]
  }

  lemma ProductNext(ps: seq<real>, p: real)
    ensures Product(ps + [p]) == Product(ps) * p
  {
  }

  ghost predicate UnitRolls(rolls: seq<real>) {
    forall i | 0 <= i < |rolls| :: 0.0 <= rolls[i] < 1.0
  }

  /** The roll leaves room for the branch it takes: it is below one, or reading 0 is not certain. */
  ghost predicate RoomFor(t: seq<C>, q: nat, roll: real) {
    0.0 <= roll <= 1.0 && (roll < 1.0 || Mass(t, q, 0) != 1.0)
  }

  /** So do the first n rolls of a measurement. */
  ghost predicate RoomForAll(root: real -> real, s: seq<C>, rolls: seq<real>, n: nat)
    requires Positive(root) && n <= |rolls|
  {
    n > 0 ==>
      RoomForAll(root, s, rolls, n - 1) && RoomFor(Measured(root, s, rolls, n - 1).1, n - 1, rolls[n - 1])
  }

  /** Rolls below one always do. */
  lemma {:induction false} UnitRollsLeaveRoom(root: real -> real, s: seq<C>, rolls: seq<real>, n: nat)
    requires Positive(root) && n <= |rolls| && UnitRolls(rolls)
    ensures RoomForAll(root, s, rolls, n)
  {
    if n > 0 { UnitRollsLeaveRoom(root, s, rolls, n - 1); }
  }

  /** One branch, starting from a unit state. */
  lemma UnitStep(root: real -> real, t: seq<C>, q: nat, roll: real) returns (m: real, e: real)
    requires IsSqrt(root) && Norm2(t) == 1.0 && RoomFor(t, q, roll)
    ensures m == Mass(t, q, Outcome(t, q, roll)) && m > 0.0 && e > 0.0 && e * e * m == 1.0
    ensures Norm2(Collapsed(root, t, q, roll)) == 1.0
    ensures forall i: nat | i < |t| ::
      Collapsed(root, t, q, roll)[i] == if Bit(i, q) == Outcome(t, q, roll) then t[i].Scale(e) else ZERO
  {
    BranchPossible(t, q, roll);
    m := Mass(t, q, Outcome(t, q, roll));
    var d := RootSquared(root, m);
    CollapsedIs(root, t, q, roll, m, d);
    e := UnitAfterDivide(Keep(t, q, Outcome(t, q, roll)), m, d);
    ScaledKeep(t, q, Outcome(t, q, roll), d);
  }

  /** Scaling by k divides squared magnitudes by c. */
  ghost predicate Undoes(k: real, c: real) {
    forall z: C :: z.Scale(k).Norm() * c == z.Norm()
  }

  lemma UndoesNext(k0: real, c0: real, e: real, m: real, k: real)
    requires Undoes(k0, c0) && e * e * m == 1.0 && k == e * k0
    ensures Undoes(k, c0 * m)
  {
    forall z: C ensures z.Scale(k).Norm() * (c0 * m) == z.Norm() {
      var y := z.Scale(k0);
      assert y.Norm() * c0 == z.Norm();
      ScaleTwice(z, k0, e, k);
      NormScale(y, e);
      Rearrange(e * e, y.Norm(), c0, m, z.Norm());
    }
  }

  lemma Rearrange(ee: real, y: real, c0: real, m: real, z: real)
    requires ee * m == 1.0 && y * c0 == z
    ensures (ee * y) * (c0 * m) == z
  {
  }

  lemma UndoesNothing()
    ensures Undoes(1.0, 1.0)
  {
  }

  lemma UndoesProduct(k0: real, ps: seq<real>, e: real, m: real, k: real)
    requires Undoes(k0, Product(ps)) && e * e * m == 1.0 && k == e * k0
    ensures Undoes(k, Product(ps + [m]))
  {
    UndoesNext(k0, Product(ps), e, m, k);
    ProductNext(ps, m);
  }

  lemma MeasuredStep(root: real -> real, s: seq<C>, t: seq<C>, roll: real, bits: seq<nat>, k0: real, ps: seq<real>)
    returns (m: real, k: real)
    requires IsSqrt(root) && RoomFor(t, |bits|, roll) && Norm2(t) == 1.0
    requires IsRestriction(t, s, bits, k0) && Undoes(k0, Product(ps))
    ensures m == Mass(t, |bits|, Outcome(t, |bits|, roll)) && Undoes(k, Product(ps + [m]))
    ensures Norm2(Collapsed(root, t, |bits|, roll)) == 1.0
    ensures IsRestriction(Collapsed(root, t, |bits|, roll), s, bits + [Outcome(t, |bits|, roll)], k)
  {
    var e: real;
    m, e := UnitStep(root, t, |bits|, roll);
    k := e * k0;
    UndoesProduct(k0, ps, e, m, k);
    RestrictNext(s, t, Collapsed(root, t, |bits|, roll), bits, Outcome(t, |bits|, roll), k0, e, k);
  }

  /** Between two collapses the state is a unit state: the original one restricted to what was read, rescaled. */
  lemma {:induction false} MeasuredShape(root: real -> real, s: seq<C>, rolls: seq<real>, q: nat)
    returns (bits: seq<nat>, t: seq<C>, k: real)
    requires IsSqrt(root) && q <= |rolls| && RoomForAll(root, s, rolls, q) && Norm2(s) == 1.0
    ensures Measured(root, s, rolls, q) == (bits, t) && Norm2(t) == 1.0
    ensures Undoes(k, Product(Branches(root, s, rolls, q))) && IsRestriction(t, s, bits, k)
  {
    if q == 0 {
      bits, t, k := [], s, 1.0;
      UndoesNothing();
    } else {
      bits, t, k := MeasuredShape(root, s, rolls, q - 1);
      bits, t, k := MeasuredShapeNext(root, s, rolls, q - 1, bits, t, k, Branches(root, s, rolls, q - 1));
    }
  }

  lemma MeasuredShapeNext(root: real -> real, s: seq<C>, rolls: seq<real>, q: nat, bits0: seq<nat>, t0: seq<C>,
      k0: real, ps: seq<real>)
    returns (bits: seq<nat>, t: seq<C>, k: real)
    requires IsSqrt(root) && q < |rolls| && RoomFor(t0, q, rolls[q])
    requires Measured(root, s, rolls, q) == (bits0, t0) && Norm2(t0) == 1.0
    requires ps == Branches(root, s, rolls, q) && Undoes(k0, Product(ps)) && IsRestriction(t0, s, bits0, k0)
    ensures Measured(root, s, rolls, q + 1) == (bits, t) && Norm2(t) == 1.0
    ensures Undoes(k, Product(Branches(root, s, rolls, q + 1))) && IsRestriction(t, s, bits, k)
  {
    var roll := rolls[q];
    var m;
    m, k := MeasuredStep(root, s, t0, roll, bits0, k0, ps);
    bits, t := bits0 + [Outcome(t0, q, roll)], Collapsed(root, t0, q, roll);
    MeasuredNext(root, s, rolls, q, bits0, t0, Outcome(t0, q, roll), t);
    BranchesNext(root, s, rolls, q, t0, m);
  }

  lemma BranchesNext(root: real -> real, s: seq<C>, rolls: seq<real>, q: nat, t: seq<C>, m: real)
    requires Positive(root) && q < |rolls|
    requires t == Measured(root, s, rolls, q).1 && m == Mass(t, q, Outcome(t, q, rolls[q]))
    ensures Branches(root, s, rolls, q + 1) == Branches(root, s, rolls, q) + [m]
  {
  }

  // ---------------------------------------------------------------- the reported index

  /** The index whose bits are given, lowest first. */
  function Index(bits: seq<nat>): nat {
    if bits == [] then 0 else (if bits[0] == 0 then 0 else 1) + 2 * Index(bits[1..])
  }

  lemma {:induction false} IndexBits(bits: seq<nat>)
    requires forall r: nat | r < |bits| :: bits[r] < 2
    ensures Index(bits) < Pow2(|bits|) && Agrees(Index(bits), bits)
  {
    if bits != [] {
      var rest := bits[1..];
      IndexBits(rest);
      forall r: nat | r < |bits| ensures Bit(Index(bits), r) == bits[r] {
        if r > 0 { assert Bit(Index(rest), r - 1) == rest[r - 1]; }
      }
    }
  }

  lemma AgreesOnlyIndex(i: nat, bits: seq<nat>)
    requires i < Pow2(|bits|) && Agrees(i, bits) && forall r: nat | r < |bits| :: bits[r] < 2
    ensures i == Index(bits)
  {
    IndexBits(bits);
    SameBits(i, Index(bits), |bits|);
  }

  /** A unit state restricted to one index: all the norm is there. */
  lemma RestrictedNorm(t: seq<C>, s: seq<C>, bits: seq<nat>, k: real)
    requires IsRestriction(t, s, bits, k) && IsState(s, |bits|) && Norm2(t) == 1.0
    requires forall r: nat | r < |bits| :: bits[r] < 2
    ensures Index(bits) < |t| && t[Index(bits)].Norm() == 1.0
  {
    var x := Index(bits);
    IndexBits(bits);
    forall i: nat | i < |t| && i != x ensures t[i] == ZERO { OffIndex(t, s, bits, k, i); }
    NormAt(t, x);
  }

  lemma NormAt(t: seq<C>, x: nat)
    requires x < |t| && forall i: nat | i < |t| && i != x :: t[i] == ZERO
    ensures Norm2(t) == t[x].Norm()
  {
    var f := Weight(t);
    forall i: nat | i < |t| && i != x ensures f(i) == 0.0 { ZeroNorm(At(t, i)); }
    SumOnly(f, |t|, x);
  }

  lemma AgreesIndex(t: seq<C>, s: seq<C>, bits: seq<nat>, k: real)
    requires IsRestriction(t, s, bits, k) && IsState(s, |bits|)
    requires forall r: nat | r < |bits| :: bits[r] < 2
    ensures Index(bits) < |t| && t[Index(bits)] == s[Index(bits)].Scale(k)
  {
    IndexBits(bits);
  }

  lemma OffIndex(t: seq<C>, s: seq<C>, bits: seq<nat>, k: real, i: nat)
    requires IsRestriction(t, s, bits, k) && IsState(s, |bits|) && i < |s| && i != Index(bits)
    requires forall r: nat | r < |bits| :: bits[r] < 2
    ensures t[i] == ZERO
  {
    if Agrees(i, bits) { AgreesOnlyIndex(i, bits); }
  }

  /** Where every roll leaves room, the index the bits name had an amplitude. */
  lemma PossibleReport(root: real -> real, s: seq<C>, n: nat, rolls: seq<real>)
    requires IsSqrt(root) && n <= |rolls| && RoomForAll(root, s, rolls, n) && IsState(s, n) && Norm2(s) == 1.0
    ensures var x := Index(Measured(root, s, rolls, n).0);
      x < |s| && s[x] != ZERO && s[x].Norm() == Product(Branches(root, s, rolls, n))
  {
    var bits, t, k := MeasuredShape(root, s, rolls, n);
    var x := Index(bits);
    RestrictedNorm(t, s, bits, k);
    AgreesIndex(t, s, bits, k);
    Recovered(t[x], s[x], k, Product(Branches(root, s, rolls, n)));
    NotZero(t[x], s[x], k);
  }

  /**
   * Measuring a unit state with rolls below one: the reported digits name, with qubit 0 rightmost, a basis index whose
   * amplitude was not zero, and the branches taken have exactly that amplitude's squared magnitude as probability.
   */
  lemma MeasurementIsSound(root: real -> real, s: seq<C>, n: nat, rolls: seq<real>) returns (x: nat)
    requires IsSqrt(root) && UnitRolls(rolls) && n <= |rolls| && IsState(s, n) && Norm2(s) == 1.0
    ensures x < |s| && s[x] != ZERO
    ensures s[x].Norm() == Product(Branches(root, s, rolls, n))
    ensures Spells(BitString(Measured(root, s, rolls, n).0), x, n)
  {
    UnitRollsLeaveRoom(root, s, rolls, n);
    PossibleReport(root, s, n, rolls);
    x := Index(Measured(root, s, rolls, n).0);
    TextNamesIndex(Measured(root, s, rolls, n).0);
  }

  lemma TextNamesIndex(bits: seq<nat>)
    requires forall r: nat | r < |bits| :: bits[r] < 2
    ensures Spells(BitString(bits), Index(bits), |bits|)
  {
    IndexBits(bits);
    forall i: nat | i < |bits|
      ensures |BitString(bits)| == |bits|
      ensures BitString(bits)[i] == if Bit(Index(bits), |bits| - 1 - i) == 1 then '1' else '0'
    {
      BitStringAt(bits, i);
      assert Bit(Index(bits), |bits| - 1 - i) == bits[|bits| - 1 - i];
    }
  }

  lemma ZeroNorm(z: C)
    requires z == ZERO
    ensures z.Norm() == 0.0
  {
  }

  lemma Recovered(y: C, z: C, k: real, c: real)
    requires Undoes(k, c) && y == z.Scale(k) && y.Norm() == 1.0
    ensures z.Norm() == c
  {
  }

  lemma NotZero(y: C, z: C, k: real)
    requires y == z.Scale(k) && y.Norm() == 1.0
    ensures z != ZERO
  {
  }

  /** A roll of exactly one can report a string the state gives no weight to. */
  lemma RollOfOneFails(s: seq<C>)
    requires s == Basis(1, 0)
    ensures Outcome(s, 0, 1.0) == 1 && Mass(s, 0, 1) == 0.0 && s[1] == ZERO
  {
    BasisIsUnit(1, 0);
    KeepAll(s);
    KeepMass(s, 0, 0);
    MassesShare(s, 0);
  }

  lemma KeepAll(s: seq<C>)
    requires s == Basis(1, 0)
    ensures Keep(s, 0, 0) == s && |s| == 2 && s[1] == ZERO
  {
  }

  lemma BasisIsUnit(n: nat, x: nat)
    requires x < Pow2(n)
    ensures Norm2(Basis(n, x)) == 1.0
  {
    NormAt(Basis(n, x), x);
    OneNorm(Basis(n, x)[x]);
  }

  lemma OneNorm(z: C)
    requires z == ONE
    ensures z.Norm() == 1.0
  {
  }
}
