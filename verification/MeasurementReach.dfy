/** What measuring can report: every possible outcome, and with a roll of exactly one sometimes an impossible one. */
module MeasurementReach {
  import opened Qubits
  import opened Complex
  import opened QuantumGates
  import opened Cnot
  import opened QuantumMeasure
  import opened MeasurementSoundness

  // ---------------------------------------------------------------- weights

  lemma PositiveProduct(a: real, b: real, p: real)
    requires a > 0.0 && b > 0.0 && p == a * b
    ensures p > 0.0
  {
  }

  lemma SquareNotNegative(x: real, p: real)
    requires p == x * x
    ensures p >= 0.0
  {
  }

  lemma SquarePositive(x: real, p: real)
    requires p == x * x && x != 0.0
    ensures p > 0.0
  {
    assert p == (-x) * (-x);
    if x > 0.0 { PositiveProduct(x, x, p); } else { PositiveProduct(-x, -x, p); }
  }

  lemma Squared(x: real) returns (p: real)
    ensures p == x * x && p >= 0.0 && (x != 0.0 ==> p > 0.0)
  {
    p := x * x;
    SquareNotNegative(x, p);
    if x != 0.0 { SquarePositive(x, p); }
  }

  lemma NormFromSquares(z: C, p: real, q: real)
    requires p == z.re * z.re && q == z.im * z.im && p + q > 0.0
    ensures z.Norm() > 0.0
  {
  }

  lemma NormPositive(z: C)
    requires z != ZERO
    ensures z.Norm() > 0.0
  {
    var p := Squared(z.re);
    var q := Squared(z.im);
    NormFromSquares(z, p, q);
  }

  lemma {:induction false} SumAtLeast(f: nat -> real, n: nat, x: nat)
    requires x < n && forall i: nat | i < n :: f(i) >= 0.0
    ensures Sum(f, n) >= f(x)
  {
    if x == n - 1 { SumNonNegative(f, n - 1); } else { SumAtLeast(f, n - 1, x); }
  }

  /** The outcome an amplitude belongs to is at least as likely as that amplitude. */
  lemma MassAtLeast(s: seq<C>, q: nat, x: nat)
    requires x < |s|
    ensures Mass(s, q, Bit(x, q)) >= At(s, x).Norm()
  {
    var f := Where(Weight(s), q, Bit(x, q));
    forall i: nat | i < |s| ensures f(i) >= 0.0 { NormNonNegative(At(s, i)); }
    SumAtLeast(f, |s|, x);
  }

  // ---------------------------------------------------------------- choosing the rolls

  /** A roll that reads qubit q as it stands in basis state x. */
  lemma RollFor(s: seq<C>, q: nat, x: nat) returns (roll: real)
    requires x < |s| && Norm2(s) == 1.0 && s[x] != ZERO
    ensures 0.0 <= roll < 1.0 && Outcome(s, q, roll) == Bit(x, q)
  {
    NormPositive(s[x]);
    MassAtLeast(s, q, x);
    MassesShare(s, q);
    MassNonNegative(s, q, 0);
    roll := if Bit(x, q) == 0 then 0.0 else Mass(s, q, 0);
  }

  /** Only the rolls already used matter. */
  lemma {:induction false} MeasuredSoFar(root: real -> real, s: seq<C>, rolls: seq<real>, roll: real, q: nat)
    requires Positive(root) && q <= |rolls|
    ensures Measured(root, s, rolls + [roll], q) == Measured(root, s, rolls, q)
  {
    if q > 0 { MeasuredSoFar(root, s, rolls, roll, q - 1); }
  }

  lemma ScaledStaysPositive(z: C, e: real, m: real)
    requires z != ZERO && e * e * m == 1.0 && m > 0.0
    ensures z.Scale(e) != ZERO
  {
    var w := z.Norm();
    NormPositive(z);
    NormScale(z, e);
    KeepsSign(e * e, m, w);
    PositiveNormNotZero(z.Scale(e), e * e * w);
  }

  lemma PositiveNormNotZero(z: C, n: real)
    requires z.Norm() == n && n > 0.0
    ensures z != ZERO
  {
  }

  lemma KeepsSign(k: real, m: real, w: real)
    requires k * m == 1.0 && m > 0.0 && w > 0.0
    ensures k * w > 0.0
  {
    if k <= 0.0 { NegativeProduct(k, m); } else { PositiveProduct(k, w, k * w); }
  }

  lemma NegativeProduct(k: real, m: real)
    requires k <= 0.0 && m > 0.0
    ensures k * m <= 0.0
  {
  }

  lemma ReachStep(root: real -> real, t: seq<C>, q: nat, x: nat) returns (roll: real)
    requires IsSqrt(root) && x < |t| && Norm2(t) == 1.0 && t[x] != ZERO
    ensures 0.0 <= roll < 1.0 && Outcome(t, q, roll) == Bit(x, q)
    ensures Norm2(Collapsed(root, t, q, roll)) == 1.0 && Collapsed(root, t, q, roll)[x] != ZERO
  {
    roll := RollFor(t, q, x);
    var m, e := UnitStep(root, t, q, roll);
    ScaledStaysPositive(t[x], e, m);
  }

  lemma {:induction false} ReachBits(root: real -> real, s: seq<C>, x: nat, q: nat)
    returns (rolls: seq<real>, bits: seq<nat>, t: seq<C>)
    requires IsSqrt(root) && x < |s| && Norm2(s) == 1.0 && s[x] != ZERO
    ensures |rolls| == q && UnitRolls(rolls) && Measured(root, s, rolls, q) == (bits, t)
    ensures Agrees(x, bits) && Norm2(t) == 1.0 && t[x] != ZERO
  {
    rolls, bits, t := [], [], s;
    if q > 0 {
      rolls, bits, t := ReachBits(root, s, x, q - 1);
      rolls, bits, t := ReachNext(root, s, x, rolls, bits, t);
    }
  }

  lemma ReachNext(root: real -> real, s: seq<C>, x: nat, before: seq<real>, bits0: seq<nat>, t0: seq<C>)
    returns (rolls: seq<real>, bits: seq<nat>, t: seq<C>)
    requires IsSqrt(root) && x < |t0| && UnitRolls(before) && Measured(root, s, before, |before|) == (bits0, t0)
    requires Agrees(x, bits0) && Norm2(t0) == 1.0 && t0[x] != ZERO
    ensures |rolls| == |before| + 1 && UnitRolls(rolls) && Measured(root, s, rolls, |rolls|) == (bits, t)
    ensures Agrees(x, bits) && Norm2(t) == 1.0 && x < |t| && t[x] != ZERO
  {
    var q := |before|;
    var roll := ReachStep(root, t0, q, x);
    rolls, bits, t := before + [roll], bits0 + [Outcome(t0, q, roll)], Collapsed(root, t0, q, roll);
    MeasuredSoFar(root, s, before, roll, q);
    MeasuredNext(root, s, rolls, q, bits0, t0, Outcome(t0, q, roll), t);
    AgreesNext(x, bits0, Outcome(t0, q, roll));
  }

  /** For every basis index with a non-zero amplitude some rolls below one make the report name it. */
  lemma EveryOutcomeReachable(root: real -> real, s: seq<C>, n: nat, x: nat) returns (rolls: seq<real>)
    requires IsSqrt(root) && IsState(s, n) && Norm2(s) == 1.0 && x < |s| && s[x] != ZERO
    ensures |rolls| == n && UnitRolls(rolls)
    ensures Spells(BitString(Measured(root, s, rolls, n).0), x, n)
  {
    var bits, t;
    rolls, bits, t := ReachBits(root, s, x, n);
    AgreesOnlyIndex(x, bits);
    TextNamesIndex(bits);
  }

  // ---------------------------------------------------------------- rolls of exactly one

  lemma BitsGrow(root: real -> real, s: seq<C>, rolls: seq<real>, n: nat) returns (bits: seq<nat>, last: nat)
    requires Positive(root) && 0 < n <= |rolls|
    ensures Measured(root, s, rolls, n - 1).0 == bits && Measured(root, s, rolls, n).0 == bits + [last]
  {
    bits := Measured(root, s, rolls, n - 1).0;
    last := Outcome(Measured(root, s, rolls, n - 1).1, n - 1, rolls[n - 1]);
  }

  lemma AgreesOneEarlier(root: real -> real, s: seq<C>, rolls: seq<real>, n: nat, x: nat, all: seq<nat>)
    returns (bits: seq<nat>)
    requires Positive(root) && 0 < n <= |rolls| && Measured(root, s, rolls, n).0 == all && Agrees(x, all)
    ensures Measured(root, s, rolls, n - 1).0 == bits && Agrees(x, bits)
  {
    var last;
    bits, last := BitsGrow(root, s, rolls, n);
    AgreesNext(x, bits, last);
  }

  lemma NoMassNoAmplitude(t: seq<C>, q: nat, x: nat)
    requires x < |t| && Mass(t, q, Bit(x, q)) == 0.0
    ensures t[x] == ZERO
  {
    MassAtLeast(t, q, x);
    if t[x] != ZERO { NormPositive(t[x]); }
  }

  lemma ScaledBackZero(y: C, z: C, k: real, c: real)
    requires Undoes(k, c) && y == z.Scale(k) && y == ZERO
    ensures z == ZERO
  {
    var norm := z.Norm();
    ZeroNorm(y);
    UndoneNorm(y, z, k, c);
    NoNormIsZero(z, norm);
  }

  lemma NoNormIsZero(z: C, norm: real)
    requires norm == z.Norm() && norm == 0.0
    ensures z == ZERO
  {
    if z != ZERO { NormPositive(z); }
  }

  lemma UndoneNorm(y: C, z: C, k: real, c: real)
    requires Undoes(k, c) && y == z.Scale(k) && y.Norm() == 0.0
    ensures z.Norm() == 0.0
  {
  }

  /** Where reading 0 is certain, a roll of one reads 1, which no index with an amplitude has there. */
  lemma WrongBranch(root: real -> real, s: seq<C>, rolls: seq<real>, q: nat, x: nat)
    requires IsSqrt(root) && q < |rolls| && Norm2(s) == 1.0 && RoomForAll(root, s, rolls, q) && rolls[q] == 1.0
    requires var t := Measured(root, s, rolls, q).1; Mass(t, q, 0) == 1.0
    requires x < |s| && Agrees(x, Measured(root, s, rolls, q + 1).0)
    ensures s[x] == ZERO
  {
    var bits, t, k := MeasuredShape(root, s, rolls, q);
    MassesShare(t, q);
    AgreesNext(x, bits, Outcome(t, q, rolls[q]));
    NoMassNoAmplitude(t, q, x);
    ScaledBackZero(t[x], s[x], k, Product(Branches(root, s, rolls, q)));
  }

  /** Once a roll leaves no room, no index that agrees with the bits read has an amplitude. */
  lemma {:induction false} WithoutRoom(root: real -> real, s: seq<C>, rolls: seq<real>, n: nat, x: nat, all: seq<nat>)
    requires IsSqrt(root) && n <= |rolls| && Norm2(s) == 1.0 && x < |s|
    requires (forall q: nat | q < n :: 0.0 <= rolls[q] <= 1.0) && !RoomForAll(root, s, rolls, n)
    requires Measured(root, s, rolls, n).0 == all && Agrees(x, all)
    ensures s[x] == ZERO
  {
    if RoomForAll(root, s, rolls, n - 1) {
      WrongBranch(root, s, rolls, n - 1, x);
    } else {
      var bits := AgreesOneEarlier(root, s, rolls, n, x, all);
      WithoutRoom(root, s, rolls, n - 1, x, bits);
    }
  }

  lemma IndexPossible(root: real -> real, s: seq<C>, n: nat, rolls: seq<real>, x: nat)
    requires IsSqrt(root) && n <= |rolls| && IsState(s, n) && Norm2(s) == 1.0
    requires forall q: nat | q < n :: 0.0 <= rolls[q] <= 1.0
    requires x == Index(Measured(root, s, rolls, n).0)
    ensures x < |s| && (s[x] != ZERO <==> RoomForAll(root, s, rolls, n))
  {
    if RoomForAll(root, s, rolls, n) {
      PossibleReport(root, s, n, rolls);
    } else {
      var bits := Measured(root, s, rolls, n).0;
      IndexBits(bits);
      WithoutRoom(root, s, rolls, n, x, bits);
    }
  }

  /**
   * With rolls up to and including one, the index the report names has a non-zero amplitude if and only if no roll of
   * exactly one meets a qubit that is certain to read 0.
   */
  lemma ReportPossibleExactlyWhen(root: real -> real, s: seq<C>, n: nat, rolls: seq<real>) returns (x: nat)
    requires IsSqrt(root) && n <= |rolls| && IsState(s, n) && Norm2(s) == 1.0
    requires forall q: nat | q < n :: 0.0 <= rolls[q] <= 1.0
    ensures Spells(BitString(Measured(root, s, rolls, n).0), x, n)
    ensures x < |s| && (s[x] != ZERO <==> RoomForAll(root, s, rolls, n))
  {
    var bits := Measured(root, s, rolls, n).0;
    x := Index(bits);
    TextNamesIndex(bits);
    IndexPossible(root, s, n, rolls, x);
  }
}
