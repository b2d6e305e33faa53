/** The Born rule: how much of the rolls makes measuring report a given basis state. */
module BornRule {
  import opened Qubits
  import opened Complex
  import opened QuantumGates
  import opened Cnot
  import opened QuantumMeasure
  import opened MeasurementSoundness
  import opened MeasurementReach

  // ---------------------------------------------------------------- the way to one basis state

  /** The low q bits of index x, lowest first. */
  function LowBits(x: nat, q: nat): (bits: seq<nat>)
    ensures |bits| == q
  {
    if q == 0 then [] else LowBits(x, q - 1) + [Bit(x, q - 1)]
  }

  /** The state once the first q qubits have read as in x. */
  ghost function Toward(root: real -> real, s: seq<C>, x: nat, q: nat): (t: seq<C>)
    requires Positive(root)
    ensures |t| == |s|
  {
    if q == 0 then s else Normalised(root, Keep(Toward(root, s, x, q - 1), q - 1, Bit(x, q - 1)))
  }

  /** The probability that qubit q then reads 0. */
  ghost function ZeroNext(root: real -> real, s: seq<C>, x: nat, q: nat): real
    requires Positive(root)
  {
    Mass(Toward(root, s, x, q), q, 0)
  }

  /** The rolls that make qubit q read as in x reach from here ... */
  ghost function From(root: real -> real, s: seq<C>, x: nat, q: nat): real
    requires Positive(root)
  {
    if Bit(x, q) == 0 then 0.0 else ZeroNext(root, s, x, q)
  }

  /** ... to here. */
  ghost function To(root: real -> real, s: seq<C>, x: nat, q: nat): real
    requires Positive(root)
  {
    if Bit(x, q) == 0 then ZeroNext(root, s, x, q) else 1.0
  }

  // ---------------------------------------------------------------- which rolls report x

  ghost function Froms(root: real -> real, s: seq<C>, x: nat): nat -> real
    requires Positive(root)
  {
    (q: nat) => From(root, s, x, q)
  }

  ghost function Tos(root: real -> real, s: seq<C>, x: nat): nat -> real
    requires Positive(root)
  {
    (q: nat) => To(root, s, x, q)
  }

  /** A roll below one reads bit b where p is the probability of 0. */
  lemma OutcomeWhen(t: seq<C>, q: nat, roll: real, b: nat, p: real)
    requires 0.0 <= roll < 1.0 && b < 2 && p == Mass(t, q, 0)
    ensures Outcome(t, q, roll) == b <==> (if b == 0 then 0.0 else p) <= roll < (if b == 0 then p else 1.0)
  {
  }

  lemma CollapsedToward(root: real -> real, s: seq<C>, x: nat, q: nat, t: seq<C>, roll: real)
    requires Positive(root) && t == Toward(root, s, x, q) && Outcome(t, q, roll) == Bit(x, q)
    ensures Collapsed(root, t, q, roll) == Toward(root, s, x, q + 1)
  {
  }

  /** The roll lies where qubit q needs it to read as in x. */
  ghost predicate RollFor(root: real -> real, s: seq<C>, x: nat, q: nat, roll: real)
    requires Positive(root)
  {
    From(root, s, x, q) <= roll < To(root, s, x, q)
  }

  lemma ReadsBit(root: real -> real, s: seq<C>, x: nat, q: nat, t: seq<C>, roll: real)
    requires Positive(root) && t == Toward(root, s, x, q) && 0.0 <= roll < 1.0
    ensures Outcome(t, q, roll) == Bit(x, q) <==> RollFor(root, s, x, q, roll)
  {
    OutcomeWhen(t, q, roll, Bit(x, q), ZeroNext(root, s, x, q));
  }

  /** While the bits read agree with x, the state is the one on the way to x. */
  lemma ReadNext(root: real -> real, s: seq<C>, rolls: seq<real>, x: nat, q: nat, bits: seq<nat>, t: seq<C>)
    returns (b: nat, u: seq<C>)
    requires Positive(root) && q < |rolls| && 0.0 <= rolls[q] < 1.0
    requires Measured(root, s, rolls, q) == (bits, t) && t == Toward(root, s, x, q)
    ensures Measured(root, s, rolls, q + 1) == (bits + [b], u)
    ensures b == Bit(x, q) <==> RollFor(root, s, x, q, rolls[q])
    ensures b == Bit(x, q) ==> u == Toward(root, s, x, q + 1)
  {
    b, u := Outcome(t, q, rolls[q]), Collapsed(root, t, q, rolls[q]);
    MeasuredNext(root, s, rolls, q, bits, t, b, u);
    ReadsBit(root, s, x, q, t, rolls[q]);
    if b == Bit(x, q) { CollapsedToward(root, s, x, q, t, rolls[q]); }
  }

  /** The first n rolls lie between these bounds. */
  ghost predicate Within(rolls: seq<real>, from: nat -> real, to: nat -> real, n: nat)
    requires n <= |rolls|
  {
    n > 0 ==> Within(rolls, from, to, n - 1) && from(n - 1) <= rolls[n - 1] < to(n - 1)
  }

  /** Between the bounds that x needs. */
  ghost predicate RollsFor(root: real -> real, s: seq<C>, rolls: seq<real>, x: nat, n: nat)
    requires Positive(root) && n <= |rolls|
  {
    Within(rolls, Froms(root, s, x), Tos(root, s, x), n)
  }

  lemma RollsForNext(root: real -> real, s: seq<C>, rolls: seq<real>, x: nat, q: nat)
    requires Positive(root) && q < |rolls|
    ensures RollsFor(root, s, rolls, x, q + 1) <==> RollsFor(root, s, rolls, x, q) && RollFor(root, s, x, q, rolls[q])
  {
  }

  /** The bits read are x's exactly if the rolls are for x, and the state is then the one on the way to x. */
  ghost predicate ReadSoFar(root: real -> real, s: seq<C>, rolls: seq<real>, x: nat, n: nat, bits: seq<nat>, t: seq<C>)
    requires Positive(root) && n <= |rolls|
  {
    && Measured(root, s, rolls, n) == (bits, t)
    && (bits == LowBits(x, n) <==> RollsFor(root, s, rolls, x, n))
    && (bits == LowBits(x, n) ==> t == Toward(root, s, x, n))
  }

  lemma {:induction false} ReadsExactly(root: real -> real, s: seq<C>, rolls: seq<real>, x: nat, n: nat)
    returns (bits: seq<nat>, t: seq<C>)
    requires Positive(root) && n <= |rolls| && UnitRolls(rolls)
    ensures ReadSoFar(root, s, rolls, x, n, bits, t)
  {
    if n == 0 {
      bits, t := ReadsNothing(root, s, rolls, x);
    } else {
      bits, t := ReadsExactly(root, s, rolls, x, n - 1);
      bits, t := ReadsOneMore(root, s, rolls, x, n - 1, n, bits, t);
    }
  }

  lemma ReadsNothing(root: real -> real, s: seq<C>, rolls: seq<real>, x: nat) returns (bits: seq<nat>, t: seq<C>)
    requires Positive(root)
    ensures ReadSoFar(root, s, rolls, x, 0, bits, t)
  {
    bits, t := [], s;
  }

  lemma ReadsOneMore(root: real -> real, s: seq<C>, rolls: seq<real>, x: nat, q: nat, n: nat, front: seq<nat>,
      before: seq<C>) returns (bits: seq<nat>, t: seq<C>)
    requires Positive(root) && q < |rolls| && 0.0 <= rolls[q] < 1.0 && n == q + 1
    requires ReadSoFar(root, s, rolls, x, q, front, before)
    ensures ReadSoFar(root, s, rolls, x, n, bits, t)
  {
    RollsForNext(root, s, rolls, x, q);
    if front == LowBits(x, q) {
      var b;
      b, t := ReadNext(root, s, rolls, x, q, front, before);
      bits := front + [b];
      SameLast(front, b, Bit(x, q));
    } else {
      var b := Outcome(before, q, rolls[q]);
      t, bits := Collapsed(root, before, q, rolls[q]), front + [b];
      MeasuredNext(root, s, rolls, q, front, before, b, t);
      SameFront(front, b, LowBits(x, q), Bit(x, q));
    }
  }

  lemma SameLast(front: seq<nat>, a: nat, b: nat)
    ensures front + [a] == front + [b] <==> a == b
  {
    assert (front + [a])[|front|] == a && (front + [b])[|front|] == b;
  }

  lemma SameFront(front: seq<nat>, a: nat, other: seq<nat>, b: nat)
    requires |front| == |other| && front != other
    ensures front + [a] != other + [b]
  {
    assert (front + [a])[..|front|] == front && (other + [b])[..|other|] == other;
  }

  // ---------------------------------------------------------------- how likely that is

  /** On the way there is a unit state, or after an impossible turn nothing at all. */
  lemma {:induction false} TowardNorm(root: real -> real, s: seq<C>, x: nat, q: nat)
    requires IsSqrt(root) && Norm2(s) == 1.0
    ensures Norm2(Toward(root, s, x, q)) == 1.0 || Norm2(Toward(root, s, x, q)) == 0.0
  {
    if q > 0 {
      var kept := Keep(Toward(root, s, x, q - 1), q - 1, Bit(x, q - 1));
      NormalisedNorm(root, kept);
    }
  }

  lemma NormalisedNorm(root: real -> real, kept: seq<C>)
    requires IsSqrt(root)
    ensures Norm2(Normalised(root, kept)) == 1.0 || Norm2(Normalised(root, kept)) == 0.0
  {
    Norm2NonNegative(kept);
    if Norm2(kept) > 0.0 {
      var d := RootSquared(root, Norm2(kept));
      var e := UnitAfterDivide(kept, Norm2(kept), d);
    }
  }

  lemma Norm2NonNegative(t: seq<C>)
    ensures Norm2(t) >= 0.0
  {
    forall i: nat | i < |t| ensures Weight(t)(i) >= 0.0 { NormNonNegative(At(t, i)); }
    SumNonNegative(Weight(t), |t|);
  }

  /** The two outcomes share whatever norm there is. */
  lemma MassBounds(t: seq<C>, q: nat)
    requires Norm2(t) == 1.0 || Norm2(t) == 0.0
    ensures 0.0 <= Mass(t, q, 0) <= 1.0
  {
    SumSplits(Weight(t), q, |t|);
    MassNonNegative(t, q, 0);
    MassNonNegative(t, q, 1);
  }

  lemma Ordered(root: real -> real, s: seq<C>, x: nat, q: nat)
    requires IsSqrt(root) && Norm2(s) == 1.0
    ensures 0.0 <= From(root, s, x, q) <= To(root, s, x, q) <= 1.0
  {
    TowardNorm(root, s, x, q);
    MassBounds(Toward(root, s, x, q), q);
  }

  /** The first n values of f. */
  ghost function Table(f: nat -> real, n: nat): (fs: seq<real>)
    ensures |fs| == n
  {
    if n == 0 then [] else Table(f, n - 1) + [f(n - 1)]
  }

  lemma ProductOfTable(f: nat -> real, n: nat)
    ensures Table(f, n + 1) == Table(f, n) + [f(n)]
    ensures Product(Table(f, n + 1)) == Product(Table(f, n)) * f(n)
  {
    ProductNext(Table(f, n), f(n));
  }

  /** How wide the interval of qubit q is. */
  ghost function Width(root: real -> real, s: seq<C>, x: nat): nat -> real
    requires Positive(root)
  {
    (q: nat) => To(root, s, x, q) - From(root, s, x, q)
  }

  /** Each of the first n qubits can read as in x. */
  ghost predicate Reachable(root: real -> real, s: seq<C>, x: nat, n: nat)
    requires Positive(root)
  {
    n > 0 ==> Reachable(root, s, x, n - 1) && From(root, s, x, n - 1) < To(root, s, x, n - 1)
  }

  lemma WidthIsMass(root: real -> real, s: seq<C>, x: nat, q: nat, t: seq<C>)
    requires Positive(root) && t == Toward(root, s, x, q) && Norm2(t) == 1.0
    ensures To(root, s, x, q) - From(root, s, x, q) == Mass(t, q, Bit(x, q))
  {
    MassFromZero(t, q, Bit(x, q), ZeroNext(root, s, x, q));
  }

  lemma MassFromZero(t: seq<C>, q: nat, b: nat, p: real)
    requires Norm2(t) == 1.0 && b < 2 && p == Mass(t, q, 0)
    ensures Mass(t, q, b) == if b == 0 then p else 1.0 - p
  {
    if b == 1 { MassesShare(t, q); }
  }

  lemma {:induction false} TowardShape(root: real -> real, s: seq<C>, x: nat, q: nat) returns (t: seq<C>, k: real)
    requires IsSqrt(root) && Norm2(s) == 1.0 && Reachable(root, s, x, q)
    ensures t == Toward(root, s, x, q) && Norm2(t) == 1.0
    ensures IsRestriction(t, s, LowBits(x, q), k) && Undoes(k, Product(Table(Width(root, s, x), q)))
  {
    t, k := s, 1.0;
    if q == 0 {
      UndoesNothing();
    } else {
      t, k := TowardShape(root, s, x, q - 1);
      t, k := TowardShapeNext(root, s, x, q - 1, t, k, LowBits(x, q - 1), Table(Width(root, s, x), q - 1));
    }
  }

  lemma TowardShapeNext(root: real -> real, s: seq<C>, x: nat, q: nat, t0: seq<C>, k0: real, bits: seq<nat>,
      ws: seq<real>) returns (t: seq<C>, k: real)
    requires IsSqrt(root) && Norm2(s) == 1.0 && From(root, s, x, q) < To(root, s, x, q)
    requires t0 == Toward(root, s, x, q) && Norm2(t0) == 1.0
    requires bits == LowBits(x, q) && ws == Table(Width(root, s, x), q)
    requires IsRestriction(t0, s, bits, k0) && Undoes(k0, Product(ws))
    ensures t == Toward(root, s, x, q + 1) && Norm2(t) == 1.0
    ensures IsRestriction(t, s, LowBits(x, q + 1), k) && Undoes(k, Product(Table(Width(root, s, x), q + 1)))
  {
    var roll := From(root, s, x, q);
    t := Toward(root, s, x, q + 1);
    TurnToward(root, s, x, q, t0, roll);
    var m;
    m, k := StepTo(root, s, t0, roll, bits, k0, ws, Bit(x, q), t);
    WidthsNext(root, s, x, q, t0, ws, m);
  }

  /** The lowest roll that reads qubit q as in x does lead on. */
  lemma TurnToward(root: real -> real, s: seq<C>, x: nat, q: nat, t: seq<C>, roll: real)
    requires IsSqrt(root) && Norm2(s) == 1.0 && t == Toward(root, s, x, q)
    requires roll == From(root, s, x, q) < To(root, s, x, q)
    ensures 0.0 <= roll < 1.0 && Outcome(t, q, roll) == Bit(x, q)
    ensures Collapsed(root, t, q, roll) == Toward(root, s, x, q + 1)
  {
    Ordered(root, s, x, q);
    ReadsBit(root, s, x, q, t, roll);
    CollapsedToward(root, s, x, q, t, roll);
  }

  /** MeasuredStep with its outcome and new state named. */
  lemma StepTo(root: real -> real, s: seq<C>, t: seq<C>, roll: real, bits: seq<nat>, k0: real, ps: seq<real>, b: nat,
      u: seq<C>) returns (m: real, k: real)
    requires IsSqrt(root) && 0.0 <= roll < 1.0 && Norm2(t) == 1.0
    requires IsRestriction(t, s, bits, k0) && Undoes(k0, Product(ps))
    requires b == Outcome(t, |bits|, roll) && u == Collapsed(root, t, |bits|, roll)
    ensures m == Mass(t, |bits|, b) && Undoes(k, Product(ps + [m]))
    ensures Norm2(u) == 1.0 && IsRestriction(u, s, bits + [b], k)
  {
    m, k := MeasuredStep(root, s, t, roll, bits, k0, ps);
  }

  lemma WidthsNext(root: real -> real, s: seq<C>, x: nat, q: nat, t: seq<C>, ws: seq<real>, m: real)
    requires Positive(root) && t == Toward(root, s, x, q) && Norm2(t) == 1.0
    requires ws == Table(Width(root, s, x), q) && m == Mass(t, q, Bit(x, q))
    ensures Table(Width(root, s, x), q + 1) == ws + [m]
  {
    WidthAt(root, s, x, q, t, m);
    ProductOfTable(Width(root, s, x), q);
  }

  lemma WidthAt(root: real -> real, s: seq<C>, x: nat, q: nat, t: seq<C>, m: real)
    requires Positive(root) && t == Toward(root, s, x, q) && Norm2(t) == 1.0 && m == Mass(t, q, Bit(x, q))
    ensures Width(root, s, x)(q) == m
  {
    WidthIsMass(root, s, x, q, t);
  }

  lemma {:induction false} LowBitsAgree(x: nat, q: nat)
    ensures Agrees(x, LowBits(x, q)) && forall r: nat | r < q :: LowBits(x, q)[r] < 2
  {
    if q > 0 {
      LowBitsAgree(x, q - 1);
      AgreesNext(x, LowBits(x, q - 1), Bit(x, q - 1));
    }
  }

  /** A reachable index: the widths multiply to its squared magnitude. */
  lemma ReachableWeight(root: real -> real, s: seq<C>, x: nat, n: nat)
    requires IsSqrt(root) && IsState(s, n) && Norm2(s) == 1.0 && x < |s| && Reachable(root, s, x, n)
    ensures Product(Table(Width(root, s, x), n)) == s[x].Norm()
  {
    var t, k := TowardShape(root, s, x, n);
    var bits := LowBits(x, n);
    LowBitsAgree(x, n);
    AgreesOnlyIndex(x, bits);
    RestrictedNorm(t, s, bits, k);
    AgreesIndex(t, s, bits, k);
    Recovered(t[x], s[x], k, Product(Table(Width(root, s, x), n)));
  }

  /** Where the way stops there is no amplitude. */
  lemma StopsAtZero(root: real -> real, s: seq<C>, x: nat, q: nat)
    requires IsSqrt(root) && Norm2(s) == 1.0 && x < |s| && Reachable(root, s, x, q)
    requires From(root, s, x, q) == To(root, s, x, q)
    ensures s[x] == ZERO
  {
    var t, k := TowardShape(root, s, x, q);
    LowBitsAgree(x, q);
    WidthIsMass(root, s, x, q, t);
    NoMassNoAmplitude(t, q, x);
    ScaledBackZero(t[x], s[x], k, Product(Table(Width(root, s, x), q)));
  }

  lemma {:induction false} UnreachableWeight(root: real -> real, s: seq<C>, x: nat, n: nat)
    requires IsSqrt(root) && Norm2(s) == 1.0 && x < |s| && !Reachable(root, s, x, n)
    ensures s[x] == ZERO && Product(Table(Width(root, s, x), n)) == 0.0
  {
    if Reachable(root, s, x, n - 1) {
      NoWidth(root, s, x, n - 1);
      StopsAtZero(root, s, x, n - 1);
    } else {
      UnreachableWeight(root, s, x, n - 1);
    }
    ProductWithZero(Width(root, s, x), n - 1);
  }

  lemma NoWidth(root: real -> real, s: seq<C>, x: nat, q: nat)
    requires IsSqrt(root) && Norm2(s) == 1.0 && !(From(root, s, x, q) < To(root, s, x, q))
    ensures From(root, s, x, q) == To(root, s, x, q) && Width(root, s, x)(q) == 0.0
  {
    Ordered(root, s, x, q);
  }

  lemma ProductWithZero(f: nat -> real, n: nat)
    requires Product(Table(f, n)) == 0.0 || f(n) == 0.0
    ensures Product(Table(f, n + 1)) == 0.0
  {
    ProductOfTable(f, n);
  }

  lemma WidthsMultiply(root: real -> real, s: seq<C>, x: nat, n: nat)
    requires IsSqrt(root) && IsState(s, n) && Norm2(s) == 1.0 && x < |s|
    ensures Product(Table(Width(root, s, x), n)) == s[x].Norm()
  {
    if Reachable(root, s, x, n) {
      ReachableWeight(root, s, x, n);
    } else {
      UnreachableWeight(root, s, x, n);
      ZeroNorm(s[x]);
    }
  }

  // ---------------------------------------------------------------- the rule

  lemma SpellsExactly(bits: seq<nat>, x: nat, n: nat)
    requires |bits| == n && forall r: nat | r < n :: bits[r] < 2
    ensures Spells(BitString(bits), x, n) <==> bits == LowBits(x, n)
  {
    LowBitsAgree(x, n);
    forall i: nat | i < n
      ensures |BitString(bits)| == n && BitString(bits)[i] == if bits[n - 1 - i] == 0 then '0' else '1'
    {
      BitStringAt(bits, i);
    }
    if Spells(BitString(bits), x, n) {
      forall r: nat | r < n ensures bits[r] == LowBits(x, n)[r] {
        assert BitString(bits)[n - 1 - r] == if Bit(x, r) == 1 then '1' else '0';
      }
    }
  }

  /** Half-open intervals of [0, 1], one a qubit. */
  ghost predicate Intervals(lo: seq<real>, hi: seq<real>, n: nat) {
    |lo| == |hi| == n && forall q: nat | q < n :: 0.0 <= lo[q] <= hi[q] <= 1.0
  }

  ghost predicate Inside(rolls: seq<real>, lo: seq<real>, hi: seq<real>)
    requires |rolls| == |lo| == |hi|
  {
    forall q: nat | q < |rolls| :: lo[q] <= rolls[q] < hi[q]
  }

  /** The volume of the box they span. */
  ghost function Volume(lo: seq<real>, hi: seq<real>): real
    requires |lo| == |hi|
  {
    if lo == [] then 1.0 else Volume(lo[..|lo| - 1], hi[..|hi| - 1]) * (hi[|hi| - 1] - lo[|lo| - 1])
  }

  lemma {:induction false} VolumeIsProduct(lo: seq<real>, hi: seq<real>, f: nat -> real, n: nat)
    requires |lo| == |hi| == n && forall q: nat | q < n :: f(q) == hi[q] - lo[q]
    ensures Volume(lo, hi) == Product(Table(f, n))
  {
    if n > 0 {
      VolumeIsProduct(lo[..n - 1], hi[..n - 1], f, n - 1);
      ProductOfTable(f, n - 1);
    }
  }

  lemma {:induction false} TableAt(f: nat -> real, n: nat, q: nat)
    requires q < n
    ensures Table(f, n)[q] == f(q)
  {
    if q < n - 1 { TableAt(f, n - 1, q); }
  }

  lemma {:induction false} InsideExactly(rolls: seq<real>, lo: seq<real>, hi: seq<real>, from: nat -> real,
      to: nat -> real, n: nat)
    requires n <= |rolls| && |lo| == |hi| == n && forall q: nat | q < n :: lo[q] == from(q) && hi[q] == to(q)
    ensures Inside(rolls[..n], lo, hi) <==> Within(rolls, from, to, n)
  {
    if n > 0 {
      InsideExactly(rolls, lo[..n - 1], hi[..n - 1], from, to, n - 1);
      InsideSnoc(rolls[..n], lo, hi);
      assert rolls[..n][..n - 1] == rolls[..n - 1];
    }
  }

  lemma InsideSnoc(rolls: seq<real>, lo: seq<real>, hi: seq<real>)
    requires |rolls| == |lo| == |hi| > 0
    ensures var n := |lo| - 1;
      Inside(rolls, lo, hi) <==> Inside(rolls[..n], lo[..n], hi[..n]) && lo[n] <= rolls[n] < hi[n]
  {
    var n := |lo| - 1;
    if Inside(rolls[..n], lo[..n], hi[..n]) {
      forall q: nat | q < n ensures lo[q] <= rolls[q] < hi[q] { assert lo[..n][q] <= rolls[..n][q] < hi[..n][q]; }
    }
    if Inside(rolls, lo, hi) {
      forall q: nat | q < n ensures lo[..n][q] <= rolls[..n][q] < hi[..n][q] { assert lo[q] <= rolls[q] < hi[q]; }
    }
  }

  /** The box of the rolls for x. */
  lemma BoxOf(root: real -> real, s: seq<C>, x: nat, n: nat, from: nat -> real, to: nat -> real)
    returns (lo: seq<real>, hi: seq<real>)
    requires IsSqrt(root) && Norm2(s) == 1.0 && from == Froms(root, s, x) && to == Tos(root, s, x)
    ensures Intervals(lo, hi, n) && Volume(lo, hi) == Product(Table(Width(root, s, x), n))
    ensures forall q: nat | q < n :: lo[q] == from(q) && hi[q] == to(q)
  {
    lo, hi := Table(from, n), Table(to, n);
    forall q: nat | q < n ensures lo[q] == from(q) && hi[q] == to(q) && 0.0 <= lo[q] <= hi[q] <= 1.0 {
      TableAt(from, n, q);
      TableAt(to, n, q);
      Ordered(root, s, x, q);
    }
    VolumeIsProduct(lo, hi, Width(root, s, x), n);
  }

  /**
   * For a unit state and every basis index x the rolls in [0, 1) that make measuring report x are a box, an interval a
   * qubit, whose volume is the squared magnitude of x's amplitude.
   */
  lemma RollsReportingIndex(root: real -> real, s: seq<C>, n: nat, x: nat) returns (lo: seq<real>, hi: seq<real>)
    requires IsSqrt(root) && IsState(s, n) && Norm2(s) == 1.0 && x < |s|
    ensures Intervals(lo, hi, n) && Volume(lo, hi) == s[x].Norm()
    ensures forall rolls: seq<real> | |rolls| == n && UnitRolls(rolls) ::
      Spells(BitString(Measured(root, s, rolls, n).0), x, n) <==> Inside(rolls, lo, hi)
  {
    var from, to := Froms(root, s, x), Tos(root, s, x);
    lo, hi := BoxOf(root, s, x, n, from, to);
    WidthsMultiply(root, s, x, n);
    forall rolls: seq<real> | |rolls| == n && UnitRolls(rolls)
      ensures Spells(BitString(Measured(root, s, rolls, n).0), x, n) <==> Inside(rolls, lo, hi)
    {
      var bits, t := ReadsExactly(root, s, rolls, x, n);
      SpellsExactly(bits, x, n);
      InsideExactly(rolls, lo, hi, from, to, n);
      assert rolls[..n] == rolls;
    }
  }
}
