/** Hadamards on both qubits swap the control and the target of a CNOT. */
module CnotReversal {
  import opened Arith
  import opened Qubits
  import opened Complex
  import opened QuantumGates
  import opened QuantumLaws
  import opened Cnot

  /** The index that agrees with k except that qubits c and t read x and y. */
  function Corner(k: nat, c: nat, x: nat, t: nat, y: nat): nat
    requires x < 2 && y < 2
  {
    Put(Put(k, c, x), t, y)
  }

  lemma CornerOfCorner(k: nat, c: nat, x: nat, t: nat, y: nat, x2: nat, y2: nat)
    requires c != t && x < 2 && y < 2 && x2 < 2 && y2 < 2
    ensures Corner(Corner(k, c, x, t, y), c, x2, t, y2) == Corner(k, c, x2, t, y2)
    ensures Bit(Corner(k, c, x, t, y), c) == x && Bit(Corner(k, c, x, t, y), t) == y
  {
    var p := Put(k, c, x);
    PutCommutes(p, t, y, c, x2);
    PutPut(k, c, x, x2);
    PutPut(Put(k, c, x2), t, y, y2);
    BitPut(p, t, y, c);
    BitPut(p, t, y, t);
    BitPut(k, c, x, c);
  }

  lemma CornerBound(k: nat, c: nat, x: nat, t: nat, y: nat, n: nat)
    requires c < n && t < n && x < 2 && y < 2 && k < Pow2(n)
    ensures Corner(k, c, x, t, y) < Pow2(n)
  {
    PutBound(k, c, x, n);
    PutBound(Put(k, c, x), t, y, n);
  }

  /** The four amplitudes around k. */
  datatype Quad = Quad(a00: C, a01: C, a10: C, a11: C)
  {
    function Get(x: nat, y: nat): C {
      if x == 0 then if y == 0 then a00 else a01 else if y == 0 then a10 else a11
    }
  }

  function QuadOf(s: seq<C>, k: nat, c: nat, t: nat): Quad {
    Quad(At(s, Corner(k, c, 0, t, 0)), At(s, Corner(k, c, 0, t, 1)),
         At(s, Corner(k, c, 1, t, 0)), At(s, Corner(k, c, 1, t, 1)))
  }

  function Half(p: real, q: real, r: real, s: real): real { (p + q + r + s) / 2.0 }

  function HalfSum(p: C, q: C, r: C, s: C): C {
    C(Half(p.re, q.re, r.re, s.re), Half(p.im, q.im, r.im, s.im))
  }

  function Minus(z: C): C { C(-z.re, -z.im) }

  /** Hadamards on both qubits, on the four amplitudes. */
  function Spread(a: Quad): Quad {
    Quad(HalfSum(a.a00, a.a01, a.a10, a.a11),
         HalfSum(a.a00, Minus(a.a01), a.a10, Minus(a.a11)),
         HalfSum(a.a00, a.a01, Minus(a.a10), Minus(a.a11)),
         HalfSum(a.a00, Minus(a.a01), Minus(a.a10), a.a11))
  }

  /** Row x of the Hadamard matrix against two amplitudes. */
  function Mix(h: real, x: nat, a: C, b: C): C {
    if x == 0 then C(h * a.re + h * b.re, h * a.im + h * b.im) else C(h * a.re - h * b.re, h * a.im - h * b.im)
  }

  lemma RowIsMix(h: real, x: nat, a: C, b: C)
    requires x < 2
    ensures Row(Hadamard(h), x, a, b) == Mix(h, x, a, b)
  {
    HadamardRow(h, a, b);
  }

  lemma Mix00(h: real, a: Quad)
    requires IsInvSqrt2(h)
    ensures Mix(h, 0, Mix(h, 0, a.a00, a.a01), Mix(h, 0, a.a10, a.a11)) == Spread(a).a00
  {
  }

  lemma Mix01(h: real, a: Quad)
    requires IsInvSqrt2(h)
    ensures Mix(h, 0, Mix(h, 1, a.a00, a.a01), Mix(h, 1, a.a10, a.a11)) == Spread(a).a01
  {
  }

  lemma Mix10(h: real, a: Quad)
    requires IsInvSqrt2(h)
    ensures Mix(h, 1, Mix(h, 0, a.a00, a.a01), Mix(h, 0, a.a10, a.a11)) == Spread(a).a10
  {
  }

  lemma Mix11(h: real, a: Quad)
    requires IsInvSqrt2(h)
    ensures Mix(h, 1, Mix(h, 1, a.a00, a.a01), Mix(h, 1, a.a10, a.a11)) == Spread(a).a11
  {
  }

  lemma MixTwice(h: real, x: nat, y: nat, a: Quad)
    requires IsInvSqrt2(h) && x < 2 && y < 2
    ensures Mix(h, x, Mix(h, y, a.a00, a.a01), Mix(h, y, a.a10, a.a11)) == Spread(a).Get(x, y)
  {
    if x == 0 && y == 0 { Mix00(h, a); }
    else if x == 0 { Mix01(h, a); }
    else if y == 0 { Mix10(h, a); }
    else { Mix11(h, a); }
  }

  lemma HadamardRows(h: real, x: nat, y: nat, a: Quad)
    requires IsInvSqrt2(h) && x < 2 && y < 2
    ensures Row(Hadamard(h), x, Row(Hadamard(h), y, a.a00, a.a01), Row(Hadamard(h), y, a.a10, a.a11))
      == Spread(a).Get(x, y)
  {
    RowIsMix(h, y, a.a00, a.a01);
    RowIsMix(h, y, a.a10, a.a11);
    RowIsMix(h, x, Mix(h, y, a.a00, a.a01), Mix(h, y, a.a10, a.a11));
    MixTwice(h, x, y, a);
  }

  ghost function HH(h: real, c: nat, t: nat, s: seq<C>): (r: seq<C>)
    ensures |r| == |s|
  {
    Apply(Hadamard(h), c, Apply(Hadamard(h), t, s))
  }

  lemma HHCorner(h: real, c: nat, t: nat, s: seq<C>, n: nat, k: nat, x: nat, y: nat)
    requires IsInvSqrt2(h) && c < n && t < n && c != t && IsState(s, n) && k < |s| && x < 2 && y < 2
    ensures At(HH(h, c, t, s), Corner(k, c, x, t, y)) == Spread(QuadOf(s, k, c, t)).Get(x, y)
  {
    var g, j := Hadamard(h), Corner(k, c, x, t, y);
    CornerBound(k, c, x, t, y, n);
    ApplyTwice(g, c, g, t, s, n, j);
    CornerOfCorner(k, c, x, t, y, 0, 0);
    CornerOfCorner(k, c, x, t, y, 0, 1);
    CornerOfCorner(k, c, x, t, y, 1, 0);
    CornerOfCorner(k, c, x, t, y, 1, 1);
    HadamardRows(h, x, y, QuadOf(s, k, c, t));
  }

  lemma HHQuad(h: real, c: nat, t: nat, s: seq<C>, n: nat, k: nat)
    requires IsInvSqrt2(h) && c < n && t < n && c != t && IsState(s, n) && k < |s|
    ensures QuadOf(HH(h, c, t, s), k, c, t) == Spread(QuadOf(s, k, c, t))
  {
    HHCorner(h, c, t, s, n, k, 0, 0);
    HHCorner(h, c, t, s, n, k, 0, 1);
    HHCorner(h, c, t, s, n, k, 1, 0);
    HHCorner(h, c, t, s, n, k, 1, 1);
  }

  lemma CnotCorner(c: nat, t: nat, s: seq<C>, n: nat, k: nat, x: nat, y: nat)
    requires c < n && t < n && c != t && IsState(s, n) && k < |s| && x < 2 && y < 2
    ensures At(CnotState(c, t, s), Corner(k, c, x, t, y)) == At(s, Corner(k, c, x, t, if x == 1 then 1 - y else y))
    ensures At(CnotState(t, c, s), Corner(k, c, x, t, y)) == At(s, Corner(k, c, if y == 1 then 1 - x else x, t, y))
  {
    var j := Corner(k, c, x, t, y);
    CornerBound(k, c, x, t, y, n);
    CornerOfCorner(k, c, x, t, y, x, y);
    PutPut(Put(k, c, x), t, y, 1 - y);
    PutCommutes(Put(k, c, x), t, y, c, 1 - x);
    PutPut(k, c, x, 1 - x);
  }

  lemma CnotQuads(c: nat, t: nat, s: seq<C>, n: nat, k: nat)
    requires c < n && t < n && c != t && IsState(s, n) && k < |s|
    ensures var a := QuadOf(s, k, c, t);
      && QuadOf(CnotState(c, t, s), k, c, t) == Quad(a.a00, a.a01, a.a11, a.a10)
      && QuadOf(CnotState(t, c, s), k, c, t) == Quad(a.a00, a.a11, a.a10, a.a01)
  {
    CnotCorner(c, t, s, n, k, 0, 0);
    CnotCorner(c, t, s, n, k, 0, 1);
    CnotCorner(c, t, s, n, k, 1, 0);
    CnotCorner(c, t, s, n, k, 1, 1);
  }

  lemma SpreadSwapSpread(a: Quad)
    ensures var u := Spread(a); Spread(Quad(u.a00, u.a01, u.a11, u.a10)) == Quad(a.a00, a.a11, a.a10, a.a01)
  {
  }

  lemma AtFromQuad(s: seq<C>, k: nat, c: nat, t: nat)
    requires c != t
    ensures At(s, k) == QuadOf(s, k, c, t).Get(Bit(k, c), Bit(k, t))
  {
    PutSame(k, c);
    PutSame(k, t);
  }

  lemma SameAmplitudes(s: seq<C>, t: seq<C>)
    requires |s| == |t| && forall k: nat | k < |s| :: At(s, k) == At(t, k)
    ensures s == t
  {
    forall k | 0 <= k < |s| ensures s[k] == t[k] { assert At(s, k) == At(t, k); }
  }

  lemma ReversedQuad(h: real, c: nat, t: nat, s: seq<C>, n: nat, k: nat)
    requires IsInvSqrt2(h) && c < n && t < n && c != t && IsState(s, n) && k < |s|
    ensures QuadOf(HH(h, c, t, CnotState(c, t, HH(h, c, t, s))), k, c, t) == QuadOf(CnotState(t, c, s), k, c, t)
  {
    var u := HH(h, c, t, s);
    HHQuad(h, c, t, s, n, k);
    CnotQuads(c, t, u, n, k);
    HHQuad(h, c, t, CnotState(c, t, u), n, k);
    CnotQuads(c, t, s, n, k);
    SpreadSwapSpread(QuadOf(s, k, c, t));
  }

  /** (H on c and t) . CNOT(c, t) . (H on c and t) == CNOT(t, c) */
  lemma HadamardsReverseCnot(h: real, c: nat, t: nat, s: seq<C>, n: nat)
    requires IsInvSqrt2(h) && c < n && t < n && c != t && IsState(s, n)
    ensures HH(h, c, t, CnotState(c, t, HH(h, c, t, s))) == CnotState(t, c, s)
  {
    var left, right := HH(h, c, t, CnotState(c, t, HH(h, c, t, s))), CnotState(t, c, s);
    forall k: nat | k < |s| ensures At(left, k) == At(right, k) {
      ReversedQuad(h, c, t, s, n, k);
      AtFromQuad(left, k, c, t);
      AtFromQuad(right, k, c, t);
    }
    SameAmplitudes(left, right);
  }
}
