/** Octets as eight bits: bit i of the sequence has weight 2^i, as in the shifts and masks of the sources. */
module Bytes {
  import opened Arith

  type Byte = b: seq<bool> | |b| == 8 witness ZERO
  const ZERO: seq<bool> := [false, false, false, false, false, false, false, false]

  function BitValue(b: bool): nat { if b then 1 else 0 }

  /** The number a bit string denotes, least significant bit first. */
  function Value(b: seq<bool>): nat {
    if b == [] then 0 else BitValue(b[0]) + 2 * Value(b[1..])
  }

  /** Bit i of a byte has weight 2^i. */
  lemma {:induction false} BitOfValue(b: seq<bool>, i: nat)
    requires i < |b|
    ensures b[i] <==> Value(b) / Pow2(i) % 2 == 1
  {
    if i > 0 {
      BitOfValue(b[1..], i - 1);
      HalveFirst(Value(b), Value(b[1..]), Pow2(i - 1));
    }
  }

  lemma HalveFirst(n: nat, half: nat, p: nat)
    requires n / 2 == half && p > 0
    ensures n / (2 * p) == half / p
  {
    var k := half / p;
    DivWindow(half, p);
    QuotientUnique(n, 2 * p, k);
  }

  lemma ValueOfFour(b: seq<bool>)
    requires |b| >= 4
    ensures Value(b) ==
      BitValue(b[0]) + 2 * BitValue(b[1]) + 4 * BitValue(b[2]) + 8 * BitValue(b[3]) + 16 * Value(b[4..])
  {
    assert b[1..][1..] == b[2..] && b[2..][1..] == b[3..] && b[3..][1..] == b[4..];
    assert Value(b[2..]) == BitValue(b[2]) + 2 * Value(b[3..]);
  }

  lemma {:induction false} ValueInjective(a: seq<bool>, b: seq<bool>)
    requires |a| == |b| && Value(a) == Value(b)
    ensures a == b
  {
    if a != [] {
      ValueInjective(a[1..], b[1..]);
      assert a == [a[0]] + a[1..] && b == [b[0]] + b[1..];
    }
  }

  lemma {:induction false} ValueBound(b: seq<bool>, n: nat)
    requires |b| <= n
    ensures Value(b) < Pow2(n)
  {
    if b != [] { ValueBound(b[1..], n - 1); } else if n > 0 { ValueBound(b, n - 1); }
  }

  lemma ByteBelow256(b: Byte)
    ensures Value(b) < 256
  {
    ValueBound(b, 8);
    assert Pow2(8) == 256;
  }

  function Xor(a: Byte, b: Byte): Byte {
    seq(8, i requires 0 <= i < 8 => a[i] != b[i])
  }
}
