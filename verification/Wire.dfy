/** The five bytes of a pairing packet (components/badge-network/network_messages.hpp and network_handler.cpp). */
module Wire {
  import opened Bytes
  import opened Protocol

  // ---------------------------------------------------------------- addresses

  /** The number three address bytes spell, first byte most significant. */
  function MacNumber(mac: seq<Byte>): nat
    requires |mac| == 3
  {
    65536 * Value(mac[0]) + 256 * Value(mac[1]) + Value(mac[2])
  }

  /** memcmp: the sign of the first difference. */
  function Memcmp(a: seq<Byte>, b: seq<Byte>): int
    requires |a| == |b|
  {
    if a == [] then 0
    else if Value(a[0]) != Value(b[0]) then Value(a[0]) - Value(b[0])
    else Memcmp(a[1..], b[1..])
  }

  lemma ByteFacts(a: Byte, b: Byte)
    ensures Value(a) < 256 && Value(b) < 256
    ensures Value(a) == Value(b) <==> a == b
  {
    ByteBelow256(a);
    ByteBelow256(b);
    if Value(a) == Value(b) { ValueInjective(a, b); }
  }

  lemma MemcmpOfThree(a: seq<Byte>, b: seq<Byte>)
    requires |a| == |b| == 3
    ensures Memcmp(a, b) ==
      if Value(a[0]) != Value(b[0]) then Value(a[0]) - Value(b[0])
      else if Value(a[1]) != Value(b[1]) then Value(a[1]) - Value(b[1])
      else Value(a[2]) - Value(b[2])
  {
    var a1, b1 := a[1..], b[1..];
    var a2, b2 := a1[1..], b1[1..];
    assert a1[0] == a[1] && b1[0] == b[1] && a2[0] == a[2] && b2[0] == b[2];
    assert Memcmp(a2[1..], b2[1..]) == 0;
    assert Memcmp(a2, b2) == Value(a[2]) - Value(b[2]);
    assert Memcmp(a1, b1) == if Value(a[1]) != Value(b[1]) then Value(a[1]) - Value(b[1]) else Memcmp(a2, b2);
  }

  /** Comparing the bytes is comparing the numbers, so "lower id" is a strict total order on addresses. */
  lemma MemcmpIsNumericOrder(a: seq<Byte>, b: seq<Byte>)
    requires |a| == |b| == 3
    ensures Memcmp(a, b) < 0 <==> MacNumber(a) < MacNumber(b)
    ensures MacNumber(a) == MacNumber(b) <==> a == b
  {
    ByteFacts(a[0], b[0]);
    ByteFacts(a[1], b[1]);
    ByteFacts(a[2], b[2]);
    MemcmpOfThree(a, b);
  }

  // ---------------------------------------------------------------- frames

  function TypeCode(kind: PacketType): Byte
    requires kind != UNKNOWN
  {
    match kind
    case SYNC_REQUEST => [false, true, false, true, false, false, false, false]   // 10
    case SYNC_ACCEPT => [true, true, false, true, false, false, false, false]     // 11
    case ID_DATA => [false, false, true, true, false, false, false, false]        // 12
    case ACK => [true, false, true, true, false, false, false, false]             // 13
    case CANCEL => [false, true, true, true, false, false, false, false]          // 14
  }

  function ParseType(b: Byte): PacketType {
    if b == TypeCode(SYNC_REQUEST) then SYNC_REQUEST
    else if b == TypeCode(SYNC_ACCEPT) then SYNC_ACCEPT
    else if b == TypeCode(ID_DATA) then ID_DATA
    else if b == TypeCode(ACK) then ACK
    else if b == TypeCode(CANCEL) then CANCEL
    else UNKNOWN
  }

  /** The type is the first byte read as a number; any number but 10 to 14 is unknown. */
  lemma TypeNumbers(b: Byte)
    ensures var n := Value(b);
      ParseType(b) == if n == 10 then SYNC_REQUEST else if n == 11 then SYNC_ACCEPT else if n == 12 then ID_DATA
        else if n == 13 then ACK else if n == 14 then CANCEL else UNKNOWN
  {
    IsCode(b, SYNC_REQUEST, 10);
    IsCode(b, SYNC_ACCEPT, 11);
    IsCode(b, ID_DATA, 12);
    IsCode(b, ACK, 13);
    IsCode(b, CANCEL, 14);
  }

  lemma IsCode(b: Byte, kind: PacketType, code: nat)
    requires kind != UNKNOWN && code == Number(kind)
    ensures b == TypeCode(kind) <==> Value(b) == code
  {
    CodeNumber(kind);
    ByteFacts(b, TypeCode(kind));
  }

  function Number(kind: PacketType): nat
    requires kind != UNKNOWN
  {
    match kind case SYNC_REQUEST => 10 case SYNC_ACCEPT => 11 case ID_DATA => 12 case ACK => 13 case CANCEL => 14
  }

  lemma CodeNumber(kind: PacketType)
    requires kind != UNKNOWN
    ensures Value(TypeCode(kind)) == Number(kind)
  {
    var code := TypeCode(kind);
    assert code == [code[0], code[1], code[2], code[3], false, false, false, false];
    LowFour(code[0], code[1], code[2], code[3]);
  }

  lemma LowFour(a: bool, b: bool, c: bool, d: bool)
    ensures Value([a, b, c, d, false, false, false, false]) ==
      BitValue(a) + 2 * BitValue(b) + 4 * BitValue(c) + 8 * BitValue(d)
  {
    var code := [a, b, c, d, false, false, false, false];
    ValueOfFour(code);
    assert code[4..] == [false, false, false, false];
    ValueOfFour([false, false, false, false]);
  }

  function Parse(frame: seq<Byte>): Packet
    requires |frame| == 5
  {
    Packet(ParseType(frame[0]), MacNumber(frame[1..4]))
  }

  function XorAll(bytes: seq<Byte>): Byte {
    if bytes == [] then ZERO else Xor(XorAll(bytes[..|bytes| - 1]), bytes[|bytes| - 1])
  }

  method CalculateChecksum(bytes: seq<Byte>) returns (checksum: Byte)
    ensures checksum == XorAll(bytes)
  {
    checksum := ZERO;
    for i := 0 to |bytes|
      invariant checksum == XorAll(bytes[..i])
    {
      assert bytes[..i + 1][..i] == bytes[..i];
      checksum := Xor(checksum, bytes[i]);
    }
    assert bytes[..|bytes|] == bytes;
  }

  function Frame(kind: PacketType, mac: seq<Byte>): (frame: seq<Byte>)
    requires kind != UNKNOWN && |mac| == 3
    ensures |frame| == 5
  {
    var body := [TypeCode(kind)] + mac;
    body + [XorAll(body)]
  }

  function Frames(kinds: seq<PacketType>, mac: seq<Byte>): seq<seq<Byte>>
    requires |mac| == 3
  {
    if kinds == [] then []
    else if kinds[0] == UNKNOWN then Frames(kinds[1..], mac)
    else [Frame(kinds[0], mac)] + Frames(kinds[1..], mac)
  }

  /** Whether the receiver's checksum test passes. */
  predicate Intact(frame: seq<Byte>)
    requires |frame| == 5
  {
    XorAll(frame[..4]) == frame[4]
  }

  /** Type, the three id bytes in order, and bit for bit whether an odd number of those four has it set. */
  lemma FrameLayout(kind: PacketType, mac: seq<Byte>, i: nat)
    requires kind != UNKNOWN && |mac| == 3 && i < 8
    ensures var f := Frame(kind, mac);
      Value(f[0]) == Number(kind) && f[1..4] == mac && f[4][i] == ((f[0][i] != f[1][i]) != (f[2][i] != f[3][i]))
  {
    CodeNumber(kind);
    var f := Frame(kind, mac);
    XorOfFour(f[0], f[1], f[2], f[3], i);
    assert f[..4] == [f[0], f[1], f[2], f[3]];
  }

  lemma XorOfFour(a: Byte, b: Byte, c: Byte, d: Byte, i: nat)
    requires i < 8
    ensures XorAll([a, b, c, d])[i] == ((a[i] != b[i]) != (c[i] != d[i]))
  {
    var none: seq<Byte> := [];
    XorAllLast(none, a, i);
    assert none + [a] == [a] && !XorAll(none)[i];
    XorAllLast([a], b, i);
    assert [a] + [b] == [a, b];
    XorAllLast([a, b], c, i);
    assert [a, b] + [c] == [a, b, c];
    XorAllLast([a, b, c], d, i);
    assert [a, b, c] + [d] == [a, b, c, d];
  }

  lemma XorAllLast(front: seq<Byte>, last: Byte, i: nat)
    requires i < 8
    ensures XorAll(front + [last])[i] == (XorAll(front)[i] != last[i])
  {
    assert (front + [last])[..|front|] == front;
  }

  /** A frame as sent passes the test and parses to what was sent. */
  lemma FrameRoundTrip(kind: PacketType, mac: seq<Byte>)
    requires kind != UNKNOWN && |mac| == 3
    ensures Intact(Frame(kind, mac))
    ensures Parse(Frame(kind, mac)) == Packet(kind, MacNumber(mac))
  {
  }

  function Corrupted(frame: seq<Byte>, errors: seq<Byte>): seq<Byte>
    requires |errors| == |frame|
  {
    seq(|frame|, i requires 0 <= i < |frame| => Xor(frame[i], errors[i]))
  }

  /** Corruption slips through exactly when the error bytes themselves cancel out ... */
  lemma UndetectedErrors(frame: seq<Byte>, errors: seq<Byte>)
    requires |frame| == |errors| == 5 && Intact(frame)
    ensures Intact(Corrupted(frame, errors)) <==> XorAll(errors) == ZERO
  {
    XorAllCorrupted(frame[..4], errors[..4]);
    assert Corrupted(frame, errors)[..4] == Corrupted(frame[..4], errors[..4]);
    var e, x := XorAll(errors[..4]), frame[4];
    assert XorAll(errors) == Xor(e, errors[4]);
    assert Intact(Corrupted(frame, errors)) <==> Xor(x, e) == Xor(x, errors[4]);
    XorCancels(x, e, errors[4]);
  }

  lemma XorCancels(x: Byte, e: Byte, d: Byte)
    ensures Xor(x, e) == Xor(x, d) <==> Xor(e, d) == ZERO
  {
    assert Xor(x, e) == Xor(x, d) ==> e == d by {
      if Xor(x, e) == Xor(x, d) {
        forall i | 0 <= i < 8 ensures e[i] == d[i] { assert Xor(x, e)[i] == Xor(x, d)[i]; }
      }
    }
    assert Xor(e, d) == ZERO ==> e == d by {
      if Xor(e, d) == ZERO {
        forall i | 0 <= i < 8 ensures e[i] == d[i] { assert Xor(e, d)[i] == ZERO[i]; }
      }
    }
    assert e == d ==> Xor(e, d) == ZERO;
  }

  lemma {:induction false} XorAllCorrupted(bytes: seq<Byte>, errors: seq<Byte>)
    requires |bytes| == |errors|
    ensures XorAll(Corrupted(bytes, errors)) == Xor(XorAll(bytes), XorAll(errors))
  {
    if bytes != [] {
      var n := |bytes| - 1;
      XorAllCorrupted(bytes[..n], errors[..n]);
      assert Corrupted(bytes, errors)[..n] == Corrupted(bytes[..n], errors[..n]);
    }
  }

  /** ... so damage to a single byte, whatever it is, is always caught. */
  lemma OneByteDamageCaught(frame: seq<Byte>, k: nat, value: Byte)
    requires |frame| == 5 && Intact(frame) && k < 5 && value != frame[k]
    ensures !Intact(frame[k := value])
  {
    var e := Xor(frame[k], value);
    var errors := [ZERO, ZERO, ZERO, ZERO, ZERO][k := e];
    UndetectedErrors(frame, errors);
    forall i | 0 <= i < 5
      ensures Xor(frame[i], errors[i]) == frame[k := value][i]
    {
      XorTwice(frame[i], if i == k then value else frame[i]);
    }
    assert Corrupted(frame, errors) == frame[k := value];
    XorAllOne(errors, k, e);
    if e == ZERO {
      forall i | 0 <= i < 8 ensures value[i] == frame[k][i] { assert e[i] == ZERO[i]; }
    }
  }

  lemma XorTwice(x: Byte, y: Byte)
    ensures Xor(x, Xor(x, y)) == y
    ensures Xor(x, ZERO) == x
  {
  }

  lemma {:induction false} XorAllOne(errors: seq<Byte>, k: nat, e: Byte)
    requires k < |errors| && errors[k] == e && forall i | 0 <= i < |errors| && i != k :: errors[i] == ZERO
    ensures XorAll(errors) == e
  {
    var n := |errors| - 1;
    if k == n {
      XorAllZero(errors[..n]);
    } else {
      XorAllOne(errors[..n], k, e);
    }
  }

  lemma {:induction false} XorAllZero(errors: seq<Byte>)
    requires forall i | 0 <= i < |errors| :: errors[i] == ZERO
    ensures XorAll(errors) == ZERO
  {
    if errors != [] {
      XorAllZero(errors[..|errors| - 1]);
    }
  }
}
