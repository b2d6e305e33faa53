/** Pulse-length coding of bytes over infrared (components/badge-network/ir_interface.cpp). */
module IrCodec {
  import opened Arith
  import opened Bytes

  /** One RMT symbol: the lengths, in microseconds, of its mark and its space.  One tick is one microsecond. */
  datatype Symbol = Symbol(duration0: nat, duration1: nat)

  const MARGIN_US: int := 300
  const LEADING_HIGH_US: int := 9000
  const LEADING_LOW_US: int := 4500
  const DATA_HIGH_US: int := 560
  const DATA_ZERO_LOW_US: int := 560
  const DATA_ONE_LOW_US: int := 1690
  const ENDING_HIGH_US: int := 4000
  const ENDING_LOW_TICKS: int := 0x7FFF

  // ---------------------------------------------------------------- encoder

  const LEADING: Symbol := Symbol(LEADING_HIGH_US, LEADING_LOW_US)
  const ENDING: Symbol := Symbol(ENDING_HIGH_US, ENDING_LOW_TICKS)

  function BitSymbol(b: bool): Symbol {
    Symbol(DATA_HIGH_US, if b then DATA_ONE_LOW_US else DATA_ZERO_LOW_US)
  }

  /** The bits of a payload in transmission order: bytes in order, least significant bit first. */
  function Bits(data: seq<Byte>): (bits: seq<bool>)
    ensures |bits| == 8 * |data|
  {
    if data == [] then [] else Bits(data[..|data| - 1]) + data[|data| - 1]
  }

  function BitSymbols(bits: seq<bool>): seq<Symbol> {
    seq(|bits|, i requires 0 <= i < |bits| => BitSymbol(bits[i]))
  }

  /** A whole frame. */
  function Encoded(data: seq<Byte>): seq<Symbol> {
    [LEADING] + BitSymbols(Bits(data)) + [ENDING]
  }

  lemma {:induction false} BitsAt(data: seq<Byte>, i: nat, b: nat)
    requires i < |data| && b < 8
    ensures 8 * i + b < |Bits(data)| && Bits(data)[8 * i + b] == data[i][b]
  {
    if i < |data| - 1 { BitsAt(data[..|data| - 1], i, b); }
  }

  /** On the air, in microseconds: bit b of byte i, which weighs 2^b, is symbol 1 + 8 i + b. */
  lemma FrameOnAir(data: seq<Byte>, i: nat, b: nat)
    ensures |Encoded(data)| == 8 * |data| + 2 && Encoded(data)[0] == Symbol(9000, 4500)
    ensures Encoded(data)[8 * |data| + 1] == Symbol(4000, 32767)
    ensures i < |data| && b < 8 ==> Encoded(data)[1 + 8 * i + b] == Symbol(560, if data[i][b] then 1690 else 560)
  {
    if i < |data| && b < 8 { BitsAt(data, i, b); }
  }

  /** The part of the frame still to come once the encoder is in this state. */
  function RestAt(data: seq<Byte>, state: nat, bitsSent: nat): seq<Symbol>
    requires bitsSent <= 8 * |data|
  {
    if state == 0 then Encoded(data)
    else if state == 1 then BitSymbols(Bits(data))[bitsSent..] + [ENDING]
    else [ENDING]
  }

  lemma LeadingFirst(data: seq<Byte>)
    ensures RestAt(data, 0, 0) == [LEADING] + RestAt(data, 1, 0)
  {
  }

  lemma BytesNext(data: seq<Byte>, sent: nat, n: nat)
    requires sent + n <= 8 * |data|
    ensures RestAt(data, 1, sent) == BitSymbols(Bits(data))[sent..][..n] + RestAt(data, 1, sent + n)
  {
    SliceNext(BitSymbols(Bits(data)), sent, n, [ENDING]);
  }

  lemma SliceNext<T>(whole: seq<T>, sent: nat, n: nat, tail: seq<T>)
    requires sent + n <= |whole|
    ensures whole[sent..] + tail == whole[sent..][..n] + (whole[sent + n..] + tail)
  {
  }

  lemma EndingLast(data: seq<Byte>)
    ensures RestAt(data, 1, 8 * |data|) == [ENDING]
  {
  }

  lemma Split<T>(whole: seq<T>, a: seq<T>, b: seq<T>)
    requires whole == a + b
    ensures whole[..|a|] == a && whole[|a|..] == b
  {
  }

  /** rmt_ir_packet_encoder_t: which part is being sent, and how many data symbols its bytes encoder has sent. */
  class PacketEncoder {
    var state: nat
    var bitsSent: nat

    ghost predicate Valid(data: seq<Byte>)
      reads this
    {
      state <= 2 && bitsSent <= 8 * |data| && (state != 1 ==> bitsSent == 0)
    }

    /** The part of the frame that is still to be written to the channel. */
    ghost function Rest(data: seq<Byte>): seq<Symbol>
      requires Valid(data)
      reads this
    {
      RestAt(data, state, bitsSent)
    }

    constructor ()
      ensures state == 0 && bitsSent == 0
    {
      state, bitsSent := 0, 0;
    }

    method Reset()
      modifies this
      ensures state == 0 && bitsSent == 0
    {
      state, bitsSent := 0, 0;
    }

    /** Case 0: the copy encoder writes the leading symbol. */
    method EncodeLeading(data: seq<Byte>, room: nat) returns (out: seq<Symbol>, full: bool)
      requires Valid(data) && state == 0
      modifies this
      ensures Valid(data) && old(Rest(data)) == out + Rest(data)
      ensures |out| <= room && (full <==> |out| == room) && (!full ==> state == 1)
    {
      out, full := [], room <= 1;
      LeadingFirst(data);
      if room > 0 {
        out, state := [LEADING], 1;
      }
    }

    /** Case 1: the bytes encoder writes as many data symbols as fit. */
    method EncodeBytes(data: seq<Byte>, room: nat) returns (out: seq<Symbol>, full: bool)
      requires Valid(data) && state == 1
      modifies this
      ensures Valid(data) && old(Rest(data)) == out + Rest(data)
      ensures |out| <= room && (full <==> |out| == room) && (!full ==> state == 2)
      ensures state != 0
    {
      var n := Min(room, 8 * |data| - bitsSent);
      out, full := BitSymbols(Bits(data))[bitsSent..][..n], n == room;
      BytesNext(data, bitsSent, n);
      bitsSent := bitsSent + n;
      if bitsSent == 8 * |data| {
        EndingLast(data);
        bitsSent, state := 0, 2;
      }
    }

    /** Case 2: the copy encoder writes the ending symbol, and the encoder is ready for the next frame. */
    method EncodeEnding(data: seq<Byte>, room: nat) returns (out: seq<Symbol>, complete: bool, full: bool)
      requires Valid(data) && state == 2
      modifies this
      ensures Valid(data) && out == old(Rest(data))[..Min(room, 1)]
      ensures (complete <==> room >= 1) && (full <==> room <= 1)
      ensures state == if complete then 0 else 2
    {
      out, complete, full := [], room >= 1, room <= 1;
      if complete {
        out, state := [ENDING], 0;
      }
    }

    /** Cases 1 and 2, the second entered when the first leaves room. */
    method EncodeAfterLeading(data: seq<Byte>, room: nat) returns (out: seq<Symbol>, complete: bool, full: bool)
      requires Valid(data) && state != 0
      modifies this
      ensures Valid(data)
      ensures out == old(Rest(data))[..Min(room, |old(Rest(data))|)]
      ensures (complete <==> room >= |old(Rest(data))|) && (full <==> room <= |old(Rest(data))|)
      ensures if complete then state == 0 && bitsSent == 0 else Rest(data) == old(Rest(data))[room..]
    {
      out, complete, full := [], false, false;
      ghost var rest := Rest(data);
      if state == 1 {
        out, full := EncodeBytes(data, room);
        if full {
          Split(rest, out, Rest(data));
          return;
        }
      }
      Split(rest, out, [ENDING]);
      var last;
      last, complete, full := EncodeEnding(data, room - |out|);
      out := out + last;
    }

    /** One call of the driver with room for so many symbols; `complete` and `full` are its two result flags. */
    method Encode(data: seq<Byte>, room: nat) returns (out: seq<Symbol>, complete: bool, full: bool)
      requires Valid(data)
      modifies this
      ensures Valid(data)
      ensures out == old(Rest(data))[..Min(room, |old(Rest(data))|)]
      ensures (complete <==> room >= |old(Rest(data))|) && (full <==> room <= |old(Rest(data))|)
      ensures if complete then state == 0 && bitsSent == 0 else Rest(data) == old(Rest(data))[room..]
    {
      out, complete, full := [], false, false;
      ghost var rest := Rest(data);
      if state == 0 {
        out, full := EncodeLeading(data, room);
        if full {
          Split(rest, out, Rest(data));
          return;
        }
      }
      ghost var middle := Rest(data);
      var more;
      more, complete, full := EncodeAfterLeading(data, room - |out|);
      Joined(rest, out, middle, room);
      out := out + more;
    }
  }

  lemma Joined<T>(rest: seq<T>, out: seq<T>, middle: seq<T>, room: nat)
    requires rest == out + middle && |out| <= room
    ensures var more := room - |out|;
      && rest[..Min(room, |rest|)] == out + middle[..Min(more, |middle|)]
      && (room <= |rest| ==> rest[room..] == middle[more..])
  {
  }

  /** However the driver portions out its memory, the pieces join to a prefix of the one frame. */
  method Transmit(data: seq<Byte>, rooms: seq<nat>) returns (sent: seq<Symbol>, complete: bool)
    ensures sent == Encoded(data)[..Min(Total(rooms), |Encoded(data)|)]
    ensures complete <==> rooms != [] && Total(rooms) >= |Encoded(data)|
  {
    var encoder := new PacketEncoder();
    sent, complete := [], false;
    var i := 0;
    ghost var rest := encoder.Rest(data);
    while i < |rooms| && !complete
      invariant 0 <= i <= |rooms| && encoder.Valid(data)
      invariant complete ==> i > 0 && sent == Encoded(data) && Total(rooms[..i]) >= |Encoded(data)|
      invariant !complete ==> rest == encoder.Rest(data) && sent + rest == Encoded(data)
      invariant !complete ==> |sent| == Total(rooms[..i]) && |rest| > 0
    {
      var out, done, full := encoder.Encode(data, rooms[i]);
      assert rooms[..i + 1][..i] == rooms[..i];
      TakeRoom(sent, rest, rooms[i]);
      sent, complete, i := sent + out, done, i + 1;
      rest := if done then [] else encoder.Rest(data);
    }
    TotalMonotone(rooms, i);
    if !complete {
      Split(Encoded(data), sent, rest);
    }
  }

  lemma TakeRoom<T>(sent: seq<T>, rest: seq<T>, room: nat)
    ensures room < |rest| ==> (sent + rest[..room]) + rest[room..] == sent + rest
    ensures rest[..|rest|] == rest
  {
  }

  lemma {:induction false} TotalMonotone(rooms: seq<nat>, i: nat)
    requires i <= |rooms|
    ensures Total(rooms[..i]) <= Total(rooms)
    ensures i == |rooms| ==> Total(rooms[..i]) == Total(rooms)
  {
    if i < |rooms| {
      TotalMonotone(rooms[..|rooms| - 1], i);
      assert rooms[..|rooms| - 1][..i] == rooms[..i];
    } else {
      assert rooms[..i] == rooms;
    }
  }

  // ---------------------------------------------------------------- decoder

  predicate NecCheckInRange(duration: int, spec: int) {
    duration < spec + MARGIN_US && duration > spec - MARGIN_US
  }

  predicate IsLeader(s: Symbol) {
    NecCheckInRange(s.duration0, LEADING_HIGH_US) && NecCheckInRange(s.duration1, LEADING_LOW_US)
  }

  predicate IsStop(s: Symbol) { NecCheckInRange(s.duration0, ENDING_HIGH_US) }

  predicate IsBit(s: Symbol, b: bool) {
    && NecCheckInRange(s.duration0, DATA_HIGH_US)
    && NecCheckInRange(s.duration1, if b then DATA_ONE_LOW_US else DATA_ZERO_LOW_US)
  }

  /** The grammar of reception: a leader, the payload's bits, a stop, then anything. */
  predicate IsFrame(symbols: seq<Symbol>, data: seq<Byte>) {
    && |symbols| >= 8 * |data| + 2
    && IsLeader(symbols[0])
    && (forall j | 0 <= j < 8 * |data| :: IsBit(symbols[1 + j], Bits(data)[j]))
    && IsStop(symbols[1 + 8 * |data|])
  }

  /** Strictly less than 300 us off. */
  predicate Near(duration: int, spec: int) { spec - 300 < duration < spec + 300 }

  /** What the decoder takes for a frame, in microseconds. */
  lemma FrameExactlyWhen(symbols: seq<Symbol>, data: seq<Byte>)
    requires |symbols| >= 8 * |data| + 2
    ensures IsFrame(symbols, data) <==>
      && Near(symbols[0].duration0, 9000) && Near(symbols[0].duration1, 4500)
      && Near(symbols[8 * |data| + 1].duration0, 4000)
      && forall i, b | 0 <= i < |data| && 0 <= b < 8 :: NearBit(symbols[1 + 8 * i + b], data[i][b])
  {
    forall i, b | 0 <= i < |data| && 0 <= b < 8 ensures Bits(data)[8 * i + b] == data[i][b] { BitsAt(data, i, b); }
    if forall i, b | 0 <= i < |data| && 0 <= b < 8 :: NearBit(symbols[1 + 8 * i + b], data[i][b]) {
      forall j | 0 <= j < 8 * |data| ensures IsBit(symbols[1 + j], Bits(data)[j]) {
        assert NearBit(symbols[1 + 8 * (j / 8) + j % 8], data[j / 8][j % 8]);
      }
    }
    if IsFrame(symbols, data) {
      forall i, b | 0 <= i < |data| && 0 <= b < 8 ensures NearBit(symbols[1 + 8 * i + b], data[i][b]) {
        assert IsBit(symbols[1 + (8 * i + b)], Bits(data)[8 * i + b]);
      }
    }
  }

  predicate NearBit(s: Symbol, bit: bool) { Near(s.duration0, 560) && Near(s.duration1, if bit then 1690 else 560) }

  /** The symbols after the leader that have been read as these bits. */
  predicate ReadsAs(symbols: seq<Symbol>, bits: seq<bool>) {
    && |symbols| > |bits| && IsLeader(symbols[0])
    && forall j | 0 <= j < |bits| :: IsBit(symbols[1 + j], bits[j])
  }

  lemma ReadAt(symbols: seq<Symbol>, bits: seq<bool>, j: nat)
    requires ReadsAs(symbols, bits) && j < |bits|
    ensures IsBit(symbols[1 + j], bits[j]) && !IsStop(symbols[1 + j])
  {
  }

  lemma FrameAt(symbols: seq<Symbol>, data: seq<Byte>, j: nat)
    requires IsFrame(symbols, data) && j <= 8 * |data|
    ensures if j < 8 * |data| then IsBit(symbols[1 + j], Bits(data)[j]) && !IsStop(symbols[1 + j])
      else IsStop(symbols[1 + j])
  {
  }

  lemma OneBit(s: Symbol, b: bool, c: bool)
    requires IsBit(s, b) && IsBit(s, c)
    ensures b == c
  {
  }

  /** A frame cannot end, or say anything else, before what has been read. */
  lemma FrameCovers(symbols: seq<Symbol>, bits: seq<bool>, data: seq<Byte>)
    requires ReadsAs(symbols, bits) && IsFrame(symbols, data)
    ensures |bits| <= 8 * |data| && bits == Bits(data)[..|bits|]
  {
    FrameOutlasts(symbols, bits, data);
    forall j | 0 <= j < |bits| ensures bits[j] == Bits(data)[j] { SameBitAt(symbols, bits, data, j); }
  }

  lemma FrameOutlasts(symbols: seq<Symbol>, bits: seq<bool>, data: seq<Byte>)
    requires ReadsAs(symbols, bits) && IsFrame(symbols, data)
    ensures |bits| <= 8 * |data|
  {
    if 8 * |data| < |bits| {
      ReadAt(symbols, bits, 8 * |data|);
    }
  }

  lemma SameBitAt(symbols: seq<Symbol>, bits: seq<bool>, data: seq<Byte>, j: nat)
    requires ReadsAs(symbols, bits) && IsFrame(symbols, data) && j < |bits| <= 8 * |data|
    ensures bits[j] == Bits(data)[j]
  {
    ReadAt(symbols, bits, j);
    FrameAt(symbols, data, j);
    OneBit(symbols[1 + j], bits[j], Bits(data)[j]);
  }

  /** The whole decoder: success means a frame, its payload is determined, and any failure leaves the buffer empty. */
  method DecodeRmtSymbolsNec(symbols: seq<Symbol>) returns (ok: bool, data: seq<Byte>)
    ensures ok ==> IsFrame(symbols, data)
    ensures !ok ==> data == [] && forall d :: !IsFrame(symbols, d)
  {
    data := [];
    if |symbols| < 2 {
      return false, [];
    }
    if !(NecCheckInRange(symbols[0].duration0, LEADING_HIGH_US)
         && NecCheckInRange(symbols[0].duration1, LEADING_LOW_US)) {
      return false, [];
    }
    var index := 1;
    var currentByte: Byte := ZERO;
    var bitIndex := 0;
    ghost var bits: seq<bool> := [];
    while index < |symbols|
      invariant 1 <= index <= |symbols| && index == 1 + |bits|
      invariant 0 <= bitIndex < 8 && bits == Bits(data) + currentByte[..bitIndex]
      invariant forall i | bitIndex <= i < 8 :: !currentByte[i]
      invariant ReadsAs(symbols, bits)
    {
      var current := symbols[index];
      if NecCheckInRange(current.duration0, ENDING_HIGH_US) {
        if bitIndex == 0 {
          assert bits == Bits(data);
          return true, data;
        } else {
          StopEndsFrame(symbols, bits, data, bitIndex);
          return false, [];
        }
      }
      if NecCheckInRange(current.duration0, DATA_HIGH_US) {
        var isOne := NecCheckInRange(current.duration1, DATA_ONE_LOW_US);
        var isZero := NecCheckInRange(current.duration1, DATA_ZERO_LOW_US);
        if !isOne && !isZero {
          BadSymbolEndsFrame(symbols, bits);
          return false, [];
        }
        currentByte, bitIndex, data := TakeBit(currentByte, bitIndex, data, isOne);
        bits := bits + [isOne];
      } else {
        BadSymbolEndsFrame(symbols, bits);
        return false, [];
      }
      index := index + 1;
    }
    NoStopNoFrame(symbols, bits);
    return false, [];
  }

  /** One more bit, least significant first; the eighth completes a byte. */
  method TakeBit(byte: Byte, bitIndex: nat, data: seq<Byte>, isOne: bool)
    returns (nextByte: Byte, nextIndex: nat, nextData: seq<Byte>)
    requires bitIndex < 8 && forall i | bitIndex <= i < 8 :: !byte[i]
    ensures nextIndex < 8 && forall i | nextIndex <= i < 8 :: !nextByte[i]
    ensures Bits(nextData) + nextByte[..nextIndex] == Bits(data) + byte[..bitIndex] + [isOne]
  {
    nextByte, nextIndex, nextData := byte, bitIndex, data;
    if isOne { nextByte := nextByte[nextIndex := true]; }
    assert nextByte[..bitIndex + 1] == byte[..bitIndex] + [isOne];
    nextIndex := nextIndex + 1;
    if nextIndex >= 8 {
      assert nextByte[..8] == nextByte;
      nextData := nextData + [nextByte];
      assert nextData[..|data|] == data;
      nextIndex := 0;
      nextByte := ZERO;
    }
  }

  lemma StopEndsFrame(symbols: seq<Symbol>, bits: seq<bool>, data: seq<Byte>, bitIndex: nat)
    requires ReadsAs(symbols, bits) && |symbols| > 1 + |bits| && IsStop(symbols[1 + |bits|])
    requires 0 < bitIndex < 8 && |bits| == 8 * |data| + bitIndex
    ensures forall d :: !IsFrame(symbols, d)
  {
    forall d
      ensures !IsFrame(symbols, d)
    {
      if IsFrame(symbols, d) {
        FrameCovers(symbols, bits, d);
        FrameAt(symbols, d, |bits|);
      }
    }
  }

  lemma BadSymbolEndsFrame(symbols: seq<Symbol>, bits: seq<bool>)
    requires ReadsAs(symbols, bits) && |symbols| > 1 + |bits|
    requires var s := symbols[1 + |bits|]; !IsStop(s) && !IsBit(s, true) && !IsBit(s, false)
    ensures forall d :: !IsFrame(symbols, d)
  {
    forall d
      ensures !IsFrame(symbols, d)
    {
      if IsFrame(symbols, d) {
        FrameCovers(symbols, bits, d);
        FrameAt(symbols, d, |bits|);
      }
    }
  }

  lemma NoStopNoFrame(symbols: seq<Symbol>, bits: seq<bool>)
    requires ReadsAs(symbols, bits) && |symbols| == 1 + |bits|
    ensures forall d :: !IsFrame(symbols, d)
  {
    forall d
      ensures !IsFrame(symbols, d)
    {
      if IsFrame(symbols, d) {
        FrameCovers(symbols, bits, d);
      }
    }
  }

  // ---------------------------------------------------------------- the two together

  lemma {:induction false} BitsInjective(a: seq<Byte>, b: seq<Byte>)
    requires Bits(a) == Bits(b)
    ensures a == b
  {
    if a != [] {
      var n := |a| - 1;
      assert Bits(a)[..8 * n] == Bits(a[..n]) && Bits(b)[..8 * n] == Bits(b[..n]);
      assert Bits(a)[8 * n..] == a[n] && Bits(b)[8 * n..] == b[n];
      BitsInjective(a[..n], b[..n]);
      assert a == a[..n] + [a[n]] && b == b[..n] + [b[n]];
    }
  }

  /** Symbols spell at most one payload, so IsFrame and the decoder say the same thing. */
  lemma FrameUnique(symbols: seq<Symbol>, a: seq<Byte>, b: seq<Byte>)
    requires IsFrame(symbols, a) && IsFrame(symbols, b)
    ensures a == b
  {
    FrameCovers(symbols, Bits(a), b);
    FrameCovers(symbols, Bits(b), a);
    BitsInjective(a, b);
  }

  function Off(a: int, b: int): nat { if a < b then b - a else a - b }

  /** What arrives when every duration is off by less than 300 us; the space after the last mark may be anything. */
  predicate Jittered(sent: seq<Symbol>, got: seq<Symbol>) {
    && |got| == |sent|
    && (forall i | 0 <= i < |sent| :: Off(got[i].duration0, sent[i].duration0) < MARGIN_US)
    && (forall i | 0 <= i < |sent| - 1 :: Off(got[i].duration1, sent[i].duration1) < MARGIN_US)
  }

  /** Round trip: any payload survives any such jitter, with or without noise behind it. */
  lemma RoundTrip(data: seq<Byte>, got: seq<Symbol>, noise: seq<Symbol>)
    requires Jittered(Encoded(data), got)
    ensures IsFrame(got + noise, data)
  {
  }

  /** A frame cut short anywhere decodes to nothing. */
  lemma StrictPrefixFails(symbols: seq<Symbol>, data: seq<Byte>, n: nat, d: seq<Byte>)
    requires IsFrame(symbols, data) && n < 8 * |data| + 2
    ensures !IsFrame(symbols[..n], d)
  {
    if IsFrame(symbols[..n], d) {
      forall j | 0 <= j < 8 * |d|
        ensures IsBit(symbols[1 + j], Bits(d)[j])
      {
        assert symbols[..n][1 + j] == symbols[1 + j];
      }
      assert IsFrame(symbols, d);
      FrameUnique(symbols, data, d);
    }
  }
}
