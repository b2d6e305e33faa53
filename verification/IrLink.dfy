/** From one badge's transmission to the other's handler: Wire and IrCodec put together. */
module IrLink {
  import opened Bytes
  import opened Protocol
  import opened IrCodec
  import Wire

  /** What the reception task hands to the packet handler for these symbols: a frame of packet size, or nothing. */
  method Receive(symbols: seq<Symbol>) returns (frames: seq<seq<Byte>>)
    ensures forall f | f in frames :: |f| == 5 && IsFrame(symbols, f)
    ensures frames == [] <==> forall f: seq<Byte> | |f| == 5 :: !IsFrame(symbols, f)
    ensures |frames| <= 1
  {
    var ok, data := DecodeRmtSymbolsNec(symbols);
    frames := if ok && |data| == 5 then [data] else [];
    if ok && |data| != 5 {
      forall f: seq<Byte> | |f| == 5
        ensures !IsFrame(symbols, f)
      {
        if IsFrame(symbols, f) { FrameUnique(symbols, f, data); }
      }
    }
  }

  /**
   * A pairing packet sent over a link with less than 300 us of jitter is the one frame received, intact, saying what
   * was sent.
   */
  lemma PacketArrives(kind: PacketType, mac: seq<Byte>, got: seq<Symbol>, noise: seq<Symbol>, f: seq<Byte>)
    requires kind != UNKNOWN && |mac| == 3
    requires Jittered(Encoded(Wire.Frame(kind, mac)), got)
    ensures IsFrame(got + noise, f) <==> f == Wire.Frame(kind, mac)
    ensures f == Wire.Frame(kind, mac) ==> Wire.Intact(f) && Wire.Parse(f) == Packet(kind, Wire.MacNumber(mac))
  {
    RoundTrip(Wire.Frame(kind, mac), got, noise);
    Wire.FrameRoundTrip(kind, mac);
    if IsFrame(got + noise, f) {
      FrameUnique(got + noise, f, Wire.Frame(kind, mac));
    }
  }
}
