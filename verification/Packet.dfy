/** The cleartext outer header of src/network/packet.rs. */
module Packet {
  import opened Words
  import opened Wrappers

  const MAGIC0: u8 := 0x4A
  const MAGIC1: u8 := 0x7F
  const PROTOCOL_VERSION: u8 := 0x03
  const OUTER_HEADER_LEN := 8
  const MAX_DATAGRAM := 1200

  datatype PacketType = Handshake | Data | Ack | Forward | Onion | Rendezvous

  datatype PacketError = Truncated | BadMagic | BadVersion | BadType | TooLarge | BadAddress

  function Code(ty: PacketType): u8 {
    match ty
    case Handshake => 1
    case Data => 2
    case Ack => 3
    case Forward => 4
    case Onion => 5
    case Rendezvous => 6
  }

  function FromU8(v: u8): Option<PacketType> {
    if v == 1 then Some(Handshake)
    else if v == 2 then Some(Data)
    else if v == 3 then Some(Ack)
    else if v == 4 then Some(Forward)
    else if v == 5 then Some(Onion)
    else if v == 6 then Some(Rendezvous)
    else None
  }

  function EncodeOuter(ty: PacketType, flags: u8): (h: bytes)
    ensures |h| == OUTER_HEADER_LEN
  {
    [MAGIC0, MAGIC1, PROTOCOL_VERSION, Code(ty), flags, 0, 0, 0]
  }

  function EncodeDatagram(ty: PacketType, body: bytes): Result<bytes, PacketError> {
    if OUTER_HEADER_LEN + |body| > MAX_DATAGRAM then Err(TooLarge)
    else Ok(EncodeOuter(ty, 0) + body)
  }

  function DecodeOuter(b: bytes): Result<(PacketType, u8, bytes), PacketError> {
    if |b| < OUTER_HEADER_LEN then Err(Truncated)
    else if b[0] != MAGIC0 || b[1] != MAGIC1 then Err(BadMagic)
    else if b[2] != PROTOCOL_VERSION then Err(BadVersion)
    else
      match FromU8(b[3])
      case None => Err(BadType)
      case Some(ty) => Ok((ty, b[4], b[OUTER_HEADER_LEN..]))
  }

  // A datagram that fits decodes to its type and body; one that does not fit is refused.
  lemma DatagramRoundTrip(ty: PacketType, body: bytes)
    ensures match EncodeDatagram(ty, body)
            case Ok(d) => |d| == |body| + 8 <= 1200 && DecodeOuter(d) == Ok((ty, 0, body))
            case Err(e) => e == TooLarge && |body| > 1192
  {
    var d := EncodeOuter(ty, 0) + body;
    assert d[OUTER_HEADER_LEN..] == body;
  }

  // The decoder pins down everything but the three reserved bytes.
  lemma DecodedIsEncoded(b: bytes)
    requires DecodeOuter(b).Ok?
    ensures var (ty, flags, body) := DecodeOuter(b).value;
            b == EncodeOuter(ty, flags)[..5] + b[5..8] + body
  {
    var (ty, flags, body) := DecodeOuter(b).value;
    assert b == b[..5] + b[5..8] + b[8..];
    assert b[..5] == EncodeOuter(ty, flags)[..5];
  }

  // The first four bytes alone decide, for anything as long as a header.
  lemma OuterExactly(b: bytes)
    ensures DecodeOuter(b).Ok? <==> |b| >= OUTER_HEADER_LEN && exists ty :: b[..4] == EncodeOuter(ty, 0)[..4]
  {
    if |b| >= OUTER_HEADER_LEN {
      var four := b[..4];
      assert four == [b[0], b[1], b[2], b[3]];
      if DecodeOuter(b).Ok? {
        var ty := DecodeOuter(b).value.0;
        assert four == EncodeOuter(ty, 0)[..4];
      }
      forall ty | four == EncodeOuter(ty, 0)[..4] ensures DecodeOuter(b).Ok? {
        assert EncodeOuter(ty, 0)[..4] == [MAGIC0, MAGIC1, PROTOCOL_VERSION, Code(ty)];
      }
    }
  }

  // The header, byte by byte.
  lemma HeaderBytes(ty: PacketType, flags: u8)
    ensures EncodeOuter(ty, flags) == [0x4A, 0x7F, 3, Code(ty), flags, 0, 0, 0]
    ensures FromU8(Code(ty)) == Some(ty) && forall v: u8 :: FromU8(v).Some? <==> 1 <= v <= 6
    ensures Code(Handshake) == 1 && Code(Data) == 2 && Code(Ack) == 3
            && Code(Forward) == 4 && Code(Onion) == 5 && Code(Rendezvous) == 6
  {}

  // Decoding, case by case: length, magic, version, type, in this order.
  lemma DecodeOuterExactly(b: bytes)
    ensures |b| < 8 ==> DecodeOuter(b) == Err(Truncated)
    ensures |b| >= 8 ==>
              DecodeOuter(b) ==
              if b[..2] != [0x4A, 0x7F] then Err(BadMagic)
              else if b[2] != 3 then Err(BadVersion)
              else if FromU8(b[3]).None? then Err(BadType)
              else Ok((FromU8(b[3]).value, b[4], b[8..]))
  {
    if |b| >= 8 {
      assert b[..2] == [b[0], b[1]];
    }
  }
}
