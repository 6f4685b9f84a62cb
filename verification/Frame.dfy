/** The inner frame codec of src/reliability/frame.rs: what travels inside the encrypted channel. */
module Frame {
  import opened Words
  import opened Wrappers

  const MAX_PAYLOAD := 1024
  const DATA_HDR_LEN := 9
  const ACK_LEN := 13

  datatype InnerFrame =
    | Data(seqno: u32, fragId: u16, index: u8, total: u8, payload: bytes)
    | Ack(base: u32, bitmap: u64)

  datatype FrameError = Truncated | BadKind | BadFragment

  function EncodeData(seqno: u32, fragId: u16, index: u8, total: u8, payload: bytes): bytes {
    [0x01] + Be32(seqno) + Be16(fragId) + [index, total] + payload
  }

  function EncodeAck(base: u32, bitmap: u64): bytes {
    [0x02] + Be32(base) + Be64(bitmap)
  }

  function DecodeInner(b: bytes): Result<InnerFrame, FrameError> {
    if |b| == 0 then Err(Truncated)
    else if b[0] == 0x01 then
      if |b| < DATA_HDR_LEN then Err(Truncated)
      else
        var index, total := b[7], b[8];
        if total == 0 || index >= total then Err(BadFragment)
        else Ok(Data(FromBe32(b[1..5]), FromBe16(b[5..7]), index, total, b[DATA_HDR_LEN..]))
    else if b[0] == 0x02 then
      if |b| < ACK_LEN then Err(Truncated)
      else Ok(Ack(FromBe32(b[1..5]), FromBe64(b[5..13])))
    else Err(BadKind)
  }

  // Decoding inverts encoding for every header a sender may write, whatever the payload,
  // and refuses precisely the inconsistent fragment headers.
  lemma DecodeEncodeData(seqno: u32, fragId: u16, index: u8, total: u8, payload: bytes)
    ensures DecodeInner(EncodeData(seqno, fragId, index, total, payload))
         == if index < total then Ok(Data(seqno, fragId, index, total, payload)) else Err(BadFragment)
  {
    var b := EncodeData(seqno, fragId, index, total, payload);
    assert b[1..5] == Be32(seqno) && b[5..7] == Be16(fragId) && b[DATA_HDR_LEN..] == payload;
    Be32RoundTrip(seqno);
    Be16RoundTrip(fragId);
  }

  lemma DecodeEncodeAck(base: u32, bitmap: u64)
    ensures DecodeInner(EncodeAck(base, bitmap)) == Ok(Ack(base, bitmap))
  {
    var b := EncodeAck(base, bitmap);
    assert b[1..5] == Be32(base) && b[5..13] == Be64(bitmap);
    Be32RoundTrip(base);
    Be64RoundTrip(bitmap);
  }

  // An accepted byte string is the encoding of what was decoded; an ACK may carry trailing bytes,
  // which the decoder ignores.
  lemma EncodeDecode(b: bytes)
    requires DecodeInner(b).Ok?
    ensures match DecodeInner(b).value
            case Data(s, f, i, t, p) => i < t && EncodeData(s, f, i, t, p) == b
            case Ack(base, bitmap) => |b| >= ACK_LEN && EncodeAck(base, bitmap) == b[..ACK_LEN]
  {
    if b[0] == 0x01 {
      FromBe32RoundTrip(b[1..5]);
      FromBe16RoundTrip(b[5..7]);
      assert b == [b[0]] + b[1..5] + b[5..7] + [b[7], b[8]] + b[9..];
    } else {
      FromBe32RoundTrip(b[1..5]);
      FromBe64RoundTrip(b[5..13]);
      assert b[..13] == [b[0]] + b[1..5] + b[5..13];
    }
  }

  // Nothing but encodings is accepted, and every one of them is.
  lemma AcceptedExactly(b: bytes)
    ensures DecodeInner(b).Ok? <==>
            || (exists s: u32, f: u16, i: u8, t: u8, p: bytes :: i < t && b == EncodeData(s, f, i, t, p))
            || (exists base: u32, bitmap: u64 :: EncodeAck(base, bitmap) <= b)
  {
    if DecodeInner(b).Ok? {
      EncodeDecode(b);
    }
    forall s: u32, f: u16, i: u8, t: u8, p: bytes | i < t && b == EncodeData(s, f, i, t, p)
      ensures DecodeInner(b).Ok?
    {
      DecodeEncodeData(s, f, i, t, p);
    }
  }

  // The frames, byte by byte, most significant byte first.
  lemma FrameBytes(s: u32, fid: u16, index: u8, total: u8, payload: bytes, base: u32, bitmap: u64)
    ensures EncodeData(s, fid, index, total, payload) ==
            [1, s / 0x100_0000, s / 0x1_0000 % 0x100, s / 0x100 % 0x100, s % 0x100, fid / 0x100, fid % 0x100, index, total] + payload
    ensures EncodeAck(base, bitmap)[..5] == [2, base / 0x100_0000, base / 0x1_0000 % 0x100, base / 0x100 % 0x100, base % 0x100]
    ensures |EncodeAck(base, bitmap)| == 13
    ensures EncodeAck(base, bitmap)[5..9] == Be32(bitmap / 0x1_0000_0000)
    ensures EncodeAck(base, bitmap)[9..] == Be32(bitmap % 0x1_0000_0000)
  {
    Be32Bytes(s);
    Be32Bytes(base);
  }

  lemma Be32Bytes(x: u32)
    ensures Be32(x) == [x / 0x100_0000, x / 0x1_0000 % 0x100, x / 0x100 % 0x100, x % 0x100]
  {}

  // What is refused, and as what.
  lemma RefusedExactly(b: bytes)
    ensures DecodeInner(b) == Err(Truncated) <==>
            |b| == 0 || (b[0] == 1 && |b| < 9) || (b[0] == 2 && |b| < 13)
    ensures DecodeInner(b) == Err(BadKind) <==> |b| > 0 && b[0] != 1 && b[0] != 2
    ensures DecodeInner(b) == Err(BadFragment) <==> |b| >= 9 && b[0] == 1 && b[7] >= b[8]
  {}
}
