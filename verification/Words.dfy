/** Fixed-width unsigned words, their wrap-around arithmetic and big-endian byte forms. */
module Words {

  const U16_MOD := 0x1_0000
  const U32_MOD := 0x1_0000_0000
  const U64_MOD := 0x1_0000_0000_0000_0000

  type u8 = x: int | 0 <= x < 0x100
  type u16 = x: int | 0 <= x < U16_MOD
  type u32 = x: int | 0 <= x < U32_MOD
  type u64 = x: int | 0 <= x < U64_MOD

  type bytes = seq<u8>

  // `a.wrapping_add(b)` on u32.
  function WrappingAdd(a: u32, b: nat): u32 {
    (a + b) % U32_MOD
  }

  // `a.wrapping_sub(b)` on u32.
  function WrappingSub(a: u32, b: u32): u32 {
    (a - b) % U32_MOD
  }

  // now.saturating_duration_since(last)
  function Elapsed(now: nat, last: nat): nat {
    if now >= last then now - last else 0
  }

  // to_be_bytes and from_be_bytes.

  function Be16(x: u16): (b: bytes)
    ensures |b| == 2
  {
    [x / 0x100, x % 0x100]
  }

  function FromBe16(b: bytes): u16
    requires |b| == 2
  {
    var hi: int, lo: int := b[0], b[1];
    hi * 0x100 + lo
  }

  function Be32(x: u32): (b: bytes)
    ensures |b| == 4
  {
    Be16(x / U16_MOD) + Be16(x % U16_MOD)
  }

  function FromBe32(b: bytes): u32
    requires |b| == 4
  {
    FromBe16(b[..2]) * U16_MOD + FromBe16(b[2..])
  }

  function Be64(x: u64): (b: bytes)
    ensures |b| == 8
  {
    Be32(x / U32_MOD) + Be32(x % U32_MOD)
  }

  function FromBe64(b: bytes): u64
    requires |b| == 8
  {
    FromBe32(b[..4]) * U32_MOD + FromBe32(b[4..])
  }

  lemma Be16RoundTrip(x: u16)
    ensures FromBe16(Be16(x)) == x
  {}

  lemma Be32RoundTrip(x: u32)
    ensures FromBe32(Be32(x)) == x
  {
    assert Be32(x)[..2] == Be16(x / U16_MOD) && Be32(x)[2..] == Be16(x % U16_MOD);
  }

  lemma Be64RoundTrip(x: u64)
    ensures FromBe64(Be64(x)) == x
  {
    assert Be64(x)[..4] == Be32(x / U32_MOD) && Be64(x)[4..] == Be32(x % U32_MOD);
    Be32RoundTrip(x / U32_MOD);
    Be32RoundTrip(x % U32_MOD);
  }

  lemma FromBe16RoundTrip(b: bytes)
    requires |b| == 2
    ensures Be16(FromBe16(b)) == b
  {}

  lemma FromBe32RoundTrip(b: bytes)
    requires |b| == 4
    ensures Be32(FromBe32(b)) == b
  {
    FromBe16RoundTrip(b[..2]);
    FromBe16RoundTrip(b[2..]);
    assert b == b[..2] + b[2..];
  }

  lemma FromBe64RoundTrip(b: bytes)
    requires |b| == 8
    ensures Be64(FromBe64(b)) == b
  {
    FromBe32RoundTrip(b[..4]);
    FromBe32RoundTrip(b[4..]);
    assert b == b[..4] + b[4..];
  }
}
