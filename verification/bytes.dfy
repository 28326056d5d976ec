/** Octets and the little-endian 32-bit values the record format stores its
    floating-point fields in. The model never interprets a float: each f32
    field is kept as the 32-bit pattern its four bytes spell out. */
module Bytes {

  /** One octet, Rust's `u8`. */
  type Byte = b: int | 0 <= b < 0x100

  /** A 32-bit unsigned value: the raw bit pattern of an IEEE-754 single. */
  type U32 = v: int | 0 <= v < 0x1_0000_0000

  /** The value of four bytes read least significant first, as
      `read_f32::<LittleEndian>` assembles them before reinterpreting the bits. */
  function LeU32(b: seq<Byte>): U32
    requires |b| == 4
  {
    b[0] as int + 0x100 * (b[1] as int) + 0x1_0000 * (b[2] as int) + 0x100_0000 * (b[3] as int)
  }

  /** The four bytes, least significant first, whose little-endian value is `v`. */
  function LeBytes(v: U32): (b: seq<Byte>)
    ensures |b| == 4
  {
    [v % 0x100, v / 0x100 % 0x100, v / 0x100 / 0x100 % 0x100, v / 0x100 / 0x100 / 0x100]
  }

  /** Reading back the bytes of a value gives the value. */
  lemma LeU32OfLeBytes(v: U32)
    ensures LeU32(LeBytes(v)) == v
  {
    var q1 := v / 0x100;
    var q2 := q1 / 0x100;
    assert v == v % 0x100 + 0x100 * q1;
    assert q1 == q1 % 0x100 + 0x100 * q2;
    assert q2 == q2 % 0x100 + 0x100 * (q2 / 0x100);
  }

  /** Every four bytes are the encoding of their little-endian value, so
      `LeU32` loses nothing: distinct byte quadruples give distinct values. */
  lemma LeBytesOfLeU32(b: seq<Byte>)
    requires |b| == 4
    ensures LeBytes(LeU32(b)) == b
  {
    var q2 := b[2] as int + 0x100 * (b[3] as int);
    var q1 := b[1] as int + 0x100 * q2;
    assert LeU32(b) == b[0] as int + 0x100 * q1;
    SplitLowByte(b[0], q1);
    SplitLowByte(b[1], q2);
    SplitLowByte(b[2], b[3]);
  }

  /** Dividing `lo + 256 * q` by 256 separates the low byte from the rest. */
  lemma SplitLowByte(lo: Byte, q: int)
    requires 0 <= q
    ensures (lo + 0x100 * q) % 0x100 == lo
    ensures (lo + 0x100 * q) / 0x100 == q
  {
  }
}
