/**
 * C integer semantics on the CC13xx/CC26xx nodes (32-bit ARM, GCC): fixed-width conversions,
 * division that truncates toward zero, and network (big-endian) byte order.
 */
module CInt {
  const U16: nat := 0x1_0000
  const U32: nat := 0x1_0000_0000

  type byte = x: int | 0 <= x < 0x100
  type uint16 = x: int | 0 <= x < 0x1_0000
  type int16 = x: int | -0x8000 <= x < 0x8000
  type uint32 = x: int | 0 <= x < 0x1_0000_0000
  type int32 = x: int | -0x8000_0000 <= x < 0x8000_0000

  /** Conversion to an unsigned 16-bit type: reduction modulo 2^16. */
  function ToU16(x: int): (r: uint16)
    ensures (x - r) % U16 == 0
    ensures 0 <= x < U16 ==> r == x
  {
    x % U16
  }

  /** Conversion to an unsigned 32-bit type: reduction modulo 2^32. */
  function ToU32(x: int): (r: uint32)
    ensures (x - r) % U32 == 0
    ensures 0 <= x < U32 ==> r == x
  {
    x % U32
  }

  /** Conversion to int16_t: GCC keeps the low 16 bits as a two's-complement value. */
  function ToS16(x: int): (r: int16)
    ensures (x - r) % U16 == 0
    ensures -0x8000 <= x < 0x8000 ==> r == x
  {
    var u := x % U16;
    if u >= 0x8000 then u - U16 else u
  }

  /** Conversion to a signed 32-bit type (what `%ld` shows of a uint32_t argument). */
  function ToS32(x: int): (r: int32)
    ensures (x - r) % U32 == 0
    ensures -0x8000_0000 <= x < 0x8000_0000 ==> r == x
  {
    var u := x % U32;
    if u >= 0x8000_0000 then u - U32 else u
  }

  /** C99 `a / b`: the quotient truncated toward zero. */
  function TruncDiv(a: int, b: int): (q: int)
    requires b > 0
    ensures a >= 0 ==> 0 <= a - b * q < b
    ensures a < 0 ==> -b < a - b * q <= 0
  {
    if a >= 0 then a / b else -((-a) / b)
  }

  /** C99 `a % b`: the remainder that goes with TruncDiv, carrying the sign of `a`. */
  function TruncMod(a: int, b: int): (m: int)
    requires b > 0
    ensures a == b * TruncDiv(a, b) + m
    ensures a >= 0 ==> 0 <= m < b
    ensures a < 0 ==> -b < m <= 0
  {
    a - b * TruncDiv(a, b)
  }

  /** The two bytes of a 16-bit value in network byte order (what UIP_HTONS leaves in memory). */
  function BigEndian16(x: uint16): (r: seq<byte>)
    ensures |r| == 2 && (r[0] as int) * 0x100 + r[1] == x
  {
    [x / 0x100, x % 0x100]
  }

  /** The four bytes of a 32-bit value in network byte order (what UIP_HTONL leaves in memory). */
  function BigEndian32(x: uint32): (r: seq<byte>)
    ensures |r| == 4 && (((r[0] as int) * 0x100 + r[1]) * 0x100 + r[2]) * 0x100 + r[3] == x
  {
    [x / 0x100_0000, (x / 0x1_0000) % 0x100, (x / 0x100) % 0x100, x % 0x100]
  }

  /** A 16-bit value read in network byte order. */
  function ReadBigEndian16(hi: byte, lo: byte): (r: uint16)
  {
    (hi as int) * 0x100 + lo
  }

  /** A 32-bit value read in network byte order. */
  function ReadBigEndian32(b: seq<byte>): (r: uint32)
    requires |b| == 4
  {
    (((b[0] as int) * 0x100 + b[1]) * 0x100 + b[2]) * 0x100 + b[3]
  }

  lemma BigEndian16RoundTrip(x: uint16)
    ensures ReadBigEndian16(BigEndian16(x)[0], BigEndian16(x)[1]) == x
  {
  }

  lemma BigEndian32RoundTrip(x: uint32)
    ensures ReadBigEndian32(BigEndian32(x)) == x
  {
  }

  /** Every pair of bytes is the encoding of the value read from it. */
  lemma ReadBigEndian16Inverse(hi: byte, lo: byte)
    ensures BigEndian16(ReadBigEndian16(hi, lo)) == [hi, lo]
  {
  }

  /** Every four bytes are the encoding of the value read from them. */
  lemma ReadBigEndian32Inverse(b: seq<byte>)
    requires |b| == 4
    ensures BigEndian32(ReadBigEndian32(b)) == b
  {
    var x := ReadBigEndian32(b);
    assert x / 0x100_0000 == b[0];
    assert (x / 0x1_0000) % 0x100 == b[1];
    assert (x / 0x100) % 0x100 == b[2];
  }
}
