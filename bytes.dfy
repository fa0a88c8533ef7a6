/**
  Fixed-width unsigned integers of the C++ source (uint8_t, uint16_t,
  uint32_t) and the network-order (big-endian) reading and writing of
  multi-octet header fields, as ntohs/ntohl perform it.
 */
module Bytes {

  newtype uint8 = x: int | 0 <= x < 0x100
  newtype uint16 = x: int | 0 <= x < 0x1_0000
  newtype uint32 = x: int | 0 <= x < 0x1_0000_0000

  /** The 16-bit value of two octets in network order (ntohs). */
  function BE16(hi: uint8, lo: uint8): (v: uint16)
    ensures v as int / 0x100 == hi as int && v as int % 0x100 == lo as int
  {
    (hi as int * 0x100 + lo as int) as uint16
  }

  /** The two octets that carry `v` in network order (htons). */
  function Octets16(v: uint16): (b: seq<uint8>)
    ensures |b| == 2 && BE16(b[0], b[1]) == v
  {
    [(v as int / 0x100) as uint8, (v as int % 0x100) as uint8]
  }

  /** The 32-bit value of four octets in network order (ntohl). */
  function BE32(b0: uint8, b1: uint8, b2: uint8, b3: uint8): (v: uint32)
    ensures v as int / 0x1_0000 == BE16(b0, b1) as int
    ensures v as int % 0x1_0000 == BE16(b2, b3) as int
  {
    (BE16(b0, b1) as int * 0x1_0000 + BE16(b2, b3) as int) as uint32
  }

  /** The four octets that carry `v` in network order (htonl). */
  function Octets32(v: uint32): (b: seq<uint8>)
    ensures |b| == 4 && BE32(b[0], b[1], b[2], b[3]) == v
  {
    var hi := Octets16((v as int / 0x1_0000) as uint16);
    var lo := Octets16((v as int % 0x1_0000) as uint16);
    hi + lo
  }

  /** Reading two octets and writing the value back gives the same octets. */
  lemma BE16Octets(hi: uint8, lo: uint8)
    ensures Octets16(BE16(hi, lo)) == [hi, lo]
  {
  }

  /** Reading four octets and writing the value back gives the same octets. */
  lemma BE32Octets(b0: uint8, b1: uint8, b2: uint8, b3: uint8)
    ensures Octets32(BE32(b0, b1, b2, b3)) == [b0, b1, b2, b3]
  {
    BE16Octets(b0, b1);
    BE16Octets(b2, b3);
  }
}
