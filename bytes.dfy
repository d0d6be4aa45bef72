/** Bytes as 8-bit bit-vectors, and the conversions between a byte and its
    unsigned value. */
module Bytes {

  type byte = bv8

  lemma ByteOfValue(x: int)
    requires 0 <= x < 256
    ensures (x as byte) as int == x
  {
  }

  lemma ValueOfByte(b: byte)
    ensures (b as int) as byte == b
  {
  }

  /** Bytes with the same value are the same byte. */
  lemma ByteInjective(a: byte, b: byte)
    requires a as int == b as int
    ensures a == b
  {
    ValueOfByte(a);
    ValueOfByte(b);
  }
}
