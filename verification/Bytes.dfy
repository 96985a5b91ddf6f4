// Bytes on the wire and the two's-complement integers they carry.
module Bytes {
  type Byte = b: int | 0 <= b < 256

  function LowByte(v: int): (b: Byte) {
    v % 256
  }

  function HighByte(v: int): (b: Byte) {
    v / 256 % 256
  }

  predicate Int16(v: int) {
    -32768 <= v <= 32767
  }

  predicate Int8(v: int) {
    -128 <= v <= 127
  }

  /** Reinterpret a signed value as unsigned of the same width. */
  function ToUnsigned(v: int, range: int): int {
    if v < 0 then v + range else v
  }

  function FromUnsigned(v: int, range: int): int {
    if v >= range / 2 then v - range else v
  }

  function DecodeInt16(low: Byte, high: Byte): (v: int)
    ensures Int16(v)
  {
    FromUnsigned(low + 256 * high, 65536)
  }

  function DecodeInt8(b: Byte): (v: int)
    ensures Int8(v)
  {
    FromUnsigned(b, 256)
  }

  /** Little-endian two's complement round-trips every 16-bit value. */
  lemma Int16RoundTrip(v: int)
    requires Int16(v)
    ensures DecodeInt16(LowByte(ToUnsigned(v, 65536)), HighByte(ToUnsigned(v, 65536))) == v
  {
    TwoBytes(ToUnsigned(v, 65536));
    hide LowByte, HighByte;
  }

  lemma TwoBytes(u: int)
    requires 0 <= u < 65536
    ensures LowByte(u) as int + 256 * HighByte(u) as int == u
  {
    var high := u / 256;
    assert u == high * 256 + u % 256;
    assert high % 256 == high;
  }
}
