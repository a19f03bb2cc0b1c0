/**
 * Fixed-width unsigned integers as the C code stores them, and the
 * network-order (big-endian) encoding of a 32-bit length that the
 * source produces with htonl/memcpy and reads back with memcpy/ntohl.
 */
module Octets {

  type uint8 = x: int | 0 <= x < 0x100
  type uint16 = x: int | 0 <= x < 0x1_0000
  type uint32 = x: int | 0 <= x < 0x1_0000_0000

  const UINT32_MODULUS := 0x1_0000_0000

  /** Storing an int into an unsigned 32-bit variable: reduction modulo 2^32. */
  function Wrap32(x: int): (r: uint32)
    ensures 0 <= x < UINT32_MODULUS ==> r == x
    ensures x < 0 && -UINT32_MODULUS <= x ==> r == x + UINT32_MODULUS
  {
    x % UINT32_MODULUS
  }

  /** Storing an int into an unsigned 8-bit variable: reduction modulo 2^8. */
  function Wrap8(x: int): (r: uint8)
    ensures 0 <= x < 0x100 ==> r == x
    ensures x == 0x100 ==> r == 0
  {
    x % 0x100
  }

  /** The four bytes of `n` in network order (`htonl` followed by a 4-byte `memcpy`). */
  function BigEndian32(n: uint32): (r: seq<uint8>)
    ensures |r| == 4
  {
    [n / 0x100_0000, (n / 0x1_0000) % 0x100, (n / 0x100) % 0x100, n % 0x100]
  }

  /** The value of four bytes read in network order (a 4-byte `memcpy` followed by `ntohl`). */
  function FromBigEndian32(b: seq<uint8>): (n: uint32)
    requires |b| == 4
    ensures n / 0x100_0000 == b[0] && n % 0x100 == b[3]
  {
    (b[0] as int) * 0x100_0000 + (b[1] as int) * 0x1_0000 + (b[2] as int) * 0x100 + b[3]
  }

  /** Decoding an encoded length gives the length back. */
  lemma BigEndian32RoundTrip(n: uint32)
    ensures FromBigEndian32(BigEndian32(n)) == n
  {
    var b := BigEndian32(n);
    var hi := n / 0x1_0000;
    var lo := n % 0x1_0000;
    assert n == hi * 0x1_0000 + lo;
    assert hi == (b[0] as int) * 0x100 + b[1];
    assert lo == (b[2] as int) * 0x100 + b[3];
  }

  /** Encoding the value of four bytes gives the same four bytes. */
  lemma FromBigEndian32Inverse(b: seq<uint8>)
    requires |b| == 4
    ensures BigEndian32(FromBigEndian32(b)) == b
  {
    var n := FromBigEndian32(b);
    assert n / 0x1_0000 == (b[0] as int) * 0x100 + b[1];
    assert n % 0x1_0000 == (b[2] as int) * 0x100 + b[3];
    assert n / 0x100 == ((b[0] as int) * 0x100 + b[1]) * 0x100 + b[2];
  }

  /** Two lengths with the same encoding are equal: the 4-byte field identifies the value. */
  lemma BigEndian32Injective(m: uint32, n: uint32)
    requires BigEndian32(m) == BigEndian32(n)
    ensures m == n
  {
    BigEndian32RoundTrip(m);
    BigEndian32RoundTrip(n);
  }
}
