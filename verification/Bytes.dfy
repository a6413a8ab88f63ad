/** Bytes, packets, and Go's truncating conversion from int to byte. */
module Bytes {

  type Byte = bv8
  type Packet = seq<Byte>

  /** Go's byte(n): keeps the low eight bits. */
  function ToByte(n: nat): Byte {
    (n % 256) as Byte
  }

  /** Byte i of a packet padded with zeros. */
  function ByteAt(p: Packet, i: nat): Byte {
    if i < |p| then p[i] else 0
  }

  /** What ReadPacket leaves of a packet in a buffer of the given size. */
  function Cut(packet: Packet, size: nat): Packet {
    if |packet| <= size then packet else packet[..size]
  }

  /** A two-byte big-endian field. */
  function Field(high: Byte, low: Byte): nat {
    (high as nat) * 256 + low as nat
  }

  lemma SmallByte(n: nat)
    requires n < 256
    ensures (n as Byte) as nat == n
  {
    if n < 16 {
    } else if n < 32 {
    } else if n < 64 {
    } else if n < 128 {
    } else if n < 192 {
    }
  }

  lemma ToByteValue(n: nat)
    ensures ToByte(n) as nat == n % 256
  {
    SmallByte(n % 256);
  }

  lemma LowSixteenBits(n: nat)
    ensures n % 65536 == n / 256 % 256 * 256 + n % 256
  {
    var q, r := n / 65536, n % 65536;
    assert n == 65536 * q + r;
    assert n / 256 == 256 * q + r / 256;
  }

  lemma SixteenBits(n: nat)
    ensures n % 65536 == n <==> n < 65536
  {
  }

  // The field written for n reads back as n exactly when n fits in 16 bits.
  lemma FieldRoundTrip(n: nat)
    ensures Field(ToByte(n / 256), ToByte(n)) == n % 65536
    ensures Field(ToByte(n / 256), ToByte(n)) == n <==> n < 65536
  {
    ToByteValue(n / 256);
    ToByteValue(n);
    LowSixteenBits(n);
    SixteenBits(n);
  }

  lemma SmallField(n: nat, field: nat)
    requires n < 65536 && field == n % 65536
    ensures field == n
  {
  }
}
