/**
 The XOR code of one block: its parity packet and the recovery of one packet from the
 others (common/fec/xor_fec.go, xorPackets and xorPacketsWithRedundancy).
 */
module XorBlock {

  import opened Bytes
  import opened Wrappers

  /** XOR of byte i of every packet, each padded with zeros. */
  function XorAt(packets: seq<Packet>, i: nat): Byte {
    if packets == [] then 0
    else XorAt(packets[..|packets| - 1], i) ^ ByteAt(packets[|packets| - 1], i)
  }

  function MaxLen(packets: seq<Packet>): nat {
    if packets == [] then 0
    else
      var m := MaxLen(packets[..|packets| - 1]);
      var l := |packets[|packets| - 1]|;
      if l > m then l else m
  }

  function HeaderSize(count: nat): nat {
    1 + count * 2
  }

  /** Count byte followed by one big-endian 16-bit length per packet. */
  function HeaderByte(packets: seq<Packet>, k: nat): Byte
    requires k < HeaderSize(|packets|)
  {
    if k == 0 then ToByte(|packets|)
    else if k % 2 == 1 then ToByte(|packets[(k - 1) / 2]| / 256)
    else ToByte(|packets[(k - 1) / 2]|)
  }

  function Header(packets: seq<Packet>): seq<Byte> {
    seq(HeaderSize(|packets|), k requires 0 <= k < HeaderSize(|packets|) => HeaderByte(packets, k))
  }

  /** The parity packet; none for a block that holds no byte at all. */
  function Parity(packets: seq<Packet>): Option<Packet> {
    if MaxLen(packets) == 0 then None
    else Some(Header(packets) + seq(MaxLen(packets), k requires 0 <= k => XorAt(packets, k)))
  }

  /** What a receiver makes of the available packets and a parity packet. */
  function Rebuild(available: seq<Packet>, parity: Packet, headerSize: nat, originalLen: nat): Packet {
    seq(originalLen, k requires 0 <= k => XorAt(available, k) ^ ByteAt(parity, headerSize + k))
  }

  function CountField(parity: Packet): nat
    requires |parity| > 0
  {
    parity[0] as nat
  }

  function LengthField(parity: Packet, j: nat): nat
    requires HeaderSize(j + 1) <= |parity|
  {
    Field(parity[1 + j * 2], parity[2 + j * 2])
  }

  // ---------------------------------------------------------------- algebra

  /** All elements but element j. */
  function Without<T>(s: seq<T>, j: nat): seq<T>
    requires j < |s|
  {
    s[..j] + s[j + 1..]
  }

  lemma {:induction false} MaxLenBounds(packets: seq<Packet>)
    ensures forall i | 0 <= i < |packets| :: |packets[i]| <= MaxLen(packets)
    ensures MaxLen(packets) > 0 ==> exists i :: 0 <= i < |packets| && |packets[i]| == MaxLen(packets)
  {
    if packets != [] {
      var front, last := packets[..|packets| - 1], packets[|packets| - 1];
      assert packets == front + [last];
      MaxLenBounds(front);
    }
  }

  lemma {:induction false} XorAtConcat(a: seq<Packet>, b: seq<Packet>, i: nat)
    ensures XorAt(a + b, i) == XorAt(a, i) ^ XorAt(b, i)
  {
    if b == [] {
      assert a + b == a;
    } else {
      var front, last := b[..|b| - 1], b[|b| - 1];
      assert (a + b)[..|a + b| - 1] == a + front;
      XorAtConcat(a, front, i);
    }
  }

  lemma XorAtSplit(packets: seq<Packet>, j: nat, i: nat)
    requires j < |packets|
    ensures XorAt(packets, i) == XorAt(Without(packets, j), i) ^ ByteAt(packets[j], i)
  {
    var a, p, b := packets[..j], [packets[j]], packets[j + 1..];
    assert packets == a + p + b;
    XorAtConcat(a + p, b, i);
    XorAtConcat(a, p, i);
    XorAtConcat(a, b, i);
    assert p[..0] == [];
  }

  // A permutation of front + [last] holds last somewhere, and permutes front elsewhere.
  lemma FindLast<T>(front: seq<T>, last: T, b: seq<T>) returns (j: nat)
    requires multiset(front + [last]) == multiset(b)
    ensures j < |b| && b[j] == last
    ensures multiset(front) == multiset(Without(b, j))
  {
    assert last in multiset(b);
    j :| 0 <= j < |b| && b[j] == last;
    assert b == b[..j] + [b[j]] + b[j + 1..];
    assert multiset(b) == multiset(b[..j] + b[j + 1..]) + multiset{last};
    assert multiset(front) == multiset(front + [last]) - multiset{last};
  }

  // XOR does not depend on the order of the packets.
  lemma {:induction false} XorAtPermutation(a: seq<Packet>, b: seq<Packet>, i: nat)
    requires multiset(a) == multiset(b)
    ensures XorAt(a, i) == XorAt(b, i)
    decreases |a|
  {
    if a == [] {
      assert |multiset(b)| == 0;
    } else {
      var front, last := a[..|a| - 1], a[|a| - 1];
      assert a == front + [last];
      var j := FindLast(front, last, b);
      XorAtPermutation(front, Without(b, j), i);
      XorAtSplit(b, j, i);
    }
  }

  // ---------------------------------------------------------- the inverse

  lemma HeaderBytes(packets: seq<Packet>, j: nat)
    requires j < |packets|
    ensures var h := Header(packets);
      && |h| == HeaderSize(|packets|)
      && h[0] == ToByte(|packets|)
      && h[1 + j * 2] == ToByte(|packets[j]| / 256)
      && h[2 + j * 2] == ToByte(|packets[j]|)
  {
    assert (1 + j * 2 - 1) / 2 == j && (2 + j * 2 - 1) / 2 == j;
  }

  lemma ParityShape(packets: seq<Packet>)
    requires packets != [] && Parity(packets).Some?
    ensures var r := Parity(packets).value;
      && |r| == HeaderSize(|packets|) + MaxLen(packets)
      && r[0] == ToByte(|packets|)
      && forall j {:trigger packets[j]} | 0 <= j < |packets| ::
           r[1 + j * 2] == ToByte(|packets[j]| / 256) && r[2 + j * 2] == ToByte(|packets[j]|)
  {
    HeaderBytes(packets, 0);
    forall j | 0 <= j < |packets|
      ensures var r := Parity(packets).value;
        r[1 + j * 2] == ToByte(|packets[j]| / 256) && r[2 + j * 2] == ToByte(|packets[j]|)
    {
      HeaderBytes(packets, j);
    }
  }

  // There is a parity packet exactly if some packet of the block has a byte; it has room for
  // the longest one after the header.
  lemma ParityExists(packets: seq<Packet>)
    ensures Parity(packets).Some? <==> exists i :: 0 <= i < |packets| && |packets[i]| > 0
    ensures Parity(packets).Some? ==>
      && (forall i | 0 <= i < |packets| :: 1 + 2 * |packets| + |packets[i]| <= |Parity(packets).value|)
      && exists i :: 0 <= i < |packets| && 1 + 2 * |packets| + |packets[i]| == |Parity(packets).value|
  {
    MaxLenBounds(packets);
  }

  // The header records the number of packets and each packet's length, modulo its field size.
  lemma HeaderFields(packets: seq<Packet>, j: nat)
    requires j < |packets| && Parity(packets).Some?
    ensures var r := Parity(packets).value;
      && HeaderSize(|packets|) <= |r|
      && CountField(r) == |packets| % 256
      && LengthField(r, j) == |packets[j]| % 65536
  {
    ParityShape(packets);
    FieldRoundTrip(|packets[j]|);
    ToByteValue(|packets|);
  }

  lemma PayloadByte(packets: seq<Packet>, k: nat)
    requires Parity(packets).Some? && k < MaxLen(packets)
    ensures ByteAt(Parity(packets).value, HeaderSize(|packets|) + k) == XorAt(packets, k)
  {
  }

  lemma XorCancel(a: Byte, b: Byte)
    ensures a ^ (a ^ b) == b
  {
  }

  // A packet's byte is the XOR of the other packets' with the whole block's.
  lemma InverseXor(packets: seq<Packet>, j: nat, others: seq<Packet>, k: nat)
    requires j < |packets| && multiset(others) == multiset(Without(packets, j)) && k < |packets[j]|
    ensures XorAt(others, k) ^ XorAt(packets, k) == packets[j][k]
  {
    XorAtPermutation(others, Without(packets, j), k);
    XorAtSplit(packets, j, k);
    XorCancel(XorAt(others, k), packets[j][k]);
  }

  lemma InverseByte(packets: seq<Packet>, j: nat, others: seq<Packet>, k: nat)
    requires j < |packets| && multiset(others) == multiset(Without(packets, j))
    requires Parity(packets).Some? && k < |packets[j]|
    ensures XorAt(others, k) ^ ByteAt(Parity(packets).value, HeaderSize(|packets|) + k) == packets[j][k]
  {
    MaxLenBounds(packets);
    PayloadByte(packets, k);
    InverseXor(packets, j, others, k);
  }

  lemma RebuildBytes(others: seq<Packet>, parity: Packet, h: nat, packet: Packet)
    requires forall k: nat | k < |packet| :: XorAt(others, k) ^ ByteAt(parity, h + k) == packet[k]
    ensures Rebuild(others, parity, h, |packet|) == packet
  {
  }

  lemma InverseBytes(packets: seq<Packet>, j: nat, others: seq<Packet>)
    requires j < |packets| && multiset(others) == multiset(Without(packets, j)) && Parity(packets).Some?
    ensures Rebuild(others, Parity(packets).value, HeaderSize(|packets|), |packets[j]|) == packets[j]
  {
    var h, parity := HeaderSize(|packets|), Parity(packets).value;
    forall k: nat | k < |packets[j]|
      ensures XorAt(others, k) ^ ByteAt(parity, h + k) == packets[j][k]
    {
      InverseByte(packets, j, others, k);
    }
    RebuildBytes(others, parity, h, packets[j]);
  }

  // Any one packet of a block is the XOR of the parity payload with the others, in any
  // order, cut to the length the header records for it.
  lemma BlockInverse(packets: seq<Packet>, j: nat, others: seq<Packet>)
    requires j < |packets| && multiset(others) == multiset(Without(packets, j))
    requires |packets[j]| < 65536 && Parity(packets).Some?
    ensures var r := Parity(packets).value;
      && HeaderSize(|packets|) <= |r|
      && Rebuild(others, r, HeaderSize(|packets|), LengthField(r, j)) == packets[j]
  {
    HeaderFields(packets, j);
    SmallField(|packets[j]|, LengthField(Parity(packets).value, j));
    InverseBytes(packets, j, others);
  }

  // ------------------------------------------------------------ implementation

  method XorOne(pkt: Packet, buffer: array<Byte>, offset: nat)
    requires offset + |pkt| <= buffer.Length
    modifies buffer
    ensures forall k | 0 <= k < offset :: buffer[k] == old(buffer[k])
    ensures forall k | offset <= k < buffer.Length :: buffer[k] == old(buffer[k]) ^ ByteAt(pkt, k - offset)
  {
    for i := 0 to |pkt|
      invariant forall k | 0 <= k < buffer.Length ::
        buffer[k] == if offset <= k < offset + i then old(buffer[k]) ^ pkt[k - offset] else old(buffer[k])
    {
      buffer[offset + i] := buffer[offset + i] ^ pkt[i];
    }
  }

  // The in-place loop that encoder and decoder share: XOR every packet into the buffer.
  method XorInto(packets: seq<Packet>, buffer: array<Byte>, offset: nat)
    requires offset <= buffer.Length
    requires forall i | 0 <= i < |packets| :: offset + |packets[i]| <= buffer.Length
    modifies buffer
    ensures forall k | 0 <= k < offset :: buffer[k] == old(buffer[k])
    ensures forall k | offset <= k < buffer.Length :: buffer[k] == XorAt(packets, k - offset) ^ old(buffer[k])
  {
    for j := 0 to |packets|
      invariant forall k | 0 <= k < offset :: buffer[k] == old(buffer[k])
      invariant forall k | offset <= k < buffer.Length ::
        buffer[k] == XorAt(packets[..j], k - offset) ^ old(buffer[k])
    {
      XorOne(packets[j], buffer, offset);
      assert packets[..j + 1][..j] == packets[..j];
    }
    assert packets[..|packets|] == packets;
  }
}
