/** The IP packets that come from the TUN device and get forwarded (vpn_server/internal/server/packet_processor.go). */
module IpPackets {

  import opened Address
  import opened Bytes
  import opened Wrappers

  /** parseDestinationIP; None stands for its error returns. */
  function Destination(packet: Packet): Option<Addr> {
    if |packet| < 20 then None
    else
      var version := packet[0] >> 4;
      if version == 4 then Some(Addr(packet[16..20]))
      else if version == 6 && |packet| >= 40 then Some(Addr(packet[24..40]))
      else None
  }

  /**
   The packet is an IP packet as far as it matters: a version nibble, 15 bytes and an address
   of 4, or 23 bytes and an address of 16 (RFC 791, section 3.1; RFC 8200, section 3).
   */
  ghost predicate AddressedTo(packet: Packet, dst: Addr) {
    exists first: Byte, middle: seq<Byte>, rest: seq<Byte> ::
      && packet == [first] + middle + dst.bytes + rest
      && ((first >> 4 == 4 && |middle| == 15 && |dst.bytes| == 4) ||
          (first >> 4 == 6 && |middle| == 23 && |dst.bytes| == 16))
  }

  // The destination is found in exactly the packets that have one, whatever else they hold.
  lemma DestinationExact(packet: Packet, dst: Addr)
    ensures Destination(packet) == Some(dst) <==> AddressedTo(packet, dst)
  {
    if Destination(packet) == Some(dst) {
      var n := if packet[0] >> 4 == 4 then 16 else 24;
      assert packet == [packet[0]] + packet[1..n] + dst.bytes + packet[n + |dst.bytes|..];
    }
    if first: Byte, middle: seq<Byte>, rest: seq<Byte> :|
      && packet == [first] + middle + dst.bytes + rest
      && ((first >> 4 == 4 && |middle| == 15 && |dst.bytes| == 4) ||
          (first >> 4 == 6 && |middle| == 23 && |dst.bytes| == 16))
    {
      assert packet[0] == first && packet[1 + |middle|..1 + |middle| + |dst.bytes|] == dst.bytes;
    }
  }

  /** processPackets reads into a buffer of this size and skips empty reads. */
  const TUN_BUFFER: nat := 2048

  predicate FromTun(packets: seq<Packet>) {
    forall i | 0 <= i < |packets| :: 0 < |packets[i]| <= TUN_BUFFER
  }

  /** Packets that processPackets forwards to the session of one address. */
  predicate ForClient(packets: seq<Packet>, dst: Addr) {
    forall i | 0 <= i < |packets| :: |packets[i]| <= TUN_BUFFER && Destination(packets[i]) == Some(dst)
  }

  lemma ForClientFromTun(packets: seq<Packet>, dst: Addr)
    requires ForClient(packets, dst)
    ensures FromTun(packets)
  {
  }

  // ------------------------------------------------------------ sample packets

  /** The destinations there are packets for. */
  predicate IsIp(dst: Addr) {
    |dst.bytes| == 4 || |dst.bytes| == 16
  }

  /** The last byte of the source address in packets to dst. */
  function SourceEnd(dst: Addr): nat {
    if |dst.bytes| == 4 then 15 else 23
  }

  function Zeros(n: nat): seq<Byte> {
    seq(n, _ => 0)
  }

  /** A packet to dst that is zero but for its version and length nibbles, a mark and its destination. */
  function IpPacket(dst: Addr, mark: Byte, padding: nat): Packet {
    [if |dst.bytes| == 4 then 0x45 else 0x60] + Zeros(SourceEnd(dst) - 1) + [mark] + dst.bytes + Zeros(padding)
  }

  lemma VersionNibble()
    ensures 0x45 as Byte >> 4 == 4 && 0x60 as Byte >> 4 == 6
  {
  }

  lemma IpPacketShape(dst: Addr, mark: Byte, padding: nat)
    requires IsIp(dst)
    ensures var p := IpPacket(dst, mark, padding);
      && |p| == SourceEnd(dst) + 1 + |dst.bytes| + padding
      && p[0] == (if |dst.bytes| == 4 then 0x45 else 0x60) && p[1] == p[2] == 0 && p[SourceEnd(dst)] == mark
      && Destination(p) == Some(dst)
  {
    var p, m := IpPacket(dst, mark, padding), SourceEnd(dst) + 1;
    assert p[m..m + |dst.bytes|] == dst.bytes;
    VersionNibble();
  }
}
