/**
 From the packets handed to a session to the packets a receiver ends up with, when every
 group on the wire loses at most one packet.
 */
module EndToEnd {

  import opened Arithmetic
  import opened Bytes
  import opened FecConfig
  import opened FecSession
  import opened IpPackets
  import opened Sequences
  import opened Wrappers
  import opened XorBlock
  import opened XorDecoder
  import opened XorEncoder
  import opened XorRecovery

  /** The data slots of a group: what arrived, or what Decode made of the rest. */
  function Delivered(config: Config, received: Received, lost: seq<nat>): seq<Option<Packet>>
    requires config.Valid() && config.blockSize <= |received|
  {
    seq(config.blockSize, i requires 0 <= i < config.blockSize =>
      if received[i].Some? || lost == [] then received[i] else Decoded(received, lost, config.blockSize)[i])
  }

  predicate FullBlock(block: seq<Packet>, blockSize: nat) {
    |block| == blockSize && FromTun(block)
  }

  // A full block of packets from the TUN device meets every condition the decoder has.
  lemma FullBlockDecodable(config: Config, block: seq<Packet>)
    requires config.Valid() && config.redundancyPercent > 0 && FullBlock(block, config.blockSize)
    ensures Decodable(config, block) && |Encoded(config, block)| == |block| + 1
  {
    var blockSize: nat := config.blockSize;
    QuotientUnique(blockSize + blockSize - 1, blockSize, 1);
    QuotientUnique(blockSize, blockSize, 1);
    assert Block(block, blockSize, 0) == block;
    MaxLenBounds(block);
    ParitiesLayout(Blocks(block, blockSize));
  }

  // At most one lost packet per group, at any position, costs the receiver nothing.
  lemma GroupDelivered(config: Config, block: seq<Packet>, lost: seq<nat>)
    requires config.Valid() && config.redundancyPercent > 0 && FullBlock(block, config.blockSize)
    requires |lost| <= 1 && forall i | i in lost :: i < |Encoded(config, block)|
    ensures var received := Receive(Encoded(config, block), lost);
      && |received| == config.blockSize + 1
      && Delivered(config, received, lost) == seq(|block|, i requires 0 <= i < |block| => Some(block[i]))
  {
    FullBlockDecodable(config, block);
    EncodedStartsWithData(config, block);
    var received := Receive(Encoded(config, block), lost);
    forall i: nat | i < |block|
      ensures Delivered(config, received, lost)[i] == Some(block[i])
    {
      assert Encoded(config, block)[..|block|][i] == block[i];
      if i in lost {
        assert lost == [i];
        ExactRecovery(config, block, lost, received, i);
      }
    }
  }

  // A full block makes a group of one packet more.
  lemma GroupSize(config: Config, stream: seq<Packet>, b: nat)
    requires config.Valid() && config.redundancyPercent > 0
    requires FromTun(stream) && Times(b, config.blockSize) + config.blockSize <= |stream|
    ensures var block := Block(stream, config.blockSize, b);
      FullBlock(block, config.blockSize) && |Encoded(config, block)| == config.blockSize + 1
  {
    FullBlockDecodable(config, Block(stream, config.blockSize, b));
  }

  lemma GroupSizes(config: Config, stream: seq<Packet>, g: nat)
    requires config.Valid() && config.redundancyPercent > 0 && FromTun(stream)
    requires Times(g, config.blockSize) <= |stream|
    ensures forall b | 0 <= b < g :: |Groups(config, stream, g)[b]| == config.blockSize + 1
  {
    forall b: nat | b < g
      ensures |Groups(config, stream, g)[b]| == config.blockSize + 1
    {
      TimesMonotone(b, g, config.blockSize);
      GroupSize(config, stream, b);
    }
  }

  lemma GroupOnWire(config: Config, stream: seq<Packet>, g: nat, j: nat)
    requires config.Valid() && config.redundancyPercent > 0 && FromTun(stream)
    requires j < g && Times(g, config.blockSize) <= |stream|
    ensures var wire, start := Flatten(Groups(config, stream, g)), Times(j, config.blockSize + 1);
      && start + config.blockSize + 1 <= |wire|
      && wire[start..start + config.blockSize + 1] == Groups(config, stream, g)[j]
  {
    hide FromTun, Encoded, Flatten, Block;
    GroupSizes(config, stream, g);
    FlattenAt(Groups(config, stream, g), config.blockSize + 1, j);
  }

  lemma StreamGroup(config: Config, stream: seq<Packet>, g: nat, j: nat, wire: seq<Packet>)
    requires config.Valid() && config.redundancyPercent > 0 && FromTun(stream)
    requires j < g && Times(g, config.blockSize) <= |stream| && wire == Flatten(Groups(config, stream, g))
    ensures var block, start := Block(stream, config.blockSize, j), Times(j, config.blockSize + 1);
      && FullBlock(block, config.blockSize)
      && start + config.blockSize + 1 <= |wire|
      && wire[start..start + config.blockSize + 1] == Encoded(config, block)
  {
    TimesMonotone(j, g, config.blockSize);
    GroupOnWire(config, stream, g, j);
    GroupSize(config, stream, j);
  }

  // Without write failures the wire holds, for each full block, its group.
  lemma WireGroup(encoder: XOREncoder, events: seq<Event>, j: nat)
    requires encoder.config.Valid() && encoder.config.redundancyPercent > 0
    requires NoFailures(events) && FromTun(Accepted(events))
    requires j < Quotient(|Accepted(events)|, encoder.config.blockSize)
    ensures var blockSize, wire := encoder.config.blockSize, Run(Some(encoder), events).wire;
      var block, start := Block(Accepted(events), blockSize, j), Times(j, blockSize + 1);
      && FullBlock(block, blockSize)
      && start + blockSize + 1 <= |wire|
      && wire[start..start + blockSize + 1] == Encoded(encoder.config, block)
  {
    hide Accepted, Run, FromTun, Encoded, Flatten, Groups, Block, NoFailures;
    var stream, wire := Accepted(events), Run(Some(encoder), events).wire;
    var g := Quotient(|stream|, encoder.config.blockSize);
    WireOnly(encoder, events, g);
    StreamGroup(encoder.config, stream, g, j, wire);
  }

  // Any stream of TUN packets pushed through a session with an encoder, redundancy on and
  // no write errors: whatever single packet each group then loses, the receiver has every
  // packet of every full block, byte for byte.
  lemma EndToEndRecovery(encoder: XOREncoder, events: seq<Event>, j: nat, lost: seq<nat>)
    requires encoder.config.Valid() && encoder.config.redundancyPercent > 0
    requires NoFailures(events) && FromTun(Accepted(events))
    requires j < Quotient(|Accepted(events)|, encoder.config.blockSize)
    requires |lost| <= 1 && forall i | i in lost :: i <= encoder.config.blockSize
    ensures var blockSize, wire := encoder.config.blockSize, Run(Some(encoder), events).wire;
      var block, start := Block(Accepted(events), blockSize, j), Times(j, blockSize + 1);
      && |block| == blockSize
      && start + blockSize + 1 <= |wire|
      && var received := Receive(wire[start..start + blockSize + 1], lost);
         Delivered(encoder.config, received, lost) == seq(|block|, i requires 0 <= i < |block| => Some(block[i]))
  {
    var block := Block(Accepted(events), encoder.config.blockSize, j);
    WireGroup(encoder, events, j);
    FullBlockDecodable(encoder.config, block);
    GroupDelivered(encoder.config, block, lost);
  }

  // ReadPacket cuts a packet to its buffer. The group of a full block passes through a
  // buffer of the given size untouched exactly when its parity packet does: the longest data
  // packet may have size - 1 - 2 * blockSize bytes, less than the buffer the data came from.
  lemma GroupFitsReader(config: Config, block: seq<Packet>, size: nat)
    requires config.Valid() && config.redundancyPercent > 0 && FullBlock(block, config.blockSize)
    ensures var group := Encoded(config, block);
      (forall i | 0 <= i < |group| :: |group[i]| <= size) <==> HeaderSize(config.blockSize) + MaxLen(block) <= size
  {
    var group := Encoded(config, block);
    FullBlockDecodable(config, block);
    LayoutOf(config, block);
    BlockOf(block, config.blockSize, 0);
    assert Block(block, config.blockSize, 0) == block by {
      assert Quotient(0, config.blockSize) == 0;
    }
    assert Some(group[|block| + 0]) == Parity(block);
    ParityShape(block);
    MaxLenBounds(block);
    forall i | 0 <= i < |block|
      ensures group[i] == block[i]
    {
      assert group[..|block|][i] == block[i];
    }
  }
}
