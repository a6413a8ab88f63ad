/** The stream of a session through the two queues of its connection to a reader with a buffer. */
module Delivery {

  import opened Arithmetic
  import opened Bytes
  import opened EndToEnd
  import opened FecConfig
  import opened FecSession
  import opened IpPackets
  import opened WrongPackets
  import opened Wrappers
  import opened XorBlock
  import opened XorEncoder
  import opened XorRecovery

  import Conn = MasqueConn

  // A reader that keeps up has read a prefix of what was written.
  lemma ReadInOrder(steps: seq<Conn.Step>, c: Conn.Channels)
    requires Conn.ReaderKeepsUp(steps) && c == Conn.Run(Conn.FRESH, steps)
    ensures c.read <= c.written
  {
    hide Conn.Run, Conn.ReaderKeepsUp;
    Conn.NothingDropped(steps);
    assert c.written[..|c.read|] == c.read;
  }

  lemma SameSlice<T>(a: seq<T>, b: seq<T>, start: nat, end: nat)
    requires a <= b && start <= end <= |a|
    ensures a[start..end] == b[start..end]
  {
  }

  lemma UncutSlice(read: seq<Packet>, size: nat, start: nat, end: nat)
    requires start <= end <= |read|
    requires forall i | 0 <= i < end - start :: |read[start..end][i]| <= size
    ensures CutAll(read, size)[start..end] == read[start..end]
  {
    forall i | start <= i < end
      ensures CutAll(read, size)[i] == read[i]
    {
      assert read[start..end][i - start] == read[i];
    }
  }

  // Sent without failures through a connection of its own to a reader that keeps up, with a
  // buffer that holds the block's parity packet: as soon as a block's group has been read,
  // and whatever single packet of it the reader then lacks, it has the block byte for byte.
  lemma ThroughQueues(encoder: XOREncoder, events: seq<Event>, steps: seq<Conn.Step>, c: Conn.Channels,
                      size: nat, j: nat, lost: seq<nat>)
    requires encoder.config.Valid() && encoder.config.redundancyPercent > 0
    requires NoFailures(events) && FromTun(Accepted(events))
    requires j < Quotient(|Accepted(events)|, encoder.config.blockSize)
    requires Conn.ReaderKeepsUp(steps) && c == Conn.Run(Conn.FRESH, steps)
    requires c.written <= Run(Some(encoder), events).wire
    requires HeaderSize(encoder.config.blockSize) + MaxLen(Block(Accepted(events), encoder.config.blockSize, j)) <= size
    requires Times(j, encoder.config.blockSize + 1) + encoder.config.blockSize + 1 <= |c.read|
    requires |lost| <= 1 && forall i | i in lost :: i <= encoder.config.blockSize
    ensures var block := Block(Accepted(events), encoder.config.blockSize, j);
      var start := Times(j, encoder.config.blockSize + 1);
      var received := Receive(CutAll(c.read, size)[start..start + encoder.config.blockSize + 1], lost);
      && encoder.config.blockSize == |block| <= |received|
      && Delivered(encoder.config, received, lost) == seq(|block|, i requires 0 <= i < |block| => Some(block[i]))
  {
    hide Run, Accepted, Block, Encoded, MaxLen, FromTun, NoFailures, Receive, Delivered, CutAll;
    hide Conn.Run, Conn.ReaderKeepsUp;
    var block := Block(Accepted(events), encoder.config.blockSize, j);
    var start := Times(j, encoder.config.blockSize + 1);
    var end := start + encoder.config.blockSize + 1;
    WireGroup(encoder, events, j);
    ReadInOrder(steps, c);
    SameSlice(c.read, c.written, start, end);
    SameSlice(c.written, Run(Some(encoder), events).wire, start, end);
    GroupFitsReader(encoder.config, block, size);
    assert c.read[start..end] == Encoded(encoder.config, block);
    UncutSlice(c.read, size, start, end);
    FullBlockDecodable(encoder.config, block);
    GroupDelivered(encoder.config, block, lost);
  }
}
