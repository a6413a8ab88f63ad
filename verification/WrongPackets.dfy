/**
 When Decode can hand out a packet that was never sent, and which events lead there: groups
 whose size the block size does not divide, and groups cut short by a reader's buffer.
 */
module WrongPackets {

  import opened Address
  import opened Arithmetic
  import opened Bytes
  import opened EndToEnd
  import opened FecConfig
  import opened FecSession
  import opened IpPackets
  import opened Sequences
  import opened Wrappers
  import opened XorBlock
  import opened XorDecoder
  import opened XorEncoder
  import opened XorRecovery

  /** Whatever Decode returns in a slot is the data packet that was sent there. */
  predicate NotWrong(config: Config, packets: seq<Packet>, lost: seq<nat>)
    requires config.Valid()
  {
    var decoded := Decoded(Receive(Encoded(config, packets), lost), lost, config.blockSize);
    forall i | 0 <= i < |decoded| && decoded[i].Some? :: i < |packets| && decoded[i] == Some(packets[i])
  }

  /** For no n packets from the TUN device and no losses does Decode return a wrong packet. */
  ghost predicate NeverWrong(config: Config, n: nat)
    requires config.Valid()
  {
    forall packets, lost | |packets| == n && FromTun(packets) && Distinct(lost) :: NotWrong(config, packets, lost)
  }

  /** The same for packets to one client and the loss of a single one of them. */
  ghost predicate NeverWrongFor(config: Config, n: nat, dst: Addr)
    requires config.Valid()
  {
    forall packets, i: nat | |packets| == n && ForClient(packets, dst) && i < n :: NotWrong(config, packets, [i])
  }

  /** The group sizes without misreading: full blocks only, or too few packets to find a parity packet at all. */
  predicate SafeSize(config: Config, n: nat)
    requires config.Valid()
  {
    if config.redundancyPercent > 0 then Divides(config.blockSize, n) || n < config.blockSize
    else n <= config.blockSize
  }

  // ------------------------------------------------------------- the safe sizes

  lemma TunBlocks(packets: seq<Packet>, blockSize: nat)
    requires 0 < blockSize && FromTun(packets)
    ensures NoEmptyBlock(Blocks(packets, blockSize)) && LengthsFit(packets)
  {
    var blocks := Blocks(packets, blockSize);
    forall b | 0 <= b < |blocks|
      ensures Parity(blocks[b]).Some?
    {
      BlockStarts(|packets|, blockSize, b);
      MaxLenBounds(blocks[b]);
      assert blocks[b][0] == packets[Times(b, blockSize)];
    }
  }

  // A group of no more packets than a block is always searched past its end.
  lemma TooSmall(received: Received, blockSize: nat, i: nat)
    requires 0 < blockSize && |received| <= blockSize
    ensures RecoverAt(received, blockSize, i) == None
  {
  }

  lemma SmallGroup(config: Config, packets: seq<Packet>)
    requires config.Valid() && SafeSize(config, |packets|)
    requires config.redundancyPercent == 0 || !Divides(config.blockSize, |packets|)
    ensures |Encoded(config, packets)| <= config.blockSize
  {
    if config.redundancyPercent > 0 {
      NumBlocksBounds(|packets|, config.blockSize);
      QuotientUnique(|packets| + config.blockSize - 1, config.blockSize, 1);
      ParitiesCount(Blocks(packets, config.blockSize));
    }
  }

  lemma SafeSizeNotWrong(config: Config, packets: seq<Packet>, lost: seq<nat>)
    requires config.Valid() && SafeSize(config, |packets|) && FromTun(packets) && Distinct(lost)
    ensures NotWrong(config, packets, lost)
  {
    var received := Receive(Encoded(config, packets), lost);
    if lost == [] || packets == [] {
    } else if config.redundancyPercent > 0 && Divides(config.blockSize, |packets|) {
      TunBlocks(packets, config.blockSize);
      forall i: nat | i < |received|
        ensures var decoded := Decoded(received, lost, config.blockSize);
          decoded[i].Some? ==> i < |packets| && decoded[i] == Some(packets[i])
      {
        ExactRecovery(config, packets, lost, received, i);
      }
    } else {
      SmallGroup(config, packets);
      forall i: nat | i < |received|
        ensures RecoverAt(received, config.blockSize, i) == None
      {
        TooSmall(received, config.blockSize, i);
      }
    }
  }

  // ------------------------------------------------------------ the other sizes

  lemma {:induction false} ZeroBytes(packets: seq<Packet>, k: nat)
    requires forall i | 0 <= i < |packets| :: ByteAt(packets[i], k) == 0
    ensures XorAt(packets, k) == 0
  {
    if packets != [] {
      ZeroBytes(packets[..|packets| - 1], k);
    }
  }

  lemma SecondBlock(packets: seq<Packet>, blockSize: nat)
    requires 0 < blockSize < |packets|
    ensures 1 < NumBlocks(|packets|, blockSize)
    ensures var block := Block(packets, blockSize, 1); 0 < |block| <= blockSize && block[0] == packets[blockSize]
  {
    var m := NumBlocks(|packets|, blockSize);
    NumBlocksBounds(|packets|, blockSize);
    SmallTimes(blockSize);
    TimesMonotone(m, 1, blockSize);
    BlockStarts(|packets|, blockSize, 1);
  }

  lemma RebuildByte(others: seq<Packet>, parity: Packet, h: nat, length: nat, k: nat)
    requires k < length
    ensures k < |Rebuild(others, parity, h, length)|
    ensures Rebuild(others, parity, h, length)[k] == XorAt(others, k) ^ ByteAt(parity, h + k)
  {
  }

  lemma RebuildLength(others: seq<Packet>, parity: Packet, h: nat, length: nat)
    ensures |Rebuild(others, parity, h, length)| == length
  {
  }

  lemma FieldsRead(received: Received, lo: nat, hi: nat, r: nat, i: nat, parity: Packet)
    requires lo <= i && hi <= |received| && r < |received| && received[r] == Some(parity) && 0 < |parity|
    ensures RecoverFrom(received, lo, hi, r, i) ==
            if |parity| < HeaderSize(CountField(parity)) || i - lo >= CountField(parity) then None
            else
              Some(Rebuild(Available(received, lo, hi, i), parity, HeaderSize(CountField(parity)),
                           LengthField(parity, i - lo)))
  {
    hide Available, Rebuild, CountField, LengthField;
  }

  /** The packet is the XOR of the rest of a block and the next one, as long as the next one's packet in that place. */
  ghost predicate Mixed(wrong: Packet, rest: seq<Packet>, next: seq<Packet>, place: nat)
    requires place < |next|
  {
    && |wrong| == |next[place]|
    && forall k: nat | k < |wrong| :: wrong[k] == XorAt(rest, k) ^ XorAt(next, k)
  }

  lemma ParityBytes(rest: seq<Packet>, next: seq<Packet>, place: nat, parity: Packet) returns (wrong: Packet)
    requires place < |next| <= 255 && |next[place]| < 65536 && Parity(next) == Some(parity)
    ensures |parity| >= 1 && CountField(parity) == |next| && HeaderSize(|next|) <= |parity|
    ensures wrong == Rebuild(rest, parity, HeaderSize(|next|), LengthField(parity, place))
    ensures Mixed(wrong, rest, next, place)
  {
    hide Parity, Rebuild, XorAt, ByteAt, CountField, LengthField;
    HeaderFields(next, place);
    SmallField(|next[place]|, LengthField(parity, place));
    MaxLenBounds(next);
    wrong := Rebuild(rest, parity, HeaderSize(|next|), |next[place]|);
    RebuildLength(rest, parity, HeaderSize(|next|), |next[place]|);
    forall k: nat | k < |wrong|
      ensures wrong[k] == XorAt(rest, k) ^ XorAt(next, k)
    {
      PayloadByte(next, k);
      RebuildByte(rest, parity, HeaderSize(|next|), |next[place]|, k);
    }
  }

  lemma BlockBefore(packets: seq<Packet>, blockSize: nat, i: nat, b: nat, lo: nat)
    requires 0 < blockSize && i < |packets| && b == Quotient(i, blockSize) && lo == Times(b, blockSize)
    ensures lo <= i < lo + blockSize && b < NumBlocks(|packets|, blockSize)
    ensures b + 1 < NumBlocks(|packets|, blockSize) ==>
      lo + blockSize <= |packets| && Block(packets, blockSize, b) == packets[lo..lo + blockSize]
  {
    QuotientBounds(i, blockSize);
    NumBlocksBounds(|packets|, blockSize);
    TimesMonotone(NumBlocks(|packets|, blockSize), b, blockSize);
    if b + 1 < NumBlocks(|packets|, blockSize) {
      BlockStarts(|packets|, blockSize, b + 1);
    }
  }

  // In a group with a short last block, the parity of block b is looked for one slot too far.
  lemma UndividedPlaces(received: Received, packets: seq<Packet>, blockSize: nat, i: nat, b: nat, lo: nat)
    requires 0 < blockSize && |received| == |packets| + NumBlocks(|packets|, blockSize)
    requires i < |packets| && b == Quotient(i, blockSize) && lo == Times(b, blockSize)
    requires !Divides(blockSize, |packets|)
    ensures lo <= i < lo + blockSize && b < NumBlocks(|packets|, blockSize)
    ensures b + 1 == NumBlocks(|packets|, blockSize) ==> RecoverAt(received, blockSize, i) == None
    ensures b + 1 < NumBlocks(|packets|, blockSize) ==>
      && lo + blockSize <= |packets| && Block(packets, blockSize, b) == packets[lo..lo + blockSize]
      && RecoverAt(received, blockSize, i) == RecoverFrom(received, lo, lo + blockSize, |packets| + b + 1, i)
  {
    hide NumBlocks, Block, Available, Rebuild, CountField, LengthField;
    BlockBefore(packets, blockSize, i, b, lo);
    IndexAlignment(|packets|, blockSize, b);
  }

  lemma OthersArrived(received: Received, packets: seq<Packet>, i: nat, lo: nat, hi: nat)
    requires lo <= i < hi <= |packets| <= |received| && DataSlots(received, packets, [i])
    ensures Available(received, lo, hi, i) == Without(packets[lo..hi], i - lo)
  {
    hide Available, Without;
    SlotsOfBlock(received, packets, [i], i, lo, hi);
    AvailableAllBut(received, lo, packets[lo..hi], i - lo);
  }

  lemma NextBlock(packets: seq<Packet>, blockSize: nat, b: nat, next: seq<Packet>, place: nat)
    requires 0 < blockSize <= 255 && b < NumBlocks(|packets|, blockSize) && FromTun(packets)
    requires next == Block(packets, blockSize, b)
    ensures 0 < |next| <= 255 && (place < |next| ==> 0 < |next[place]| < 65536)
  {
    BlockStarts(|packets|, blockSize, b);
  }

  // What is read in place of the parity of block b.
  lemma UndividedRead(received: Received, packets: seq<Packet>, blockSize: nat, i: nat, b: nat, lo: nat,
                      next: seq<Packet>)
    returns (wrong: Packet)
    requires 0 < blockSize <= 255 && Arrived(received, packets, [i], blockSize) && !Divides(blockSize, |packets|)
    requires NoEmptyBlock(Blocks(packets, blockSize)) && FromTun(packets)
    requires i < |packets| && b == Quotient(i, blockSize) && lo == Times(b, blockSize)
    requires b + 1 < NumBlocks(|packets|, blockSize) && next == Block(packets, blockSize, b + 1)
    ensures lo <= i < lo + blockSize <= |packets|
    ensures RecoverAt(received, blockSize, i) == if i - lo < |next| then Some(wrong) else None
    ensures i - lo < |next| ==> Mixed(wrong, Without(packets[lo..lo + blockSize], i - lo), next, i - lo)
  {
    hide Parity, RecoverAt, RecoverFrom, Available, Rebuild, Without, Mixed, Block, FromTun, DataSlots;
    hide CountField, LengthField;
    UndividedPlaces(received, packets, blockSize, i, b, lo);
    NextBlock(packets, blockSize, b + 1, next, i - lo);
    NextBlock(packets, blockSize, b + 1, next, 0);
    var parity := ParityArrived(received, packets, [i], blockSize, b + 1, next);
    var rest := Without(packets[lo..lo + blockSize], i - lo);
    OthersArrived(received, packets, i, lo, lo + blockSize);
    wrong := ParityBytes(rest, next, if i - lo < |next| then i - lo else 0, parity);
    FieldsRead(received, lo, lo + blockSize, |packets| + b + 1, i, parity);
  }

  lemma UndividedSlot(config: Config, packets: seq<Packet>, blocks: seq<seq<Packet>>, i: nat, b: nat, place: nat,
                      received: Received)
    requires config.Valid() && config.redundancyPercent > 0 && FromTun(packets)
    requires !Divides(config.blockSize, |packets|) && blocks == Blocks(packets, config.blockSize)
    requires i < |packets| && b == Quotient(i, config.blockSize) && i == Times(b, config.blockSize) + place
    requires received == Receive(Encoded(config, packets), [i])
    ensures b < |blocks| && place < config.blockSize
    ensures var recovered := RecoverAt(received, config.blockSize, i);
      && (recovered.Some? <==> b + 1 < |blocks| && place < |blocks[b + 1]|)
      && (recovered.Some? ==>
           place < |blocks[b]| && Mixed(recovered.value, Without(blocks[b], place), blocks[b + 1], place))
  {
    hide Parity, RecoverAt, Receive, Encoded, Without, Mixed, FromTun, Block, Divides;
    TunBlocks(packets, config.blockSize);
    GroupArrives(config, packets, [i], Encoded(config, packets), received);
    UndividedPlaces(received, packets, config.blockSize, i, b, i - place);
    if b + 1 < NumBlocks(|packets|, config.blockSize) {
      var wrong := UndividedRead(received, packets, config.blockSize, i, b, i - place, blocks[b + 1]);
    }
  }

  // The outcome of every single loss in a group with a short last block: nothing for a packet
  // of the last block, or in a place that the next block does not have; otherwise the XOR of
  // the rest of its block with the next one, as long as the next one's packet in its place.
  lemma UndividedLoss(config: Config, packets: seq<Packet>, blocks: seq<seq<Packet>>, i: nat, b: nat, place: nat,
                      received: Received, decoded: Option<Packet>)
    requires config.Valid() && config.redundancyPercent > 0 && FromTun(packets)
    requires |packets| % config.blockSize != 0 && blocks == Blocks(packets, config.blockSize)
    requires i < |packets| && b == i / config.blockSize && place == i - b * config.blockSize
    requires received == Receive(Encoded(config, packets), [i]) && i < |received|
    requires decoded == Decoded(received, [i], config.blockSize)[i]
    ensures b < |blocks| && place < |blocks[b]| && blocks[b][place] == packets[i]
    ensures decoded.Some? <==> b + 1 < |blocks| && place < |blocks[b + 1]|
    ensures decoded.Some? ==> Mixed(decoded.value, Without(blocks[b], place), blocks[b + 1], place)
  {
    hide RecoverAt, Decoded, Receive, Encoded, Without, Mixed, FromTun, Blocks;
    QuotientIsDivision(|packets|, config.blockSize);
    QuotientIsDivision(i, config.blockSize);
    TimesIsProduct(b, config.blockSize);
    BlockPlace(packets, config.blockSize, i);
    SingleLossSlot(received, config.blockSize, i);
    UndividedSlot(config, packets, blocks, i, b, place, received);
  }

  lemma AllButFirst<T>(s: seq<T>)
    requires s != []
    ensures Without(s, 0) == s[1..]
  {
  }

  lemma FirstSlot(received: Received, blockSize: nat, r: nat)
    requires 0 < blockSize <= |received| && ParityIndex(|received|, blockSize, 0) == r
    ensures RecoverAt(received, blockSize, 0) == RecoverFrom(received, 0, blockSize, r, 0)
  {
    SmallTimes(blockSize);
  }

  // In particular, if packet 0 is lost, the parity packet of block 1 is taken for that of block 0.
  lemma SecondParityRead(config: Config, packets: seq<Packet>, received: Received, next: seq<Packet>)
    returns (wrong: Packet)
    requires config.Valid() && config.redundancyPercent > 0 && FromTun(packets)
    requires config.blockSize < |packets| && !Divides(config.blockSize, |packets|)
    requires received == Receive(Encoded(config, packets), [0]) && next == Block(packets, config.blockSize, 1)
    ensures 0 < |received| && RecoverAt(received, config.blockSize, 0) == Some(wrong)
    ensures 0 < |next| && Mixed(wrong, packets[1..config.blockSize], next, 0)
  {
    hide Encoded, Receive, RecoverAt, Parity, Block, Mixed, FromTun, Without;
    TunBlocks(packets, config.blockSize);
    GroupArrives(config, packets, [0], Encoded(config, packets), received);
    SecondBlock(packets, config.blockSize);
    SmallTimes(config.blockSize);
    wrong := UndividedRead(received, packets, config.blockSize, 0, 0, 0, next);
    AllButFirst(packets[..config.blockSize]);
    assert packets[0..config.blockSize] == packets[..config.blockSize];
    assert packets[..config.blockSize][1..] == packets[1..config.blockSize];
  }

  // Without redundancy a group of more than a block has a data packet where a parity packet is looked for.
  lemma DataTakenForParity(n: nat, blockSize: nat)
    requires 0 < blockSize < n
    ensures blockSize <= ParityIndex(n, blockSize, 0) < n
  {
    var q := Quotient(n, blockSize + 1);
    QuotientBounds(n, blockSize + 1);
    TimesPlusOne(q, blockSize);
    TimesMonotone(1, q, blockSize);
    SmallTimes(blockSize);
  }

  /** A packet whose version byte reads as the count, and zeros as the length, of a parity packet. */
  function LikeParity(dst: Addr): Packet {
    IpPacket(dst, 0, 200)
  }

  /** A group of packets to dst for which the loss of packet 0 is answered with a wrong packet. */
  function Witness(config: Config, n: nat, dst: Addr): seq<Packet> {
    seq(n, k =>
      if config.redundancyPercent == 0 then LikeParity(dst) else IpPacket(dst, if k == 0 then 1 else 0, 0))
  }

  lemma WitnessForClient(config: Config, n: nat, dst: Addr)
    requires IsIp(dst)
    ensures ForClient(Witness(config, n, dst), dst)
  {
    hide IpPacket, Destination;
    IpPacketShape(dst, 0, 0);
    IpPacketShape(dst, 1, 0);
    IpPacketShape(dst, 0, 200);
    var packets := Witness(config, n, dst);
    forall i | 0 <= i < |packets|
      ensures |packets[i]| <= TUN_BUFFER && Destination(packets[i]) == Some(dst)
    {
      assert packets[i] in {LikeParity(dst), IpPacket(dst, 1, 0), IpPacket(dst, 0, 0)};
    }
  }

  /** Packets to dst that have the mark in the first one and are alike otherwise. */
  predicate MarkedFirst(packets: seq<Packet>, dst: Addr) {
    && packets != [] && packets[0] == IpPacket(dst, 1, 0)
    && forall k | 0 < k < |packets| :: packets[k] == IpPacket(dst, 0, 0)
  }

  // The mark of the first packet is in no packet that the rebuilt one is made of.
  lemma MarkLost(packets: seq<Packet>, blockSize: nat, dst: Addr, wrong: Packet)
    requires IsIp(dst) && MarkedFirst(packets, dst) && 0 < blockSize < |packets|
    requires Block(packets, blockSize, 1) != [] && Mixed(wrong, packets[1..blockSize], Block(packets, blockSize, 1), 0)
    ensures wrong != packets[0]
  {
    hide IpPacket, XorAt;
    var k, block := SourceEnd(dst), Block(packets, blockSize, 1);
    IpPacketShape(dst, 0, 0);
    IpPacketShape(dst, 1, 0);
    SmallTimes(blockSize);
    SecondBlock(packets, blockSize);
    ZeroBytes(packets[1..blockSize], k);
    ZeroBytes(block, k);
  }

  lemma ReadsAsParity(dst: Addr)
    requires IsIp(dst)
    ensures var p := LikeParity(dst);
      && 0 < CountField(p) && HeaderSize(CountField(p)) <= |p| && LengthField(p, 0) == 0
  {
    IpPacketShape(dst, 0, 200);
  }

  lemma WitnessWithout(config: Config, packets: seq<Packet>, received: Received, dst: Addr)
    requires config.Valid() && config.redundancyPercent == 0 && config.blockSize < |packets| && IsIp(dst)
    requires forall k | 0 <= k < |packets| :: packets[k] == LikeParity(dst)
    requires received == Receive(packets, [0])
    ensures RecoverAt(received, config.blockSize, 0) == Some([])
  {
    hide LikeParity, RecoverAt, RecoverFrom, Available, Rebuild, CountField, LengthField;
    var r := ParityIndex(|packets|, config.blockSize, 0);
    DataTakenForParity(|packets|, config.blockSize);
    FirstSlot(received, config.blockSize, r);
    ReadsAsParity(dst);
    FieldsRead(received, 0, config.blockSize, r, 0, LikeParity(dst));
    RebuildLength(Available(received, 0, config.blockSize, 0), LikeParity(dst),
                  HeaderSize(CountField(LikeParity(dst))), 0);
  }

  lemma WrongSlot(config: Config, packets: seq<Packet>, received: Received, wrong: Packet)
    requires config.Valid() && received == Receive(Encoded(config, packets), [0]) && 0 < |packets|
    requires 0 < |received| && RecoverAt(received, config.blockSize, 0) == Some(wrong) && wrong != packets[0]
    ensures Decoded(received, [0], config.blockSize)[0] == Some(wrong) && !NotWrong(config, packets, [0])
  {
    SingleLossSlot(received, config.blockSize, 0);
  }

  lemma ReceivedLength(group: seq<Packet>, lost: seq<nat>)
    ensures |Receive(group, lost)| == |group|
  {
  }

  lemma IpPacketNotEmpty(dst: Addr)
    requires IsIp(dst)
    ensures LikeParity(dst) != []
  {
    IpPacketShape(dst, 0, 200);
  }

  lemma OtherSizeWrong(config: Config, n: nat, dst: Addr)
    requires config.Valid() && !SafeSize(config, n) && IsIp(dst)
    ensures config.blockSize < n && !NotWrong(config, Witness(config, n, dst), [0])
  {
    hide Receive, RecoverAt, Decoded, NotWrong, IpPacket, LikeParity, Block, Mixed;
    var packets, wrong := Witness(config, n, dst), [];
    var received := Receive(Encoded(config, packets), [0]);
    if config.redundancyPercent > 0 {
      QuotientUnique(config.blockSize, config.blockSize, 1);
      WitnessForClient(config, n, dst);
      ForClientFromTun(packets, dst);
      wrong := SecondParityRead(config, packets, received, Block(packets, config.blockSize, 1));
      MarkLost(packets, config.blockSize, dst, wrong);
    } else {
      WitnessWithout(config, packets, received, dst);
      ReceivedLength(packets, [0]);
      IpPacketNotEmpty(dst);
    }
    WrongSlot(config, packets, received, wrong);
  }

  lemma OneDistinct(i: nat)
    ensures Distinct([i])
  {
  }

  lemma WitnessLength(config: Config, n: nat, dst: Addr)
    ensures |Witness(config, n, dst)| == n
  {
  }

  // For every configuration and every number of packets: Decode never returns a packet that
  // was not sent, whatever is lost, if and only if the number is safe. The packets of one
  // client, whatever its address, and the loss of one of them are already enough to tell.
  lemma NeverWrongExactly(config: Config, n: nat, dst: Addr)
    requires config.Valid() && IsIp(dst)
    ensures NeverWrong(config, n) <==> SafeSize(config, n)
    ensures NeverWrongFor(config, n, dst) <==> SafeSize(config, n)
  {
    hide NotWrong, Witness, SafeSize, Distinct;
    if SafeSize(config, n) {
      forall packets, lost | |packets| == n && FromTun(packets) && Distinct(lost)
        ensures NotWrong(config, packets, lost)
      {
        SafeSizeNotWrong(config, packets, lost);
      }
      forall packets, i: nat | |packets| == n && ForClient(packets, dst) && i < n
        ensures NotWrong(config, packets, [i])
      {
        ForClientFromTun(packets, dst);
        OneDistinct(i);
        SafeSizeNotWrong(config, packets, [i]);
      }
    } else {
      OtherSizeWrong(config, n, dst);
      WitnessForClient(config, n, dst);
      WitnessLength(config, n, dst);
      ForClientFromTun(Witness(config, n, dst), dst);
      OneDistinct(0);
    }
  }

  // Every unsafe size is reached, by packets for one client and with failures that a
  // connection can have: some run ends with a group of that many packets on the wire for
  // which one loss makes Decode return a wrong packet.
  lemma WrongGroupReachable(encoder: XOREncoder, n: nat, dst: Addr)
    returns (before: seq<Event>, events: seq<Event>, packets: seq<Packet>)
    requires encoder.config.Valid() && !SafeSize(encoder.config, n) && IsIp(dst)
    ensures |packets| == n && ForClient(Accepted(before), dst) && ForClient(packets, dst)
    ensures Accepted(before + events) == Accepted(before) + packets && Late(encoder, before + events)
    ensures Run(Some(encoder), before + events).wire ==
            Run(Some(encoder), before).wire + Encoded(encoder.config, packets)
    ensures !NotWrong(encoder.config, packets, [0])
  {
    hide Run, Late, Encoded, NotWrong, Witness, SafeSize, IpPacket, Destination;
    packets := Witness(encoder.config, n, dst);
    OtherSizeWrong(encoder.config, n, dst);
    WitnessForClient(encoder.config, n, dst);
    WitnessLength(encoder.config, n, dst);
    var m := SteadyFills(encoder, IpPacket(dst, 0, 0));
    before := Steady(IpPacket(dst, 0, 0), m);
    SteadyAccepted(IpPacket(dst, 0, 0), m);
    IpPacketShape(dst, 0, 0);
    events := AnyGroupIsReachable(encoder, before, packets);
  }

  // ------------------------------------------------------------- three packets

  lemma ThreeEvents(encoder: XOREncoder, before: seq<Event>, a: Packet, b: Packet, c: Packet)
    requires encoder.config.Valid() && encoder.config.blockSize == 2 && Primed(encoder, before)
    ensures var events := before + [Event(a, None)] + [Event(b, Some(0))] + [Event(c, None)];
      && Late(encoder, events)
      && Run(Some(encoder), events).wire == Run(Some(encoder), before).wire + Encoded(encoder.config, [a, b, c])
  {
    hide Run, Late, Encoded;
    var s, first, second := Run(Some(encoder), before), before + [Event(a, None)],
        before + [Event(a, None)] + [Event(b, Some(0))];
    RunStep(Some(encoder), before, Event(a, None));
    LateStep(encoder, before, Event(a, None));
    RunStep(Some(encoder), first, Event(b, Some(0)));
    OnlyBuffered(encoder, s.(buffer := [a]), b);
    LateStep(encoder, first, Event(b, Some(0)));
    RunStep(Some(encoder), second, Event(c, None));
    SentWhole(encoder, s.(buffer := [a, b]), c);
    LateStep(encoder, second, Event(c, None));
    assert [] + [a] == [a] && [a] + [b] == [a, b] && [a, b] + [c] == [a, b, c];
  }

  lemma OneLeft(packets: seq<Packet>)
    requires |packets| == 3
    ensures Block(packets, 2, 1) == [packets[2]]
  {
    SmallTimes(2);
  }

  lemma XorOfOne(packet: Packet, k: nat)
    ensures XorAt([packet], k) == ByteAt(packet, k)
  {
    assert [packet][..0] == [];
  }

  // Blocks of two; the second packet's send fails, so the third goes out in a group of three.
  // When the first packet is lost, Decode returns the XOR of the other two instead, as long
  // as the third.
  lemma ShortBlockGivesWrongPacket(encoder: XOREncoder, before: seq<Event>, a: Packet, b: Packet, c: Packet)
    returns (wrong: Packet)
    requires encoder.config.Valid() && encoder.config.redundancyPercent > 0 && encoder.config.blockSize == 2
    requires FromTun([a, b, c]) && Primed(encoder, before)
    ensures var events := before + [Event(a, None)] + [Event(b, Some(0))] + [Event(c, None)];
      var group := Encoded(encoder.config, [a, b, c]);
      && Late(encoder, events) && Run(Some(encoder), events).wire == Run(Some(encoder), before).wire + group
      && 0 < |group| && Decoded(Receive(group, [0]), [0], 2)[0] == Some(wrong)
    ensures |wrong| == |c| && forall k: nat | k < |c| :: wrong[k] == ByteAt(b, k) ^ c[k]
  {
    hide Run, Late, Encoded, RecoverAt, Decoded, Receive;
    var packets := [a, b, c];
    ThreeEvents(encoder, before, a, b, c);
    QuotientIsDivision(3, 2);
    var received := Receive(Encoded(encoder.config, packets), [0]);
    wrong := SecondParityRead(encoder.config, packets, received, Block(packets, 2, 1));
    ReceivedLength(Encoded(encoder.config, packets), [0]);
    SingleLossSlot(received, 2, 0);
    OneLeft(packets);
    assert packets[1..2] == [b];
    forall k: nat | k < |c|
      ensures wrong[k] == ByteAt(b, k) ^ c[k]
    {
      XorOfOne(b, k);
      XorOfOne(c, k);
    }
  }

  // -------------------------------------------------------------- failed sends

  lemma NewestFromTun(older: seq<Packet>, newer: seq<Packet>)
    requires FromTun(older + newer)
    ensures FromTun(newer)
  {
    forall i | 0 <= i < |newer|
      ensures newer[i] == (older + newer)[|older| + i]
    {
    }
  }

  lemma NextBufferFromTun(encoder: XOREncoder, events: seq<Event>, packet: Packet)
    requires encoder.config.Valid() && FromTun(Accepted(events) + [packet])
    ensures FromTun(NextBuffer(encoder, events, packet))
  {
    hide Accepted, Run, FromTun, Subsequence;
    var accepted, buffer := Accepted(events), Run(Some(encoder), events).buffer;
    AtLeastOnce(Some(encoder), events);
    var flushed := accepted[..|accepted| - |buffer|];
    assert accepted == flushed + buffer;
    assert accepted + [packet] == flushed + (buffer + [packet]);
    NewestFromTun(flushed, buffer + [packet]);
  }

  lemma DividesMore(d: nat, x: nat)
    requires 0 < d
    ensures Divides(d, d + x) <==> Divides(d, x)
  {
    assert Quotient(d + x, d) == Quotient(x, d) + 1;
  }

  // A group is emitted once a block's worth of packets is there. After f failed sends it
  // holds f packets more than a block, and both what the code is for, recovering any single
  // loss, and never handing out a wrong packet then depend on f alone.
  lemma FailedSendsDecide(encoder: XOREncoder, events: seq<Event>, packet: Packet)
    requires encoder.config.Valid() && encoder.config.redundancyPercent > 0
    requires FromTun(Accepted(events) + [packet])
    requires |NextBuffer(encoder, events, packet)| >= encoder.config.blockSize
    ensures var buffer, failed := NextBuffer(encoder, events, packet), FailedSends(encoder, events);
      && |buffer| == encoder.config.blockSize + failed
      && (RecoversEverySingleLoss(encoder.config, buffer) <==> Divides(encoder.config.blockSize, failed))
      && (NeverWrong(encoder.config, |buffer|) <==> Divides(encoder.config.blockSize, failed))
      && (forall dst | IsIp(dst) ::
           NeverWrongFor(encoder.config, |buffer|, dst) <==> Divides(encoder.config.blockSize, failed))
  {
    hide Run, Accepted, FailedSends, FromTun, Blocks, NoEmptyBlock, LengthsFit, IpPacket;
    hide NeverWrong, NeverWrongFor, RecoversEverySingleLoss;
    var buffer := NextBuffer(encoder, events, packet);
    BufferLength(encoder, events);
    NextBufferFromTun(encoder, events, packet);
    TunBlocks(buffer, encoder.config.blockSize);
    SingleLossRecovery(encoder.config, buffer);
    NeverWrongExactly(encoder.config, |buffer|, Addr(Zeros(4)));
    forall dst | IsIp(dst)
      ensures NeverWrongFor(encoder.config, |buffer|, dst) <==> SafeSize(encoder.config, |buffer|)
    {
      NeverWrongExactly(encoder.config, |buffer|, dst);
    }
    DividesMore(encoder.config.blockSize, FailedSends(encoder, events));
  }

  // --------------------------------------------------------------- cut packets

  function CutAll(group: seq<Packet>, size: nat): seq<Packet> {
    seq(|group|, k requires 0 <= k < |group| => Cut(group[k], size))
  }

  lemma CutPadded(packet: Packet, size: nat, n: nat)
    ensures ByteAt(Cut(packet, size), n) == if n < size then ByteAt(packet, n) else 0
  {
  }

  lemma SameFields(cut: Packet, parity: Packet, j: nat)
    requires 0 < |cut| <= |parity| && cut == parity[..|cut|]
    ensures CountField(cut) == CountField(parity)
    ensures HeaderSize(j + 1) <= |cut| ==> LengthField(cut, j) == LengthField(parity, j)
  {
  }

  lemma CutHeader(block: seq<Packet>, j: nat, parity: Packet, size: nat)
    requires j < |block| <= 255 && Parity(block) == Some(parity) && 0 < size
    ensures 0 < |Cut(parity, size)| <= size && CountField(Cut(parity, size)) == |block|
    ensures HeaderSize(|block|) <= size ==>
      HeaderSize(|block|) <= |Cut(parity, size)| && LengthField(Cut(parity, size), j) == |block[j]| % 65536
  {
    hide Parity, CountField, LengthField;
    HeaderFields(block, j);
    SameFields(Cut(parity, size), parity, j);
  }

  lemma XorZero(x: Byte, y: Byte)
    ensures x ^ 0 == x
    ensures x == x ^ y <==> y == 0
  {
  }

  // A byte whose parity was cut off is rebuilt as the XOR of the others.
  lemma CutByte(block: seq<Packet>, j: nat, others: seq<Packet>, parity: Packet, size: nat, k: nat, cut: Byte)
    requires j < |block| && multiset(others) == multiset(Without(block, j))
    requires Parity(block) == Some(parity) && k < |block[j]|
    requires cut == ByteAt(Cut(parity, size), HeaderSize(|block|) + k)
    ensures HeaderSize(|block|) + k < size ==> XorAt(others, k) ^ cut == block[j][k]
    ensures HeaderSize(|block|) + k >= size ==> XorAt(others, k) ^ cut == XorAt(others, k)
  {
    hide Cut, ByteAt, XorAt, Parity, Without;
    CutPadded(parity, size, HeaderSize(|block|) + k);
    if HeaderSize(|block|) + k < size {
      InverseByte(block, j, others, k);
    } else {
      XorZero(XorAt(others, k), 0);
    }
  }

  lemma OthersAlone(block: seq<Packet>, j: nat, others: seq<Packet>, k: nat)
    requires j < |block| && multiset(others) == multiset(Without(block, j)) && k < |block[j]|
    ensures XorAt(others, k) == block[j][k] <==> XorAt(block, k) == 0
  {
    hide XorAt, Without;
    InverseXor(block, j, others, k);
    XorZero(XorAt(others, k), XorAt(block, k));
  }

  /** What is rebuilt of a packet when only the parity of its first bytes arrived. */
  predicate RebuiltTo(rebuilt: Packet, packet: Packet, others: seq<Packet>, arrived: int) {
    && |rebuilt| == |packet|
    && forall k: nat | k < |packet| :: rebuilt[k] == if k < arrived then packet[k] else XorAt(others, k)
  }

  /** The block's bytes beyond the ones whose parity arrived XOR to zero. */
  predicate ZeroBeyond(block: seq<Packet>, j: nat, arrived: int)
    requires j < |block|
  {
    forall k: nat | arrived <= k < |block[j]| :: XorAt(block, k) == 0
  }

  lemma SameWhenZero(rebuilt: Packet, block: seq<Packet>, j: nat, others: seq<Packet>, arrived: int)
    requires j < |block| && RebuiltTo(rebuilt, block[j], others, arrived)
    requires forall k: nat | arrived <= k < |block[j]| :: XorAt(others, k) == block[j][k] <==> XorAt(block, k) == 0
    ensures rebuilt == block[j] <==> ZeroBeyond(block, j, arrived)
  {
    hide XorAt;
    if rebuilt == block[j] {
      forall k: nat | arrived <= k < |block[j]|
        ensures XorAt(block, k) == 0
      {
        assert rebuilt[k] == XorAt(others, k);
      }
    }
  }

  // From a parity packet cut to size bytes, a receiver rebuilds the right number of bytes:
  // the original ones as far as the parity payload reaches, and the XOR of the other packets
  // beyond. That is the original packet exactly when the parity bytes cut off were zero.
  lemma CutRebuild(block: seq<Packet>, j: nat, others: seq<Packet>, parity: Packet, size: nat, h: nat, rebuilt: Packet)
    requires j < |block| <= 255 && multiset(others) == multiset(Without(block, j)) && |block[j]| < 65536
    requires Parity(block) == Some(parity) && h == HeaderSize(|block|) <= size && h <= |Cut(parity, size)|
    requires rebuilt == Rebuild(others, Cut(parity, size), h, LengthField(Cut(parity, size), j))
    ensures RebuiltTo(rebuilt, block[j], others, size - h)
    ensures rebuilt == block[j] <==> ZeroBeyond(block, j, size - h)
  {
    hide Rebuild, XorAt, ByteAt, Cut, Parity, Without, LengthField, CountField;
    CutHeader(block, j, parity, size);
    SmallField(|block[j]|, LengthField(Cut(parity, size), j));
    RebuildLength(others, Cut(parity, size), h, |block[j]|);
    forall k: nat | k < |block[j]|
      ensures rebuilt[k] == if k < size - h then block[j][k] else XorAt(others, k)
      ensures size - h <= k ==> (XorAt(others, k) == block[j][k] <==> XorAt(block, k) == 0)
    {
      CutByte(block, j, others, parity, size, k, ByteAt(Cut(parity, size), h + k));
      OthersAlone(block, j, others, k);
      RebuildByte(others, Cut(parity, size), h, |block[j]|, k);
    }
    SameWhenZero(rebuilt, block, j, others, size - h);
  }

  lemma CutArrives(config: Config, block: seq<Packet>, i: nat, size: nat, received: Received) returns (parity: Packet)
    requires config.Valid() && config.redundancyPercent > 0 && FullBlock(block, config.blockSize)
    requires i < |block| && forall k | 0 <= k < |block| :: |block[k]| <= size
    requires received == Receive(CutAll(Encoded(config, block), size), [i])
    ensures Parity(block) == Some(parity)
    ensures |received| == |block| + 1 && received[|block|] == Some(Cut(parity, size))
    ensures BlockSlots(received, 0, block, i) && received[i] == None
  {
    FullBlockDecodable(config, block);
    LayoutOf(config, block);
    BlockOf(block, config.blockSize, 0);
    var group := Encoded(config, block);
    assert Block(block, config.blockSize, 0) == block;
    parity := Parity(block).value;
    assert group[|block| + 0] == parity;
    forall k | 0 <= k < |block|
      ensures Cut(group[k], size) == block[k]
    {
      assert group[k] == group[..|block|][k];
    }
  }

  lemma OnlyBlock(received: Received, block: seq<Packet>, i: nat)
    requires i < |block| && |received| == |block| + 1 && BlockSlots(received, 0, block, i)
    ensures RecoverAt(received, |block|, i) == RecoverFrom(received, 0, |block|, |block|, i)
    ensures Available(received, 0, |block|, i) == Without(block, i)
  {
    SmallTimes(|block|);
    SmallTimes(|block| + 1);
    QuotientUnique(|block| + 1, |block| + 1, 1);
    AvailableAllBut(received, 0, block, i);
  }

  // A full block read through a buffer that its data packets fit and its parity packet need
  // not: what Decode makes of the loss of packet i.
  lemma CutGroup(config: Config, block: seq<Packet>, i: nat, size: nat, received: Received, decoded: Option<Packet>)
    requires config.Valid() && config.redundancyPercent > 0 && FullBlock(block, config.blockSize)
    requires i < |block| && forall k | 0 <= k < |block| :: |block[k]| <= size
    requires received == Receive(CutAll(Encoded(config, block), size), [i]) && i < |received|
    requires decoded == Decoded(received, [i], config.blockSize)[i]
    ensures var h := HeaderSize(config.blockSize);
      && (decoded.Some? <==> h <= size)
      && (decoded.Some? ==> RebuiltTo(decoded.value, block[i], Without(block, i), size - h))
      && (decoded == Some(block[i]) <==> h <= size && ZeroBeyond(block, i, size - h))
  {
    hide Decoded, Receive, Encoded, Parity, RecoverAt, RecoverFrom, Available, Rebuild, Without, RebuiltTo, ZeroBeyond;
    hide Cut, CutAll, CountField, LengthField;
    var parity := CutArrives(config, block, i, size, received);
    SingleLossSlot(received, config.blockSize, i);
    OnlyBlock(received, block, i);
    assert 0 < |block[i]| <= size;
    CutHeader(block, i, parity, size);
    FieldsRead(received, 0, |block|, |block|, i, Cut(parity, size));
    if HeaderSize(|block|) <= size {
      CutRebuild(block, i, Without(block, i), parity, size, HeaderSize(|block|), decoded.value);
    }
  }

  /** n packets to dst of the longest kind the TUN reader returns. */
  function Longest(n: nat, dst: Addr): seq<Packet>
    requires IsIp(dst)
  {
    seq(n, _ => IpPacket(dst, 0, TUN_BUFFER - SourceEnd(dst) - 1 - |dst.bytes|))
  }

  lemma LongestIsFull(n: nat, dst: Addr)
    requires 0 < n && IsIp(dst)
    ensures ForClient(Longest(n, dst), dst) && FullBlock(Longest(n, dst), n) && MaxLen(Longest(n, dst)) == 2048
    ensures forall i | 0 <= i < |Longest(n, dst)| :: |Longest(n, dst)[i]| == 2048
  {
    hide IpPacket, Destination;
    IpPacketShape(dst, 0, TUN_BUFFER - SourceEnd(dst) - 1 - |dst.bytes|);
    MaxLenBounds(Longest(n, dst));
    assert |Longest(n, dst)[0]| == TUN_BUFFER;
  }

  // Every configuration has, for every client, a full block of packets that a reader with the
  // same buffer cuts.
  lemma LongestBlockIsCut(config: Config, dst: Addr)
    requires config.Valid() && config.redundancyPercent > 0 && IsIp(dst)
    ensures var block := Longest(config.blockSize, dst);
      var group := Encoded(config, block);
      && ForClient(block, dst) && FullBlock(block, config.blockSize)
      && (forall i | 0 <= i < |block| :: |block[i]| == 2048)
      && CutAll(group, 2048) != group
  {
    hide Encoded, MaxLen, FullBlock, Longest, ForClient;
    var block := Longest(config.blockSize, dst);
    LongestIsFull(config.blockSize, dst);
    GroupFitsReader(config, block, TUN_BUFFER);
    var group := Encoded(config, block);
    var i :| 0 <= i < |group| && |group[i]| > TUN_BUFFER;
    assert |CutAll(group, TUN_BUFFER)[i]| == TUN_BUFFER;
  }
}
