/**
 What the decoder makes of an encoded group with losses: exactly when it works, and for
 which losses (common/fec/xor_fec.go, Encode followed by Decode).
 */
module XorRecovery {

  import opened Arithmetic
  import opened Bytes
  import opened FecConfig
  import opened Wrappers
  import opened XorBlock
  import opened XorDecoder
  import opened XorEncoder

  /** The group as it arrives when the packets in the listed slots are lost. */
  function Receive(group: seq<Packet>, lost: seq<nat>): Received {
    seq(|group|, i requires 0 <= i < |group| => if i in lost then None else Some(group[i]))
  }

  /** Packets whose length fits the two bytes the parity header has for it. */
  predicate LengthsFit(packets: seq<Packet>) {
    forall i | 0 <= i < |packets| :: |packets[i]| < 65536
  }

  /** The groups for which encoder and decoder agree on the layout. */
  predicate Decodable(config: Config, packets: seq<Packet>)
    requires config.Valid()
  {
    && config.redundancyPercent > 0
    && Divides(config.blockSize, |packets|)
    && NoEmptyBlock(Blocks(packets, config.blockSize))
    && LengthsFit(packets)
  }

  predicate Distinct(s: seq<nat>) {
    forall i, j | 0 <= i < j < |s| :: s[i] != s[j]
  }

  /** i is listed and no other listed loss is in its block. */
  predicate AloneInBlock(lost: seq<nat>, blockSize: nat, i: nat)
    requires 0 < blockSize
  {
    i in lost && forall j | j in lost && Quotient(j, blockSize) == Quotient(i, blockSize) :: j == i
  }

  // ------------------------------------------------------------ index alignment

  // The decoder's parity index is the encoder's exactly when the block size divides the
  // number of packets; otherwise it is one too far, the parity of the next block.
  lemma IndexAlignment(n: nat, blockSize: nat, b: nat)
    requires 0 < blockSize
    ensures var total := n + NumBlocks(n, blockSize);
      && (Divides(blockSize, n) ==> ParityIndex(total, blockSize, b) == n + b)
      && (!Divides(blockSize, n) ==> ParityIndex(total, blockSize, b) == n + b + 1)
      && (ParityIndex(total, blockSize, b) == n + b <==> Divides(blockSize, n))
  {
    NumBlocksBounds(n, blockSize);
    var m := NumBlocks(n, blockSize);
    if Divides(blockSize, n) {
      TimesPlusOne(m, blockSize);
      QuotientUnique(n + m, blockSize + 1, m);
    } else {
      TimesPlusOne(m - 1, blockSize);
      QuotientUnique(n + m, blockSize + 1, m - 1);
    }
  }

  // The same in the operators of the code: T - T/(B+1) is n or n+1.
  lemma DataCountGuess(n: nat, blockSize: nat)
    requires 0 < blockSize
    ensures var total := n + (n + blockSize - 1) / blockSize;
      total - total / (blockSize + 1) == if n % blockSize == 0 then n else n + 1
  {
    var total := n + NumBlocks(n, blockSize);
    QuotientIsDivision(n + blockSize - 1, blockSize);
    QuotientIsDivision(total, blockSize + 1);
    QuotientIsDivision(n, blockSize);
    IndexAlignment(n, blockSize, 0);
  }

  // Unless every block is full and has its parity, the last block's parity is looked for
  // past the end of the group.
  lemma LastParityPastEnd(n: nat, parities: nat, blockSize: nat)
    requires 0 < blockSize && 0 < n && parities <= NumBlocks(n, blockSize)
    requires parities < NumBlocks(n, blockSize) || !Divides(blockSize, n)
    ensures Quotient(n - 1, blockSize) == NumBlocks(n, blockSize) - 1
    ensures n + parities <= ParityIndex(n + parities, blockSize, Quotient(n - 1, blockSize))
  {
    NumBlocksBounds(n, blockSize);
    var m, total := NumBlocks(n, blockSize), n + parities;
    TimesPlusOne(m, blockSize);
    QuotientBounds(total, blockSize + 1);
    TimesMonotone(m, Quotient(total, blockSize + 1), blockSize + 1);
    QuotientUnique(n - 1, blockSize, m - 1);
  }

  lemma LastParityInside(n: nat, parities: nat, blockSize: nat)
    requires 0 < blockSize && 0 < n && parities <= NumBlocks(n, blockSize)
    requires ParityIndex(n + parities, blockSize, Quotient(n - 1, blockSize)) < n + parities
    ensures parities == NumBlocks(n, blockSize) && Divides(blockSize, n)
  {
    if parities < NumBlocks(n, blockSize) || !Divides(blockSize, n) {
      LastParityPastEnd(n, parities, blockSize);
    }
  }

  // ----------------------------------------------------------------- one block

  /** The packets of a block arrived in the slots from lo on, except the one in place skip. */
  predicate BlockSlots(received: Received, lo: nat, block: seq<Packet>, skip: nat) {
    && lo + |block| <= |received|
    && forall k {:trigger block[k]} | 0 <= k < |block| && k != skip :: received[lo + k] == Some(block[k])
  }

  lemma AvailableStep(received: Received, lo: nat, block: seq<Packet>, skip: nat)
    requires block != [] && BlockSlots(received, lo, block, skip) && skip != |block| - 1
    ensures BlockSlots(received, lo, block[..|block| - 1], skip)
    ensures Available(received, lo, lo + |block|, lo + skip) ==
            Available(received, lo, lo + |block| - 1, lo + skip) + [block[|block| - 1]]
  {
    assert received[lo + |block| - 1] == Some(block[|block| - 1]);
  }

  lemma {:induction false} AvailableWhole(received: Received, lo: nat, block: seq<Packet>, skip: nat)
    requires |block| <= skip && BlockSlots(received, lo, block, skip)
    ensures Available(received, lo, lo + |block|, lo + skip) == block
  {
    if block != [] {
      AvailableStep(received, lo, block, skip);
      AvailableWhole(received, lo, block[..|block| - 1], skip);
    }
  }

  lemma WithoutAppend<T>(s: seq<T>, x: T, j: nat)
    requires j < |s|
    ensures Without(s + [x], j) == Without(s, j) + [x]
  {
    assert (s + [x])[j + 1..] == s[j + 1..] + [x];
  }

  // What arrived of the block is all but packet skip.
  lemma {:induction false} AvailableAllBut(received: Received, lo: nat, block: seq<Packet>, skip: nat)
    requires skip < |block| && BlockSlots(received, lo, block, skip)
    ensures Available(received, lo, lo + |block|, lo + skip) == Without(block, skip)
  {
    var front, last := block[..|block| - 1], block[|block| - 1];
    if skip == |front| {
      AvailableWhole(received, lo, front, skip);
    } else {
      assert block == front + [last];
      AvailableStep(received, lo, block, skip);
      AvailableAllBut(received, lo, front, skip);
      WithoutAppend(front, last, skip);
    }
  }

  // Where packet i of an evenly cut stream sits.
  lemma BlockOf(packets: seq<Packet>, blockSize: nat, i: nat)
    requires 0 < blockSize && i < |packets| && Divides(blockSize, |packets|)
    ensures var lo := Times(Quotient(i, blockSize), blockSize);
      && lo <= i < lo + blockSize <= |packets|
      && Quotient(i, blockSize) < NumBlocks(|packets|, blockSize)
      && Block(packets, blockSize, Quotient(i, blockSize)) == packets[lo..lo + blockSize]
  {
    NumBlocksBounds(|packets|, blockSize);
    QuotientBounds(i, blockSize);
    var m := NumBlocks(|packets|, blockSize);
    TimesMonotone(m, Quotient(i, blockSize), blockSize);
    TimesMonotone(Quotient(i, blockSize), m, blockSize);
  }

  lemma LayoutOf(config: Config, packets: seq<Packet>)
    requires config.Valid() && config.redundancyPercent > 0 && packets != []
    requires NoEmptyBlock(Blocks(packets, config.blockSize))
    ensures var m := NumBlocks(|packets|, config.blockSize);
      var group := Encoded(config, packets);
      && |group| == |packets| + m
      && group[..|packets|] == packets
      && forall b: nat :: b < m ==> Some(group[|packets| + b]) == Parity(Block(packets, config.blockSize, b))
  {
    ParitiesLayout(Blocks(packets, config.blockSize));
  }

  lemma RebuildFromBlock(block: seq<Packet>, j: nat, others: seq<Packet>, parity: Packet)
    requires j < |block| <= 255 && others == Without(block, j) && |block[j]| < 65536 && Parity(block) == Some(parity)
    ensures 1 <= |parity| && CountField(parity) == |block| && HeaderSize(|block|) <= |parity|
    ensures Rebuild(others, parity, HeaderSize(|block|), LengthField(parity, j)) == block[j]
  {
    hide Parity, Rebuild, Without, CountField, LengthField;
    HeaderFields(block, j);
    BlockInverse(block, j, others);
  }

  /** i is the only listed loss among slots lo..hi. */
  predicate AloneIn(lost: seq<nat>, lo: nat, hi: nat, i: nat) {
    lo <= i < hi && i in lost && forall j | j in lost && lo <= j < hi :: j == i
  }

  lemma AloneInSlots(lost: seq<nat>, blockSize: nat, i: nat, lo: nat)
    requires 0 < blockSize && AloneInBlock(lost, blockSize, i)
    requires lo == Times(Quotient(i, blockSize), blockSize)
    ensures AloneIn(lost, lo, lo + blockSize, i)
  {
    QuotientBounds(i, blockSize);
    forall j | j in lost && lo <= j < lo + blockSize
      ensures j == i
    {
      QuotientUnique(j, blockSize, Quotient(i, blockSize));
    }
  }

  /** The data packets arrived, except the listed ones. */
  predicate DataSlots(received: Received, packets: seq<Packet>, lost: seq<nat>)
    requires |packets| <= |received|
  {
    forall k {:trigger received[k]} | 0 <= k < |packets| :: received[k] == if k in lost then None else Some(packets[k])
  }

  // The packet missing from a block is rebuilt from the others and the parity packet in slot r.
  lemma RecoverInBlock(received: Received, lo: nat, block: seq<Packet>, skip: nat, r: nat, parity: Packet)
    requires skip < |block| <= 255 && |block[skip]| < 65536 && BlockSlots(received, lo, block, skip)
    requires r < |received| && received[r] == Some(parity) && Parity(block) == Some(parity)
    ensures RecoverFrom(received, lo, lo + |block|, r, lo + skip) == Some(block[skip])
  {
    AvailableAllBut(received, lo, block, skip);
    RebuildFromBlock(block, skip, Available(received, lo, lo + |block|, lo + skip), parity);
  }

  lemma SlotsOfBlock(received: Received, packets: seq<Packet>, lost: seq<nat>, i: nat, lo: nat, hi: nat)
    requires |packets| <= |received| && DataSlots(received, packets, lost)
    requires hi <= |packets| && AloneIn(lost, lo, hi, i)
    ensures BlockSlots(received, lo, packets[lo..hi], i - lo)
  {
  }

  /** What arrives of a group: its data packets and one parity packet per block, except the lost ones. */
  predicate Arrived(received: Received, packets: seq<Packet>, lost: seq<nat>, blockSize: nat)
    requires 0 < blockSize
  {
    && |received| == |packets| + NumBlocks(|packets|, blockSize)
    && DataSlots(received, packets, lost)
    && forall b: nat {:trigger Block(packets, blockSize, b)} | b < NumBlocks(|packets|, blockSize) ::
         received[|packets| + b] == if |packets| + b in lost then None else Parity(Block(packets, blockSize, b))
  }

  lemma GroupArrives(config: Config, packets: seq<Packet>, lost: seq<nat>, group: seq<Packet>, received: Received)
    requires config.Valid() && config.redundancyPercent > 0 && packets != []
    requires NoEmptyBlock(Blocks(packets, config.blockSize))
    requires group == Encoded(config, packets) && received == Receive(group, lost)
    ensures Arrived(received, packets, lost, config.blockSize)
  {
    LayoutOf(config, packets);
    forall k | 0 <= k < |packets|
      ensures group[k] == packets[k]
    {
      assert group[k] == group[..|packets|][k];
    }
  }

  // In an evenly cut group, Decode looks in the right places.
  lemma RecoverAtPlaces(received: Received, n: nat, blockSize: nat, i: nat, b: nat, lo: nat)
    requires 0 < blockSize && b == Quotient(i, blockSize) && lo == Times(b, blockSize) && lo + blockSize <= n
    requires |received| == n + NumBlocks(n, blockSize) && Divides(blockSize, n)
    ensures lo <= i
    ensures RecoverAt(received, blockSize, i) == RecoverFrom(received, lo, lo + blockSize, n + b, i)
  {
    QuotientBounds(i, blockSize);
    IndexAlignment(n, blockSize, b);
  }

  lemma ParityArrived(received: Received, packets: seq<Packet>, lost: seq<nat>, blockSize: nat, b: nat,
                      block: seq<Packet>)
    returns (parity: Packet)
    requires 0 < blockSize && Arrived(received, packets, lost, blockSize)
    requires b < NumBlocks(|packets|, blockSize) && NoEmptyBlock(Blocks(packets, blockSize))
    requires block == Block(packets, blockSize, b) && |packets| + b !in lost
    ensures |packets| + b < |received| && received[|packets| + b] == Some(parity) && Parity(block) == Some(parity)
  {
    assert Blocks(packets, blockSize)[b] == block;
    parity := Parity(block).value;
  }

  // A packet that is the only loss of its block is rebuilt if its parity arrived.
  lemma RecoverLone(received: Received, n: nat, i: nat, b: nat, lo: nat, block: seq<Packet>, parity: Packet)
    requires 0 < |block| <= 255 && Divides(|block|, n) && |received| == n + NumBlocks(n, |block|)
    requires b == Quotient(i, |block|) && lo == Times(b, |block|) && lo <= i < lo + |block| <= n
    requires BlockSlots(received, lo, block, i - lo) && |block[i - lo]| < 65536
    requires n + b < |received| && received[n + b] == Some(parity) && Parity(block) == Some(parity)
    ensures RecoverAt(received, |block|, i) == Some(block[i - lo])
  {
    hide *;
    RecoverInBlock(received, lo, block, i - lo, n + b, parity);
    RecoverAtPlaces(received, n, |block|, i, b, lo);
  }

  lemma RecoverData(received: Received, packets: seq<Packet>, lost: seq<nat>, blockSize: nat, i: nat, b: nat,
                    parity: Packet)
    requires 0 < blockSize <= 255 && Divides(blockSize, |packets|)
    requires |received| == |packets| + NumBlocks(|packets|, blockSize) && DataSlots(received, packets, lost)
    requires i < |packets| && |packets[i]| < 65536 && AloneInBlock(lost, blockSize, i) && b == Quotient(i, blockSize)
    requires |packets| + b < |received| && received[|packets| + b] == Some(parity)
    requires Parity(Block(packets, blockSize, b)) == Some(parity)
    ensures RecoverAt(received, blockSize, i) == Some(packets[i])
  {
    hide Parity, RecoverAt, Block, DataSlots, AloneInBlock, AloneIn, BlockSlots;
    BlockOf(packets, blockSize, i);
    var lo := Times(b, blockSize);
    AloneInSlots(lost, blockSize, i, lo);
    SlotsOfBlock(received, packets, lost, i, lo, lo + blockSize);
    RecoverLone(received, |packets|, i, b, lo, packets[lo..lo + blockSize], parity);
  }

  lemma ParityLost(received: Received, packets: seq<Packet>, lost: seq<nat>, blockSize: nat, i: nat, b: nat)
    requires 0 < blockSize && Arrived(received, packets, lost, blockSize) && Divides(blockSize, |packets|)
    requires i < |packets| && b == Quotient(i, blockSize) && |packets| + b in lost
    ensures RecoverAt(received, blockSize, i) == None
  {
    BlockOf(packets, blockSize, i);
    RecoverAtPlaces(received, |packets|, blockSize, i, b, Times(b, blockSize));
    assert received[|packets| + b] == None;
  }

  // Slots of parity packets belong to block numbers that have no parity slot themselves.
  lemma ParityNotRecovered(received: Received, n: nat, blockSize: nat, i: nat)
    requires 0 < blockSize && Divides(blockSize, n) && n <= i
    requires |received| == n + NumBlocks(n, blockSize)
    ensures RecoverAt(received, blockSize, i) == None
  {
    NumBlocksBounds(n, blockSize);
    QuotientMonotone(n, i, blockSize);
    IndexAlignment(n, blockSize, Quotient(i, blockSize));
  }

  // In a group of any size: parity packet b, the (b + 1)-th one if no block is without bytes,
  // and what else is in block b rebuild each packet of the block, also of a short last one.
  lemma EveryPacketProtected(config: Config, packets: seq<Packet>, i: nat, others: seq<Packet>)
    requires config.Valid() && config.redundancyPercent > 0 && i < |packets| && |packets[i]| < 65536
    requires NoEmptyBlock(Blocks(packets, config.blockSize))
    ensures var b := i / config.blockSize;
      var place := i - b * config.blockSize;
      && 0 <= b < |Blocks(packets, config.blockSize)|
      && |packets| + b < |Encoded(config, packets)|
      && var block, parity := Blocks(packets, config.blockSize)[b], Encoded(config, packets)[|packets| + b];
         && 0 <= place < |block| && HeaderSize(|block|) <= |parity| && CountField(parity) == |block|
         && (multiset(others) == multiset(Without(block, place)) ==>
              Rebuild(others, parity, HeaderSize(|block|), LengthField(parity, place)) == packets[i])
  {
    hide Parity, Rebuild, Without, CountField, LengthField, Encoded, Block;
    var b := i / config.blockSize;
    QuotientIsDivision(|packets| + config.blockSize - 1, config.blockSize);
    BlockPlace(packets, config.blockSize, i);
    BlockSizes(packets, config.blockSize, b);
    LayoutOf(config, packets);
    var block, place: nat := Blocks(packets, config.blockSize)[b], i - b * config.blockSize;
    HeaderFields(block, place);
    if multiset(others) == multiset(Without(block, place)) {
      BlockInverse(block, place, others);
    }
  }

  // ------------------------------------------------------------- main results

  lemma {:induction false} LossesInNone(lost: seq<nat>, blockSize: nat, b: nat)
    requires 0 < blockSize && forall j | j in lost :: Quotient(j, blockSize) != b
    ensures LossesIn(lost, blockSize, b) == []
  {
    if lost != [] {
      LossesInNone(lost[..|lost| - 1], blockSize, b);
    }
  }

  lemma {:induction false} LossesInAlone(lost: seq<nat>, blockSize: nat, i: nat)
    requires 0 < blockSize && Distinct(lost) && AloneInBlock(lost, blockSize, i)
    ensures LossesIn(lost, blockSize, Quotient(i, blockSize)) == [i]
  {
    var front, last := lost[..|lost| - 1], lost[|lost| - 1];
    assert lost == front + [last];
    if last == i {
      LossesInNone(front, blockSize, Quotient(i, blockSize));
    } else {
      LossesInAlone(front, blockSize, i);
    }
  }

  lemma LoneLoss(lost: seq<nat>, blockSize: nat, i: nat)
    requires 0 < blockSize && Distinct(lost)
    ensures IsLoneLoss(lost, blockSize, i) <==> AloneInBlock(lost, blockSize, i)
  {
    var b := Quotient(i, blockSize);
    var losses := LossesIn(lost, blockSize, b);
    LossesInMembers(lost, blockSize, b);
    if IsLoneLoss(lost, blockSize, i) {
      assert i in losses;
      forall j | j in lost && Quotient(j, blockSize) == b
        ensures j == i
      {
        assert j in losses;
      }
    }
    if AloneInBlock(lost, blockSize, i) {
      LossesInAlone(lost, blockSize, i);
    }
  }

  // What RecoverAt makes of each slot.
  lemma SlotOutcome(received: Received, packets: seq<Packet>, lost: seq<nat>, blockSize: nat, i: nat)
    requires 0 < blockSize <= 255 && Arrived(received, packets, lost, blockSize)
    requires Divides(blockSize, |packets|) && NoEmptyBlock(Blocks(packets, blockSize)) && LengthsFit(packets)
    ensures AloneInBlock(lost, blockSize, i) ==>
      RecoverAt(received, blockSize, i) ==
      if i < |packets| && |packets| + Quotient(i, blockSize) !in lost then Some(packets[i]) else None
  {
    if i >= |packets| {
      ParityNotRecovered(received, |packets|, blockSize, i);
    } else if |packets| + Quotient(i, blockSize) in lost {
      ParityLost(received, packets, lost, blockSize, i, Quotient(i, blockSize));
    } else if AloneInBlock(lost, blockSize, i) {
      var b := Quotient(i, blockSize);
      BlockOf(packets, blockSize, i);
      var parity := ParityArrived(received, packets, lost, blockSize, b, Block(packets, blockSize, b));
      RecoverData(received, packets, lost, blockSize, i, b, parity);
    }
  }

  lemma DecodedSlot(received: Received, lost: seq<nat>, blockSize: nat, i: nat)
    requires 0 < blockSize && lost != [] && Distinct(lost) && i < |received|
    ensures Decoded(received, lost, blockSize)[i] ==
            if AloneInBlock(lost, blockSize, i) then RecoverAt(received, blockSize, i) else None
  {
    LoneLoss(lost, blockSize, i);
  }

  lemma SingleLossSlot(received: Received, blockSize: nat, i: nat)
    requires 0 < blockSize && i < |received|
    ensures Decoded(received, [i], blockSize)[i] == RecoverAt(received, blockSize, i)
  {
    DecodedSlot(received, [i], blockSize, i);
    assert AloneInBlock([i], blockSize, i);
  }

  lemma RecoveredExactly(received: Received, packets: seq<Packet>, lost: seq<nat>, blockSize: nat, i: nat)
    requires 0 < blockSize <= 255 && Arrived(received, packets, lost, blockSize)
    requires Divides(blockSize, |packets|) && NoEmptyBlock(Blocks(packets, blockSize)) && LengthsFit(packets)
    requires lost != [] && Distinct(lost) && i < |received|
    ensures var decoded := Decoded(received, lost, blockSize);
      && |decoded| == |received|
      && (decoded[i].Some? <==>
           i < |packets| && AloneInBlock(lost, blockSize, i) && |packets| + Quotient(i, blockSize) !in lost)
      && (decoded[i].Some? ==> decoded[i] == Some(packets[i]))
  {
    SlotOutcome(received, packets, lost, blockSize, i);
    DecodedSlot(received, lost, blockSize, i);
  }

  // Decode returns a packet in slot i exactly when slot i is a lost data packet, alone
  // among the losses of its block, whose parity packet arrived; and the packet is the
  // original one. Losses of parity packets never produce an entry.
  lemma ExactRecovery(config: Config, packets: seq<Packet>, lost: seq<nat>, received: Received, i: nat)
    requires config.Valid() && packets != [] && Decodable(config, packets)
    requires lost != [] && Distinct(lost)
    requires received == Receive(Encoded(config, packets), lost) && i < |received|
    ensures var decoded := Decoded(received, lost, config.blockSize);
      && |decoded| == |received|
      && (decoded[i].Some? <==>
           && i < |packets|
           && AloneInBlock(lost, config.blockSize, i)
           && |packets| + Quotient(i, config.blockSize) !in lost)
      && (decoded[i].Some? ==> decoded[i] == Some(packets[i]))
  {
    hide Encoded, Receive, Decoded, Arrived, AloneInBlock, Distinct, NoEmptyBlock, LengthsFit;
    GroupArrives(config, packets, lost, Encoded(config, packets), received);
    RecoveredExactly(received, packets, lost, config.blockSize, i);
  }

  predicate RecoversLossOf(config: Config, packets: seq<Packet>, i: nat)
    requires config.Valid() && i < |packets|
  {
    Decoded(Receive(Encoded(config, packets), [i]), [i], config.blockSize)[i] == Some(packets[i])
  }

  predicate RecoversEverySingleLoss(config: Config, packets: seq<Packet>)
    requires config.Valid()
  {
    forall i: nat | i < |packets| :: RecoversLossOf(config, packets, i)
  }

  lemma SingleLossRecovered(config: Config, packets: seq<Packet>, i: nat)
    requires config.Valid() && i < |packets| && Decodable(config, packets)
    ensures RecoversLossOf(config, packets, i)
  {
    LayoutOf(config, packets);
    NumBlocksBounds(|packets|, config.blockSize);
    QuotientMonotone(i, |packets|, config.blockSize);
    ExactRecovery(config, packets, [i], Receive(Encoded(config, packets), [i]), i);
  }

  lemma SingleLossOutcome(config: Config, packets: seq<Packet>, i: nat)
    requires config.Valid() && i < |packets| && RecoversLossOf(config, packets, i)
    ensures RecoverAt(Receive(Encoded(config, packets), [i]), config.blockSize, i) == Some(packets[i])
  {
    LoneLoss([i], config.blockSize, i);
  }

  // A two-byte length field bounds whatever Decode returns.
  lemma RecoveredLength(received: Received, blockSize: nat, i: nat)
    requires 0 < blockSize && RecoverAt(received, blockSize, i).Some?
    ensures |RecoverAt(received, blockSize, i).value| < 65536
  {
  }

  lemma RecoveredLengthsFit(config: Config, packets: seq<Packet>)
    requires config.Valid() && RecoversEverySingleLoss(config, packets)
    ensures LengthsFit(packets)
  {
    forall i: nat | i < |packets|
      ensures |packets[i]| < 65536
    {
      assert RecoversLossOf(config, packets, i);
      SingleLossOutcome(config, packets, i);
      RecoveredLength(Receive(Encoded(config, packets), [i]), config.blockSize, i);
    }
  }

  lemma ParityInside(received: Received, blockSize: nat, i: nat)
    requires 0 < blockSize && RecoverAt(received, blockSize, i).Some?
    ensures ParityIndex(|received|, blockSize, Quotient(i, blockSize)) < |received|
  {
  }

  lemma LastParityFound(received: Received, n: nat, blockSize: nat)
    requires 0 < blockSize && 0 < n <= |received| <= n + NumBlocks(n, blockSize)
    requires RecoverAt(received, blockSize, n - 1).Some?
    ensures |received| == n + NumBlocks(n, blockSize) && Divides(blockSize, n)
  {
    ParityInside(received, blockSize, n - 1);
    LastParityInside(n, |received| - n, blockSize);
  }

  lemma LastBlockRecovered(config: Config, packets: seq<Packet>, group: seq<Packet>)
    requires config.Valid() && packets != [] && group == Encoded(config, packets)
    requires RecoversLossOf(config, packets, |packets| - 1)
    requires |packets| <= |group| <= |packets| + NumBlocks(|packets|, config.blockSize)
    ensures |group| == |packets| + NumBlocks(|packets|, config.blockSize) && Divides(config.blockSize, |packets|)
  {
    SingleLossOutcome(config, packets, |packets| - 1);
    LastParityFound(Receive(group, [|packets| - 1]), |packets|, config.blockSize);
  }

  lemma RecoveredLayout(config: Config, packets: seq<Packet>)
    requires config.Valid() && packets != [] && RecoversEverySingleLoss(config, packets)
    ensures config.redundancyPercent > 0 && Divides(config.blockSize, |packets|)
    ensures NoEmptyBlock(Blocks(packets, config.blockSize))
  {
    var n, m := |packets|, NumBlocks(|packets|, config.blockSize);
    NumBlocksBounds(n, config.blockSize);
    ParitiesCount(Blocks(packets, config.blockSize));
    var group := Encoded(config, packets);
    assert RecoversLossOf(config, packets, n - 1);
    LastBlockRecovered(config, packets, group);
  }

  // For every configuration and every list of packets: whichever single data packet is
  // lost, Decode brings it back, if and only if redundancy is switched on, the block size
  // divides the number of packets, no block is without bytes, and the lengths fit.
  lemma SingleLossRecovery(config: Config, packets: seq<Packet>)
    requires config.Valid()
    ensures RecoversEverySingleLoss(config, packets) <==> packets == [] || Decodable(config, packets)
  {
    if packets != [] {
      if Decodable(config, packets) {
        forall i: nat | i < |packets|
          ensures RecoversLossOf(config, packets, i)
        {
          SingleLossRecovered(config, packets, i);
        }
      }
      if RecoversEverySingleLoss(config, packets) {
        RecoveredLengthsFit(config, packets);
        RecoveredLayout(config, packets);
      }
    }
  }
}
