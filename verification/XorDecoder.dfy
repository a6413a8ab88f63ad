/** The decoder of common/fec/xor_fec.go. */
module XorDecoder {

  import opened Arithmetic
  import opened Bytes
  import opened FecConfig
  import opened Wrappers
  import opened XorBlock
  import opened XorEncoder

  /** A received group: None marks a slot whose packet did not arrive. */
  type Received = seq<Option<Packet>>

  datatype XORDecoder = XORDecoder(config: Config)

  function NewXORDecoder(config: Config): (r: Result<XORDecoder, ConfigError>)
    ensures r.Success? <==> config.Valid()
    ensures r.Success? ==> r.value.config == config
  {
    match config.Validate()
    case Failure(e) => Failure(e)
    case Success(_) => Success(XORDecoder(config))
  }

  // ------------------------------------------------------------- specification

  /** The block the code counts a loss to; Go's division truncates toward zero. */
  function BlockNumber(i: int, blockSize: nat): int
    requires 0 < blockSize
  {
    if i < 0 then 0 - Quotient(-i, blockSize) else Quotient(i, blockSize)
  }

  /** The listed losses that are counted to block b, in the order listed. */
  function LossesIn(lost: seq<int>, blockSize: nat, b: int): seq<int>
    requires 0 < blockSize
  {
    if lost == [] then []
    else
      var front := LossesIn(lost[..|lost| - 1], blockSize, b);
      var last := lost[|lost| - 1];
      if BlockNumber(last, blockSize) == b then front + [last] else front
  }

  predicate IsLone(losses: seq<int>, i: int) {
    |losses| == 1 && losses[0] == i
  }

  /** i is the one listed loss of its block, listed once. */
  predicate IsLoneLoss(lost: seq<int>, blockSize: nat, i: int)
    requires 0 < blockSize
  {
    IsLone(LossesIn(lost, blockSize, BlockNumber(i, blockSize)), i)
  }

  /** The decoder's guess, from the group size alone, of where the parity of block b is. */
  function ParityIndex(total: nat, blockSize: nat, b: int): int {
    total - Quotient(total, blockSize + 1) + b
  }

  /** The packets that arrived in slots lo..hi, leaving out slot skip. */
  function Available(received: Received, lo: nat, hi: nat, skip: nat): seq<Packet>
    requires hi <= |received|
  {
    if hi <= lo then []
    else
      var front := Available(received, lo, hi - 1, skip);
      if hi - 1 != skip && received[hi - 1].Some? then front + [received[hi - 1].value] else front
  }

  /** The packet for slot idx, made from slots lo..hi and the parity packet in slot r. */
  function RecoverFrom(received: Received, lo: nat, hi: nat, r: nat, idx: nat): Option<Packet>
    requires lo <= idx && hi <= |received|
  {
    if r >= |received| || received[r].None? then None
    else
      var parity := received[r].value;
      if |parity| < 1 || |parity| < HeaderSize(CountField(parity)) || idx - lo >= CountField(parity) then None
      else
        Some(Rebuild(Available(received, lo, hi, idx), parity, HeaderSize(CountField(parity)),
                     LengthField(parity, idx - lo)))
  }

  // A loss listed past the end of the group has its parity index past the end too.
  lemma ParityIndexPastEnd(total: nat, blockSize: nat, idx: nat)
    requires 0 < blockSize
    ensures 0 <= ParityIndex(total, blockSize, Quotient(idx, blockSize))
    ensures total <= idx ==> total <= ParityIndex(total, blockSize, Quotient(idx, blockSize))
  {
    QuotientBounds(total, blockSize + 1);
    TimesPlusOne(Quotient(total, blockSize + 1), blockSize);
    if total <= idx {
      QuotientAntitone(total, blockSize, blockSize + 1);
      QuotientMonotone(total, idx, blockSize);
    }
  }

  /** What Decode puts in slot idx when idx is the only loss of its block. */
  function RecoverAt(received: Received, blockSize: nat, idx: nat): Option<Packet>
    requires 0 < blockSize
  {
    var b := Quotient(idx, blockSize);
    QuotientBounds(idx, blockSize);
    ParityIndexPastEnd(|received|, blockSize, idx);
    RecoverFrom(received, Times(b, blockSize), BlockEnd(|received|, blockSize, b),
                ParityIndex(|received|, blockSize, b), idx)
  }

  /** The array Decode returns, as a function of its arguments. */
  function Decoded(received: Received, lost: seq<int>, blockSize: nat): Received
    requires 0 < blockSize
  {
    if lost == [] then []
    else
      seq(|received|, i requires 0 <= i < |received| =>
        if IsLoneLoss(lost, blockSize, i) then RecoverAt(received, blockSize, i) else None)
  }

  /** The place in its block that the code computes for a negative loss, zero or less. */
  function NegativePlace(i: int, blockSize: nat): int
    requires 0 < blockSize && i < 0
  {
    i + Times(Quotient(-i, blockSize), blockSize)
  }

  predicate Admits(parity: Packet, place: int) {
    1 <= |parity| && HeaderSize(CountField(parity)) <= |parity| && place < CountField(parity)
  }

  /**
   Rebuilding the negative loss i indexes out of range: its parity packet is looked for before
   the group, or is there and does not end the attempt.
   */
  predicate OutOfRange(received: Received, blockSize: nat, i: int)
    requires 0 < blockSize && i < 0
  {
    var r := ParityIndex(|received|, blockSize, BlockNumber(i, blockSize));
    || r < 0
    || (r < |received| && received[r].Some? && Admits(received[r].value, NegativePlace(i, blockSize)))
  }

  predicate BlockPanics(received: Received, blockSize: nat, losses: seq<int>)
    requires 0 < blockSize
  {
    |losses| == 1 && losses[0] < 0 && OutOfRange(received, blockSize, losses[0])
  }

  /** Decode panics: some block has a lone loss that makes it index out of range. */
  ghost predicate Panics(received: Received, lost: seq<int>, blockSize: nat)
    requires 0 < blockSize
  {
    exists b :: BlockPanics(received, blockSize, LossesIn(lost, blockSize, b))
  }

  // -------------------------------------------------------------------- lemmas

  lemma {:induction false} LossesInMembers(lost: seq<int>, blockSize: nat, b: int)
    requires 0 < blockSize
    ensures forall x :: x in LossesIn(lost, blockSize, b) <==> x in lost && BlockNumber(x, blockSize) == b
  {
    if lost != [] {
      var front, last := lost[..|lost| - 1], lost[|lost| - 1];
      assert lost == front + [last];
      LossesInMembers(front, blockSize, b);
    }
  }

  // Decode panics exactly for a negative loss that is alone in its block and not passed over;
  // never for indices of slots.
  lemma PanicsExactly(received: Received, lost: seq<int>, blockSize: nat)
    requires 0 < blockSize
    ensures Panics(received, lost, blockSize) <==>
            exists i :: i in lost && i < 0 && IsLoneLoss(lost, blockSize, i) && OutOfRange(received, blockSize, i)
  {
    hide OutOfRange, LossesIn;
    if Panics(received, lost, blockSize) {
      var b :| BlockPanics(received, blockSize, LossesIn(lost, blockSize, b));
      var losses := LossesIn(lost, blockSize, b);
      LossesInMembers(lost, blockSize, b);
      assert losses[0] in losses;
      assert IsLoneLoss(lost, blockSize, losses[0]);
    }
    if i :| i in lost && i < 0 && IsLoneLoss(lost, blockSize, i) && OutOfRange(received, blockSize, i) {
      assert BlockPanics(received, blockSize, LossesIn(lost, blockSize, BlockNumber(i, blockSize)));
    }
  }

  // In a block with listed losses, only a lone loss is given a packet.
  lemma BlockOutcome(received: Received, lost: seq<int>, blockSize: nat, i: nat)
    requires 0 < blockSize && lost != [] && i < |received|
    ensures Decoded(received, lost, blockSize)[i] ==
            if IsLone(LossesIn(lost, blockSize, Quotient(i, blockSize)), i) then RecoverAt(received, blockSize, i)
            else None
  {
  }

  /** Every slot is final except those of the blocks still pending, which are untouched. */
  ghost predicate Filled(slots: Received, target: Received, blockSize: nat, pending: set<int>)
    requires 0 < blockSize
  {
    && |slots| == |target|
    && forall i: nat | i < |slots| :: slots[i] == if Quotient(i, blockSize) in pending then None else target[i]
  }

  // ------------------------------------------------------------ implementation

  // Go's operator /.
  method Divide(i: int, blockSize: nat) returns (b: int)
    requires 0 < blockSize
    ensures b == BlockNumber(i, blockSize)
  {
    if i < 0 {
      QuotientIsDivision(-i, blockSize);
      b := -(-i / blockSize);
    } else {
      QuotientIsDivision(i, blockSize);
      b := i / blockSize;
    }
  }

  method GroupByBlock(lost: seq<int>, blockSize: nat) returns (lostByBlock: map<int, seq<int>>)
    requires 0 < blockSize
    ensures forall b :: b in lostByBlock <==> LossesIn(lost, blockSize, b) != []
    ensures forall b :: b in lostByBlock ==> lostByBlock[b] == LossesIn(lost, blockSize, b)
  {
    lostByBlock := map[];
    for k := 0 to |lost|
      invariant forall b :: b in lostByBlock <==> LossesIn(lost[..k], blockSize, b) != []
      invariant forall b :: b in lostByBlock ==> lostByBlock[b] == LossesIn(lost[..k], blockSize, b)
    {
      assert lost[..k + 1][..k] == lost[..k];
      var blockIdx := Divide(lost[k], blockSize);
      var sofar := if blockIdx in lostByBlock then lostByBlock[blockIdx] else [];
      lostByBlock := lostByBlock[blockIdx := sofar + [lost[k]]];
    }
    assert lost[..|lost|] == lost;
  }

  method Collect(received: Received, blockStart: nat, blockEnd: nat, lostIdx: nat) returns (packets: seq<Packet>)
    requires blockEnd <= |received|
    ensures packets == Available(received, blockStart, blockEnd, lostIdx)
  {
    packets := [];
    var i := blockStart;
    while i < blockEnd
      invariant blockStart <= i
      invariant blockStart <= blockEnd ==> i <= blockEnd
      invariant packets == if i <= blockEnd then Available(received, blockStart, i, lostIdx) else []
    {
      if i != lostIdx && received[i].Some? {
        packets := packets + [received[i].value];
      }
      i := i + 1;
    }
  }

  method XorPacketsWithRedundancy(available: seq<Packet>, parity: Packet, headerSize: nat, originalLen: nat)
    returns (packet: Option<Packet>)
    ensures packet == if |parity| < headerSize then None
                      else Some(Rebuild(available, parity, headerSize, originalLen))
  {
    if |parity| < headerSize {
      return None;
    }

    var maxSize := originalLen;
    for j := 0 to |available|
      invariant originalLen <= maxSize
      invariant forall i | 0 <= i < j :: |available[i]| <= maxSize
    {
      if |available[j]| > maxSize {
        maxSize := |available[j]|;
      }
    }

    var result := new Byte[maxSize](i requires 0 <= i => ByteAt(parity, headerSize + i));
    XorInto(available, result, 0);
    assert result[..originalLen] == Rebuild(available, parity, headerSize, originalLen);
    packet := Some(result[..originalLen]);
  }

  /** Panic is an index out of range; Skipped is a continue of the loop. */
  datatype Attempt = Panic | Skipped | Rebuilt(packet: Packet)

  datatype Slot = Outside | Missing | Present(packet: Packet)

  /** What looking for the parity packet of block b finds. */
  function ParitySlot(received: Received, blockSize: nat, b: int): Slot {
    var r := ParityIndex(|received|, blockSize, b);
    if r < 0 then Outside
    else if r >= |received| || received[r].None? then Missing
    else Present(received[r].value)
  }

  method FindParity(received: Received, blockSize: nat, blockIdx: int) returns (slot: Slot)
    ensures slot == ParitySlot(received, blockSize, blockIdx)
  {
    QuotientIsDivision(|received|, blockSize + 1);
    var numDataPackets := |received| - |received| / (blockSize + 1);
    var redundancyIdx := numDataPackets + blockIdx;
    if redundancyIdx >= |received| {
      return Missing;
    }
    if redundancyIdx < 0 {
      return Outside;
    }
    slot := if received[redundancyIdx].None? then Missing else Present(received[redundancyIdx].value);
  }

  // For a place that is no place of a block, reading the length or a packet of the block is
  // out of range, and so is storing the result if it comes to that.
  method RebuildNegative(parity: Packet, place: int) returns (attempt: Attempt)
    requires place <= 0
    ensures attempt == if Admits(parity, place) then Panic else Skipped
  {
    if |parity| < 1 {
      return Skipped;
    }
    var numPacketsInBlock := parity[0] as nat;
    var headerSize := 1 + numPacketsInBlock * 2;
    if |parity| < headerSize {
      return Skipped;
    }
    if place >= numPacketsInBlock {
      return Skipped;
    }
    attempt := Panic;
  }

  method RebuildSlot(received: Received, parity: Packet, blockStart: nat, blockEnd: nat, lostIdx: nat)
    returns (attempt: Attempt)
    requires blockStart <= lostIdx && blockEnd <= |received|
    ensures !attempt.Panic?
    ensures forall r: nat | r < |received| && received[r] == Some(parity) ::
      RecoverFrom(received, blockStart, blockEnd, r, lostIdx) ==
      if attempt.Rebuilt? then Some(attempt.packet) else None
  {
    if |parity| < 1 {
      return Skipped;
    }
    var numPacketsInBlock := parity[0] as nat;
    var headerSize := 1 + numPacketsInBlock * 2;
    if |parity| < headerSize {
      return Skipped;
    }

    var lostPacketIndexInBlock := lostIdx - blockStart;
    if lostPacketIndexInBlock >= numPacketsInBlock {
      return Skipped;
    }
    var offset := 1 + lostPacketIndexInBlock * 2;
    var originalLen := Field(parity[offset], parity[offset + 1]);

    var availablePackets := Collect(received, blockStart, blockEnd, lostIdx);
    var packet := XorPacketsWithRedundancy(availablePackets, parity, headerSize, originalLen);
    attempt := if packet.None? then Skipped else Rebuilt(packet.value);
  }

  // The attempt to rebuild the single loss lostIdx of a block.
  method RecoverBlock(received: Received, blockSize: nat, blockIdx: int, lostIdx: int) returns (attempt: Attempt)
    requires 0 < blockSize && blockIdx == BlockNumber(lostIdx, blockSize)
    ensures lostIdx < 0 ==> attempt == if OutOfRange(received, blockSize, lostIdx) then Panic else Skipped
    ensures lostIdx >= 0 ==> !attempt.Panic?
    ensures lostIdx >= 0 ==>
      RecoverAt(received, blockSize, lostIdx) == if attempt.Rebuilt? then Some(attempt.packet) else None
    ensures lostIdx >= 0 && attempt.Rebuilt? ==> lostIdx < |received|
  {
    var slot := FindParity(received, blockSize, blockIdx);
    if lostIdx < 0 {
      var q: nat := -blockIdx;
      TimesIsProduct(q, blockSize);
      QuotientBounds(-lostIdx, blockSize);
      match slot
      case Outside => attempt := Panic;
      case Missing => attempt := Skipped;
      case Present(parity) => attempt := RebuildNegative(parity, lostIdx + q * blockSize);
    } else {
      ParityIndexPastEnd(|received|, blockSize, lostIdx);
      QuotientBounds(lostIdx, blockSize);
      TimesIsProduct(blockIdx, blockSize);
      if !slot.Present? {
        return Skipped;
      }
      var blockStart := blockIdx * blockSize;
      var blockEnd := blockStart + blockSize;
      if blockEnd > |received| {
        blockEnd := |received|;
      }
      attempt := RebuildSlot(received, slot.packet, blockStart, blockEnd, lostIdx);
    }
  }

  // One iteration of Decode's loop; it panics if ok is false.
  method DecodeBlock(received: Received, blockSize: nat, blockIdx: int, lostIndices: seq<int>,
                     recovered: array<Option<Packet>>, ghost lost: seq<int>)
    returns (ok: bool)
    requires 0 < blockSize && lost != [] && lostIndices == LossesIn(lost, blockSize, blockIdx)
    requires recovered.Length == |received|
    requires forall i: nat | i < |received| && Quotient(i, blockSize) == blockIdx :: recovered[i] == None
    modifies recovered
    ensures ok <==> !BlockPanics(received, blockSize, lostIndices)
    ensures ok ==>
      forall i: nat | i < |received| ::
        recovered[i] ==
        if Quotient(i, blockSize) == blockIdx then Decoded(received, lost, blockSize)[i] else old(recovered[i])
  {
    ok := true;
    forall i: nat | i < |received| && Quotient(i, blockSize) == blockIdx
      ensures Decoded(received, lost, blockSize)[i] ==
              if IsLone(lostIndices, i) then RecoverAt(received, blockSize, i) else None
    {
      BlockOutcome(received, lost, blockSize, i);
    }
    if |lostIndices| != 1 {
      return;
    }
    var lostIdx := lostIndices[0];
    LossesInMembers(lost, blockSize, blockIdx);
    assert lostIdx in lostIndices;
    var attempt := RecoverBlock(received, blockSize, blockIdx, lostIdx);
    if attempt.Panic? {
      return false;
    }
    if attempt.Rebuilt? {
      recovered[lostIdx] := Some(attempt.packet);
    }
  }

  // Any element, as Go's range over a map may start anywhere.
  method Pick<T>(s: set<T>) returns (x: T)
    requires s != {}
    ensures x in s
  {
    x :| x in s;
  }

  // The groups are visited in an arbitrary order, as Go visits a map. None is a panic.
  method Decode(decoder: XORDecoder, received: Received, lost: seq<int>) returns (result: Option<Received>)
    requires decoder.config.Valid()
    ensures result == if Panics(received, lost, decoder.config.blockSize) then None
                      else Some(Decoded(received, lost, decoder.config.blockSize))
  {
    if |lost| == 0 {
      PanicsExactly(received, lost, decoder.config.blockSize);
      assert !Panics(received, lost, decoder.config.blockSize);
      return Some([]);
    }

    var blockSize: nat := decoder.config.blockSize;
    var recovered := new Option<Packet>[|received|](_ => None);
    var lostByBlock := GroupByBlock(lost, blockSize);
    var pending := lostByBlock.Keys;
    ghost var target := Decoded(received, lost, blockSize);
    forall i: nat | i < |received| && Quotient(i, blockSize) !in pending
      ensures target[i] == None
    {
      BlockOutcome(received, lost, blockSize, i);
    }
    while pending != {}
      invariant pending <= lostByBlock.Keys
      invariant Filled(recovered[..], target, blockSize, pending)
      invariant forall b | b in lostByBlock && b !in pending :: !BlockPanics(received, blockSize, lostByBlock[b])
    {
      var blockIdx := Pick(pending);
      pending := pending - {blockIdx};
      var ok := DecodeBlock(received, blockSize, blockIdx, lostByBlock[blockIdx], recovered, lost);
      if !ok {
        assert BlockPanics(received, blockSize, LossesIn(lost, blockSize, blockIdx));
        assert Panics(received, lost, blockSize);
        return None;
      }
    }
    forall b
      ensures !BlockPanics(received, blockSize, LossesIn(lost, blockSize, b))
    {
      assert b !in lostByBlock ==> LossesIn(lost, blockSize, b) == [];
    }
    assert !Panics(received, lost, blockSize);
    assert recovered[..] == target;
    result := Some(recovered[..]);
  }
}
