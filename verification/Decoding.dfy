/**
 What Decode returns for any group and any list of losses, in terms of the bytes of the packets
 that arrived (common/fec/xor_fec.go).
 */
module Decoding {

  import opened Arithmetic
  import opened Bytes
  import opened Sequences
  import opened Wrappers
  import opened XorBlock
  import opened XorDecoder
  import opened XorEncoder

  // ------------------------------------------------------------ reading a packet as parity

  /** The packet is a count, that many two-byte lengths, and a payload. */
  predicate Frames(parity: Packet, lengths: seq<nat>, payload: Packet) {
    && |parity| == 1 + 2 * |lengths| + |payload|
    && parity[0] as nat == |lengths|
    && (forall j | 0 <= j < |lengths| :: parity[1 + j * 2] as nat * 256 + parity[2 + j * 2] as nat == lengths[j])
    && payload == parity[1 + 2 * |lengths|..]
  }

  lemma FrameOf(parity: Packet) returns (lengths: seq<nat>, payload: Packet)
    requires 1 <= |parity| && HeaderSize(CountField(parity)) <= |parity|
    ensures Frames(parity, lengths, payload)
  {
    lengths := seq(CountField(parity), j requires 0 <= j < CountField(parity) => LengthField(parity, j));
    payload := parity[HeaderSize(CountField(parity))..];
  }

  lemma FrameFields(parity: Packet, lengths: seq<nat>, payload: Packet)
    requires Frames(parity, lengths, payload)
    ensures 1 <= |parity| && CountField(parity) == |lengths| && HeaderSize(|lengths|) <= |parity|
    ensures forall j | 0 <= j < |lengths| :: LengthField(parity, j) == lengths[j]
    ensures forall k: nat :: ByteAt(parity, HeaderSize(|lengths|) + k) == ByteAt(payload, k)
  {
  }

  lemma RebuiltBytes(available: seq<Packet>, parity: Packet, payload: Packet, h: nat, length: nat)
    requires forall k: nat :: ByteAt(parity, h + k) == ByteAt(payload, k)
    ensures |Rebuild(available, parity, h, length)| == length
    ensures forall k: nat | k < length ::
      Rebuild(available, parity, h, length)[k] == XorAt(available, k) ^ ByteAt(payload, k)
  {
  }

  // -------------------------------------------------------------------- one slot

  /** Slot r holds a packet that frames more than place lengths. */
  ghost predicate HasPlace(received: Received, r: int, place: int) {
    && 0 <= r < |received| && received[r].Some?
    && exists lengths, payload :: Frames(received[r].value, lengths, payload) && place < |lengths|
  }

  /** The packet has the length framed for its place, and is the XOR of the payload and the others. */
  ghost predicate IsRebuilt(packet: Packet, parity: Packet, place: nat, others: seq<Packet>) {
    exists lengths, payload ::
      && Frames(parity, lengths, payload) && place < |lengths| && |packet| == lengths[place]
      && forall k: nat | k < |packet| :: packet[k] == XorAt(others, k) ^ ByteAt(payload, k)
  }

  lemma RecoverFromExactly(received: Received, lo: nat, hi: nat, r: nat, i: nat)
    requires lo <= i && hi <= |received|
    ensures RecoverFrom(received, lo, hi, r, i).Some? <==> HasPlace(received, r, i - lo)
    ensures RecoverFrom(received, lo, hi, r, i).Some? ==>
      IsRebuilt(RecoverFrom(received, lo, hi, r, i).value, received[r].value, i - lo, Available(received, lo, hi, i))
  {
    hide Frames, Available, Rebuild, XorAt, CountField, LengthField;
    if HasPlace(received, r, i - lo) {
      var parity := received[r].value;
      var lengths, payload :| Frames(parity, lengths, payload) && i - lo < |lengths|;
      FrameFields(parity, lengths, payload);
      RebuiltBytes(Available(received, lo, hi, i), parity, payload, HeaderSize(|lengths|), lengths[i - lo]);
    }
    if RecoverFrom(received, lo, hi, r, i).Some? {
      var lengths, payload := FrameOf(received[r].value);
      FrameFields(received[r].value, lengths, payload);
    }
  }

  /** What a slot contributes when slot skip is rebuilt. */
  function Arrival(received: Received, j: nat, skip: nat): seq<Packet>
    requires j < |received|
  {
    if j != skip && received[j].Some? then [received[j].value] else []
  }

  /** The packets in n slots from lo on, without the one in slot skip. */
  function Arrivals(received: Received, lo: nat, n: nat, skip: nat): seq<Packet>
    requires lo + n <= |received|
  {
    Flatten(seq(n, j requires 0 <= j < n => Arrival(received, lo + j, skip)))
  }

  lemma {:induction false} AvailableArrivals(received: Received, lo: nat, n: nat, skip: nat)
    requires lo + n <= |received|
    ensures Available(received, lo, lo + n, skip) == Arrivals(received, lo, n, skip)
  {
    var all := seq(n, j requires 0 <= j < n => Arrival(received, lo + j, skip));
    if n > 0 {
      AvailableArrivals(received, lo, n - 1, skip);
      assert all[..n - 1] == seq(n - 1, j requires 0 <= j < n - 1 => Arrival(received, lo + j, skip));
      assert Flatten(all) == Flatten(all[..n - 1]) + Arrival(received, lo + n - 1, skip);
    } else {
      assert all == [];
    }
  }

  // -------------------------------------------------------------------- lone losses

  /** Go's quotient. */
  function GoQuotient(i: int, d: nat): int
    requires 0 < d
  {
    if i < 0 then -(-i / d) else i / d
  }

  lemma BlockNumberIs(i: int, blockSize: nat)
    requires 0 < blockSize
    ensures BlockNumber(i, blockSize) == GoQuotient(i, blockSize)
  {
    QuotientIsDivision(if i < 0 then -i else i, blockSize);
  }

  /** i is listed once, and no other listed index has its quotient. */
  ghost predicate OnlyOne(lost: seq<int>, blockSize: nat, i: int)
    requires 0 < blockSize
  {
    && multiset(lost)[i] == 1
    && forall k | 0 <= k < |lost| && GoQuotient(lost[k], blockSize) == GoQuotient(i, blockSize) :: lost[k] == i
  }

  lemma {:induction false} LossesCount(lost: seq<int>, blockSize: nat, b: int, x: int)
    requires 0 < blockSize
    ensures multiset(LossesIn(lost, blockSize, b))[x] == if BlockNumber(x, blockSize) == b then multiset(lost)[x] else 0
  {
    if lost != [] {
      var front, last := lost[..|lost| - 1], lost[|lost| - 1];
      assert lost == front + [last];
      LossesCount(front, blockSize, b, x);
    }
  }

  lemma {:induction false} AllSame(s: seq<int>, x: int)
    requires forall k | 0 <= k < |s| :: s[k] == x
    ensures multiset(s)[x] == |s|
  {
    if s != [] {
      assert s == s[..|s| - 1] + [s[|s| - 1]];
      AllSame(s[..|s| - 1], x);
    }
  }

  lemma LoneCounts(losses: seq<int>, i: int)
    ensures IsLone(losses, i) <==> multiset(losses)[i] == 1 && forall k | 0 <= k < |losses| :: losses[k] == i
  {
    if forall k | 0 <= k < |losses| :: losses[k] == i {
      AllSame(losses, i);
    }
    if IsLone(losses, i) {
      assert losses == [i];
    }
  }

  lemma LossMember(lost: seq<int>, blockSize: nat, b: int, x: int)
    requires 0 < blockSize
    ensures x in LossesIn(lost, blockSize, b) <==> x in lost && GoQuotient(x, blockSize) == b
  {
    LossesInMembers(lost, blockSize, b);
    BlockNumberIs(x, blockSize);
  }

  lemma LoneExactly(lost: seq<int>, blockSize: nat, i: int)
    requires 0 < blockSize
    ensures IsLoneLoss(lost, blockSize, i) <==> OnlyOne(lost, blockSize, i)
  {
    hide LossesIn, BlockNumber, GoQuotient, IsLone;
    var b := BlockNumber(i, blockSize);
    var losses := LossesIn(lost, blockSize, b);
    BlockNumberIs(i, blockSize);
    LossesCount(lost, blockSize, b, i);
    LoneCounts(losses, i);
    if OnlyOne(lost, blockSize, i) {
      forall k | 0 <= k < |losses|
        ensures losses[k] == i
      {
        LossMember(lost, blockSize, b, losses[k]);
      }
    }
    if IsLoneLoss(lost, blockSize, i) {
      forall k | 0 <= k < |lost| && GoQuotient(lost[k], blockSize) == b
        ensures lost[k] == i
      {
        LossMember(lost, blockSize, b, lost[k]);
      }
    }
  }

  // What is put in slot i when it is a lone loss.
  lemma RecoveredExactly(received: Received, blockSize: nat, i: nat)
    requires 0 < blockSize && i < |received|
    ensures var lo := i / blockSize * blockSize;
      var hi := if lo + blockSize < |received| then lo + blockSize else |received|;
      var r := |received| - |received| / (blockSize + 1) + i / blockSize;
      && 0 <= lo <= i < hi
      && (RecoverAt(received, blockSize, i).Some? <==> HasPlace(received, r, i - lo))
      && (RecoverAt(received, blockSize, i).Some? ==>
           IsRebuilt(RecoverAt(received, blockSize, i).value, received[r].value, i - lo,
                     Arrivals(received, lo, hi - lo, i)))
  {
    hide HasPlace, IsRebuilt, Available, Arrivals, RecoverFrom;
    var b: nat := i / blockSize;
    QuotientIsDivision(i, blockSize);
    QuotientBounds(i, blockSize);
    TimesIsProduct(b, blockSize);
    QuotientIsDivision(|received|, blockSize + 1);
    ParityIndexPastEnd(|received|, blockSize, i);
    var lo, hi := Times(b, blockSize), BlockEnd(|received|, blockSize, b);
    RecoverFromExactly(received, lo, hi, ParityIndex(|received|, blockSize, b), i);
    AvailableArrivals(received, lo, hi - lo, i);
  }

  // ---------------------------------------------------------------- main results

  // For any received packets and any list of losses: Decode returns nothing for an empty list,
  // and otherwise one slot per received packet. A slot is filled exactly when it is the only
  // listed loss of its block and the packet where the block's parity is looked for frames a
  // length for its place; it is filled with the XOR of that packet's payload and the packets
  // that arrived in the other slots of the block.
  lemma DecodedExactly(received: Received, lost: seq<int>, blockSize: nat, i: nat)
    requires 0 < blockSize
    ensures lost == [] ==> Decoded(received, lost, blockSize) == []
    ensures lost != [] && i < |received| ==>
      var decoded, lo := Decoded(received, lost, blockSize), i / blockSize * blockSize;
      var hi := if lo + blockSize < |received| then lo + blockSize else |received|;
      var r := |received| - |received| / (blockSize + 1) + i / blockSize;
      && |decoded| == |received| && 0 <= lo <= i < hi
      && (decoded[i].Some? <==> OnlyOne(lost, blockSize, i) && HasPlace(received, r, i - lo))
      && (decoded[i].Some? ==>
           IsRebuilt(decoded[i].value, received[r].value, i - lo, Arrivals(received, lo, hi - lo, i)))
  {
    if lost != [] && i < |received| {
      hide OnlyOne, IsLoneLoss, RecoverAt;
      LoneExactly(lost, blockSize, i);
      RecoveredExactly(received, blockSize, i);
    }
  }

  // A lone negative loss is out of range exactly when its parity is looked for before the
  // group, or in a packet that frames a length for its place or for the first one.
  lemma OutOfRangeExactly(received: Received, blockSize: nat, i: int)
    requires 0 < blockSize && i < 0
    ensures var q := -i / blockSize;
      var r := |received| - |received| / (blockSize + 1) - q;
      OutOfRange(received, blockSize, i) <==> r < 0 || HasPlace(received, r, i + q * blockSize)
  {
    hide Frames, CountField;
    var q: nat := -i / blockSize;
    QuotientIsDivision(-i, blockSize);
    TimesIsProduct(q, blockSize);
    QuotientIsDivision(|received|, blockSize + 1);
    var r := |received| - |received| / (blockSize + 1) - q;
    if 0 <= r < |received| && received[r].Some? {
      var parity := received[r].value;
      if 1 <= |parity| && HeaderSize(CountField(parity)) <= |parity| {
        var lengths, payload := FrameOf(parity);
        FrameFields(parity, lengths, payload);
      }
      forall lengths, payload | Frames(parity, lengths, payload)
        ensures 1 <= |parity| && CountField(parity) == |lengths| && HeaderSize(|lengths|) <= |parity|
      {
        FrameFields(parity, lengths, payload);
      }
    }
  }
}
