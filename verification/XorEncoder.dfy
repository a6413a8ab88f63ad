/** The encoder of common/fec/xor_fec.go: blocks, parity packets, and their layout. */
module XorEncoder {

  import opened Arithmetic
  import opened Bytes
  import opened FecConfig
  import opened Sequences
  import opened Wrappers
  import opened XorBlock

  datatype XOREncoder = XOREncoder(config: Config)

  function NewXOREncoder(config: Config): (r: Result<XOREncoder, ConfigError>)
    ensures r.Success? <==> config.Valid()
    ensures r.Success? ==> r.value.config == config
  {
    match config.Validate()
    case Failure(e) => Failure(e)
    case Success(_) => Success(XOREncoder(config))
  }

  // ------------------------------------------------------------- specification

  /** Number of blocks, the last one possibly short. */
  function NumBlocks(n: nat, blockSize: nat): nat
    requires 0 < blockSize
  {
    Quotient(n + blockSize - 1, blockSize)
  }

  function BlockEnd(n: nat, blockSize: nat, b: nat): nat {
    var end := Times(b, blockSize) + blockSize;
    if end > n then n else end
  }

  function Block(packets: seq<Packet>, blockSize: nat, b: nat): seq<Packet> {
    if Times(b, blockSize) > |packets| then []
    else packets[Times(b, blockSize)..BlockEnd(|packets|, blockSize, b)]
  }

  /** The blocks the packets are cut into, the last one possibly short. */
  function Blocks(packets: seq<Packet>, blockSize: nat): seq<seq<Packet>>
    requires 0 < blockSize
  {
    seq(NumBlocks(|packets|, blockSize), b requires 0 <= b => Block(packets, blockSize, b))
  }

  function Emitted(parity: Option<Packet>): seq<Packet> {
    if parity.Some? then [parity.value] else []
  }

  /** The parity packets of the blocks; a block without any byte has none. */
  function Parities(blocks: seq<seq<Packet>>): seq<Packet> {
    if blocks == [] then []
    else Parities(blocks[..|blocks| - 1]) + Emitted(Parity(blocks[|blocks| - 1]))
  }

  /** The group Encode returns: all data packets, then one parity packet per block. */
  function Encoded(config: Config, packets: seq<Packet>): seq<Packet>
    requires config.Valid()
  {
    if packets == [] || config.redundancyPercent == 0 then packets
    else packets + Parities(Blocks(packets, config.blockSize))
  }

  /** Every block holds at least one byte, so none is skipped by the encoder. */
  predicate NoEmptyBlock(blocks: seq<seq<Packet>>) {
    forall b | 0 <= b < |blocks| :: Parity(blocks[b]).Some?
  }

  // ------------------------------------------------------------------- layout

  lemma BlockStarts(n: nat, blockSize: nat, b: nat)
    requires 0 < blockSize && b < NumBlocks(n, blockSize)
    ensures Times(b, blockSize) < n
    ensures Times(b, blockSize) < BlockEnd(n, blockSize, b) <= n
  {
    QuotientBounds(n + blockSize - 1, blockSize);
    TimesMonotone(b, NumBlocks(n, blockSize), blockSize);
  }

  // The blocks cover the packets, with nothing to spare but part of the last one.
  lemma NumBlocksBounds(n: nat, blockSize: nat)
    requires 0 < blockSize
    ensures n <= Times(NumBlocks(n, blockSize), blockSize) < n + blockSize
    ensures n == Times(NumBlocks(n, blockSize), blockSize) <==> Divides(blockSize, n)
    ensures Divides(blockSize, n) ==> NumBlocks(n, blockSize) == Quotient(n, blockSize)
  {
    var m := NumBlocks(n, blockSize);
    QuotientBounds(n + blockSize - 1, blockSize);
    QuotientBounds(n, blockSize);
    if n == Times(m, blockSize) {
      QuotientUnique(n, blockSize, m);
    }
    if Divides(blockSize, n) {
      QuotientUnique(n + blockSize - 1, blockSize, Quotient(n, blockSize));
    }
  }

  // How many blocks there are and how long each is: all are full but perhaps the last.
  lemma BlockSizes(packets: seq<Packet>, blockSize: nat, b: nat)
    requires 0 < blockSize && b < (|packets| + blockSize - 1) / blockSize
    ensures b < |Blocks(packets, blockSize)| == (|packets| + blockSize - 1) / blockSize
    ensures 0 < |Blocks(packets, blockSize)[b]|
    ensures |Blocks(packets, blockSize)[b]| ==
            if b * blockSize + blockSize <= |packets| then blockSize else |packets| - b * blockSize
    ensures b + 1 < |Blocks(packets, blockSize)| ==> |Blocks(packets, blockSize)[b]| == blockSize
  {
    var n := |packets|;
    QuotientIsDivision(n + blockSize - 1, blockSize);
    TimesIsProduct(b, blockSize);
    BlockStarts(n, blockSize, b);
    if b + 1 < NumBlocks(n, blockSize) {
      BlockStarts(n, blockSize, b + 1);
    }
  }

  // Packet i is in block i / blockSize, in place i - (i / blockSize) * blockSize.
  lemma BlockPlace(packets: seq<Packet>, blockSize: nat, i: nat)
    requires 0 < blockSize && i < |packets|
    ensures var b := i / blockSize;
      && 0 <= b < |Blocks(packets, blockSize)|
      && 0 <= i - b * blockSize < |Blocks(packets, blockSize)[b]|
      && Blocks(packets, blockSize)[b][i - b * blockSize] == packets[i]
  {
    var n, b := |packets|, Quotient(i, blockSize);
    QuotientIsDivision(i, blockSize);
    QuotientBounds(i, blockSize);
    TimesIsProduct(b, blockSize);
    NumBlocksBounds(n, blockSize);
    TimesMonotone(NumBlocks(n, blockSize), b, blockSize);
  }

  lemma BlocksStep(packets: seq<Packet>, blockSize: nat, k: nat)
    requires 0 < blockSize && k < NumBlocks(|packets|, blockSize)
    ensures Times(k, blockSize) <= BlockEnd(|packets|, blockSize, k) <= |packets|
    ensures packets[..Times(k, blockSize)] + Block(packets, blockSize, k) ==
            packets[..BlockEnd(|packets|, blockSize, k)]
    ensures k + 1 < NumBlocks(|packets|, blockSize) ==>
      BlockEnd(|packets|, blockSize, k) == Times(k + 1, blockSize)
    ensures k + 1 == NumBlocks(|packets|, blockSize) ==> BlockEnd(|packets|, blockSize, k) == |packets|
  {
    BlockStarts(|packets|, blockSize, k);
    NumBlocksBounds(|packets|, blockSize);
    if k + 1 < NumBlocks(|packets|, blockSize) {
      BlockStarts(|packets|, blockSize, k + 1);
    }
  }

  lemma {:induction false} BlocksPrefix(packets: seq<Packet>, blockSize: nat, k: nat)
    requires 0 < blockSize && k < NumBlocks(|packets|, blockSize)
    ensures Times(k, blockSize) <= |packets|
    ensures Flatten(Blocks(packets, blockSize)[..k]) == packets[..Times(k, blockSize)]
  {
    if k > 0 {
      BlocksPrefix(packets, blockSize, k - 1);
      BlocksStep(packets, blockSize, k - 1);
      var blocks := Blocks(packets, blockSize);
      assert blocks[..k][..k - 1] == blocks[..k - 1];
      assert blocks[..k][k - 1] == Block(packets, blockSize, k - 1);
    }
  }

  // The blocks are the packets, in order, each once.
  lemma BlocksFlatten(packets: seq<Packet>, blockSize: nat)
    requires 0 < blockSize
    ensures Flatten(Blocks(packets, blockSize)) == packets
  {
    var blocks, m := Blocks(packets, blockSize), NumBlocks(|packets|, blockSize);
    NumBlocksBounds(|packets|, blockSize);
    if m > 0 {
      BlocksPrefix(packets, blockSize, m - 1);
      BlocksStep(packets, blockSize, m - 1);
      assert packets[..|packets|] == packets;
    }
  }

  lemma {:induction false} ParitiesLayout(blocks: seq<seq<Packet>>)
    requires NoEmptyBlock(blocks)
    ensures |Parities(blocks)| == |blocks|
    ensures forall b | 0 <= b < |blocks| :: Some(Parities(blocks)[b]) == Parity(blocks[b])
  {
    if blocks != [] {
      ParitiesLayout(blocks[..|blocks| - 1]);
    }
  }

  lemma {:induction false} ParitiesCount(blocks: seq<seq<Packet>>)
    ensures |Parities(blocks)| <= |blocks|
    ensures |Parities(blocks)| == |blocks| ==> NoEmptyBlock(blocks)
  {
    if blocks != [] {
      ParitiesCount(blocks[..|blocks| - 1]);
    }
  }

  // The parity packet of a block with a byte comes after those of the blocks before it, and
  // the others have none.
  lemma {:induction false} ParityRank(blocks: seq<seq<Packet>>, b: nat)
    requires b < |blocks|
    ensures |Parities(blocks[..b])| <= |Parities(blocks)|
    ensures Parities(blocks)[..|Parities(blocks[..b])|] == Parities(blocks[..b])
    ensures Parity(blocks[b]).Some? ==>
      && |Parities(blocks[..b])| < |Parities(blocks)|
      && Parity(blocks[b]) == Some(Parities(blocks)[|Parities(blocks[..b])|])
  {
    var front := blocks[..|blocks| - 1];
    if b < |front| {
      assert front[..b] == blocks[..b];
      ParityRank(front, b);
    }
  }

  lemma ParitiesStep(blocks: seq<seq<Packet>>, k: nat)
    requires k < |blocks|
    ensures Parities(blocks[..k + 1]) == Parities(blocks[..k]) + Emitted(Parity(blocks[k]))
  {
    assert blocks[..k + 1][..k] == blocks[..k];
  }

  // ------------------------------------------------------------ implementation

  lemma HeaderFromBytes(packets: seq<Packet>, h: seq<Byte>)
    requires |h| == HeaderSize(|packets|) && h[0] == ToByte(|packets|)
    requires forall j | 0 <= j < |packets| ::
      h[1 + j * 2] == ToByte(|packets[j]| / 256) && h[2 + j * 2] == ToByte(|packets[j]|)
    ensures h == Header(packets)
  {
    forall k | 1 <= k < |h|
      ensures h[k] == Header(packets)[k]
    {
      HeaderBytes(packets, (k - 1) / 2);
      assert k == 1 + (k - 1) / 2 * 2 || k == 2 + (k - 1) / 2 * 2;
    }
  }

  method WriteHeader(packets: seq<Packet>, redundancy: array<Byte>)
    requires HeaderSize(|packets|) <= redundancy.Length
    modifies redundancy
    ensures redundancy[..HeaderSize(|packets|)] == Header(packets)
    ensures redundancy[HeaderSize(|packets|)..] == old(redundancy[HeaderSize(|packets|)..])
  {
    redundancy[0] := ToByte(|packets|);
    for i := 0 to |packets|
      invariant redundancy[0] == ToByte(|packets|)
      invariant forall j | 0 <= j < i ::
        redundancy[1 + j * 2] == ToByte(|packets[j]| / 256) && redundancy[2 + j * 2] == ToByte(|packets[j]|)
      invariant redundancy[HeaderSize(|packets|)..] == old(redundancy[HeaderSize(|packets|)..])
    {
      var offset := 1 + i * 2;
      redundancy[offset] := ToByte(|packets[i]| / 256);
      redundancy[offset + 1] := ToByte(|packets[i]|);
    }
    HeaderFromBytes(packets, redundancy[..HeaderSize(|packets|)]);
  }

  method XorPayload(packets: seq<Packet>, redundancy: array<Byte>, headerSize: nat)
    requires headerSize + MaxLen(packets) == redundancy.Length
    requires forall k | headerSize <= k < redundancy.Length :: redundancy[k] == 0
    modifies redundancy
    ensures redundancy[..headerSize] == old(redundancy[..headerSize])
    ensures redundancy[headerSize..] == seq(MaxLen(packets), k requires 0 <= k => XorAt(packets, k))
  {
    MaxLenBounds(packets);
    XorInto(packets, redundancy, headerSize);
    assert redundancy[headerSize..] == seq(MaxLen(packets), k requires 0 <= k => XorAt(packets, k));
  }

  method XorPackets(packets: seq<Packet>) returns (parity: Option<Packet>)
    ensures parity == Parity(packets)
  {
    if |packets| == 0 {
      return None;
    }

    var maxSize := 0;
    for i := 0 to |packets|
      invariant maxSize == MaxLen(packets[..i])
    {
      assert packets[..i + 1][..i] == packets[..i];
      if |packets[i]| > maxSize {
        maxSize := |packets[i]|;
      }
    }
    assert packets[..|packets|] == packets;
    if maxSize == 0 {
      return None;
    }

    var headerSize := 1 + |packets| * 2;
    var redundancy := new Byte[headerSize + maxSize](_ => 0);
    WriteHeader(packets, redundancy);
    XorPayload(packets, redundancy, headerSize);
    assert redundancy[..] == Parity(packets).value;
    parity := Some(redundancy[..]);
  }

  // The parity packet for one iteration of Encode's loop.
  method EncodeBlock(packets: seq<Packet>, blockSize: nat, blockIdx: nat) returns (parity: Option<Packet>)
    requires 0 < blockSize && blockIdx < NumBlocks(|packets|, blockSize)
    ensures parity == Parity(Blocks(packets, blockSize)[blockIdx])
  {
    BlockStarts(|packets|, blockSize, blockIdx);
    TimesIsProduct(blockIdx, blockSize);
    var blockStart := blockIdx * blockSize;
    var blockEnd := blockStart + blockSize;
    if blockEnd > |packets| {
      blockEnd := |packets|;
    }
    parity := XorPackets(packets[blockStart..blockEnd]);
  }

  method Encode(encoder: XOREncoder, packets: seq<Packet>) returns (result: seq<Packet>)
    requires encoder.config.Valid()
    ensures result == Encoded(encoder.config, packets)
  {
    hide Parity, Block;
    if |packets| == 0 {
      return packets;
    }
    var numRedundancy := encoder.config.CalculateRedundancyPackets(|packets|);
    if numRedundancy == 0 {
      return packets;
    }

    result := packets;
    var blockSize: nat := encoder.config.blockSize;
    var numBlocks := (|packets| + blockSize - 1) / blockSize;
    QuotientIsDivision(|packets| + blockSize - 1, blockSize);
    ghost var blocks := Blocks(packets, blockSize);
    ghost var parities := [];
    for blockIdx := 0 to numBlocks
      invariant parities == Parities(blocks[..blockIdx]) && result == packets + parities
    {
      var redundancyPacket := EncodeBlock(packets, blockSize, blockIdx);
      ParitiesStep(blocks, blockIdx);
      if redundancyPacket.Some? {
        result := result + [redundancyPacket.value];
      }
      parities := parities + Emitted(redundancyPacket);
    }
    assert blocks[..numBlocks] == blocks;
  }
}
