/** Forward error correction settings (common/fec/fec.go). */
module FecConfig {

  import opened Wrappers

  datatype ConfigError = RedundancyOutOfRange | BlockSizeNotPositive | BlockSizeTooLarge

  datatype Config = Config(enabled: bool, redundancyPercent: int, blockSize: int) {

    predicate Valid() {
      0 <= redundancyPercent <= 100 && 1 <= blockSize <= 255
    }

    /** The checks in the order the code makes them; the first failing one is reported. */
    function Validate(): (r: Result<(), ConfigError>)
      ensures r.Success? <==> Valid()
      ensures r == Failure(RedundancyOutOfRange) <==> !(0 <= redundancyPercent <= 100)
      ensures r == Failure(BlockSizeTooLarge) ==> blockSize > 255
      ensures r == Failure(BlockSizeNotPositive) ==> blockSize < 1
    {
      if redundancyPercent < 0 || redundancyPercent > 100 then Failure(RedundancyOutOfRange)
      else if blockSize <= 0 then Failure(BlockSizeNotPositive)
      else if blockSize > 255 then Failure(BlockSizeTooLarge)
      else Success(())
    }

    /**
     The percentage rounded down, but at least one when redundancy is on. Encode uses this
     number only as an on/off gate.
     */
    function CalculateRedundancyPackets(dataPackets: nat): (r: nat)
      requires Valid()
      ensures r == 0 <==> redundancyPercent == 0
      ensures r > 1 ==> 100 * r <= dataPackets * redundancyPercent
      ensures r > 0 ==> dataPackets * redundancyPercent < 100 * (r + 1)
    {
      if redundancyPercent == 0 then 0
      else
        var redundancy := dataPackets * redundancyPercent / 100;
        if redundancy == 0 && redundancyPercent > 0 then 1 else redundancy
    }
  }
}
