/**
 * The external SGTIN-96 tag library and the number parsers, seen from the
 * inventory core. Their behaviour is not part of this model: the core is
 * verified for every choice of these functions.
 */
module Epc {
  import opened Wrappers
  import opened Partition

  /**
   * A decoded SGTIN-96 tag as the library hands it out: the two textual
   * fields the core reads and the hexadecimal form that `ToBinary()` returns.
   */
  datatype Sgtin96Tag = Sgtin96Tag(companyPrefix: string, indicatorAndItemReference: string, binary: string)

  /**
   * `EpcTag.FromBinary`, `ulong.Parse` and `uint.Parse` (NumberStyles.Any);
   * `None` stands for the exception each of them throws on bad input.
   */
  datatype Codec = Codec(
    fromBinary: string -> Option<Sgtin96Tag>,
    parseULong: string -> Option<ULong>,
    parseUInt: string -> Option<UInt>)
}
