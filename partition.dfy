/**
 * The SGTIN-96 partition check of the web back end: may a company prefix and
 * an item reference be encoded together in one SGTIN-96 tag?
 *
 * The check is written as seven guarded comparisons, one per partition row of
 * the GS1 EPC Tag Data Standard (SGTIN-96 partition table, section 14.5.1).
 * In C# `0x1UL << 40 + 1` parses as `0x1UL << (40 + 1)`, because `+` binds
 * tighter than `<<`; the shifts below keep that reading, so the code accepts
 * a prefix below 2^(P+1) and a reference up to and including 2^(R+1), where
 * (P, R) are the standard's bit widths.
 */
module Partition {

  const ULONG_LIMIT: int := 0x1_0000_0000_0000_0000
  const UINT_LIMIT: int := 0x1_0000_0000

  /** C# `ulong` and `uint`. */
  type ULong = x: int | 0 <= x < ULONG_LIMIT
  type UInt = x: int | 0 <= x < UINT_LIMIT

  /** `CanRepresentValidSGTIN96Tag`: seven rows tried in order, as the C# source writes them. */
  predicate CanRepresentValidSGTIN96Tag(companyPrefix: ULong, itemReference: UInt)
  {
    if companyPrefix < ((1 as bv64) << (40 + 1)) as int && itemReference <= ((1 as bv32) << (4 + 1)) as int then true
    else if companyPrefix < ((1 as bv64) << (37 + 1)) as int && itemReference <= ((1 as bv32) << (7 + 1)) as int then true
    else if companyPrefix < ((1 as bv64) << (34 + 1)) as int && itemReference <= ((1 as bv32) << (10 + 1)) as int then true
    else if companyPrefix < ((1 as bv64) << (30 + 1)) as int && itemReference <= ((1 as bv32) << (14 + 1)) as int then true
    else if companyPrefix < ((1 as bv64) << (27 + 1)) as int && itemReference <= ((1 as bv32) << (17 + 1)) as int then true
    else if companyPrefix < ((1 as bv64) << (24 + 1)) as int && itemReference <= ((1 as bv32) << (20 + 1)) as int then true
    else if companyPrefix < ((1 as bv64) << (20 + 1)) as int && itemReference <= ((1 as bv32) << (24 + 1)) as int then true
    else false
  }

  /**
   * The rows as the code evaluates them: (exclusive prefix bound, inclusive
   * reference bound) = (2^41, 2^5), (2^38, 2^8), (2^35, 2^11), (2^31, 2^15),
   * (2^28, 2^18), (2^25, 2^21), (2^21, 2^25).
   */
  const CodeRows: seq<(int, int)> := [
    (0x200_0000_0000, 0x20),
    (0x40_0000_0000, 0x100),
    (0x8_0000_0000, 0x800),
    (0x8000_0000, 0x8000),
    (0x1000_0000, 0x4_0000),
    (0x200_0000, 0x20_0000),
    (0x20_0000, 0x200_0000)
  ]

  predicate AcceptedByRow(companyPrefix: int, itemReference: int, row: (int, int))
  {
    companyPrefix < row.0 && itemReference <= row.1
  }

  /**
   * The partition table of the standard as bit widths: the prefix must fit in
   * P bits and the reference in R bits, i.e. (exclusive bounds) prefix < 2^P
   * and reference < 2^R.
   */
  const StandardRows: seq<(int, int)> := [
    (0x100_0000_0000, 0x10),
    (0x20_0000_0000, 0x80),
    (0x4_0000_0000, 0x400),
    (0x4000_0000, 0x4000),
    (0x800_0000, 0x2_0000),
    (0x100_0000, 0x10_0000),
    (0x10_0000, 0x100_0000)
  ]

  predicate FitsStandardRow(companyPrefix: int, itemReference: int, row: (int, int))
  {
    companyPrefix < row.0 && itemReference < row.1
  }

  /** The shifted constants of the seven rows are the bounds listed in CodeRows. */
  lemma ShiftsAreCodeRows()
    ensures ((1 as bv64) << (40 + 1)) as int == CodeRows[0].0 && ((1 as bv32) << (4 + 1)) as int == CodeRows[0].1
    ensures ((1 as bv64) << (37 + 1)) as int == CodeRows[1].0 && ((1 as bv32) << (7 + 1)) as int == CodeRows[1].1
    ensures ((1 as bv64) << (34 + 1)) as int == CodeRows[2].0 && ((1 as bv32) << (10 + 1)) as int == CodeRows[2].1
    ensures ((1 as bv64) << (30 + 1)) as int == CodeRows[3].0 && ((1 as bv32) << (14 + 1)) as int == CodeRows[3].1
    ensures ((1 as bv64) << (27 + 1)) as int == CodeRows[4].0 && ((1 as bv32) << (17 + 1)) as int == CodeRows[4].1
    ensures ((1 as bv64) << (24 + 1)) as int == CodeRows[5].0 && ((1 as bv32) << (20 + 1)) as int == CodeRows[5].1
    ensures ((1 as bv64) << (20 + 1)) as int == CodeRows[6].0 && ((1 as bv32) << (24 + 1)) as int == CodeRows[6].1
  {
  }

  /** The check holds exactly when one of the seven rows, as evaluated, accepts the pair. */
  lemma CanRepresentIffSomeRow(companyPrefix: ULong, itemReference: UInt)
    ensures CanRepresentValidSGTIN96Tag(companyPrefix, itemReference) <==>
      exists i :: 0 <= i < |CodeRows| && AcceptedByRow(companyPrefix, itemReference, CodeRows[i])
  {
    ShiftsAreCodeRows();
    var p, r := companyPrefix, itemReference;
    if AcceptedByRow(p, r, CodeRows[0]) {
    } else if AcceptedByRow(p, r, CodeRows[1]) {
    } else if AcceptedByRow(p, r, CodeRows[2]) {
    } else if AcceptedByRow(p, r, CodeRows[3]) {
    } else if AcceptedByRow(p, r, CodeRows[4]) {
    } else if AcceptedByRow(p, r, CodeRows[5]) {
    } else if AcceptedByRow(p, r, CodeRows[6]) {
    } else {
      assert !CanRepresentValidSGTIN96Tag(p, r);
      assert forall i :: 0 <= i < |CodeRows| ==> !AcceptedByRow(p, r, CodeRows[i]) by {
        forall i | 0 <= i < |CodeRows| ensures !AcceptedByRow(p, r, CodeRows[i]) {
          assert i in {0, 1, 2, 3, 4, 5, 6};
        }
      }
    }
  }

  /** Every pair the standard's table admits is accepted. */
  lemma StandardPairsAccepted(companyPrefix: ULong, itemReference: UInt, i: nat)
    requires i < |StandardRows| && FitsStandardRow(companyPrefix, itemReference, StandardRows[i])
    ensures CanRepresentValidSGTIN96Tag(companyPrefix, itemReference)
  {
    assert AcceptedByRow(companyPrefix, itemReference, CodeRows[i]);
    CanRepresentIffSomeRow(companyPrefix, itemReference);
  }

  /** ... but the check is wider than the standard: a 41-bit prefix passes. */
  lemma WiderThanStandard()
    ensures CanRepresentValidSGTIN96Tag(0x100_0000_0000, 0)
    ensures forall i :: 0 <= i < |StandardRows| ==> !FitsStandardRow(0x100_0000_0000, 0, StandardRows[i])
  {
  }

  /** The prefix bound is strict: no prefix of 2^41 or more passes, whatever the reference. */
  lemma PrefixBoundStrict(companyPrefix: ULong, itemReference: UInt)
    requires companyPrefix >= 0x200_0000_0000
    ensures !CanRepresentValidSGTIN96Tag(companyPrefix, itemReference)
  {
  }

  /** The reference bound is inclusive: 2^25 passes with prefix 0, 2^25 + 1 does not. */
  lemma ReferenceBoundInclusive()
    ensures CanRepresentValidSGTIN96Tag(0, 0x200_0000)
    ensures !CanRepresentValidSGTIN96Tag(0, 0x200_0001)
    ensures CanRepresentValidSGTIN96Tag(0x1ff_ffff_ffff, 0x20)
  {
  }

  /** Shrinking the prefix or the reference never turns an accepted pair into a rejected one. */
  lemma DownwardClosed(p: ULong, r: UInt, p': ULong, r': UInt)
    requires CanRepresentValidSGTIN96Tag(p, r)
    requires p' <= p && r' <= r
    ensures CanRepresentValidSGTIN96Tag(p', r')
  {
  }

  /** The documented sample (3319361, 407205) passes, through the sixth row and not the fifth. */
  lemma SamplePairAccepted()
    ensures CanRepresentValidSGTIN96Tag(3319361, 407205)
    ensures AcceptedByRow(3319361, 407205, CodeRows[5])
    ensures !AcceptedByRow(3319361, 407205, CodeRows[4])
    ensures forall i :: 0 <= i < 5 ==> !AcceptedByRow(3319361, 407205, CodeRows[i])
  {
  }
}
