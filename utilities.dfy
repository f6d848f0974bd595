/**
 * Identifier and date helpers shared by the back end and its clients:
 * GUID rendering in the "N" format and the fixed UTC date format
 * `yyyyMMddTHH:mm:ssZ`. `T` is a literal character; `Z` is written as a
 * literal when formatting, and read as a UTC designator (`Z` or `GMT`, in
 * any letter case) when parsing.
 */
module Utilities {
  import opened Wrappers
  import opened Numerals

  const HexDigits: string := "0123456789abcdef"
  const DecimalDigits: string := "0123456789"

  lemma DigitAlphabetsDistinct()
    ensures DistinctChars(HexDigits) && DistinctChars(DecimalDigits)
  {
    forall i | 0 <= i < |HexDigits|
      ensures HexDigits[i] as int == if i < 10 then 48 + i else 87 + i
    {
    }
  }

  // ---------------------------------------------------------------- GUIDs

  /**
   * A GUID, identified with the 128-bit number that its "N" rendering spells
   * out (the fields in the order the rendering prints them).
   */
  type Guid = x: nat | x < Power(16, 32)

  /** `GUIDToString`: the "N" format, 32 lower-case hexadecimal digits without separators. */
  function GUIDToString(guid: Guid): (s: string)
    ensures |s| == 32 && AllIn(HexDigits, s)
  {
    Numeral(HexDigits, guid, 32)
  }

  /**
   * `GetGUID(suffix)`: a newly drawn GUID in the "N" format followed by the
   * suffix. Drawing is left to the caller, which passes the GUID it drew.
   */
  function GetGUID(guid: Guid, suffix: string): (s: string)
    ensures |s| == 32 + |suffix|
    ensures AllIn(HexDigits, s[..32]) && s[32..] == suffix
  {
    GUIDToString(guid) + suffix
  }

  /** The "N" rendering can be read back, so distinct GUIDs render differently. */
  lemma GUIDToStringRoundTrip(guid: Guid)
    ensures ValueOf(HexDigits, GUIDToString(guid)) == guid
  {
    DigitAlphabetsDistinct();
    ValueOfNumeral(HexDigits, guid, 32);
  }

  lemma GetGUIDInjective(g1: Guid, g2: Guid, suffix: string)
    requires GetGUID(g1, suffix) == GetGUID(g2, suffix)
    ensures g1 == g2
  {
    assert GUIDToString(g1) == GetGUID(g1, suffix)[..32];
    GUIDToStringRoundTrip(g1);
    GUIDToStringRoundTrip(g2);
  }

  // ---------------------------------------------------------------- dates

  /** A `DateTime` in UTC: calendar fields and the sub-second part in 100 ns ticks. */
  datatype DateTime = DateTime(year: int, month: int, day: int, hour: int, minute: int, second: int, ticks: int)

  predicate IsLeapYear(year: int)
  {
    year % 4 == 0 && (year % 100 != 0 || year % 400 == 0)
  }

  function DaysInMonth(year: int, month: int): int
  {
    if month == 2 then (if IsLeapYear(year) then 29 else 28)
    else if month in {4, 6, 9, 11} then 30
    else 31
  }

  /** The range of the Gregorian calendar that a .NET `DateTime` covers. */
  predicate ValidDateTime(d: DateTime)
  {
    && 1 <= d.year <= 9999
    && 1 <= d.month <= 12
    && 1 <= d.day <= DaysInMonth(d.year, d.month)
    && 0 <= d.hour < 24
    && 0 <= d.minute < 60
    && 0 <= d.second < 60
    && 0 <= d.ticks < 10_000_000
  }

  type UtcDateTime = d: DateTime | ValidDateTime(d) witness DateTime(1, 1, 1, 0, 0, 0, 0)

  /** The instant without its sub-second part. */
  function WholeSeconds(d: UtcDateTime): UtcDateTime
  {
    d.(ticks := 0)
  }

  function Digits(n: nat, width: nat): (s: string)
  {
    Numeral(DecimalDigits, n, width)
  }

  /** `ConvertDateTimeToUTCString`: format `yyyyMMddTHH:mm:ssZ` with zero-padded fields. */
  function ConvertDateTimeToUTCString(d: UtcDateTime): (s: string)
    ensures |s| == 18
  {
    Digits(d.year, 4) + Digits(d.month, 2) + Digits(d.day, 2) + "T"
      + Digits(d.hour, 2) + ":" + Digits(d.minute, 2) + ":" + Digits(d.second, 2) + "Z"
  }

  /**
   * The time-zone designator that an unquoted `Z` of a .NET exact-parse format
   * accepts: "Z" or "GMT", in any letter case, ending the string.
   */
  predicate IsUtcDesignator(d: string)
  {
    || (|d| == 1 && (d[0] == 'Z' || d[0] == 'z'))
    || (|d| == 3 && (d[0] == 'G' || d[0] == 'g') && (d[1] == 'M' || d[1] == 'm') && (d[2] == 'T' || d[2] == 't'))
  }

  /**
   * The shape the parser accepts: digits where the pattern has fields, the
   * literals `T`, `:` and `:` in between, then a UTC designator.
   */
  predicate MatchesUtcPattern(s: string)
  {
    && |s| >= 17
    && AllIn(DecimalDigits, s[0..8])
    && s[8] == 'T'
    && AllIn(DecimalDigits, s[9..11])
    && s[11] == ':'
    && AllIn(DecimalDigits, s[12..14])
    && s[14] == ':'
    && AllIn(DecimalDigits, s[15..17])
    && IsUtcDesignator(s[17..])
  }

  /** The decimal number written in s[from..to]. */
  function Field(s: string, from: nat, to: nat): nat
    requires from <= to <= |s| && AllIn(DecimalDigits, s[from..to])
  {
    ValueOf(DecimalDigits, s[from..to])
  }

  function FieldsOf(s: string): DateTime
    requires MatchesUtcPattern(s)
  {
    assert AllIn(DecimalDigits, s[0..4]) && AllIn(DecimalDigits, s[4..6]) && AllIn(DecimalDigits, s[6..8]);
    DateTime(Field(s, 0, 4), Field(s, 4, 6), Field(s, 6, 8), Field(s, 9, 11), Field(s, 12, 14), Field(s, 15, 17), 0)
  }

  /**
   * `TryConvertUTCStringToDateTime`: exact parse of the format; fails (None)
   * unless the pattern matches and the fields form a calendar date and a clock
   * time. The designator makes the result UTC, so it is not kept.
   */
  function TryConvertUTCStringToDateTime(s: string): (r: Option<UtcDateTime>)
    ensures r.Some? ==> MatchesUtcPattern(s) && r.value.ticks == 0
  {
    if MatchesUtcPattern(s) && ValidDateTime(FieldsOf(s)) then Some(FieldsOf(s)) else None
  }

  lemma SmallPowers()
    ensures Power(10, 2) == 100 && Power(10, 4) == 10000
  {
    assert Power(10, 1) == 10;
    assert Power(10, 3) == 1000;
  }

  /** The pieces of a formatted date, position by position. */
  lemma FormattedPieces(d: UtcDateTime)
    ensures var s := ConvertDateTimeToUTCString(d);
      && s[0..4] == Digits(d.year, 4) && s[4..6] == Digits(d.month, 2) && s[6..8] == Digits(d.day, 2)
      && s[8] == 'T' && s[9..11] == Digits(d.hour, 2) && s[11] == ':' && s[12..14] == Digits(d.minute, 2)
      && s[14] == ':' && s[15..17] == Digits(d.second, 2) && s[17] == 'Z'
  {
    var y, mo, da := Digits(d.year, 4), Digits(d.month, 2), Digits(d.day, 2);
    var h, mi, se := Digits(d.hour, 2), Digits(d.minute, 2), Digits(d.second, 2);
    var s := ConvertDateTimeToUTCString(d);
    assert s == y + mo + da + "T" + h + ":" + mi + ":" + se + "Z";
    assert s[0..4] == y;
    assert s[4..6] == mo;
    assert s[6..8] == da;
    assert s[9..11] == h;
    assert s[12..14] == mi;
    assert s[15..17] == se;
  }

  /** The year, month and day written in an 8-digit day key `yyyyMMdd`. */
  function DayOfKey(k: string): (nat, nat, nat)
    requires |k| == 8 && AllIn(DecimalDigits, k)
  {
    assert AllIn(DecimalDigits, k[..4]) && AllIn(DecimalDigits, k[4..6]) && AllIn(DecimalDigits, k[6..8]);
    (ValueOf(DecimalDigits, k[..4]), ValueOf(DecimalDigits, k[4..6]), ValueOf(DecimalDigits, k[6..8]))
  }

  /** The first 8 characters of a formatted date spell the zero-padded year, month and day. */
  lemma DayKeyOfFormatted(d: UtcDateTime)
    ensures var k := ConvertDateTimeToUTCString(d)[..8];
      && k == Digits(d.year, 4) + Digits(d.month, 2) + Digits(d.day, 2)
      && |k| == 8 && AllIn(DecimalDigits, k)
      && DayOfKey(k) == (d.year, d.month, d.day)
  {
    var y, mo, da := Digits(d.year, 4), Digits(d.month, 2), Digits(d.day, 2);
    DayKeyText(d);
    var k := ConvertDateTimeToUTCString(d)[..8];
    assert k[..4] == y && k[4..6] == mo && k[6..8] == da;
    SmallPowers();
    DecimalRoundTrip(d.year, 4);
    DecimalRoundTrip(d.month, 2);
    DecimalRoundTrip(d.day, 2);
  }

  lemma DayKeyText(d: UtcDateTime)
    ensures ConvertDateTimeToUTCString(d)[..8] == Digits(d.year, 4) + Digits(d.month, 2) + Digits(d.day, 2)
  {
    var s := ConvertDateTimeToUTCString(d);
    FormattedPieces(d);
    assert s[..8] == s[0..4] + s[4..6] + s[6..8];
  }

  lemma DecimalRoundTrip(n: nat, width: nat)
    requires n < Power(10, width)
    ensures ValueOf(DecimalDigits, Digits(n, width)) == n
  {
    DigitAlphabetsDistinct();
    ValueOfNumeral(DecimalDigits, n, width);
  }

  /** Two formatted dates share their first 8 characters exactly when they fall on the same day. */
  lemma SameDayKeyIffSameDay(d1: UtcDateTime, d2: UtcDateTime)
    ensures ConvertDateTimeToUTCString(d1)[..8] == ConvertDateTimeToUTCString(d2)[..8]
        <==> (d1.year, d1.month, d1.day) == (d2.year, d2.month, d2.day)
  {
    DayKeyOfFormatted(d1);
    DayKeyOfFormatted(d2);
  }

  /** Parsing a formatted date gives the date back, to whole seconds. */
  lemma ParseOfFormat(d: UtcDateTime)
    ensures TryConvertUTCStringToDateTime(ConvertDateTimeToUTCString(d)) == Some(WholeSeconds(d))
  {
    FormattedMatches(d);
    FormattedFields(d);
  }

  lemma FormattedMatches(d: UtcDateTime)
    ensures MatchesUtcPattern(ConvertDateTimeToUTCString(d))
  {
    var s := ConvertDateTimeToUTCString(d);
    FormattedPieces(d);
    assert s[0..8] == s[0..4] + s[4..6] + s[6..8];
  }

  lemma FormattedFields(d: UtcDateTime)
    requires MatchesUtcPattern(ConvertDateTimeToUTCString(d))
    ensures FieldsOf(ConvertDateTimeToUTCString(d)) == WholeSeconds(d)
  {
    var s := ConvertDateTimeToUTCString(d);
    FormattedPieces(d);
    DigitAlphabetsDistinct();
    SmallPowers();
    ValueOfNumeral(DecimalDigits, d.year, 4);
    ValueOfNumeral(DecimalDigits, d.month, 2);
    ValueOfNumeral(DecimalDigits, d.day, 2);
    ValueOfNumeral(DecimalDigits, d.hour, 2);
    ValueOfNumeral(DecimalDigits, d.minute, 2);
    ValueOfNumeral(DecimalDigits, d.second, 2);
  }

  /**
   * Formatting a parsed date gives back the accepted string with its
   * designator written "Z"; a string already ending in "Z" comes back as is.
   */
  lemma FormatOfParse(s: string)
    requires TryConvertUTCStringToDateTime(s).Some?
    ensures |s| >= 17 && ConvertDateTimeToUTCString(TryConvertUTCStringToDateTime(s).value) == s[..17] + "Z"
    ensures s[17..] == "Z" ==> ConvertDateTimeToUTCString(TryConvertUTCStringToDateTime(s).value) == s
  {
    var z := s[..17] + "Z";
    assert z[..17] == s[..17] && z[17..] == "Z";
    DesignatorIrrelevant(s, z);
    FormatOfParseCanonical(z);
    if s[17..] == "Z" {
      assert s == s[..17] + s[17..];
    }
  }

  lemma FormatOfParseCanonical(s: string)
    requires TryConvertUTCStringToDateTime(s).Some? && |s| == 18 && s[17] == 'Z'
    ensures ConvertDateTimeToUTCString(TryConvertUTCStringToDateTime(s).value) == s
  {
    var d := TryConvertUTCStringToDateTime(s).value;
    var f := ConvertDateTimeToUTCString(d);
    assert d == FieldsOf(s);
    FieldsRenderBack(s);
    FormattedPieces(d);
    Decompose(f);
    Decompose(s);
  }

  /** Only the designator differs: two strings that agree before it parse alike. */
  lemma DesignatorIrrelevant(s: string, s': string)
    requires |s| >= 17 && |s'| >= 17 && s[..17] == s'[..17]
    requires IsUtcDesignator(s[17..]) && IsUtcDesignator(s'[17..])
    ensures TryConvertUTCStringToDateTime(s) == TryConvertUTCStringToDateTime(s')
  {
    assert s[0..8] == s[..17][0..8] == s'[0..8];
    assert s[0..4] == s[..17][0..4] == s'[0..4];
    assert s[4..6] == s[..17][4..6] == s'[4..6];
    assert s[6..8] == s[..17][6..8] == s'[6..8];
    assert s[9..11] == s[..17][9..11] == s'[9..11];
    assert s[12..14] == s[..17][12..14] == s'[12..14];
    assert s[15..17] == s[..17][15..17] == s'[15..17];
    assert s[8] == s[..17][8] == s'[8];
    assert s[11] == s[..17][11] == s'[11];
    assert s[14] == s[..17][14] == s'[14];
  }

  /** "GMT" and a lower-case "z" are read as the same instant as "Z". */
  lemma DesignatorVariants(d: UtcDateTime)
    ensures var z := ConvertDateTimeToUTCString(d);
      && TryConvertUTCStringToDateTime(z[..17] + "GMT") == Some(WholeSeconds(d))
      && TryConvertUTCStringToDateTime(z[..17] + "gmt") == Some(WholeSeconds(d))
      && TryConvertUTCStringToDateTime(z[..17] + "z") == Some(WholeSeconds(d))
      && TryConvertUTCStringToDateTime(z[..17]) == None
  {
    var z := ConvertDateTimeToUTCString(d);
    ParseOfFormat(d);
    FormattedPieces(d);
    assert z[17..] == "Z";
    DesignatorIrrelevant(z, z[..17] + "GMT");
    DesignatorIrrelevant(z, z[..17] + "gmt");
    DesignatorIrrelevant(z, z[..17] + "z");
    assert (z[..17])[17..] == "";
  }

  /** Each field of an accepted string, re-rendered at its width, is the text it was read from. */
  lemma FieldsRenderBack(s: string)
    requires MatchesUtcPattern(s)
    ensures var d := FieldsOf(s);
      && Digits(d.year, 4) == s[0..4] && Digits(d.month, 2) == s[4..6] && Digits(d.day, 2) == s[6..8]
      && Digits(d.hour, 2) == s[9..11] && Digits(d.minute, 2) == s[12..14] && Digits(d.second, 2) == s[15..17]
  {
    assert AllIn(DecimalDigits, s[0..4]) && AllIn(DecimalDigits, s[4..6]) && AllIn(DecimalDigits, s[6..8]);
    FieldRendersBack(s, 0, 4);
    FieldRendersBack(s, 4, 6);
    FieldRendersBack(s, 6, 8);
    FieldRendersBack(s, 9, 11);
    FieldRendersBack(s, 12, 14);
    FieldRendersBack(s, 15, 17);
  }

  lemma FieldRendersBack(s: string, from: nat, to: nat)
    requires from <= to <= |s| && AllIn(DecimalDigits, s[from..to])
    ensures Digits(Field(s, from, to), to - from) == s[from..to]
  {
    NumeralOfValue(DecimalDigits, s[from..to]);
  }

  lemma Decompose(s: string)
    requires |s| == 18
    ensures s == s[0..4] + s[4..6] + s[6..8] + [s[8]] + s[9..11] + [s[11]] + s[12..14] + [s[14]] + s[15..17] + [s[17]]
  {
  }

  /**
   * A string is accepted exactly when it is the rendering of some date with
   * its final "Z" written as any UTC designator.
   */
  lemma AcceptedIffFormatted(s: string)
    ensures TryConvertUTCStringToDateTime(s).Some? <==>
      |s| >= 17 && IsUtcDesignator(s[17..]) && exists d: UtcDateTime :: ConvertDateTimeToUTCString(d) == s[..17] + "Z"
  {
    if TryConvertUTCStringToDateTime(s).Some? {
      FormatOfParse(s);
    }
    if |s| >= 17 && IsUtcDesignator(s[17..]) && exists d: UtcDateTime :: ConvertDateTimeToUTCString(d) == s[..17] + "Z" {
      var d: UtcDateTime :| ConvertDateTimeToUTCString(d) == s[..17] + "Z";
      var z := s[..17] + "Z";
      ParseOfFormat(d);
      assert z[..17] == s[..17] && z[17..] == "Z";
      DesignatorIrrelevant(s, z);
    }
  }
}
