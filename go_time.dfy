/**
 * The part of Go's `time` package that names a restored table: a
 * `time.Time` as its wall-clock fields in the location it carries, and
 * `Format` with the layout "-20060102-15-04-05".
 *
 * Parsing RFC 3339 text (section 5.6 of RFC 3339) into a `DateTime` is
 * not modelled; callers receive it as a function.
 */
module GoTime {

  /**
   * A `time.Time` as `Date()` and `Clock()` report it: the calendar and
   * clock fields in the time's own location, whose offset from UTC is
   * `offsetSeconds`.
   */
  datatype DateTime = DateTime(
    year: int, month: int, day: int,
    hour: int, minute: int, second: int, nanosecond: int,
    offsetSeconds: int)

  predicate IsLeapYear(y: int) {
    y % 4 == 0 && (y % 100 != 0 || y % 400 == 0)
  }

  function DaysInMonth(year: int, month: int): int
    requires 1 <= month <= 12
  {
    if month == 2 then (if IsLeapYear(year) then 29 else 28)
    else if month == 4 || month == 6 || month == 9 || month == 11 then 30
    else 31
  }

  /**
   * The fields an RFC 3339 date-time can denote: a four-digit year,
   * in-range calendar and clock fields, and an offset of less than a day.
   */
  predicate Valid(t: DateTime) {
    && 0 <= t.year <= 9999
    && 1 <= t.month <= 12
    && 1 <= t.day <= DaysInMonth(t.year, t.month)
    && 0 <= t.hour < 24
    && 0 <= t.minute < 60
    && 0 <= t.second < 60
    && 0 <= t.nanosecond < 1_000_000_000
    && -86400 < t.offsetSeconds < 86400
  }

  // ---------------------------------------------------------------------
  // Decimal digits
  // ---------------------------------------------------------------------

  predicate IsDigit(c: char) { '0' <= c <= '9' }

  predicate AllDigits(s: string) { forall i :: 0 <= i < |s| ==> IsDigit(s[i]) }

  function DigitChar(d: nat): (c: char)
    requires d < 10
    ensures IsDigit(c)
  {
    ('0' as int + d) as char
  }

  function DigitValue(c: char): nat
    requires IsDigit(c)
  {
    c as int - '0' as int
  }

  function Pow10(k: nat): nat {
    if k == 0 then 1 else 10 * Pow10(k - 1)
  }

  /** The decimal digits of `u` without leading zeros ("0" for zero). */
  function Decimal(u: nat): (r: string)
    ensures |r| >= 1 && AllDigits(r)
    decreases u
  {
    if u < 10 then [DigitChar(u)] else Decimal(u / 10) + [DigitChar(u % 10)]
  }

  /** The number a string of decimal digits denotes. */
  function DecimalValue(s: string): nat
    requires AllDigits(s)
  {
    if |s| == 0 then 0 else 10 * DecimalValue(s[..|s| - 1]) + DigitValue(s[|s| - 1])
  }

  function Zeros(k: nat): (r: string)
    ensures |r| == k && AllDigits(r)
  {
    if k == 0 then [] else Zeros(k - 1) + ['0']
  }

  /**
   * Go's `appendInt(nil, x, width)` from package time: a '-' for a
   * negative `x`, then the digits of its magnitude padded on the left
   * with zeros to `width`.
   */
  function AppendInt(x: int, width: nat): string {
    if x < 0 then "-" + PadLeft(Decimal(-x), width) else PadLeft(Decimal(x), width)
  }

  /** `d` with zeros in front of it up to `width` characters. */
  function PadLeft(d: string, width: nat): (r: string)
    ensures |r| == if |d| < width then width else |d|
  {
    if |d| < width then Zeros(width - |d|) + d else d
  }

  /** `t.Format("-20060102-15-04-05")`: the stamp appended to a restored table's name. */
  function FormatStamp(t: DateTime): string {
    "-" + AppendInt(t.year, 4) + AppendInt(t.month, 2) + AppendInt(t.day, 2)
    + "-" + AppendInt(t.hour, 2) + "-" + AppendInt(t.minute, 2) + "-" + AppendInt(t.second, 2)
  }

  // ---------------------------------------------------------------------
  // Fixed-width fields decode back to their values
  // ---------------------------------------------------------------------

  lemma {:induction false} DecimalLength(u: nat, k: nat)
    requires k >= 1 && u < Pow10(k)
    ensures |Decimal(u)| <= k
    decreases u
  {
    if u >= 10 {
      assert Pow10(1) == 10;
      assert k >= 2;
      assert u / 10 < Pow10(k - 1);
      DecimalLength(u / 10, k - 1);
    }
  }

  lemma {:induction false} DecimalRoundTrip(u: nat)
    ensures DecimalValue(Decimal(u)) == u
    decreases u
  {
    if u >= 10 {
      var d := Decimal(u / 10);
      DecimalRoundTrip(u / 10);
      assert (d + [DigitChar(u % 10)])[..|d|] == d;
    }
  }

  lemma {:induction false} LeadingZerosIgnored(k: nat, d: string)
    requires AllDigits(d)
    ensures DecimalValue(Zeros(k) + d) == DecimalValue(d)
    decreases |d|, k
  {
    if |d| == 0 {
      assert Zeros(k) + d == Zeros(k);
      if k > 0 {
        assert Zeros(k)[..k - 1] == Zeros(k - 1) + [];
        LeadingZerosIgnored(k - 1, []);
      }
    } else {
      assert (Zeros(k) + d)[..|Zeros(k) + d| - 1] == Zeros(k) + d[..|d| - 1];
      LeadingZerosIgnored(k, d[..|d| - 1]);
    }
  }

  /**
   * A field below `10^width` is written as exactly `width` digits that
   * denote it.
   */
  lemma AppendIntFixedWidth(x: int, width: nat)
    requires width >= 1 && 0 <= x < Pow10(width)
    ensures |AppendInt(x, width)| == width
    ensures AllDigits(AppendInt(x, width))
    ensures DecimalValue(AppendInt(x, width)) == x
  {
    DecimalLength(x, width);
    DecimalRoundTrip(x);
    PadLeftDigits(Decimal(x), width);
  }

  /** Padding digits on the left to `width` keeps the number they denote. */
  lemma PadLeftDigits(d: string, width: nat)
    requires AllDigits(d) && |d| <= width
    ensures |PadLeft(d, width)| == width
    ensures AllDigits(PadLeft(d, width))
    ensures DecimalValue(PadLeft(d, width)) == DecimalValue(d)
  {
    LeadingZerosIgnored(width - |d|, d);
    AllDigitsConcat(Zeros(width - |d|), d);
  }

  lemma AllDigitsConcat(a: string, b: string)
    requires AllDigits(a) && AllDigits(b)
    ensures AllDigits(a + b)
  {
    forall i | 0 <= i < |a + b|
      ensures IsDigit((a + b)[i])
    {
      if i >= |a| {
        assert (a + b)[i] == b[i - |a|];
      }
    }
  }

  /** Where the layout "-20060102-15-04-05" puts fields of widths 4, 2, 2, 2, 2, 2. */
  lemma LayoutPositions(y: string, mo: string, d: string, h: string, mi: string, s: string)
    requires |y| == 4 && |mo| == 2 && |d| == 2 && |h| == 2 && |mi| == 2 && |s| == 2
    ensures var stamp := "-" + y + mo + d + "-" + h + "-" + mi + "-" + s;
      && |stamp| == 18
      && stamp[1..5] == y && stamp[5..7] == mo && stamp[7..9] == d
      && stamp[10..12] == h && stamp[13..15] == mi && stamp[16..18] == s
      && stamp[0] == '-' && stamp[9] == '-' && stamp[12] == '-' && stamp[15] == '-'
  {
  }

  /** The six zero-padded fields of a stamp, in the order the layout writes them. */
  lemma StampFields(t: DateTime)
    requires Valid(t)
    ensures var stamp := FormatStamp(t);
      && |stamp| == 18
      && stamp[1..5] == AppendInt(t.year, 4)
      && stamp[5..7] == AppendInt(t.month, 2)
      && stamp[7..9] == AppendInt(t.day, 2)
      && stamp[10..12] == AppendInt(t.hour, 2)
      && stamp[13..15] == AppendInt(t.minute, 2)
      && stamp[16..18] == AppendInt(t.second, 2)
      && stamp[0] == '-' && stamp[9] == '-' && stamp[12] == '-' && stamp[15] == '-'
  {
    assert Pow10(2) == 100;
    assert Pow10(4) == 10000;
    AppendIntFixedWidth(t.year, 4);
    AppendIntFixedWidth(t.month, 2);
    AppendIntFixedWidth(t.day, 2);
    AppendIntFixedWidth(t.hour, 2);
    AppendIntFixedWidth(t.minute, 2);
    AppendIntFixedWidth(t.second, 2);
    LayoutPositions(AppendInt(t.year, 4), AppendInt(t.month, 2), AppendInt(t.day, 2),
                    AppendInt(t.hour, 2), AppendInt(t.minute, 2), AppendInt(t.second, 2));
  }

  /**
   * `s` is an 18-character stamp spelling the wall-clock fields of `t`:
   * '-', the date as YYYYMMDD, then '-HH', '-mm', '-ss', every field
   * made of digits that decode back to the field.
   */
  predicate IsStampOf(s: string, t: DateTime) {
    && |s| == 18
    && s[0] == '-' && s[9] == '-' && s[12] == '-' && s[15] == '-'
    && AllDigits(s[1..5]) && AllDigits(s[5..7]) && AllDigits(s[7..9])
    && AllDigits(s[10..12]) && AllDigits(s[13..15]) && AllDigits(s[16..18])
    && DecimalValue(s[1..5]) == t.year
    && DecimalValue(s[5..7]) == t.month
    && DecimalValue(s[7..9]) == t.day
    && DecimalValue(s[10..12]) == t.hour
    && DecimalValue(s[13..15]) == t.minute
    && DecimalValue(s[16..18]) == t.second
  }

  /** For an RFC 3339 time the stamp spells its fields, read in the time's own offset. */
  lemma StampLayout(t: DateTime)
    requires Valid(t)
    ensures IsStampOf(FormatStamp(t), t)
  {
    assert Pow10(2) == 100;
    assert Pow10(4) == 10000;
    AppendIntFixedWidth(t.year, 4);
    AppendIntFixedWidth(t.month, 2);
    AppendIntFixedWidth(t.day, 2);
    AppendIntFixedWidth(t.hour, 2);
    AppendIntFixedWidth(t.minute, 2);
    AppendIntFixedWidth(t.second, 2);
    StampFields(t);
  }

  /**
   * Two RFC 3339 times with the same stamp agree on every field from the
   * year down to the second.
   */
  lemma StampInjective(t1: DateTime, t2: DateTime)
    requires Valid(t1) && Valid(t2)
    requires FormatStamp(t1) == FormatStamp(t2)
    ensures t1.year == t2.year && t1.month == t2.month && t1.day == t2.day
    ensures t1.hour == t2.hour && t1.minute == t2.minute && t1.second == t2.second
  {
    StampLayout(t1);
    StampLayout(t2);
  }

  // ---------------------------------------------------------------------
  // The stamp is read in the time's own offset
  // ---------------------------------------------------------------------

  /** Days from 1970-01-01 to the given civil date (proleptic Gregorian calendar). */
  function DaysFromCivil(year: int, month: int, day: int): int
    requires 1 <= month <= 12
  {
    var y := if month <= 2 then year - 1 else year;
    var era := (if y >= 0 then y else y - 399) / 400;
    var yoe := y - era * 400;
    var mp := if month > 2 then month - 3 else month + 9;
    var doy := (153 * mp + 2) / 5 + day - 1;
    var doe := yoe * 365 + yoe / 4 - yoe / 100 + doy;
    era * 146097 + doe - 719468
  }

  /** The instant a time denotes, in seconds since 1970-01-01T00:00:00Z. */
  function UnixSeconds(t: DateTime): int
    requires 1 <= t.month <= 12
  {
    DaysFromCivil(t.year, t.month, t.day) * 86400
    + t.hour * 3600 + t.minute * 60 + t.second - t.offsetSeconds
  }

  /** The stamp of a time, read off its fields' two- and four-digit forms. */
  lemma StampOfFields(t: DateTime, year: string, month: string, day: string, hour: string, minute: string, second: string)
    requires AppendInt(t.year, 4) == year && AppendInt(t.month, 2) == month && AppendInt(t.day, 2) == day
    requires AppendInt(t.hour, 2) == hour && AppendInt(t.minute, 2) == minute && AppendInt(t.second, 2) == second
    ensures FormatStamp(t) == "-" + year + month + day + "-" + hour + "-" + minute + "-" + second
  {
  }

  /** The digits of the fields of the sample times used below. */
  lemma SampleFields()
    ensures AppendInt(2021, 4) == "2021" && AppendInt(3, 2) == "03" && AppendInt(4, 2) == "04"
    ensures AppendInt(5, 2) == "05" && AppendInt(6, 2) == "06" && AppendInt(7, 2) == "07"
  {
    assert Decimal(2021) == "2021";
  }

  /** 2021-03-04T05:06:07+01:00, whatever its fraction of a second, gives "-20210304-05-06-07". */
  lemma StampAtPlusOneHour(t: DateTime)
    requires t.year == 2021 && t.month == 3 && t.day == 4
    requires t.hour == 5 && t.minute == 6 && t.second == 7 && t.offsetSeconds == 3600
    ensures FormatStamp(t) == "-" + "2021" + "03" + "04" + "-" + "05" + "-" + "06" + "-" + "07"
  {
    SampleFields();
    StampOfFields(t, "2021", "03", "04", "05", "06", "07");
  }

  /** 2021-03-04T04:06:07Z gives "-20210304-04-06-07". */
  lemma StampAtUtc(t: DateTime)
    requires t.year == 2021 && t.month == 3 && t.day == 4
    requires t.hour == 4 && t.minute == 6 && t.second == 7 && t.offsetSeconds == 0
    ensures FormatStamp(t) == "-" + "2021" + "03" + "04" + "-" + "04" + "-" + "06" + "-" + "07"
  {
    SampleFields();
    StampOfFields(t, "2021", "03", "04", "04", "06", "07");
  }

  /**
   * The stamp is not converted to UTC: 2021-03-04T05:06:07+01:00 and
   * 2021-03-04T04:06:07Z denote the same instant but get different stamps.
   */
  lemma StampUsesCarriedOffset(east: DateTime, utc: DateTime)
    requires east.year == 2021 && east.month == 3 && east.day == 4
    requires east.hour == 5 && east.minute == 6 && east.second == 7 && east.offsetSeconds == 3600
    requires utc.year == 2021 && utc.month == 3 && utc.day == 4
    requires utc.hour == 4 && utc.minute == 6 && utc.second == 7 && utc.offsetSeconds == 0
    requires 0 <= east.nanosecond < 1000000000 && 0 <= utc.nanosecond < 1000000000
    ensures UnixSeconds(east) == UnixSeconds(utc)
    ensures FormatStamp(east) == "-" + "2021" + "03" + "04" + "-" + "05" + "-" + "06" + "-" + "07"
    ensures FormatStamp(utc) == "-" + "2021" + "03" + "04" + "-" + "04" + "-" + "06" + "-" + "07"
    ensures FormatStamp(east) != FormatStamp(utc)
  {
    StampAtPlusOneHour(east);
    StampAtUtc(utc);
    assert Valid(east) && Valid(utc);
    if FormatStamp(east) == FormatStamp(utc) {
      StampInjective(east, utc);
    }
  }
}
