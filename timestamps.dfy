/** Upload timestamps and target dates: naive date-times with second
    precision, the order Python's `datetime` comparison gives them, the
    midnight a target date stands for, and the text `str(datetime)` prints. */
module Timestamps {

  /** A timestamp as parsed from an artifact's upload time
      (`%Y-%m-%dT%H:%M:%S`): no time zone, no sub-second part. */
  datatype DateTime = DateTime(year: nat, month: nat, day: nat, hour: nat, minute: nat, second: nat)

  /** A calendar date, as parsed from the command line with `%Y-%m-%d`. */
  datatype Date = Date(year: nat, month: nat, day: nat)

  /** The order of `datetime` values: lexicographic on
      (year, month, day, hour, minute, second). */
  predicate Before(a: DateTime, b: DateTime) {
    if a.year != b.year then a.year < b.year
    else if a.month != b.month then a.month < b.month
    else if a.day != b.day then a.day < b.day
    else if a.hour != b.hour then a.hour < b.hour
    else if a.minute != b.minute then a.minute < b.minute
    else a.second < b.second
  }

  /** `Before` is a strict total order. */
  lemma {:induction false} BeforeIsStrictTotalOrder(a: DateTime, b: DateTime, c: DateTime)
    ensures !Before(a, a)
    ensures Before(a, b) ==> !Before(b, a)
    ensures Before(a, b) && Before(b, c) ==> Before(a, c)
    ensures a == b || Before(a, b) || Before(b, a)
  {
  }

  /** The order of calendar dates. */
  predicate DayBefore(a: Date, b: Date) {
    if a.year != b.year then a.year < b.year
    else if a.month != b.month then a.month < b.month
    else a.day < b.day
  }

  /** The calendar day a timestamp falls on. */
  function DayOf(t: DateTime): Date {
    Date(t.year, t.month, t.day)
  }

  /** `datetime.strptime(date, '%Y-%m-%d')`: the date at 00:00:00. */
  function Midnight(d: Date): (m: DateTime)
    ensures DayOf(m) == d
    ensures forall t: DateTime :: !Before(t, m) ==> !DayBefore(DayOf(t), d)
    ensures forall t: DateTime :: Before(t, m) ==> DayBefore(DayOf(t), d)
  {
    DateTime(d.year, d.month, d.day, 0, 0, 0)
  }

  /** A timestamp comes before the midnight of a date exactly when it lies on
      an earlier calendar day: an upload at 00:00:00 of the date itself, or at
      any later time that day, is not before it. */
  lemma {:induction false} BeforeMidnightIffEarlierDay(t: DateTime, d: Date)
    ensures Before(t, Midnight(d)) <==> DayBefore(DayOf(t), d)
  {
  }

  predicate IsLeapYear(y: nat) {
    y % 4 == 0 && (y % 100 != 0 || y % 400 == 0)
  }

  function DaysInMonth(y: nat, m: nat): nat
    requires 1 <= m <= 12
  {
    if m == 2 then (if IsLeapYear(y) then 29 else 28)
    else if m == 4 || m == 6 || m == 9 || m == 11 then 30
    else 31
  }

  /** The timestamps a `datetime` can hold: years 1 to 9999, real calendar
      days, and a time of day. */
  predicate Valid(t: DateTime) {
    && 1 <= t.year <= 9999
    && 1 <= t.month <= 12
    && 1 <= t.day <= DaysInMonth(t.year, t.month)
    && t.hour < 24 && t.minute < 60 && t.second < 60
  }

  function Pow10(n: nat): (p: nat)
    ensures p >= 1
  {
    if n == 0 then 1 else 10 * Pow10(n - 1)
  }

  predicate IsDigit(c: char) {
    '0' <= c <= '9'
  }

  function DigitChar(d: nat): (c: char)
    requires d < 10
    ensures IsDigit(c)
  {
    ('0' as int + d) as char
  }

  /** The last `width` decimal digits of `n`, zero-padded (`%0<width>d` for
      an `n` that fits). */
  function Padded(n: nat, width: nat): (s: string)
    ensures |s| == width
    ensures forall k :: 0 <= k < |s| ==> IsDigit(s[k])
  {
    if width == 0 then "" else Padded(n / 10, width - 1) + [DigitChar(n % 10)]
  }

  /** The number a string of decimal digits denotes. */
  function DecimalValue(s: string): int {
    if s == [] then 0 else DecimalValue(s[..|s| - 1]) * 10 + (s[|s| - 1] as int - '0' as int)
  }

  /** Zero-padding loses nothing for a number that fits in the width. */
  lemma {:induction false} PaddedRoundTrip(n: nat, width: nat)
    requires n < Pow10(width)
    ensures DecimalValue(Padded(n, width)) == n
  {
    if width > 0 {
      var s := Padded(n, width);
      assert s[..|s| - 1] == Padded(n / 10, width - 1);
      assert n / 10 < Pow10(width - 1);
      PaddedRoundTrip(n / 10, width - 1);
    }
  }

  /** `str(t)` for a `datetime` without microseconds:
      `YYYY-MM-DD HH:MM:SS`. */
  function Format(t: DateTime): (s: string)
    ensures |s| == 19
  {
    Padded(t.year, 4) + "-" + Padded(t.month, 2) + "-" + Padded(t.day, 2) + " "
    + Padded(t.hour, 2) + ":" + Padded(t.minute, 2) + ":" + Padded(t.second, 2)
  }

  /** Reads the six fields back from their fixed positions in `Format`'s text. */
  function ParseFormatted(s: string): DateTime
    requires |s| == 19
  {
    var year := DecimalValue(s[0..4]);
    var month := DecimalValue(s[5..7]);
    var day := DecimalValue(s[8..10]);
    var hour := DecimalValue(s[11..13]);
    var minute := DecimalValue(s[14..16]);
    var second := DecimalValue(s[17..19]);
    if year < 0 || month < 0 || day < 0 || hour < 0 || minute < 0 || second < 0
    then DateTime(0, 0, 0, 0, 0, 0)
    else DateTime(year, month, day, hour, minute, second)
  }

  /** The printed date of a valid timestamp determines the timestamp. */
  lemma {:induction false} FormatRoundTrip(t: DateTime)
    requires Valid(t)
    ensures ParseFormatted(Format(t)) == t
  {
    var s := Format(t);
    assert s[0..4] == Padded(t.year, 4);
    assert s[5..7] == Padded(t.month, 2);
    assert s[8..10] == Padded(t.day, 2);
    assert s[11..13] == Padded(t.hour, 2);
    assert s[14..16] == Padded(t.minute, 2);
    assert s[17..19] == Padded(t.second, 2);
    assert Pow10(2) == 100 && Pow10(4) == 10000;
    PaddedRoundTrip(t.year, 4);
    PaddedRoundTrip(t.month, 2);
    PaddedRoundTrip(t.day, 2);
    PaddedRoundTrip(t.hour, 2);
    PaddedRoundTrip(t.minute, 2);
    PaddedRoundTrip(t.second, 2);
  }

  /** Two valid timestamps print the same only if they are equal. */
  lemma {:induction false} FormatInjective(a: DateTime, b: DateTime)
    requires Valid(a) && Valid(b) && Format(a) == Format(b)
    ensures a == b
  {
    FormatRoundTrip(a);
    FormatRoundTrip(b);
  }
}
