/**
 * The part of Python's `datetime` the license check relies on: the proleptic
 * Gregorian calendar for years 1 to 9999, instants with microsecond
 * resolution, and the fixed-width `%Y%m%d%H%M%S` timestamp format.
 */
module Calendar {
  import opened Wrappers

  const MicrosPerSecond: int := 1_000_000
  const SecondsPerDay: int := 86_400
  const MicrosPerDay: int := 86_400_000_000

  /** Days from 0001-01-01 to 10000-01-01: one past the last day `datetime` can hold. */
  const DayCount: int := 3_652_059

  /** A moment as `datetime` holds it: microseconds since 0001-01-01T00:00:00. */
  type Instant = t: int | 0 <= t < DayCount * MicrosPerDay

  predicate IsLeap(y: int) {
    y % 4 == 0 && (y % 100 != 0 || y % 400 == 0)
  }

  function DaysInYear(y: int): int {
    if IsLeap(y) then 366 else 365
  }

  function DaysInMonth(y: int, m: int): (n: int)
    requires 1 <= m <= 12
    ensures 28 <= n <= 31
  {
    if m == 2 then (if IsLeap(y) then 29 else 28)
    else if m == 4 || m == 6 || m == 9 || m == 11 then 30
    else 31
  }

  /** Days in the years before `y`, in closed form. */
  function DaysBeforeYear(y: int): int
    requires y >= 1
  {
    var k := y - 1;
    365 * k + k / 4 - k / 100 + k / 400
  }

  /** The closed form adds up the lengths of the years one by one. */
  lemma DaysBeforeNextYear(y: int)
    requires y >= 1
    ensures DaysBeforeYear(y + 1) == DaysBeforeYear(y) + DaysInYear(y)
  {
    var k := y - 1;
    assert (k + 1) / 4 == k / 4 + (if y % 4 == 0 then 1 else 0);
    assert (k + 1) / 100 == k / 100 + (if y % 100 == 0 then 1 else 0);
    assert (k + 1) / 400 == k / 400 + (if y % 400 == 0 then 1 else 0);
  }

  lemma {:induction false} DaysBeforeYearMonotone(a: int, b: int)
    requires 1 <= a <= b
    ensures DaysBeforeYear(a) + (b - a) * 365 <= DaysBeforeYear(b)
    decreases b - a
  {
    if a < b {
      DaysBeforeNextYear(a);
      DaysBeforeYearMonotone(a + 1, b);
    }
  }

  /** Days in the months of year `y` before month `m` (`m == 13` gives the whole year). */
  function DaysBeforeMonth(y: int, m: int): int
    requires 1 <= m <= 13
  {
    if m == 1 then 0 else DaysBeforeMonth(y, m - 1) + DaysInMonth(y, m - 1)
  }

  lemma {:induction false} DaysBeforeMonthBounds(y: int, m: int)
    requires 1 <= m <= 13
    ensures 28 * (m - 1) <= DaysBeforeMonth(y, m) <= 31 * (m - 1)
  {
    if m > 1 {
      DaysBeforeMonthBounds(y, m - 1);
    }
  }

  /** The twelve months add up to the year. */
  lemma DaysBeforeMonthYear(y: int)
    ensures DaysBeforeMonth(y, 13) == DaysInYear(y)
  {
    var feb := if IsLeap(y) then 29 else 28;
    assert DaysBeforeMonth(y, 2) == 31;
    assert DaysBeforeMonth(y, 3) == 59 + feb - 28;
    assert DaysBeforeMonth(y, 4) == 90 + feb - 28;
    assert DaysBeforeMonth(y, 5) == 120 + feb - 28;
    assert DaysBeforeMonth(y, 6) == 151 + feb - 28;
    assert DaysBeforeMonth(y, 7) == 181 + feb - 28;
    assert DaysBeforeMonth(y, 8) == 212 + feb - 28;
    assert DaysBeforeMonth(y, 9) == 243 + feb - 28;
    assert DaysBeforeMonth(y, 10) == 273 + feb - 28;
    assert DaysBeforeMonth(y, 11) == 304 + feb - 28;
    assert DaysBeforeMonth(y, 12) == 334 + feb - 28;
  }

  lemma {:induction false} DaysBeforeMonthMonotone(y: int, a: int, b: int)
    requires 1 <= a <= b <= 13
    ensures DaysBeforeMonth(y, a) + 28 * (b - a) <= DaysBeforeMonth(y, b)
    decreases b - a
  {
    if a < b {
      DaysBeforeMonthMonotone(y, a + 1, b);
    }
  }

  /** A calendar date and time of day with whole seconds, as `strptime` produces it. */
  datatype DateTime = DateTime(year: int, month: int, day: int, hour: int, minute: int, second: int)

  /** The values `datetime(...)` accepts (microseconds are always zero here). */
  predicate Valid(d: DateTime) {
    && 1 <= d.year <= 9999
    && 1 <= d.month <= 12
    && 1 <= d.day <= DaysInMonth(d.year, d.month)
    && 0 <= d.hour < 24
    && 0 <= d.minute < 60
    && 0 <= d.second < 60
  }

  /** Days since 0001-01-01 (Python's ordinal minus one). */
  function DayNumber(d: DateTime): (n: int)
    requires Valid(d)
    ensures DaysBeforeYear(d.year) <= n < DaysBeforeYear(d.year + 1)
    ensures 0 <= n < DayCount
  {
    DaysBeforeMonthBounds(d.year, d.month);
    DaysBeforeMonthMonotone(d.year, d.month + 1, 13);
    DaysBeforeMonthYear(d.year);
    DaysBeforeNextYear(d.year);
    DaysBeforeYearMonotone(1, d.year);
    DaysBeforeYearMonotone(d.year + 1, 10000);
    DaysBeforeYear(d.year) + DaysBeforeMonth(d.year, d.month) + d.day - 1
  }

  function SecondOfDay(d: DateTime): (s: int)
    requires Valid(d)
    ensures 0 <= s < SecondsPerDay
  {
    d.hour * 3600 + d.minute * 60 + d.second
  }

  /** Seconds since 0001-01-01T00:00:00. */
  function ToSeconds(d: DateTime): (s: int)
    requires Valid(d)
    ensures 0 <= s < DayCount * SecondsPerDay
  {
    DayNumber(d) * SecondsPerDay + SecondOfDay(d)
  }

  /** The instant a date-time names, with zero microseconds. */
  function ToInstant(d: DateTime): (t: Instant)
    requires Valid(d)
    ensures t % MicrosPerSecond == 0
  {
    ToSeconds(d) * MicrosPerSecond
  }

  /** The year holding day number `n`, searched upward from year `y`. */
  function YearFrom(n: int, y: int): (r: int)
    requires 1 <= y && DaysBeforeYear(y) <= n
    ensures y <= r && DaysBeforeYear(r) <= n < DaysBeforeYear(r + 1)
    decreases n - DaysBeforeYear(y)
  {
    DaysBeforeNextYear(y);
    if n < DaysBeforeYear(y + 1) then y else YearFrom(n, y + 1)
  }

  /** The month holding day `k` (0-based) of year `y`, searched upward from month `m`. */
  function MonthFrom(y: int, k: int, m: int): (r: int)
    requires 1 <= m <= 12 && DaysBeforeMonth(y, m) <= k < DaysInYear(y)
    ensures m <= r <= 12 && DaysBeforeMonth(y, r) <= k < DaysBeforeMonth(y, r + 1)
    decreases 12 - m
  {
    DaysBeforeMonthYear(y);
    if k < DaysBeforeMonth(y, m + 1) then m else MonthFrom(y, k, m + 1)
  }

  /** The date-time of a second count: the inverse of `ToSeconds`. */
  function FromSeconds(s: int): (d: DateTime)
    requires 0 <= s < DayCount * SecondsPerDay
    ensures Valid(d) && ToSeconds(d) == s
  {
    var n := s / SecondsPerDay;
    var t := s % SecondsPerDay;
    assert DaysBeforeYear(10000) == DayCount;
    var y := YearFrom(n, 1);
    DaysBeforeYearMonotone(y + 1, 10000);
    DaysBeforeNextYear(y);
    var k := n - DaysBeforeYear(y);
    var m := MonthFrom(y, k, 1);
    var d := DateTime(y, m, k - DaysBeforeMonth(y, m) + 1, t / 3600, (t % 3600) / 60, t % 60);
    assert DayNumber(d) == n;
    d
  }

  /** The date-time an instant falls in, dropping its microseconds. */
  function FromInstant(t: Instant): (d: DateTime)
    ensures Valid(d)
    ensures ToInstant(d) == t - t % MicrosPerSecond
    ensures ToInstant(d) <= t < ToInstant(d) + MicrosPerSecond
  {
    FromSeconds(t / MicrosPerSecond)
  }

  lemma DayNumberYear(d: DateTime, e: DateTime)
    requires Valid(d) && Valid(e) && d.year < e.year
    ensures DayNumber(d) < DayNumber(e)
  {
    DaysBeforeYearMonotone(d.year + 1, e.year);
  }

  lemma DayNumberMonth(d: DateTime, e: DateTime)
    requires Valid(d) && Valid(e) && d.year == e.year && d.month < e.month
    ensures DayNumber(d) < DayNumber(e)
  {
    DaysBeforeMonthMonotone(d.year, d.month + 1, e.month);
  }

  /** Different valid date-times name different seconds. */
  lemma ToSecondsInjective(d: DateTime, e: DateTime)
    requires Valid(d) && Valid(e) && ToSeconds(d) == ToSeconds(e)
    ensures d == e
  {
    assert DayNumber(d) == DayNumber(e);
    if d.year < e.year {
      DayNumberYear(d, e);
    } else if e.year < d.year {
      DayNumberYear(e, d);
    } else if d.month < e.month {
      DayNumberMonth(d, e);
    } else if e.month < d.month {
      DayNumberMonth(e, d);
    }
  }

  /** `FromSeconds` undoes `ToSeconds`. */
  lemma FromToSeconds(d: DateTime)
    requires Valid(d)
    ensures FromSeconds(ToSeconds(d)) == d
  {
    ToSecondsInjective(FromSeconds(ToSeconds(d)), d);
  }

  // ----- the `%Y%m%d%H%M%S` text form -----

  predicate IsDigit(c: char) {
    '0' <= c <= '9'
  }

  function DigitValue(c: char): int
    requires IsDigit(c)
  {
    c as int - '0' as int
  }

  function DigitChar(v: int): (c: char)
    requires 0 <= v < 10
    ensures IsDigit(c) && DigitValue(c) == v
  {
    ('0' as int + v) as char
  }

  /** `n` in two digits, zero-padded. */
  function Digits2(n: int): (s: string)
    requires 0 <= n < 100
    ensures |s| == 2 && IsDigit(s[0]) && IsDigit(s[1])
    ensures 10 * DigitValue(s[0]) + DigitValue(s[1]) == n
  {
    [DigitChar(n / 10), DigitChar(n % 10)]
  }

  /** `n` in four digits, zero-padded. */
  function Digits4(n: int): (s: string)
    requires 0 <= n < 10000
    ensures |s| == 4 && forall i :: 0 <= i < 4 ==> IsDigit(s[i])
    ensures 1000 * DigitValue(s[0]) + 100 * DigitValue(s[1]) + 10 * DigitValue(s[2]) + DigitValue(s[3]) == n
  {
    Digits2(n / 100) + Digits2(n % 100)
  }

  /** `strftime("%Y%m%d%H%M%S")`. */
  function Format(d: DateTime): (s: string)
    requires Valid(d)
    ensures |s| == 14 && forall i :: 0 <= i < 14 ==> IsDigit(s[i])
  {
    Digits4(d.year) + Digits2(d.month) + Digits2(d.day)
      + Digits2(d.hour) + Digits2(d.minute) + Digits2(d.second)
  }

  function Two(s: string, i: int): int
    requires 0 <= i && i + 1 < |s| && IsDigit(s[i]) && IsDigit(s[i + 1])
  {
    10 * DigitValue(s[i]) + DigitValue(s[i + 1])
  }

  /**
   * `strptime(s, "%Y%m%d%H%M%S")` on a 14-character string. Every field's
   * pattern is at most as wide as here, so each field takes its full width:
   * four digits of year and two of each other field, except that the day
   * pattern also admits a space followed by a digit 1-9. The value must then
   * be a date-time `datetime` accepts (so year 0, February 30 or second 60
   * fail).
   */
  function Parse(s: string): (r: Option<DateTime>)
    requires |s| == 14
    ensures r.Some? ==> Valid(r.value)
  {
    if !(forall i | 0 <= i < 14 && i != 6 && i != 7 :: IsDigit(s[i])) then None
    else if !((IsDigit(s[6]) && IsDigit(s[7])) || (s[6] == ' ' && '1' <= s[7] <= '9')) then None
    else
      var day := if s[6] == ' ' then DigitValue(s[7]) else Two(s, 6);
      var d := DateTime(100 * Two(s, 0) + Two(s, 2), Two(s, 4), day, Two(s, 8), Two(s, 10), Two(s, 12));
      if Valid(d) then Some(d) else None
  }

  /** Parsing the formatted text of a date-time gives it back. */
  lemma ParseFormat(d: DateTime)
    requires Valid(d)
    ensures Parse(Format(d)) == Some(d)
  {
    var s := Format(d);
    assert s[..4] == Digits4(d.year);
    assert s[4..6] == Digits2(d.month) && s[6..8] == Digits2(d.day);
    assert s[8..10] == Digits2(d.hour) && s[10..12] == Digits2(d.minute) && s[12..] == Digits2(d.second);
  }

  /**
   * The day may also be written as a space followed by its digit: text with
   * the day's leading zero replaced by a space parses to the same date-time.
   */
  lemma ParseSpaceDay(d: DateTime)
    requires Valid(d) && d.day < 10
    ensures Parse(Format(d)[6 := ' ']) == Some(d)
  {
    ParseFormat(d);
    var f := Format(d);
    var s := f[6 := ' '];
    assert f[6..8] == Digits2(d.day);
    assert f[6] == '0' && DigitValue(f[7]) == d.day;
    assert forall i | 0 <= i < 14 && i != 6 :: s[i] == f[i];
  }

  /** Two digits are the zero-padded text of the number they spell. */
  lemma Digits2Two(s: string, i: int)
    requires 0 <= i && i + 1 < |s| && IsDigit(s[i]) && IsDigit(s[i + 1])
    ensures Digits2(Two(s, i)) == s[i..i + 2]
  {
  }

  /**
   * What `Parse` accepts is the formatted text of its result, up to a day
   * written with a leading space instead of a leading zero.
   */
  lemma FormatParse(s: string)
    requires |s| == 14 && Parse(s).Some?
    ensures Format(Parse(s).value) == if s[6] == ' ' then s[6 := '0'] else s
  {
    var d := Parse(s).value;
    var t := if s[6] == ' ' then s[6 := '0'] else s;
    assert forall i | 0 <= i < 14 && i != 6 && i != 7 :: IsDigit(s[i]);
    assert forall i | 0 <= i < 14 :: IsDigit(t[i]);
    assert d.year == 100 * Two(t, 0) + Two(t, 2);
    assert d.month == Two(t, 4) && d.day == Two(t, 6);
    assert d.hour == Two(t, 8) && d.minute == Two(t, 10) && d.second == Two(t, 12);
    FormatOfFields(d, t);
  }

  /** Four digits are the zero-padded text of the number they spell. */
  lemma Digits4Four(t: string, i: int)
    requires 0 <= i && i + 3 < |t| && forall k | i <= k < i + 4 :: IsDigit(t[k])
    ensures 0 <= 100 * Two(t, i) + Two(t, i + 2) < 10000
    ensures Digits4(100 * Two(t, i) + Two(t, i + 2)) == t[i..i + 4]
  {
    var n := 100 * Two(t, i) + Two(t, i + 2);
    assert n / 100 == Two(t, i) && n % 100 == Two(t, i + 2);
    Digits2Two(t, i);
    Digits2Two(t, i + 2);
    assert t[i..i + 4] == t[i..i + 2] + t[i + 2..i + 4];
  }

  lemma FormatOfFields(d: DateTime, t: string)
    requires Valid(d) && |t| == 14 && forall i | 0 <= i < 14 :: IsDigit(t[i])
    requires d.year == 100 * Two(t, 0) + Two(t, 2)
    requires d.month == Two(t, 4) && d.day == Two(t, 6)
    requires d.hour == Two(t, 8) && d.minute == Two(t, 10) && d.second == Two(t, 12)
    ensures Format(d) == t
  {
    Digits4Four(t, 0);
    Digits2Two(t, 4);
    Digits2Two(t, 6);
    Digits2Two(t, 8);
    Digits2Two(t, 10);
    Digits2Two(t, 12);
    JoinSlices(t, Digits4(d.year), Digits2(d.month), Digits2(d.day), Digits2(d.hour), Digits2(d.minute), Digits2(d.second));
  }

  /** Fourteen characters are the concatenation of their slices of widths 4, 2, 2, 2, 2 and 2. */
  lemma JoinSlices(t: string, y: string, mo: string, dd: string, h: string, mi: string, sec: string)
    requires |t| == 14
    requires y == t[..4] && mo == t[4..6] && dd == t[6..8] && h == t[8..10] && mi == t[10..12] && sec == t[12..14]
    ensures y + mo + dd + h + mi + sec == t
  {
    assert t[..6] == t[..4] + t[4..6];
    assert t[..8] == t[..6] + t[6..8];
    assert t[..10] == t[..8] + t[8..10];
    assert t[..12] == t[..10] + t[10..12];
    assert t == t[..12] + t[12..14];
  }
}
