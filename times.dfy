/**
 * Go's time.Time as the services use it. Every value is a civil date and time
 * of day in UTC; the part finer than a minute is kept as nanoseconds, because
 * the only text layout the program knows stops at minutes.
 */
module Times {
  /** Nanoseconds in one minute; the sub-minute part of a time lies below it. */
  const NanosPerMinute: int := 60_000_000_000

  datatype Time = Time(year: int, month: int, day: int, hour: int, minute: int, nanos: int)

  /** Gregorian leap years, as Go's calendar computes them. */
  predicate IsLeap(year: int) {
    year % 4 == 0 && (year % 100 != 0 || year % 400 == 0)
  }

  /** Number of days of a month (1..12) in a year. */
  function DaysIn(month: int, year: int): (n: int)
    ensures 28 <= n <= 31
  {
    if month == 2 then (if IsLeap(year) then 29 else 28)
    else if month == 4 || month == 6 || month == 9 || month == 11 then 30
    else 31
  }

  predicate ValidTime(t: Time) {
    && 1 <= t.month <= 12
    && 1 <= t.day <= DaysIn(t.month, t.year)
    && 0 <= t.hour < 24
    && 0 <= t.minute < 60
    && 0 <= t.nanos < NanosPerMinute
  }

  /** A representable moment. */
  type Instant = t: Time | ValidTime(t) witness Time(1, 1, 1, 0, 0, 0)

  /** Go's zero time, January 1 of year 1, 00:00 UTC: what an absent date decodes to. */
  const Zero: Instant := Time(1, 1, 1, 0, 0, 0)

  predicate IsZero(t: Instant) {
    t == Zero
  }

  /** Time.Before: in a single zone the instant order is the lexicographic order of the fields. */
  predicate Before(a: Instant, b: Instant) {
    if a.year != b.year then a.year < b.year
    else if a.month != b.month then a.month < b.month
    else if a.day != b.day then a.day < b.day
    else if a.hour != b.hour then a.hour < b.hour
    else if a.minute != b.minute then a.minute < b.minute
    else a.nanos < b.nanos
  }

  /** Time.After. */
  predicate After(a: Instant, b: Instant) {
    Before(b, a)
  }

  /** Before is a strict total order. */
  lemma BeforeIsStrictTotalOrder(a: Instant, b: Instant, c: Instant)
    ensures !Before(a, a)
    ensures Before(a, b) ==> !Before(b, a)
    ensures Before(a, b) && Before(b, c) ==> Before(a, c)
    ensures a != b ==> Before(a, b) || Before(b, a)
  {
  }

  /** The moment at the start of the same minute. */
  function Truncate(t: Instant): (r: Instant)
    ensures r.nanos == 0
    ensures r.(nanos := t.nanos) == t
  {
    t.(nanos := 0)
  }

  /** Years that the four-digit year field of the layout can spell. */
  predicate InLayoutRange(t: Instant) {
    0 <= t.year <= 9999
  }

  function DigitChar(d: int): char
    requires 0 <= d <= 9
  {
    ('0' as int + d) as char
  }

  /** Decimal digits of n without padding. */
  function Decimal(n: nat): string
  {
    if n < 10 then [DigitChar(n)] else Decimal(n / 10) + [DigitChar(n % 10)]
  }

  /** Two digits, zero-padded (Go's appendInt with width 2). */
  function Pad2(n: int): string
    requires 0 <= n <= 99
  {
    [DigitChar(n / 10), DigitChar(n % 10)]
  }

  /** Magnitude of a year: four digits, zero-padded, or all digits when it is larger. */
  function Pad4(n: nat): string
  {
    if n < 10000 then [DigitChar(n / 1000), DigitChar(n / 100 % 10), DigitChar(n / 10 % 10), DigitChar(n % 10)]
    else Decimal(n)
  }

  /** Year as Go's appendInt(b, year, 4) writes it: a minus sign before negative years. */
  function YearText(year: int): string
  {
    if year < 0 then "-" + Pad4(-year) else Pad4(year)
  }

  /** Time.Format with the layout "02-01-2006 15:04" (day-month-year hour:minute). */
  function Format(t: Instant): string
  {
    Pad2(t.day) + "-" + Pad2(t.month) + "-" + YearText(t.year) + " " + Pad2(t.hour) + ":" + Pad2(t.minute)
  }
}
