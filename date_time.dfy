/** The broken-down UTC date-time that travels in commands, the chrono
    `DateTime<Utc>` it is converted to and from, and the count of seconds since
    the Epoch that the device derives from it (section 4.16 of POSIX.1-2017,
    Base Definitions, "Seconds Since the Epoch"). */
module DateTime {
  import opened Common

  /** The wire form: plain integers, not checked to form a calendar date. */
  datatype UtcDateTime = UtcDateTime(
    year: i32, month: u32, day: u32, hour: u32, minute: u32, second: u32, nanoseconds: u32)

  /** A chrono `DateTime<Utc>`: a proleptic Gregorian date and a time of day.
      A nanosecond field of 1_000_000_000 or more marks a leap second, which
      chrono only represents at second 59. */
  datatype ChronoDateTime = ChronoDateTime(
    year: int, month: int, day: int, hour: int, minute: int, second: int, nanosecond: int)

  predicate IsLeapYear(y: int) {
    y % 4 == 0 && (y % 100 != 0 || y % 400 == 0)
  }

  function DaysInMonth(y: int, m: int): (n: int)
    requires 1 <= m <= 12
    ensures 28 <= n <= 31
  {
    if m == 2 then (if IsLeapYear(y) then 29 else 28)
    else if m == 4 || m == 6 || m == 9 || m == 11 then 30
    else 31
  }

  /** An existing day of the proleptic Gregorian calendar and a time of day
      without leap second. */
  predicate ValidFields(y: int, m: int, d: int, h: int, mi: int, s: int) {
    1 <= m <= 12 && 1 <= d <= DaysInMonth(y, m) && 0 <= h < 24 && 0 <= mi < 60 && 0 <= s < 60
  }

  /** The years chrono represents: those of an i32 shifted right by 13 bits. */
  const MIN_YEAR: int := -262_144
  const MAX_YEAR: int := 262_143

  predicate ValidUtc(u: UtcDateTime) {
    ValidFields(u.year, u.month, u.day, u.hour, u.minute, u.second)
    && MIN_YEAR <= u.year <= MAX_YEAR
  }

  predicate ValidChrono(dt: ChronoDateTime) {
    ValidFields(dt.year, dt.month, dt.day, dt.hour, dt.minute, dt.second)
    && MIN_YEAR <= dt.year <= MAX_YEAR
    && 0 <= dt.nanosecond < 2_000_000_000
    && (dt.nanosecond >= 1_000_000_000 ==> dt.second == 59)
  }

  /** `From<DateTime<Utc>> for UtcDateTime`: the components one by one. */
  function FromChrono(dt: ChronoDateTime): (u: UtcDateTime)
    requires ValidChrono(dt)
    ensures ValidUtc(u)
  {
    UtcDateTime(dt.year, dt.month, dt.day, dt.hour, dt.minute, dt.second, dt.nanosecond)
  }

  /** `From<UtcDateTime> for DateTime<Utc>`: `with_ymd_and_hms(..).unwrap()`,
      which panics unless the fields name an existing date and time of day in
      chrono's year range, and which drops the nanoseconds. */
  function ToChrono(u: UtcDateTime): (dt: ChronoDateTime)
    requires ValidUtc(u)
    ensures ValidChrono(dt)
  {
    ChronoDateTime(u.year, u.month, u.day, u.hour, u.minute, u.second, 0)
  }

  /** Through chrono and back: everything but the nanoseconds survives. */
  lemma UtcRoundTrip(u: UtcDateTime)
    requires ValidUtc(u)
    ensures FromChrono(ToChrono(u)) == u.(nanoseconds := 0)
  {
  }

  /** From chrono and back: the instant truncated to its whole second. */
  lemma ChronoRoundTrip(dt: ChronoDateTime)
    requires ValidChrono(dt)
    ensures ToChrono(FromChrono(dt)) == dt.(nanosecond := 0)
  {
  }

  /** Days from January 1st to the first of month `m`. */
  function DaysBeforeMonth(y: int, m: int): (n: int)
    requires 1 <= m <= 12
    ensures 0 <= n <= 335
  {
    var leap := if IsLeapYear(y) && m > 2 then 1 else 0;
    [0, 31, 59, 90, 120, 151, 181, 212, 243, 273, 304, 334][m - 1] + leap
  }

  /** The POSIX day count of January 1st of year `y`: 365 days per year since
      1970 plus one per leap year in between. With tm_year = y - 1900 these are
      POSIX's terms (tm_year-70)*365 + (tm_year-69)/4 - (tm_year-1)/100 +
      (tm_year+299)/400, taken with floor division, which agrees with the C
      truncating division for every year from 1970 on and extends the count to
      earlier years the way the proleptic calendar does. */
  function DaysBeforeYear(y: int): int {
    (y - 1970) * 365 + (y - 1969) / 4 - (y - 1901) / 100 + (y - 1601) / 400
  }

  /** Days since 1970-01-01 of a calendar date. */
  function DaysFromCivil(y: int, m: int, d: int): int
    requires 1 <= m <= 12
  {
    DaysBeforeYear(y) + DaysBeforeMonth(y, m) + d - 1
  }

  /** Seconds since the Epoch of a date and time of day. */
  function UnixSeconds(y: int, m: int, d: int, h: int, mi: int, s: int): int
    requires 1 <= m <= 12
  {
    DaysFromCivil(y, m, d) * 86400 + h * 3600 + mi * 60 + s
  }

  /** chrono's `timestamp_millis`: whole seconds times 1000 plus the
      milliseconds of the fraction (a leap second counts past 999). */
  function TimestampMillis(dt: ChronoDateTime): int
    requires ValidChrono(dt)
  {
    UnixSeconds(dt.year, dt.month, dt.day, dt.hour, dt.minute, dt.second) * 1000
      + dt.nanosecond / 1_000_000
  }

  /** A year has 365 days, 366 when it is a leap year. */
  lemma YearLength(y: int)
    ensures DaysBeforeYear(y + 1) - DaysBeforeYear(y) == if IsLeapYear(y) then 366 else 365
  {
    QuadrennialStep(y);
    CenturyStep(y);
    QuadricentennialStep(y);
    Divisibility(y);
    var q4 := if y % 4 == 0 then 1 else 0;
    var q100 := if y % 100 == 0 then 1 else 0;
    var q400 := if y % 400 == 0 then 1 else 0;
    assert DaysBeforeYear(y + 1) - DaysBeforeYear(y) == 365 + q4 - q100 + q400;
  }

  /** A multiple of 400 is a multiple of 100, which is a multiple of 4. */
  lemma Divisibility(y: int)
    ensures y % 400 == 0 ==> y % 100 == 0
    ensures y % 100 == 0 ==> y % 4 == 0
  {
    if y % 400 == 0 {
      MultipleOf100(y / 400 * 4, y);
    }
    if y % 100 == 0 {
      MultipleOf4(y / 100 * 25, y);
    }
  }

  lemma MultipleOf100(k: int, y: int)
    requires y == 100 * k
    ensures y % 100 == 0
  {
  }

  lemma MultipleOf4(k: int, y: int)
    requires y == 4 * k
    ensures y % 4 == 0
  {
  }

  /** The three leap-day counts of `DaysBeforeYear` each grow by one from
      year y to year y + 1 exactly when y is a multiple of their period. */
  lemma QuadrennialStep(y: int)
    ensures (y + 1 - 1969) / 4 - (y - 1969) / 4 == if y % 4 == 0 then 1 else 0
  {
    var a := y - 1969;
    assert ((a + 1) % 4 == 0) == (y % 4 == 0);
  }

  lemma CenturyStep(y: int)
    ensures (y + 1 - 1901) / 100 - (y - 1901) / 100 == if y % 100 == 0 then 1 else 0
  {
    var b := y - 1901;
    assert ((b + 1) % 100 == 0) == (y % 100 == 0);
  }

  lemma QuadricentennialStep(y: int)
    ensures (y + 1 - 1601) / 400 - (y - 1601) / 400 == if y % 400 == 0 then 1 else 0
  {
    var c := y - 1601;
    assert ((c + 1) % 400 == 0) == (y % 400 == 0);
  }

  /** The valid date after (y, m, d). */
  function NextDay(y: int, m: int, d: int): (r: (int, int, int))
    requires ValidFields(y, m, d, 0, 0, 0)
    ensures ValidFields(r.0, r.1, r.2, 0, 0, 0)
  {
    if d < DaysInMonth(y, m) then (y, m, d + 1)
    else if m < 12 then (y, m + 1, 1)
    else (y + 1, 1, 1)
  }

  /** Consecutive calendar days are consecutive day numbers: across the end of
      a month, of February in leap and common years, and of a year. Together
      with day 0 being 1970-01-01 this pins the count down on every date. */
  lemma NextDayCounts(y: int, m: int, d: int)
    requires ValidFields(y, m, d, 0, 0, 0)
    ensures var (y', m', d') := NextDay(y, m, d);
      DaysFromCivil(y', m', d') == DaysFromCivil(y, m, d) + 1
  {
    if d == DaysInMonth(y, m) && m == 12 {
      YearLength(y);
    }
  }

  lemma EpochIsDayZero()
    ensures DaysFromCivil(1970, 1, 1) == 0
  {
  }

  /** Within one date the seconds run through the 86400 seconds of the day,
      and the next day starts where this one ends. */
  lemma SecondsWithinDay(y: int, m: int, d: int, h: int, mi: int, s: int)
    requires ValidFields(y, m, d, h, mi, s)
    ensures var day := DaysFromCivil(y, m, d) * 86400;
      day <= UnixSeconds(y, m, d, h, mi, s) < day + 86400
  {
  }

  /** Dates compare as their times since the Epoch do: a later year, or the
      same year and a later month, or the same month and a later day, is a
      larger day number. Hence the conversion is one-to-one. */
  lemma {:induction false} DaysMonotone(y1: int, m1: int, d1: int, y2: int, m2: int, d2: int)
    requires ValidFields(y1, m1, d1, 0, 0, 0) && ValidFields(y2, m2, d2, 0, 0, 0)
    requires y1 < y2 || (y1 == y2 && m1 < m2) || (y1 == y2 && m1 == m2 && d1 < d2)
    ensures DaysFromCivil(y1, m1, d1) < DaysFromCivil(y2, m2, d2)
    decreases y2 - y1
  {
    if y1 < y2 {
      YearLength(y1);
      if y1 + 1 < y2 {
        DaysMonotone(y1 + 1, 1, 1, y2, m2, d2);
      }
    } else if m1 < m2 {
      MonthsBefore(y1, m1, m2);
    }
  }

  lemma MonthsBefore(y: int, m1: int, m2: int)
    requires 1 <= m1 < m2 <= 12
    ensures DaysBeforeMonth(y, m1) + DaysInMonth(y, m1) <= DaysBeforeMonth(y, m2)
  {
  }

  /** The device's starting epoch, 2023-01-01T00:00:00Z, in milliseconds. */
  lemma InitialEpoch()
    ensures TimestampMillis(ChronoDateTime(2023, 1, 1, 0, 0, 0, 0)) == 1_672_531_200_000
  {
  }
}
