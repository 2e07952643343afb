/** The proleptic Gregorian calendar as Python's `datetime` counts it:
    `toordinal()` numbering with 0001-01-01 as day 1, and the conversion of
    a calendar reading into a wall-clock count of microseconds. */
module Calendar {
  import opened Times

  predicate IsLeap(y: int) {
    y % 4 == 0 && (y % 100 != 0 || y % 400 == 0)
  }

  function DaysInMonth(y: int, m: int): int
    requires 1 <= m <= 12
  {
    if m == 2 then (if IsLeap(y) then 29 else 28)
    else if m == 4 || m == 6 || m == 9 || m == 11 then 30
    else 31
  }

  function DaysInYear(y: int): int {
    if IsLeap(y) then 366 else 365
  }

  /** Days of year `y` before the first of month `m`. */
  function DaysBeforeMonth(y: int, m: int): (r: int)
    requires 1 <= m <= 12
    ensures 0 <= r <= 31 * (m - 1)
  {
    if m == 1 then 0 else DaysBeforeMonth(y, m - 1) + DaysInMonth(y, m - 1)
  }

  /** Days before 1 January of year `y`, counted from 0001-01-01. */
  function DaysBeforeYear(y: int): int
    requires y >= 1
  {
    var z := y - 1;
    z * 365 + z / 4 - z / 100 + z / 400
  }

  /** A calendar reading, as the fields of a naive `datetime` (whole seconds). */
  datatype Civil = Civil(year: int, month: int, day: int, hour: int, minute: int, second: int)

  /** The readings `datetime(...)` accepts: years 1..9999, a real day of the
      month, and a time of day with seconds 0..59. */
  predicate Valid(c: Civil) {
    && 1 <= c.year <= 9999
    && 1 <= c.month <= 12
    && 1 <= c.day <= DaysInMonth(c.year, c.month)
    && 0 <= c.hour < 24 && 0 <= c.minute < 60 && 0 <= c.second < 60
  }

  /** `date.toordinal()`: 0001-01-01 is day 1. */
  function Ordinal(c: Civil): int
    requires Valid(c)
  {
    DaysBeforeYear(c.year) + DaysBeforeMonth(c.year, c.month) + c.day
  }

  /** The ordinal of 1970-01-01. */
  const EpochOrdinal: int := 719163

  function SecondOfDay(c: Civil): int {
    c.hour * 3600 + c.minute * 60 + c.second
  }

  /** The wall-clock reading in microseconds after 1970-01-01T00:00:00. */
  function WallMicros(c: Civil): int
    requires Valid(c)
  {
    (Ordinal(c) - EpochOrdinal) * MicrosPerDay + SecondOfDay(c) * MicrosPerSecond
  }

  /** Chronological order of readings: by year, month, day, hour, minute, second. */
  predicate Earlier(a: Civil, b: Civil) {
    || a.year < b.year
    || (a.year == b.year && a.month < b.month)
    || (a.year == b.year && a.month == b.month && a.day < b.day)
    || (a.year == b.year && a.month == b.month && a.day == b.day && SecondOfDay(a) < SecondOfDay(b))
  }

  lemma DaysBeforeYearStep(y: int)
    requires y >= 1
    ensures DaysBeforeYear(y + 1) == DaysBeforeYear(y) + DaysInYear(y)
  {
    var z := y - 1;
    DivStep4(z);
    DivStep100(z);
    DivStep400(z);
    assert DaysBeforeYear(y + 1) == DaysBeforeYear(y) + 365 + (z + 1) / 4 - z / 4 - (z + 1) / 100 + z / 100 + (z + 1) / 400 - z / 400;
  }

  lemma DivStep4(z: int)
    ensures (z + 1) / 4 == z / 4 + (if (z + 1) % 4 == 0 then 1 else 0)
  {
  }

  lemma DivStep100(z: int)
    ensures (z + 1) / 100 == z / 100 + (if (z + 1) % 100 == 0 then 1 else 0)
  {
  }

  lemma DivStep400(z: int)
    ensures (z + 1) / 400 == z / 400 + (if (z + 1) % 400 == 0 then 1 else 0)
  {
  }

  lemma {:induction false} DaysBeforeYearGrows(y: int, y': int)
    requires 1 <= y < y'
    ensures DaysBeforeYear(y) + DaysInYear(y) <= DaysBeforeYear(y')
    decreases y' - y
  {
    DaysBeforeYearStep(y);
    if y + 1 < y' {
      DaysBeforeYearGrows(y + 1, y');
    }
  }

  lemma DaysBeforeMonthTotal(y: int)
    ensures DaysBeforeMonth(y, 12) + DaysInMonth(y, 12) == DaysInYear(y)
  {
    var leap := if IsLeap(y) then 1 else 0;
    assert DaysBeforeMonth(y, 3) == 59 + leap;
    assert DaysBeforeMonth(y, 4) == 90 + leap;
    assert DaysBeforeMonth(y, 5) == 120 + leap;
    assert DaysBeforeMonth(y, 6) == 151 + leap;
    assert DaysBeforeMonth(y, 7) == 181 + leap;
    assert DaysBeforeMonth(y, 8) == 212 + leap;
    assert DaysBeforeMonth(y, 9) == 243 + leap;
    assert DaysBeforeMonth(y, 10) == 273 + leap;
    assert DaysBeforeMonth(y, 11) == 304 + leap;
    assert DaysBeforeMonth(y, 12) == 334 + leap;
  }

  lemma {:induction false} DaysBeforeMonthGrows(y: int, m: int, m': int)
    requires 1 <= m < m' <= 12
    ensures DaysBeforeMonth(y, m) + DaysInMonth(y, m) <= DaysBeforeMonth(y, m')
    decreases m' - m
  {
    if m + 1 < m' {
      DaysBeforeMonthGrows(y, m + 1, m');
    }
  }

  /** Every day of a year falls inside that year's span of ordinals. */
  lemma DayOfYearBounds(c: Civil)
    requires Valid(c)
    ensures DaysBeforeYear(c.year) < Ordinal(c) <= DaysBeforeYear(c.year) + DaysInYear(c.year)
  {
    DaysBeforeMonthTotal(c.year);
    if c.month < 12 {
      DaysBeforeMonthGrows(c.year, c.month, 12);
    }
  }

  /** Chronologically earlier readings have strictly smaller wall-clock
      counts, so the conversion loses no order and no information. */
  lemma WallMicrosMonotone(a: Civil, b: Civil)
    requires Valid(a) && Valid(b) && Earlier(a, b)
    ensures WallMicros(a) < WallMicros(b)
  {
    if a.year < b.year || a.month < b.month || a.day < b.day {
      OrdinalMonotone(a, b);
      DayMicrosDominate(Ordinal(a), Ordinal(b), SecondOfDay(a), SecondOfDay(b));
    }
  }

  /** A reading on an earlier calendar day has a smaller ordinal. */
  lemma OrdinalMonotone(a: Civil, b: Civil)
    requires Valid(a) && Valid(b) && Earlier(a, b)
    requires a.year < b.year || a.month < b.month || a.day < b.day
    ensures Ordinal(a) < Ordinal(b)
  {
    if a.year < b.year {
      DayOfYearBounds(a);
      DayOfYearBounds(b);
      DaysBeforeYearGrows(a.year, b.year);
    } else if a.month < b.month {
      DaysBeforeMonthGrows(a.year, a.month, b.month);
    }
  }

  /** A whole day outweighs any time of day. */
  lemma DayMicrosDominate(oa: int, ob: int, sa: int, sb: int)
    requires oa < ob && 0 <= sa < 86400 && 0 <= sb
    ensures (oa - EpochOrdinal) * MicrosPerDay + sa * MicrosPerSecond < (ob - EpochOrdinal) * MicrosPerDay + sb * MicrosPerSecond
  {
    assert (ob - EpochOrdinal) * MicrosPerDay >= (oa - EpochOrdinal) * MicrosPerDay + MicrosPerDay;
  }

  /** Distinct readings give distinct wall-clock counts. */
  lemma WallMicrosInjective(a: Civil, b: Civil)
    requires Valid(a) && Valid(b)
    ensures WallMicros(a) == WallMicros(b) ==> a == b
  {
    if WallMicros(a) != WallMicros(b) {
    } else if Earlier(a, b) {
      WallMicrosMonotone(a, b);
    } else if Earlier(b, a) {
      WallMicrosMonotone(b, a);
    } else {
      assert a.hour == b.hour && a.minute == b.minute && a.second == b.second by {
        SecondOfDayInjective(a, b);
      }
    }
  }

  lemma SecondOfDayInjective(a: Civil, b: Civil)
    requires 0 <= a.hour < 24 && 0 <= a.minute < 60 && 0 <= a.second < 60
    requires 0 <= b.hour < 24 && 0 <= b.minute < 60 && 0 <= b.second < 60
    requires SecondOfDay(a) == SecondOfDay(b)
    ensures a.hour == b.hour && a.minute == b.minute && a.second == b.second
  {
  }
}
