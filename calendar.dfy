/** The proleptic Gregorian calendar of Python's `datetime`, and the
    integer instant (day ordinal * 86400 + second of day) that stands for
    a naive `datetime` throughout the model. */
module Calendar {

  const MinYear := 1
  const MaxYear := 9999
  const SecondsPerDay := 86400

  predicate IsLeapYear(y: int) {
    y % 4 == 0 && (y % 100 != 0 || y % 400 == 0)
  }

  function YearLength(y: int): int {
    if IsLeapYear(y) then 366 else 365
  }

  function DaysInMonth(y: int, m: int): (n: int)
    requires 1 <= m <= 12
    ensures 28 <= n <= 31
    ensures m == 2 ==> (n == 29 <==> IsLeapYear(y))
  {
    if m == 2 then (if IsLeapYear(y) then 29 else 28)
    else if m == 4 || m == 6 || m == 9 || m == 11 then 30
    else 31
  }

  /** Days of year `y` that lie before the first of month `m`. */
  function DaysBeforeMonth(y: int, m: int): nat
    requires 1 <= m <= 13
    decreases m
  {
    if m == 1 then 0 else DaysBeforeMonth(y, m - 1) + DaysInMonth(y, m - 1)
  }

  /** Days from 0001-01-01 up to the first of January of year `y`
      (`_days_before_year` of Python's `datetime`). */
  function DaysBeforeYear(y: int): nat
    requires y >= MinYear
  {
    var p := y - 1;
    p * 365 + p / 4 - p / 100 + p / 400
  }

  /** A naive date-time with whole seconds. */
  datatype DateTime = DateTime(year: int, month: int, day: int, hour: int, minute: int, second: int)

  /** What Python's `datetime(...)` constructor accepts (microseconds aside). */
  predicate ValidDateTime(t: DateTime) {
    && MinYear <= t.year <= MaxYear
    && 1 <= t.month <= 12
    && 1 <= t.day <= DaysInMonth(t.year, t.month)
    && 0 <= t.hour < 24
    && 0 <= t.minute < 60
    && 0 <= t.second < 60
  }

  /** `date.toordinal()`: 0001-01-01 is day 1. */
  function DayOrdinal(t: DateTime): (n: int)
    requires ValidDateTime(t)
    ensures n >= 1
  {
    DaysBeforeYear(t.year) + DaysBeforeMonth(t.year, t.month) + t.day
  }

  function SecondOfDay(t: DateTime): (n: int)
    requires ValidDateTime(t)
    ensures 0 <= n < SecondsPerDay
  {
    t.hour * 3600 + t.minute * 60 + t.second
  }

  function ToInstant(t: DateTime): (i: int)
    requires ValidDateTime(t)
    ensures i >= SecondsPerDay
  {
    DayOrdinal(t) * SecondsPerDay + SecondOfDay(t)
  }

  /** SQL `DATE(x)` of an instant, as a day ordinal. */
  function DayOf(instant: int): int {
    instant / SecondsPerDay
  }

  /** Python's comparison of naive datetimes: lexicographic on the fields. */
  predicate Before(a: DateTime, b: DateTime) {
    || a.year < b.year
    || (a.year == b.year && a.month < b.month)
    || (a.year == b.year && a.month == b.month && a.day < b.day)
    || (a.year == b.year && a.month == b.month && a.day == b.day && a.hour < b.hour)
    || (a.year == b.year && a.month == b.month && a.day == b.day && a.hour == b.hour && a.minute < b.minute)
    || (a.year == b.year && a.month == b.month && a.day == b.day && a.hour == b.hour && a.minute == b.minute
        && a.second < b.second)
  }

  lemma {:induction false} DaysBeforeMonthStep(y: int, m: int)
    requires 1 <= m <= 12
    ensures DaysBeforeMonth(y, m) + DaysInMonth(y, m) == DaysBeforeMonth(y, m + 1)
  {
  }

  lemma {:induction false} DaysBeforeMonthMonotone(y: int, m1: int, m2: int)
    requires 1 <= m1 <= m2 <= 13
    ensures DaysBeforeMonth(y, m1) <= DaysBeforeMonth(y, m2)
    decreases m2 - m1
  {
    if m1 < m2 {
      DaysBeforeMonthMonotone(y, m1, m2 - 1);
    }
  }

  /** The twelve months fill the year exactly. */
  lemma DaysBeforeMonthTotal(y: int)
    ensures DaysBeforeMonth(y, 13) == YearLength(y)
  {
    assert DaysBeforeMonth(y, 3) == 31 + DaysInMonth(y, 2);
    assert DaysBeforeMonth(y, 7) == DaysBeforeMonth(y, 3) + 31 + 30 + 31 + 30;
    assert DaysBeforeMonth(y, 13) == DaysBeforeMonth(y, 7) + 31 + 31 + 30 + 31 + 30 + 31;
  }

  /** Consecutive years differ by the length of the earlier one. */
  lemma DaysBeforeYearStep(y: int)
    requires y >= MinYear
    ensures DaysBeforeYear(y + 1) == DaysBeforeYear(y) + YearLength(y)
  {
    var p := y - 1;
    QuotientStep4(p);
    QuotientStep100(p);
    QuotientStep400(p);
    Divisibility(y);
  }

  /** A multiple of 400 is a multiple of 100, which is a multiple of 4. */
  lemma Divisibility(y: int)
    ensures y % 400 == 0 ==> y % 100 == 0
    ensures y % 100 == 0 ==> y % 4 == 0
  {
    if y % 400 == 0 {
      MultipleOf100(4 * (y / 400));
    }
    if y % 100 == 0 {
      MultipleOf4(25 * (y / 100));
    }
  }

  lemma MultipleOf100(k: int)
    ensures (100 * k) % 100 == 0
  {
  }

  lemma MultipleOf4(k: int)
    ensures (4 * k) % 4 == 0
  {
  }

  lemma QuotientStep4(p: int)
    ensures (p + 1) / 4 == p / 4 + (if (p + 1) % 4 == 0 then 1 else 0)
  {
  }

  lemma QuotientStep100(p: int)
    ensures (p + 1) / 100 == p / 100 + (if (p + 1) % 100 == 0 then 1 else 0)
  {
  }

  lemma QuotientStep400(p: int)
    ensures (p + 1) / 400 == p / 400 + (if (p + 1) % 400 == 0 then 1 else 0)
  {
  }

  lemma {:induction false} DaysBeforeYearMonotone(y1: int, y2: int)
    requires MinYear <= y1 < y2
    ensures DaysBeforeYear(y1) + YearLength(y1) <= DaysBeforeYear(y2)
    decreases y2 - y1
  {
    DaysBeforeYearStep(y1);
    if y1 + 1 < y2 {
      DaysBeforeYearMonotone(y1 + 1, y2);
    }
  }

  /** Calendar order is day-ordinal order. */
  lemma DayOrdinalOrder(a: DateTime, b: DateTime)
    requires ValidDateTime(a) && ValidDateTime(b)
    requires a.year < b.year || (a.year == b.year && a.month < b.month)
             || (a.year == b.year && a.month == b.month && a.day < b.day)
    ensures DayOrdinal(a) < DayOrdinal(b)
  {
    if a.year < b.year {
      LaterYear(a, b);
    } else if a.month < b.month {
      LaterMonth(a, b);
    }
  }

  lemma LaterYear(a: DateTime, b: DateTime)
    requires ValidDateTime(a) && ValidDateTime(b) && a.year < b.year
    ensures DayOrdinal(a) < DayOrdinal(b)
  {
    DayOrdinalWithinYear(a);
    DayOrdinalWithinYear(b);
    DaysBeforeYearMonotone(a.year, b.year);
  }

  /** A date's ordinal lies inside its year. */
  lemma DayOrdinalWithinYear(t: DateTime)
    requires ValidDateTime(t)
    ensures DaysBeforeYear(t.year) < DayOrdinal(t) <= DaysBeforeYear(t.year) + YearLength(t.year)
  {
    DaysBeforeMonthIncludes(t.year, t.month, t.day);
    var intoYear := DaysBeforeMonth(t.year, t.month) + t.day;
    assert DayOrdinal(t) == DaysBeforeYear(t.year) + intoYear;
  }

  /** Day `d` of month `m` is one of the year's days. */
  lemma DaysBeforeMonthIncludes(y: int, m: int, d: int)
    requires 1 <= m <= 12 && 1 <= d <= DaysInMonth(y, m)
    ensures 1 <= DaysBeforeMonth(y, m) + d <= YearLength(y)
  {
    DaysBeforeMonthMonotone(y, m + 1, 13);
    DaysBeforeMonthStep(y, m);
    DaysBeforeMonthTotal(y);
  }

  lemma LaterMonth(a: DateTime, b: DateTime)
    requires ValidDateTime(a) && ValidDateTime(b) && a.year == b.year && a.month < b.month
    ensures DayOrdinal(a) < DayOrdinal(b)
  {
    DaysBeforeMonthStep(a.year, a.month);
    DaysBeforeMonthMonotone(a.year, a.month + 1, b.month);
  }

  /** Comparing instants is comparing datetimes the way Python does:
      `<` agrees with `Before`, and equal instants are equal datetimes. */
  lemma {:induction false} InstantOrder(a: DateTime, b: DateTime)
    requires ValidDateTime(a) && ValidDateTime(b)
    ensures ToInstant(a) < ToInstant(b) <==> Before(a, b)
    ensures ToInstant(a) == ToInstant(b) <==> a == b
  {
    if a.year != b.year || a.month != b.month || a.day != b.day {
      if Before(a, b) {
        DayOrdinalOrder(a, b);
      } else {
        DayOrdinalOrder(b, a);
      }
    }
  }

  /** `DATE()` of an instant recovers its calendar day. */
  lemma DayOfInstant(t: DateTime)
    requires ValidDateTime(t)
    ensures DayOf(ToInstant(t)) == DayOrdinal(t)
  {
  }
}
