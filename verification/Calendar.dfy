/** The civil calendar, counted one year and one month at a time, and the dates the RTC can hold. */
module Calendar {
  import opened Words

  const REFERENCE_YEAR := 2020
  const SECONDS_PER_DAY := 86400

  /** The packed date of the RTC; `year` counts from 2020. */
  datatype DateTime =
    DateTime(second: uint8, minute: uint8, hour: uint8, day: uint8, month: uint8, year: uint8)
  {
    function FullYear(): int {
      REFERENCE_YEAR + year
    }
  }

  const ZERO := DateTime(0, 0, 0, 0, 0, 0)

  predicate IsLeap(y: int) {
    y % 4 == 0 && (y % 100 != 0 || y % 400 == 0)
  }

  function DaysInMonth(y: int, m: int): int {
    if m == 2 then (if IsLeap(y) then 29 else 28)
    else if m == 4 || m == 6 || m == 9 || m == 11 then 30
    else 31
  }

  /** The validity check of the firmware; `year` may be any byte. */
  predicate ValidDateTime(d: DateTime) {
    && 1 <= d.month <= 12 && d.hour <= 23 && d.minute <= 59 && d.second <= 59
    && 1 <= d.day <= DaysInMonth(d.FullYear(), d.month)
  }

  /** A valid date the 6-bit year of the RTC can hold: 2020 to 2083. */
  predicate ValidRtc(d: DateTime) {
    ValidDateTime(d) && d.year <= 63
  }

  function YearLength(y: int): int {
    if IsLeap(y) then 366 else 365
  }

  /** Days from 1970-01-01 to the first of January of year `y`, counted year by year. */
  function DaysBeforeYear(y: int): int
    decreases if y >= 1970 then y - 1970 else 1970 - y
  {
    if y == 1970 then 0
    else if y > 1970 then DaysBeforeYear(y - 1) + YearLength(y - 1)
    else DaysBeforeYear(y + 1) - YearLength(y)
  }

  /** Days from the first of January to the first of month `m`, counted month by month. */
  function DaysBeforeMonth(y: int, m: int): int
    decreases m
  {
    if m <= 1 then 0 else DaysBeforeMonth(y, m - 1) + DaysInMonth(y, m - 1)
  }

  /** Days from 1970-01-01. */
  function CivilDay(y: int, m: int, d: int): int {
    DaysBeforeYear(y) + DaysBeforeMonth(y, m) + d - 1
  }

  /** Seconds since the Epoch, without a time zone. */
  function Seconds(y: int, m: int, d: int, hour: int, minute: int, second: int): int {
    CivilDay(y, m, d) * SECONDS_PER_DAY + hour * 3600 + minute * 60 + second
  }

  function UnixSeconds(d: DateTime): int {
    Seconds(d.FullYear(), d.month, d.day, d.hour, d.minute, d.second)
  }

  // Closed forms.

  /** Leap years from year 1 to year `n`. */
  function Leaps(n: int): int {
    n / 4 - n / 100 + n / 400
  }

  lemma LeapsStep(y: int)
    ensures Leaps(y) == Leaps(y - 1) + if IsLeap(y) then 1 else 0
  {
    FourStep(y);
    CenturyStep(y);
    CycleStep(y);
    Multiples(y);
  }

  lemma FourStep(y: int)
    ensures y / 4 == (y - 1) / 4 + if y % 4 == 0 then 1 else 0
  {
  }

  lemma CenturyStep(y: int)
    ensures y / 100 == (y - 1) / 100 + if y % 100 == 0 then 1 else 0
  {
  }

  lemma CycleStep(y: int)
    ensures y / 400 == (y - 1) / 400 + if y % 400 == 0 then 1 else 0
  {
  }

  lemma Multiples(y: int)
    ensures (y % 400 == 0 ==> y % 100 == 0) && (y % 100 == 0 ==> y % 4 == 0)
  {
  }

  lemma {:induction false} DaysBeforeYearClosed(y: int)
    ensures DaysBeforeYear(y) == 365 * (y - 1970) + Leaps(y - 1) - 477
    decreases if y >= 1970 then y - 1970 else 1970 - y
  {
    hide Leaps;
    if y == 1970 {
      LeapsIn1969();
    } else if y > 1970 {
      DaysBeforeYearClosed(y - 1);
      LeapsStep(y - 1);
    } else {
      DaysBeforeYearClosed(y + 1);
      LeapsStep(y);
    }
  }

  lemma LeapsIn1969()
    ensures Leaps(1969) == 477
  {
  }

  lemma NextYear(y: int)
    ensures DaysBeforeYear(y + 1) == DaysBeforeYear(y) + YearLength(y)
  {
  }

  lemma DaysBeforeMonthTable(y: int, m: int)
    requires 1 <= m <= 13
    ensures var leap := if IsLeap(y) then 1 else 0;
      DaysBeforeMonth(y, m) ==
        [0, 31, 59 + leap, 90 + leap, 120 + leap, 151 + leap, 181 + leap, 212 + leap, 243 + leap, 273 + leap,
         304 + leap, 334 + leap, 365 + leap][m - 1]
  {
    hide IsLeap;
    if m > 1 {
      DaysBeforeMonthTable(y, m - 1);
    }
  }

  // Order.

  /** Earlier in the calendar, field by field. */
  predicate Earlier(a: DateTime, b: DateTime) {
    a.year < b.year || (a.year == b.year && (
    a.month < b.month || (a.month == b.month && (
    a.day < b.day || (a.day == b.day && (
    a.hour < b.hour || (a.hour == b.hour && (
    a.minute < b.minute || (a.minute == b.minute && a.second < b.second)))))))))
  }

  lemma {:induction false} YearsOrdered(y: int, z: int)
    requires y <= z
    ensures DaysBeforeYear(y) + 365 * (z - y) <= DaysBeforeYear(z)
    decreases z - y
  {
    if y < z {
      YearsOrdered(y, z - 1);
      NextYear(z - 1);
    }
  }

  lemma {:induction false} MonthsOrdered(y: int, m: int, n: int)
    requires 1 <= m <= n <= 13
    ensures DaysBeforeMonth(y, m) + 28 * (n - m) <= DaysBeforeMonth(y, n)
    decreases n - m
  {
    if m < n {
      MonthsOrdered(y, m, n - 1);
    }
  }

  /** A valid day lies within its month, and the month within its year. */
  lemma WithinYear(y: int, m: int, d: int)
    requires 1 <= m <= 12 && 1 <= d <= DaysInMonth(y, m)
    ensures DaysBeforeYear(y) <= CivilDay(y, m, d) < DaysBeforeYear(y + 1)
    ensures CivilDay(y, m, d) < DaysBeforeYear(y) + DaysBeforeMonth(y, m + 1)
  {
    MonthsOrdered(y, 1, m);
    MonthsOrdered(y, m + 1, 13);
    DaysBeforeMonthTable(y, 13);
    NextYear(y);
  }

  lemma EarlierIsLess(a: DateTime, b: DateTime)
    requires ValidDateTime(a) && ValidDateTime(b) && Earlier(a, b)
    ensures UnixSeconds(a) < UnixSeconds(b)
  {
    hide DaysBeforeYear, DaysBeforeMonth;
    WithinYear(a.FullYear(), a.month, a.day);
    WithinYear(b.FullYear(), b.month, b.day);
    if a.year < b.year {
      YearsOrdered(a.FullYear() + 1, b.FullYear());
    } else if a.month < b.month {
      MonthsOrdered(a.FullYear(), a.month as int + 1, b.month);
    }
  }

  /** Valid dates are ordered exactly as their Unix times, and equal exactly when those are. */
  lemma OrderIsTime(a: DateTime, b: DateTime)
    requires ValidDateTime(a) && ValidDateTime(b)
    ensures Earlier(a, b) <==> UnixSeconds(a) < UnixSeconds(b)
    ensures a == b <==> UnixSeconds(a) == UnixSeconds(b)
  {
    hide UnixSeconds;
    if Earlier(a, b) {
      EarlierIsLess(a, b);
    } else if a != b {
      EarlierIsLess(b, a);
    }
  }

  // The date of a time, by walking the calendar.

  /** The day `n` days after the first of month `m` of year `y`. */
  function Walk(y: int, m: int, n: nat): (r: (int, int, int))
    requires 1 <= m <= 12
    ensures 1 <= r.1 <= 12 && 1 <= r.2 <= DaysInMonth(r.0, r.1)
    decreases n
  {
    if n < DaysInMonth(y, m) then (y, m, n + 1)
    else if m < 12 then Walk(y, m + 1, n - DaysInMonth(y, m))
    else Walk(y + 1, 1, n - DaysInMonth(y, m))
  }

  lemma {:induction false} WalkDay(y: int, m: int, n: nat)
    requires 1 <= m <= 12
    ensures var (y', m', d') := Walk(y, m, n); CivilDay(y', m', d') == CivilDay(y, m, 1) + n
    decreases n
  {
    hide DaysBeforeYear;
    if n >= DaysInMonth(y, m) {
      if m < 12 {
        WalkDay(y, m + 1, n - DaysInMonth(y, m));
      } else {
        WalkDay(y + 1, 1, n - DaysInMonth(y, m));
        NextYear(y);
        DaysBeforeMonthTable(y, 13);
      }
    }
  }

  const FIRST := 1577836800
  const LAST := 3597523199

  /** The times of 2020 to 2083. */
  predicate InRange(t: int) {
    FIRST <= t <= LAST
  }

  lemma RangeIsYears()
    ensures DaysBeforeYear(2020) * SECONDS_PER_DAY == FIRST
    ensures DaysBeforeYear(2084) * SECONDS_PER_DAY == LAST + 1
  {
    hide DaysBeforeYear;
    DaysBeforeYearClosed(2020);
    DaysBeforeYearClosed(2084);
  }

  lemma YearOfDay(y: int, m: int, d: int, t: int)
    requires 1 <= m <= 12 && 1 <= d <= DaysInMonth(y, m)
    requires CivilDay(y, m, d) == t / SECONDS_PER_DAY
    ensures InRange(t) <==> 2020 <= y <= 2083
  {
    hide DaysBeforeYear, DaysBeforeMonth;
    WithinYear(y, m, d);
    RangeIsYears();
    if y < 2020 {
      YearsOrdered(y + 1, 2020);
    } else if y > 2083 {
      YearsOrdered(2084, y);
    } else {
      YearsOrdered(2020, y);
      YearsOrdered(y + 1, 2084);
    }
  }

  lemma ValidInRange(d: DateTime)
    requires ValidDateTime(d)
    ensures InRange(UnixSeconds(d)) <==> d.year <= 63
  {
    hide DaysBeforeYear, DaysBeforeMonth;
    YearOfDay(d.FullYear(), d.month, d.day, UnixSeconds(d));
  }

  lemma WalkFrom2020(t: int)
    requires InRange(t)
    ensures t / SECONDS_PER_DAY >= 18262
    ensures var (y, m, d) := Walk(2020, 1, t / SECONDS_PER_DAY - 18262);
      CivilDay(y, m, d) == t / SECONDS_PER_DAY && 2020 <= y <= 2083
  {
    hide DaysBeforeYear, Walk;
    WalkDay(2020, 1, t / SECONDS_PER_DAY - 18262);
    RangeIsYears();
    var (y, m, d) := Walk(2020, 1, t / SECONDS_PER_DAY - 18262);
    YearOfDay(y, m, d, t);
  }

  lemma ClockOf(s: int)
    requires 0 <= s < SECONDS_PER_DAY
    ensures s == s / 3600 * 3600 + s / 60 % 60 * 60 + s % 60 && s / 3600 <= 23
  {
  }

  /** The date of an instant in 2020 to 2083, and the zero date for every other. */
  function DateOf(t: int): (d: DateTime)
    ensures InRange(t) ==> ValidRtc(d) && UnixSeconds(d) == t
    ensures !InRange(t) ==> d == ZERO
  {
    if !InRange(t) then ZERO
    else
      WalkFrom2020(t);
      var (y, m, d) := Walk(2020, 1, t / SECONDS_PER_DAY - 18262);
      var s := t % SECONDS_PER_DAY;
      ClockOf(s);
      DateTime(s % 60, s / 60 % 60, s / 3600, d, m, y - 2020)
  }
}
