/** The other date arithmetic of the repository, which must agree with the Unix time. */
module DayCounts {
  import opened Words
  import opened Calendar

  // The scheduler's timestamp: seconds from the start of 2020, with every fourth year a leap year.

  function SchedulerYear(year: int): int {
    if (REFERENCE_YEAR + year) % 4 == 0 then 366 else 365
  }

  function SchedulerMonth(year: int, month: int): int {
    if month == 2 then (if (REFERENCE_YEAR + year) % 4 == 0 then 29 else 28)
    else if month == 4 || month == 6 || month == 9 || month == 11 then 30
    else 31
  }

  function SchedulerYears(year: nat): nat {
    if year == 0 then 0 else SchedulerYears(year - 1) + SchedulerYear(year - 1)
  }

  function SchedulerMonths(year: int, month: nat): nat {
    if month <= 1 then 0 else SchedulerMonths(year, month - 1) + SchedulerMonth(year, month - 1)
  }

  function Timestamp(d: DateTime): nat {
    (SchedulerYears(d.year) + SchedulerMonths(d.year, d.month) + if d.day >= 1 then d.day as int - 1 else 0) * 86400
    + d.hour as int * 3600 + d.minute as int * 60 + d.second
  }

  method ComputeTimestamp(d: DateTime) returns (t: nat)
    ensures t == Timestamp(d)
  {
    var days := 0;
    for year := 0 to d.year
      invariant days == SchedulerYears(year)
    {
      days := days + if (2020 + year) % 4 == 0 then 366 else 365;
    }
    var month := 1;
    while month < d.month
      invariant month == 1 || 1 <= month <= d.month
      invariant days == SchedulerYears(d.year) + SchedulerMonths(d.year, month)
    {
      days := days +
        if month == 2 then (if (2020 + d.year as int) % 4 == 0 then 29 else 28)
        else if month == 4 || month == 6 || month == 9 || month == 11 then 30
        else 31;
      month := month + 1;
    }
    assert SchedulerMonths(d.year, month) == SchedulerMonths(d.year, d.month);
    days := days + if d.day >= 1 then d.day as int - 1 else 0;
    t := days * 86400 + d.hour as int * 3600 + d.minute as int * 60 + d.second;
  }

  /** The leap days the scheduler counts and the calendar does not, before a date from 2020 on. */
  function CenturyDays(y: int, m: int): int {
    (if y > 2100 || (y == 2100 && m > 2) then 1 else 0) + (if y > 2200 || (y == 2200 && m > 2) then 1 else 0)
  }

  lemma {:induction false} SchedulerYearsAgree(year: nat)
    requires year <= 255
    ensures SchedulerYears(year) + 18262 == DaysBeforeYear(REFERENCE_YEAR + year) + CenturyDays(REFERENCE_YEAR + year, 1)
  {
    hide DaysBeforeYear;
    if year == 0 {
      DaysBeforeYearClosed(2020);
    } else {
      SchedulerYearsAgree(year - 1);
      NextYear(REFERENCE_YEAR + year - 1);
    }
  }

  lemma {:induction false} SchedulerMonthsAgree(year: nat, month: nat)
    requires year <= 255 && 1 <= month <= 12
    ensures var y := REFERENCE_YEAR + year;
      SchedulerMonths(year, month) + CenturyDays(y, 1) == DaysBeforeMonth(y, month) + CenturyDays(y, month)
  {
    if month > 1 {
      SchedulerMonthsAgree(year, month - 1);
    }
  }

  /** The scheduler's timestamp runs ahead of the Unix time by the leap days it counts too many. */
  lemma TimestampAhead(d: DateTime)
    requires ValidDateTime(d)
    ensures Timestamp(d) + FIRST == UnixSeconds(d) + 86400 * CenturyDays(d.FullYear(), d.month)
  {
    hide DaysBeforeYear, DaysBeforeMonth, SchedulerYears, SchedulerMonths;
    SchedulerYearsAgree(d.year);
    SchedulerMonthsAgree(d.year, d.month);
  }

  /** Valid dates are ordered by their timestamps as by the calendar, in every year a byte can hold. */
  lemma TimestampOrder(a: DateTime, b: DateTime)
    requires ValidDateTime(a) && ValidDateTime(b)
    ensures Timestamp(a) < Timestamp(b) <==> Earlier(a, b)
  {
    hide Timestamp, UnixSeconds, CenturyDays;
    TimestampAhead(a);
    TimestampAhead(b);
    OrderIsTime(a, b);
    OrderIsTime(b, a);
    CenturyOrder(a, b);
    CenturyOrder(b, a);
    EarlierTotal(a, b);
  }

  lemma CenturyOrder(a: DateTime, b: DateTime)
    ensures Earlier(a, b) ==> CenturyDays(a.FullYear(), a.month) <= CenturyDays(b.FullYear(), b.month)
  {
  }

  lemma EarlierTotal(a: DateTime, b: DateTime)
    ensures Earlier(a, b) || Earlier(b, a) || a == b
    ensures !(Earlier(a, b) && Earlier(b, a)) && !Earlier(a, a)
  {
  }

  /**
   The scheduler's timestamp is the Unix time counted from 2020, for exactly the valid dates before
   March 2100; so for every date the RTC can hold.
   */
  lemma TimestampIsUnix(d: DateTime)
    requires ValidDateTime(d)
    ensures Timestamp(d) + FIRST == UnixSeconds(d) <==> d.year < 80 || (d.year == 80 && d.month <= 2)
    ensures ValidRtc(d) ==> Timestamp(d) + FIRST == UnixSeconds(d)
  {
    hide DaysBeforeYear, DaysBeforeMonth, SchedulerYears, SchedulerMonths;
    SchedulerYearsAgree(d.year);
    SchedulerMonthsAgree(d.year, d.month);
  }

  // The Julian day number of the days-since face.

  function JulianDayNumber(year: int, month: int, day: int): int {
    TruncDiv(1461 * (year + 4800 + TruncDiv(month - 14, 12)), 4)
    + TruncDiv(367 * (month - 2 - 12 * TruncDiv(month - 14, 12)), 12)
    - TruncDiv(3 * TruncDiv(year + 4900 + TruncDiv(month - 14, 12), 100), 4)
    + day
    - 32075
  }

  function MonthOffset(month: int): int {
    if month == 1 then 336 else if month == 2 then 367 else if month == 3 then 30 else if month == 4 then 61
    else if month == 5 then 91 else if month == 6 then 122 else if month == 7 then 152 else if month == 8 then 183
    else if month == 9 then 214 else if month == 10 then 244 else if month == 11 then 275
    else 305
  }

  lemma MonthTerm(month: int)
    requires 1 <= month <= 12
    ensures TruncDiv(month - 14, 12) == if month <= 2 then -1 else 0
    ensures TruncDiv(367 * (month - 2 - 12 * TruncDiv(month - 14, 12)), 12) == MonthOffset(month)
  {
    // one case a month
    if month == 1 {
    } else if month == 2 {
    } else if month == 3 {
    } else if month == 4 {
    } else if month == 5 {
    } else if month == 6 {
    } else if month == 7 {
    } else if month == 8 {
    } else if month == 9 {
    } else if month == 10 {
    } else if month == 11 {
    }
  }

  /** The terms that depend on the year only, for year `n` of a calendar that starts in March. */
  lemma YearTerms(n: int)
    requires n >= -1
    ensures TruncDiv(1461 * (n + 4800), 4) - TruncDiv(3 * TruncDiv(n + 4900, 100), 4)
         == 365 * n + Leaps(n) + 1753164
  {
    var c := (n + 4900) / 100;
    QuotientUnique(1461 * (n + 4800), 4, 365 * (n + 4800) + n / 4 + 1200, n % 4);
    QuotientUnique(n + 4900, 100, n / 100 + 49, n % 100);
    CenturyTerm(c);
    QuotientUnique(n, 100, 4 * (n / 400) + n % 400 / 100, n % 400 % 100);
    QuotientUnique(c + 3, 4, n / 400 + 13, n % 400 / 100);
  }

  lemma CenturyTerm(c: int)
    ensures 3 * c / 4 == c - (c + 3) / 4
  {
  }

  /** The Julian day number is the Unix day plus 2440588, for every date of every 16-bit year. */
  lemma JulianDayIsUnixDay(year: uint16, month: int, day: int)
    requires 1 <= month <= 12
    ensures JulianDayNumber(year, month, day) == CivilDay(year, month, day) + 2440588
  {
    hide DaysBeforeYear, DaysBeforeMonth, TruncDiv, Leaps, IsLeap;
    MonthTerm(month);
    YearTerms(if month <= 2 then year as int - 1 else year);
    DaysBeforeYearClosed(year);
    LeapsStep(year);
    DaysBeforeMonthTable(year, month);
  }

  // The weekday.

  /** The sum whose remainder modulo seven is the weekday, in the source's 32-bit arithmetic. */
  function WeekdaySum(year: int, month: int, day: int): int {
    var y := year - 2020 + 20 - if month <= 2 then 1 else 0;
    var m := if month <= 2 then month + 12 else month;
    day + TruncDiv(13 * (m + 1), 5) + y + TruncDiv(y, 4) + 5
  }

  /** 1 for Monday to 7 for Sunday; a negative remainder wraps as a byte. */
  function IsoWeekday(year: int, month: int, day: int): uint8 {
    (TruncMod(WeekdaySum(year, month, day), 7) % 0x100 + 1) % 0x100
  }

  function WeekdayOffset(month: int): int {
    if month == 1 then 36 else if month == 2 then 39 else if month == 3 then 10 else if month == 4 then 13
    else if month == 5 then 15 else if month == 6 then 18 else if month == 7 then 20 else if month == 8 then 23
    else if month == 9 then 26 else if month == 10 then 28 else if month == 11 then 31
    else 33
  }

  lemma WeekdayMonth(month: int)
    requires 1 <= month <= 12
    ensures var m := if month <= 2 then month + 12 else month;
      TruncDiv(13 * (m + 1), 5) == WeekdayOffset(month)
  {
    // one case a month
    if month == 1 {
    } else if month == 2 {
    } else if month == 3 {
    } else if month == 4 {
    } else if month == 5 {
    } else if month == 6 {
    } else if month == 7 {
    } else if month == 8 {
    } else if month == 9 {
    } else if month == 10 {
    } else if month == 11 {
    }
  }

  /**
   The leap days the formula counts and the calendar does not, from 2000 on: those of centuries, and before March
   2000 one more wherever the division rounds toward zero.
   */
  function Miscounted(year: int, month: int): int {
    var y := year - 2000 - if month <= 2 then 1 else 0;
    y / 100 - y / 400 + if y < 0 && y % 4 != 0 then 1 else 0
  }

  /**
   For every date the weekday is the day of the week of the Unix day, a Thursday at zero, exactly when the leap days
   miscounted are a multiple of seven and the sum is not negative, or a multiple of seven too. From March 2000 to
   February 2100 that is always so.
   */
  lemma WeekdayIsUnixDay(year: int, month: int, day: int)
    requires 1 <= month <= 12 && 1 <= day <= DaysInMonth(year, month)
    ensures
      var sum := WeekdaySum(year, month, day);
      (IsoWeekday(year, month, day) == (CivilDay(year, month, day) + 3) % 7 + 1)
        <==> (Miscounted(year, month) % 7 == 0 && (sum >= 0 || sum % 7 == 0))
    ensures (year > 2000 || (year == 2000 && month > 2)) && (year < 2100 || (year == 2100 && month <= 2)) ==>
      Miscounted(year, month) == 0 && WeekdaySum(year, month, day) >= 0
  {
    hide CivilDay, TruncMod, WeekTerm, WeekdaySum, Miscounted;
    WeekdayTotal(year, month, day);
    WeekTermIsWeeks(month);
    NothingMiscounted(year, month, day);
    var sum := WeekdaySum(year, month, day);
    var total := CivilDay(year, month, day) + 3 + Miscounted(year, month);
    var weeks := 52 * (year - 2000) + WeekTerm(month) / 7;
    QuotientUnique(total, 7, weeks + sum / 7, sum % 7);
    TruncFloor(sum, 7);
    RemainderSign(sum);
    ShiftRemainder(CivilDay(year, month, day) + 3, Miscounted(year, month));
  }

  lemma RemainderSign(a: int)
    ensures if a >= 0 then TruncMod(a, 7) == a % 7
            else TruncMod(a, 7) == if a % 7 == 0 then 0 else a % 7 - 7
  {
    hide TruncMod;
    TruncFloor(a, 7);
    if a < 0 {
      TruncNegative(a);
    }
  }

  lemma TruncNegative(a: int)
    requires a < 0
    ensures -7 < TruncMod(a, 7) <= 0
  {
  }

  lemma NothingMiscounted(year: int, month: int, day: int)
    requires 1 <= month <= 12 && day >= 1
    ensures (year > 2000 || (year == 2000 && month > 2)) && (year < 2100 || (year == 2100 && month <= 2)) ==>
      Miscounted(year, month) == 0 && WeekdaySum(year, month, day) >= 0
  {
    hide TruncDiv;
    WeekdayMonth(month);
    LeapsFrom2000(year - 2000 - if month <= 2 then 1 else 0);
  }

  /** The day count, corrected, differs from the formula's sum by whole weeks. */
  lemma WeekdayTotal(year: int, month: int, day: int)
    requires 1 <= month <= 12
    ensures CivilDay(year, month, day) + 3 + Miscounted(year, month) - WeekdaySum(year, month, day)
         == 364 * (year - 2000) + WeekTerm(month)
  {
    hide DaysBeforeYear, DaysBeforeMonth, IsLeap, Leaps, TruncDiv;
    WeekdayMonth(month);
    DaysBeforeYearClosed(year);
    DaysBeforeMonthTable(year, month);
    LeapsStep(year);
    LeapsFrom2000(year - 2000 - if month <= 2 then 1 else 0);
  }

  lemma LeapsFrom2000(y: int)
    ensures Leaps(2000 + y) == 485 + y / 4 - y / 100 + y / 400
    ensures TruncDiv(y, 4) == y / 4 + if y < 0 && y % 4 != 0 then 1 else 0
  {
    if y < 0 {
      QuotientUnique(-y, 4, -(y / 4) - if y % 4 != 0 then 1 else 0, if y % 4 != 0 then 4 - y % 4 else 0);
    }
  }

  lemma ShiftRemainder(a: int, b: int)
    ensures (a + b) % 7 == a % 7 <==> b % 7 == 0
  {
    if b % 7 == 0 {
      QuotientUnique(a + b, 7, a / 7 + b / 7, a % 7);
    }
  }

  /** The first of March 2100 is a Monday, and the formula says Tuesday. */
  lemma WeekdayOff()
    ensures IsoWeekday(2100, 3, 1) == 2 && (CivilDay(2100, 3, 1) + 3) % 7 + 1 == 1
  {
    hide DaysBeforeYear;
    DaysBeforeYearClosed(2100);
    DaysBeforeMonthTable(2100, 3);
  }

  function WeekTerm(month: int): int
    requires 1 <= month <= 12
  {
    [0, 31, 59, 90, 120, 151, 181, 212, 243, 273, 304, 334][month - 1] - WeekdayOffset(month)
    + if month <= 2 then 10956 else 10955
  }

  lemma WeekTermIsWeeks(month: int)
    requires 1 <= month <= 12
    ensures WeekTerm(month) % 7 == 0
  {
  }

  // The clock register.

  /** The packed register: masked fields next to each other, seconds lowest. */
  function ToReg(d: DateTime): uint32 {
    d.second as int % 0x40
    + d.minute as int % 0x40 * 0x40
    + d.hour as int % 0x20 * 0x1000
    + d.day as int % 0x20 * 0x2_0000
    + d.month as int % 0x10 * 0x40_0000
    + d.year as int % 0x40 * 0x400_0000
  }

  function FromReg(r: uint32): DateTime {
    var r6 := r / 0x40;
    var r12 := r6 / 0x40;
    var r17 := r12 / 0x20;
    var r22 := r17 / 0x20;
    var r26 := r22 / 0x10;
    DateTime(r % 0x40, r6 % 0x40, r12 % 0x20, r17 % 0x20, r22 % 0x10, r26 % 0x40)
  }

  /** The fields fit the register. */
  predicate Fits(d: DateTime) {
    d.second < 64 && d.minute < 64 && d.hour < 32 && d.day < 32 && d.month < 16 && d.year < 64
  }

  lemma RegOfFields(d: DateTime)
    requires Fits(d)
    ensures ToReg(d) == d.second as int + 0x40 * (d.minute as int + 0x40 * (d.hour as int
      + 0x20 * (d.day as int + 0x20 * (d.month as int + 0x10 * d.year as int))))
  {
    assert d.second % 0x40 == d.second && d.minute % 0x40 == d.minute && d.hour % 0x20 == d.hour;
    assert d.day % 0x20 == d.day && d.month % 0x10 == d.month && d.year % 0x40 == d.year;
  }

  /** Unpacking a packed date gives it back, when its fields fit. */
  lemma RegRoundTrip(d: DateTime)
    requires Fits(d)
    ensures FromReg(ToReg(d)) == d
  {
    hide ToReg;
    RegOfFields(d);
    var r22 := d.month as int + 0x10 * d.year as int;
    var r17 := d.day as int + 0x20 * r22;
    var r12 := d.hour as int + 0x20 * r17;
    var r6 := d.minute as int + 0x40 * r12;
    QuotientUnique(ToReg(d), 0x40, r6, d.second);
    QuotientUnique(r6, 0x40, r12, d.minute);
    QuotientUnique(r12, 0x20, r17, d.hour);
    QuotientUnique(r17, 0x20, r22, d.day);
    QuotientUnique(r22, 0x10, d.year, d.month);
  }

  /** Packing an unpacked register gives it back. */
  lemma RegSurjective(r: uint32)
    ensures Fits(FromReg(r)) && ToReg(FromReg(r)) == r
  {
    hide ToReg;
    RegOfFields(FromReg(r));
  }

  /** The register orders valid dates exactly as time does. */
  lemma RegOrder(a: DateTime, b: DateTime)
    requires ValidRtc(a) && ValidRtc(b)
    ensures ToReg(a) < ToReg(b) <==> UnixSeconds(a) < UnixSeconds(b)
  {
    hide ToReg, UnixSeconds;
    RegOfFields(a);
    RegOfFields(b);
    OrderIsTime(a, b);
  }
}
