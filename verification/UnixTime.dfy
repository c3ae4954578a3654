/** The Unix time conversions of the firmware, against the civil calendar. */
module UnixTime {
  import opened Words
  import opened Calendar

  /** `as u32` of a wider integer. */
  function Truncate32(x: int): uint32 {
    x % TWO_32
  }

  /**
   Seconds from the Epoch to the start of a year counted from 1900, in wrapping 32-bit arithmetic. The
   years are those `ConvertToUnixTime` asks for.
   */
  method YearToSecs(year: uint32) returns (secs: uint32, leap: bool)
    requires -1900 <= AsInt32(year) < 0x1_0000 - 1900
    ensures secs == Truncate32(DaysBeforeYear(1900 + AsInt32(year)) * SECONDS_PER_DAY)
    ensures leap == IsLeap(1900 + AsInt32(year))
  {
    hide DaysBeforeYear, Leaps, IsLeap, TruncDiv, TruncMod, Truncate32;
    var y := AsInt32(year);
    DaysBeforeYearClosed(1900 + y);
    leap := false;
    if (year - 2) % TWO_32 <= 136 {
      var leaps := (y - 68) / 4;  // `>> 2` rounds down
      if (y - 68) % 4 == 0 {
        leaps := leaps - 1;
        leap := true;
      }
      EarlyYears(y);
      secs := Truncate32(31536000 * (y - 70) + 86400 * leaps);
      return;
    }
    var cycles := TruncDiv(y - 100, 400);
    var rem := TruncMod(y - 100, 400);
    CycleOf(y - 100, 400);
    if rem < 0 {
      cycles := cycles - 1;
      rem := rem + 400;
    }
    var centuries, leaps := 0, 0;
    if rem == 0 {
      leap := true;
    } else {
      var r;
      if rem >= 200 {
        if rem >= 300 {
          centuries, r := 3, rem - 300;
        } else {
          centuries, r := 2, rem - 200;
        }
      } else if rem >= 100 {
        centuries, r := 1, rem - 100;
      } else {
        centuries, r := 0, rem;
      }
      if r == 0 {
        leap := false;
      } else {
        leaps := r / 4;
        leap := r % 4 == 0;
      }
    }
    CenturyLeap(y, cycles, centuries, rem - 100 * centuries);
    FourCenturies(y, cycles, centuries, rem - 100 * centuries);
    leaps := leaps + 97 * cycles + 24 * centuries - if leap then 1 else 0;
    secs := Truncate32((y - 100) * 31536000 + leaps * 86400 + 946684800 + 86400);
  }

  /** From 1902 to 2038 every fourth year is a leap year. */
  lemma EarlyYears(y: int)
    requires 2 <= y <= 138
    ensures IsLeap(1900 + y) <==> (y - 68) % 4 == 0
    ensures Leaps(1900 + y - 1) - 477 == (y - 68) / 4 - if (y - 68) % 4 == 0 then 1 else 0
  {
    assert (1900 + y - 1) / 100 == if y == 0 then 18 else if y <= 100 then 19 else 20;
    assert (1900 + y - 1) / 400 == if y <= 100 then 4 else 5;
    assert (1900 + y - 1) / 4 == 475 + (y - 1) / 4;
  }

  lemma CenturyLeap(y: int, cycles: int, centuries: int, r: int)
    requires y - 100 == 400 * cycles + 100 * centuries + r
    requires 0 <= centuries <= 3 && 0 <= r < 100
    ensures IsLeap(1900 + y) <==> r % 4 == 0 && (r == 0 ==> centuries == 0)
  {
    var z := 1900 + y;
    QuotientUnique(z, 4, 500 + 100 * cycles + 25 * centuries + r / 4, r % 4);
    QuotientUnique(z, 100, 20 + 4 * cycles + centuries, r);
    QuotientUnique(z, 400, 5 + cycles, 100 * centuries + r);
  }

  /** Leap years before year `y` after 1900, by 400-year cycle, century and year. */
  lemma FourCenturies(y: int, cycles: int, centuries: int, r: int)
    requires y - 100 == 400 * cycles + 100 * centuries + r
    requires 0 <= centuries <= 3 && 0 <= r < 100
    ensures Leaps(1900 + y - 1) - 477 - 8
         == 97 * cycles + 24 * centuries + (if r == 0 then (if centuries == 0 then -1 else 0) else r / 4)
            - (if r != 0 && r % 4 == 0 then 1 else 0)
  {
    var n := 1900 + y - 1;
    var k := 100 * centuries + r - 1;
    QuotientUnique(n, 4, 100 * (cycles + 5) + k / 4, k % 4);
    QuotientUnique(n, 100, 4 * (cycles + 5) + k / 100, k % 100);
    QuotientUnique(n, 400, cycles + 5 + k / 400, k % 400);
    CenturyTerms(centuries, r);
  }

  lemma CenturyTerms(centuries: int, r: int)
    requires 0 <= centuries <= 3 && 0 <= r < 100
    ensures var k := 100 * centuries + r - 1;
      k / 4 - k / 100 + k / 400
        == 24 * centuries + (if r == 0 then (if centuries == 0 then -1 else 0) else r / 4)
           - (if r != 0 && r % 4 == 0 then 1 else 0)
  {
    var k := 100 * centuries + r - 1;
    assert k / 4 == 25 * centuries + (r - 1) / 4;
    assert k / 100 == if r == 0 then centuries - 1 else centuries;
    assert k / 400 == if k < 0 then -1 else 0;
  }

  const SECS_THROUGH_MONTH := [
    0, 31 * 86400, 59 * 86400, 90 * 86400, 120 * 86400, 151 * 86400,
    181 * 86400, 212 * 86400, 243 * 86400, 273 * 86400, 304 * 86400, 334 * 86400]

  function MonthToSecs(month: int, leap: bool): int
    requires 0 <= month < 12
  {
    SECS_THROUGH_MONTH[month] + if leap && month >= 2 then 86400 else 0
  }

  lemma MonthToSecsIsCivil(y: int, m: int)
    requires 1 <= m <= 12
    ensures MonthToSecs(m - 1, IsLeap(y)) == DaysBeforeMonth(y, m) * SECONDS_PER_DAY
  {
    hide DaysBeforeMonth, IsLeap;
    DaysBeforeMonthTable(y, m);
  }

  /** The Unix time of a local date and time, modulo 2^32; the offset is a signed number in a `u32`. */
  method ConvertToUnixTime(year: uint16, month: uint8, day: uint8, hour: uint8, minute: uint8, second: uint8,
                           utcOffset: uint32)
    returns (t: uint32)
    requires 1 <= month <= 12
    ensures t == Truncate32(Seconds(year, month, day, hour, minute, second) - AsInt32(utcOffset))
  {
    hide DaysBeforeYear, DaysBeforeMonth, IsLeap, MonthToSecs;
    var since1900 := Truncate32(year as int - 1900);
    assert AsInt32(since1900) == year as int - 1900;
    var secs, leap := YearToSecs(since1900);
    var timestamp: int := secs;
    MonthToSecsIsCivil(year, month);
    timestamp := timestamp + MonthToSecs(month as int - 1, leap);
    timestamp := timestamp + (day as int - 1) * 86400;
    timestamp := timestamp + hour as int * 3600;
    timestamp := timestamp + minute as int * 60;
    timestamp := timestamp + second;
    timestamp := timestamp - AsInt32(utcOffset);
    t := Truncate32(timestamp);
    ghost var exact := Seconds(year, month, day, hour, minute, second) - AsInt32(utcOffset);
    TruncateShift(exact, timestamp, DaysBeforeYear(year) * SECONDS_PER_DAY);
  }

  /** Truncating a part early does not change the truncated sum. */
  lemma TruncateShift(exact: int, timestamp: int, part: int)
    requires timestamp == exact - part + Truncate32(part)
    ensures Truncate32(timestamp) == Truncate32(exact)
  {
    ModShift(exact, -(part / TWO_32));
  }

  // From a Unix time to a date.

  const LEAPOCH := 946684800 + 86400 * (31 + 29)
  const DAYS_PER_400Y := 365 * 400 + 97
  const DAYS_PER_100Y := 365 * 100 + 24
  const DAYS_PER_4Y := 365 * 4 + 1

  /** Month lengths of a year that starts in March. */
  const DAYS_IN_MONTH := [31, 30, 31, 30, 31, 31, 30, 31, 30, 31, 31, 29]

  /** Days before month `m` of a year that starts in March. */
  function MarchSum(m: nat): nat
    requires m <= 12
  {
    if m == 0 then 0 else MarchSum(m - 1) + DAYS_IN_MONTH[m - 1]
  }

  /** Days from 2000-03-01 to the first of March of year 2000 + `y`. */
  function MarchDays(y: int): int {
    365 * y + y / 4 - y / 100 + y / 400
  }

  method DateTimeFromUnixTime(timestamp: uint32, utcOffset: uint32) returns (d: DateTime)
    ensures d == DateOf(timestamp as int + AsInt32(utcOffset))
  {
    hide DateOf, DaysBeforeYear, DaysBeforeMonth, MarchDays, IsLeap, UnixSeconds, InRange, TruncDiv, TruncMod;
    var t := timestamp as int + AsInt32(utcOffset);
    var secs := t - LEAPOCH;
    TruncFloor(secs, 86400);
    var days := TruncDiv(secs, 86400);
    var remsecs := TruncMod(secs, 86400);
    if remsecs < 0 {
      remsecs := remsecs + 86400;
      days := days - 1;
    }
    var years, remdays := SplitDays(days);
    ghost var all, march := remdays, years;
    var months := 0;
    MarchSums();
    while DAYS_IN_MONTH[months] <= remdays
      invariant 0 <= months < 12 && 0 <= remdays
      invariant MarchSum(months) + remdays == all
      decreases remdays
    {
      remdays := remdays - DAYS_IN_MONTH[months];
      months := months + 1;
    }
    ghost var m0 := months;
    years := years + 2000;
    months := months + 2;
    if months >= 12 {
      months := months - 12;
      years := years + 1;
    }
    MarchToCivil(march, m0, remdays, years, months + 1);
    assert CivilDay(years, months + 1, remdays + 1) == days + 11017;
    assert days + 11017 == t / SECONDS_PER_DAY;
    YearOfDay(years, months + 1, remdays + 1, t);
    if !(2020 <= years <= 2083) {
      DateOfIsZero(t);
      return ZERO;
    }
    d := DateTime(remsecs % 60, remsecs / 60 % 60, remsecs / 3600, remdays + 1, months + 1, years - REFERENCE_YEAR);
    DateOfIs(d, t, years, months + 1, remdays + 1, remsecs);
  }

  /** Splits days since 2000-03-01 into years that start in March and the days left. */
  method SplitDays(days: int) returns (years: int, remdays: int)
    ensures days == MarchDays(years) + remdays
    ensures 0 <= remdays <= 365 && (remdays == 365 ==> IsLeap(2001 + years))
  {
    hide MarchDays, IsLeap, TruncDiv, TruncMod;
    CycleOf(days, DAYS_PER_400Y);
    var qcCycles := TruncDiv(days, DAYS_PER_400Y);
    remdays := TruncMod(days, DAYS_PER_400Y);
    if remdays < 0 {
      remdays := remdays + DAYS_PER_400Y;
      qcCycles := qcCycles - 1;
    }
    CenturyOf(remdays);
    var cCycles := remdays / DAYS_PER_100Y;
    if cCycles == 4 {
      cCycles := cCycles - 1;
    }
    remdays := remdays - cCycles * DAYS_PER_100Y;
    assert days == DAYS_PER_400Y * qcCycles + DAYS_PER_100Y * cCycles + remdays;
    FourYearsOf(remdays);
    var qCycles := remdays / DAYS_PER_4Y;
    if qCycles == 25 {
      qCycles := qCycles - 1;
    }
    remdays := remdays - qCycles * DAYS_PER_4Y;
    assert days == DAYS_PER_400Y * qcCycles + DAYS_PER_100Y * cCycles + DAYS_PER_4Y * qCycles + remdays;
    assert qCycles == 24 && cCycles < 3 ==> remdays < DAYS_PER_4Y - 1;
    YearOf(remdays);
    var remyears := remdays / 365;
    if remyears == 4 {
      remyears := remyears - 1;
    }
    remdays := remdays - remyears * 365;
    assert 0 <= remyears <= 3 && 0 <= remdays <= 365;
    years := remyears + 4 * qCycles + 100 * cCycles + 400 * qcCycles;
    MarchDaysSplit(qcCycles, cCycles, qCycles, remyears);
    MarchLeap(qcCycles, cCycles, qCycles, remyears);
  }

  /** Truncating division, corrected for a negative remainder. */
  lemma CycleOf(x: int, cycle: int)
    requires cycle > 0
    ensures
      var q, r := TruncDiv(x, cycle), TruncMod(x, cycle);
      && x == cycle * q + r && -cycle <= r < cycle
  {
    hide TruncDiv, TruncMod;
    TruncFloor(x, cycle);
    TruncParts(x, cycle);
  }

  lemma TruncParts(x: int, cycle: int)
    requires cycle > 0
    ensures x == cycle * TruncDiv(x, cycle) + TruncMod(x, cycle)
  {
  }

  lemma CenturyOf(days: int)
    requires 0 <= days < DAYS_PER_400Y
    ensures
      var c := if days / DAYS_PER_100Y == 4 then 3 else days / DAYS_PER_100Y;
      var rest := days - c * DAYS_PER_100Y;
      0 <= c <= 3 && 0 <= rest <= DAYS_PER_100Y && (rest == DAYS_PER_100Y ==> c == 3)
  {
  }

  lemma FourYearsOf(days: int)
    requires 0 <= days <= DAYS_PER_100Y
    ensures
      var q := days / DAYS_PER_4Y;
      var rest := days - q * DAYS_PER_4Y;
      0 <= q <= 24 && 0 <= rest < DAYS_PER_4Y && (q == 24 && days < DAYS_PER_100Y ==> rest < DAYS_PER_4Y - 1)
  {
  }

  lemma YearOf(days: int)
    requires 0 <= days < DAYS_PER_4Y
    ensures
      var y := if days / 365 == 4 then 3 else days / 365;
      var rest := days - y * 365;
      0 <= y <= 3 && 0 <= rest <= 365 && (rest == 365 ==> days == DAYS_PER_4Y - 1)
  {
  }

  lemma MarchDaysSplit(qc: int, c: int, q: int, y: int)
    requires 0 <= c <= 3 && 0 <= q <= 24 && 0 <= y <= 3
    ensures MarchDays(y + 4 * q + 100 * c + 400 * qc)
         == DAYS_PER_400Y * qc + DAYS_PER_100Y * c + DAYS_PER_4Y * q + 365 * y
  {
    var n := y + 4 * q + 100 * c + 400 * qc;
    assert n / 4 == q + 25 * c + 100 * qc;
    assert n / 100 == c + 4 * qc;
    assert n / 400 == qc;
  }

  lemma MarchLeap(qc: int, c: int, q: int, y: int)
    requires 0 <= c <= 3 && 0 <= q <= 24 && 0 <= y <= 3
    ensures IsLeap(2001 + y + 4 * q + 100 * c + 400 * qc) <==> y == 3 && (q == 24 ==> c == 3)
  {
    var z := 2001 + y + 4 * q + 100 * c + 400 * qc;
    if y < 3 {
      QuotientUnique(z, 4, 500 + q + 25 * c + 100 * qc, 1 + y);
    } else {
      QuotientUnique(z, 4, 501 + q + 25 * c + 100 * qc, 0);
      if q < 24 {
        QuotientUnique(z, 100, 20 + c + 4 * qc, 4 * q + 4);
      } else {
        QuotientUnique(z, 100, 21 + c + 4 * qc, 0);
        QuotientUnique(z, 400, if c == 3 then 6 + qc else 5 + qc, if c == 3 then 0 else 100 * c + 100);
      }
    }
  }

  lemma MarchSums()
    ensures MarchSum(10) == 306 && MarchSum(11) == 337
  {
    assert MarchSum(3) == 92;
    assert MarchSum(6) == 184;
    assert MarchSum(9) == 275;
  }

  lemma MarchMonths(y: int, k: nat)
    requires k <= 9
    ensures DaysBeforeMonth(y, k + 3) == 59 + (if IsLeap(y) then 1 else 0) + MarchSum(k)
    ensures DAYS_IN_MONTH[k] == DaysInMonth(y, k + 3)
  {
    hide IsLeap;
    if k > 0 {
      MarchMonths(y, k - 1);
    } else {
      DaysBeforeMonthTable(y, 3);
    }
  }

  /** A March-based year, month and day is the same civil day. */
  lemma MarchToCivil(march: int, k: nat, d: int, y: int, m: int)
    requires k <= 11 && 0 <= d < DAYS_IN_MONTH[k]
    requires MarchSum(k) + d == 365 ==> IsLeap(2001 + march)
    requires if k <= 9 then y == 2000 + march && m == k + 3 else y == 2001 + march && m == k - 9
    ensures 1 <= d + 1 <= DaysInMonth(y, m)
    ensures CivilDay(y, m, d + 1) == MarchDays(march) + MarchSum(k) + d + 11017
  {
    hide DaysBeforeYear, DaysBeforeMonth, IsLeap;
    MarchYear(march);
    MarchSums();
    if k <= 9 {
      MarchMonths(y, k);
    } else {
      DaysBeforeMonthTable(y, m);
      NextYear(2000 + march);
    }
  }

  lemma MarchYear(march: int)
    ensures DaysBeforeYear(2000 + march) + 59 + (if IsLeap(2000 + march) then 1 else 0) == MarchDays(march) + 11017
  {
    hide IsLeap, DaysBeforeYear;
    DaysBeforeYearClosed(2000 + march);
    LeapsStep(2000 + march);
    assert (2000 + march) / 4 == 500 + march / 4 && (2000 + march) / 100 == 20 + march / 100;
    assert (2000 + march) / 400 == 5 + march / 400;
  }

  lemma DateOfIsZero(t: int)
    requires !InRange(t)
    ensures DateOf(t) == ZERO
  {
  }

  lemma DateOfIs(d: DateTime, t: int, y: int, m: int, day: int, s: int)
    requires InRange(t)
    requires 1 <= m <= 12 && 1 <= day <= DaysInMonth(y, m) && 2020 <= y <= 2083
    requires CivilDay(y, m, day) == t / SECONDS_PER_DAY && s == t % SECONDS_PER_DAY
    requires d == DateTime(s % 60, s / 60 % 60, s / 3600, day, m, y - REFERENCE_YEAR)
    ensures d == DateOf(t)
  {
    hide DateOf, DaysBeforeYear, DaysBeforeMonth, IsLeap;
    assert UnixSeconds(d) == t;
    OrderIsTime(d, DateOf(t));
  }

  // The conversions undo each other.

  /** `date_time_to_unix_time`, as `ConvertToUnixTime` computes it. */
  function ToUnix(d: DateTime, utcOffset: uint32): uint32 {
    Truncate32(UnixSeconds(d) - AsInt32(utcOffset))
  }

  /** `date_time_from_unix_time`, as `DateTimeFromUnixTime` computes it. */
  function FromUnix(timestamp: uint32, utcOffset: uint32): DateTime {
    DateOf(timestamp as int + AsInt32(utcOffset))
  }

  method DateTimeToUnixTime(d: DateTime, utcOffset: uint32) returns (t: uint32)
    requires 1 <= d.month <= 12
    ensures t == ToUnix(d, utcOffset)
  {
    hide Seconds, Truncate32;
    t := ConvertToUnixTime(d.FullYear(), d.month, d.day, d.hour, d.minute, d.second, utcOffset);
  }

  function ConvertZone(d: DateTime, origin: uint32, destination: uint32): DateTime {
    FromUnix(ToUnix(d, origin), destination)
  }

  method DateTimeConvertZone(d: DateTime, origin: uint32, destination: uint32) returns (r: DateTime)
    requires 1 <= d.month <= 12
    ensures r == ConvertZone(d, origin, destination)
    ensures var utc, shifted := UnixSeconds(d) - AsInt32(origin), UnixSeconds(d) - AsInt32(origin) + AsInt32(destination);
      0 <= utc < TWO_32 ==> if InRange(shifted) then ValidRtc(r) && UnixSeconds(r) == shifted else r == ZERO
  {
    hide DateOf, Truncate32, UnixSeconds;
    var t := DateTimeToUnixTime(d, origin);
    r := DateTimeFromUnixTime(t, destination);
    if 0 <= UnixSeconds(d) - AsInt32(origin) < TWO_32 {
      ZoneShifts(d, origin, destination);
    }
  }

  /**
   The time of the converted date is the time in UTC plus the destination's offset, whenever the time in UTC is a
   `u32`; and where no date of 2020 to 2083 has that time the result is the zero date.
   */
  lemma ZoneShifts(d: DateTime, origin: uint32, destination: uint32)
    requires 0 <= UnixSeconds(d) - AsInt32(origin) < TWO_32
    ensures
      var r, shifted := ConvertZone(d, origin, destination), UnixSeconds(d) - AsInt32(origin) + AsInt32(destination);
      && (ValidRtc(r) <==> InRange(shifted))
      && (InRange(shifted) ==> UnixSeconds(r) == shifted)
      && (!InRange(shifted) ==> r == ZERO)
  {
    hide DateOf, UnixSeconds;
  }

  /** Date to seconds to date is the identity exactly when the time of the date in UTC is a `u32`. */
  lemma DateRoundTrip(d: DateTime, utcOffset: uint32)
    requires ValidRtc(d)
    ensures FromUnix(ToUnix(d, utcOffset), utcOffset) == d
       <==> 0 <= UnixSeconds(d) - AsInt32(utcOffset) < TWO_32
  {
    hide DateOf, UnixSeconds;
    ValidInRange(d);
    var exact := UnixSeconds(d) - AsInt32(utcOffset);
    var wrapped := Truncate32(exact) + AsInt32(utcOffset);
    assert wrapped == UnixSeconds(d) - TWO_32 * (exact / TWO_32);
    OrderIsTime(d, d);
    if InRange(wrapped) {
      OrderIsTime(d, DateOf(wrapped));
    }
  }

  /** Every offset within eight years qualifies, whatever the date. */
  lemma BoundedOffsetRoundTrip(d: DateTime, utcOffset: uint32)
    requires ValidRtc(d) && -252460800 <= AsInt32(utcOffset) <= 252460800
    ensures FromUnix(ToUnix(d, utcOffset), utcOffset) == d
  {
    hide FromUnix, ToUnix, UnixSeconds;
    ValidInRange(d);
    DateRoundTrip(d, utcOffset);
  }

  /** Seconds to date to seconds is the identity whenever the result is a date; it is one exactly for 2020 to 2083. */
  lemma SecondsRoundTrip(timestamp: uint32, utcOffset: uint32)
    ensures ValidRtc(FromUnix(timestamp, utcOffset)) <==> InRange(timestamp as int + AsInt32(utcOffset))
    ensures ValidRtc(FromUnix(timestamp, utcOffset)) ==> ToUnix(FromUnix(timestamp, utcOffset), utcOffset) == timestamp
  {
    hide DateOf, UnixSeconds;
  }

  /** Converting through an intermediate zone changes nothing while the intermediate is a date. */
  lemma ZonePathIndependent(d: DateTime, a: uint32, b: uint32, c: uint32)
    requires ValidRtc(ConvertZone(d, a, b))
    ensures ConvertZone(ConvertZone(d, a, b), b, c) == ConvertZone(d, a, c)
  {
    hide FromUnix, ToUnix;
    SecondsRoundTrip(ToUnix(d, a), b);
  }
}
