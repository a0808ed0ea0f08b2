/**
 * backend/src/utils/dateHelper.ts: day and week windows and `YYYY-MM-DD`
 * rendering, all in UTC. An instant is an integer count of milliseconds
 * since 1970-01-01T00:00:00.000Z, as a JavaScript `Date` holds it; each
 * helper copies its argument and moves the copy with `setUTCHours` or
 * `setUTCDate`, so each is a function here.
 */
module DateHelper {
  import opened Wrappers
  import opened JsText

  const MsPerDay: int := 86400000
  const Sunday: int := 0
  const Monday: int := 1

  // ---------------------------------------------------------------------
  // The ECMAScript time-value primitives the helpers call
  // ---------------------------------------------------------------------

  /** Day(t): the number of the UTC day holding instant t (floor division). */
  function Day(t: int): int { t / MsPerDay }

  /** The weekday of day number z, Sunday = 0; day 0 (1970-01-01) was a Thursday. */
  function DayWeekDay(z: int): (w: int)
    ensures 0 <= w < 7
  {
    (z + 4) % 7
  }

  /** `getUTCDay()`: Sunday = 0 .. Saturday = 6. */
  function WeekDay(t: int): (w: int)
    ensures 0 <= w < 7
  {
    DayWeekDay(Day(t))
  }

  /** `setUTCHours(h, min, sec, ms)`: keep the UTC day, replace the time of day. */
  function SetUtcHours(t: int, h: int, min: int, sec: int, ms: int): int
  {
    Day(t) * MsPerDay + ((h * 60 + min) * 60 + sec) * 1000 + ms
  }

  /** `setUTCDate(getUTCDate() + n)`: move n whole days, keeping the time of day. */
  function AddUtcDays(t: int, n: int): int
  {
    t + n * MsPerDay
  }

  // ---------------------------------------------------------------------
  // The helpers
  // ---------------------------------------------------------------------

  /** getStartOfDay: 00:00:00.000 of t's UTC day. */
  function GetStartOfDay(t: int): (r: int)
    ensures r % MsPerDay == 0
    ensures r <= t < r + MsPerDay
    ensures Day(r) == Day(t)
  {
    SetUtcHours(t, 0, 0, 0, 0)
  }

  /** getEndOfDay: 23:59:59.999 of t's UTC day. */
  function GetEndOfDay(t: int): (r: int)
    ensures Day(r) == Day(t)
    ensures t <= r
    ensures r - GetStartOfDay(t) == MsPerDay - 1
  {
    SetUtcHours(t, 23, 59, 59, 999)
  }

  /** getStartOfWeek: back to Monday (a Sunday goes back six days), at midnight. */
  function GetStartOfWeek(t: int): (r: int)
    ensures r % MsPerDay == 0
    ensures WeekDay(r) == Monday
    ensures r <= t < r + 7 * MsPerDay
  {
    var day := WeekDay(t);
    var diff := if day == Sunday then -6 else 1 - day;
    WeekStartFacts(t, diff);
    SetUtcHours(AddUtcDays(t, diff), 0, 0, 0, 0)
  }

  /** Day z starts at z * MsPerDay. */
  lemma DayOfMidnight(z: int)
    ensures Day(z * MsPerDay) == z && (z * MsPerDay) % MsPerDay == 0
  {
  }

  /** An instant lies within the day its day number names. */
  lemma DayBounds(t: int)
    ensures Day(t) * MsPerDay <= t < Day(t) * MsPerDay + MsPerDay
  {
  }

  lemma DayShift(t: int, n: int)
    ensures Day(t + n * MsPerDay) == Day(t) + n
  {
    DayBounds(t);
    var z := Day(t) + n;
    assert z * MsPerDay <= t + n * MsPerDay < z * MsPerDay + MsPerDay;
  }

  /** The arithmetic behind getStartOfWeek: the Monday midnight at most six days back. */
  lemma WeekStartFacts(t: int, diff: int)
    requires diff == if WeekDay(t) == Sunday then -6 else 1 - WeekDay(t)
    ensures var r := SetUtcHours(AddUtcDays(t, diff), 0, 0, 0, 0);
            r % MsPerDay == 0 && WeekDay(r) == Monday && r <= t < r + 7 * MsPerDay
  {
    var z := Day(t) + diff;
    assert Day(AddUtcDays(t, diff)) == z by { DayShift(t, diff); }
    var r := z * MsPerDay;
    assert SetUtcHours(AddUtcDays(t, diff), 0, 0, 0, 0) == r;
    DayOfMidnight(z);
    DayBounds(t);
    assert -6 <= diff <= 0;
  }

  /** getEndOfWeek: six days after the start of the week, at 23:59:59.999. */
  function GetEndOfWeek(t: int): (r: int)
    ensures r == GetStartOfWeek(t) + 6 * MsPerDay + (MsPerDay - 1)
    ensures WeekDay(r) == Sunday
    ensures t <= r
  {
    var startOfWeek := GetStartOfWeek(t);
    WeekEndFacts(startOfWeek);
    SetUtcHours(AddUtcDays(startOfWeek, 6), 23, 59, 59, 999)
  }

  /** An instant ms into day z lies on day z. */
  lemma DayOfTime(z: int, ms: int)
    requires 0 <= ms < MsPerDay
    ensures Day(z * MsPerDay + ms) == z
  {
  }

  /** The arithmetic behind getEndOfWeek: the last millisecond six days after a Monday midnight is a Sunday. */
  lemma WeekEndFacts(s: int)
    requires s % MsPerDay == 0 && WeekDay(s) == Monday
    ensures var r := SetUtcHours(AddUtcDays(s, 6), 23, 59, 59, 999);
            r == s + 6 * MsPerDay + (MsPerDay - 1) && WeekDay(r) == Sunday
  {
    var z := Day(s);
    assert s == z * MsPerDay;
    assert Day(AddUtcDays(s, 6)) == z + 6 by { DayShift(s, 6); }
    var r := (z + 6) * MsPerDay + (MsPerDay - 1);
    assert SetUtcHours(AddUtcDays(s, 6), 23, 59, 59, 999) == r;
    assert Day(r) == z + 6 by { DayOfTime(z + 6, MsPerDay - 1); }
    assert DayWeekDay(z) == Monday;
  }

  // ---------------------------------------------------------------------
  // Laws of the day and week windows
  // ---------------------------------------------------------------------

  /** The start of the day is the only midnight at or before t within one day of it. */
  lemma StartOfDayIsUnique(t: int, m: int)
    requires m % MsPerDay == 0 && m <= t < m + MsPerDay
    ensures m == GetStartOfDay(t)
  {
    var s := GetStartOfDay(t);
    assert m / MsPerDay * MsPerDay == m && s / MsPerDay * MsPerDay == s;
  }

  lemma StartOfDayIdempotent(t: int)
    ensures GetStartOfDay(GetStartOfDay(t)) == GetStartOfDay(t)
    ensures GetEndOfDay(GetStartOfDay(t)) == GetEndOfDay(t)
  {
  }

  /** How far getStartOfWeek rolls back: six days from a Sunday, weekday - 1 otherwise. */
  lemma WeekRollback(t: int)
    ensures Day(t) - Day(GetStartOfWeek(t)) == if WeekDay(t) == Sunday then 6 else WeekDay(t) - 1
  {
  }

  /** The start of the week is the only Monday midnight at or before t within seven days of it. */
  lemma StartOfWeekIsUnique(t: int, m: int)
    requires m % MsPerDay == 0 && WeekDay(m) == Monday
    requires m <= t < m + 7 * MsPerDay
    ensures m == GetStartOfWeek(t)
  {
    var s := GetStartOfWeek(t);
    var dm, ds := Day(m), Day(s);
    assert dm * MsPerDay == m && ds * MsPerDay == s;
    assert -7 < dm - ds < 7;
    SameWeekDayWithinAWeek(dm, ds);
  }

  /** Two days less than a week apart that share a weekday are the same day. */
  lemma SameWeekDayWithinAWeek(a: int, b: int)
    requires DayWeekDay(a) == DayWeekDay(b) && -7 < a - b < 7
    ensures a == b
  {
    assert (a - b) % 7 == 0;
  }

  /** Every instant of a week window has that same window. */
  lemma WeekIsStable(t: int, u: int)
    requires GetStartOfWeek(t) <= u <= GetEndOfWeek(t)
    ensures GetStartOfWeek(u) == GetStartOfWeek(t)
    ensures GetEndOfWeek(u) == GetEndOfWeek(t)
  {
    StartOfWeekIsUnique(u, GetStartOfWeek(t));
  }

  // ---------------------------------------------------------------------
  // Civil (proleptic Gregorian) dates
  // ---------------------------------------------------------------------

  datatype CivilDate = CivilDate(year: int, month: int, day: int)

  predicate IsLeapYear(y: int)
  {
    y % 4 == 0 && (y % 100 != 0 || y % 400 == 0)
  }

  function DaysInMonth(y: int, m: int): int
  {
    if m == 2 then (if IsLeapYear(y) then 29 else 28)
    else if m == 4 || m == 6 || m == 9 || m == 11 then 30
    else 31
  }

  predicate ValidCivil(c: CivilDate)
  {
    1 <= c.month <= 12 && 1 <= c.day <= DaysInMonth(c.year, c.month)
  }

  /**
   * Days are counted in 400-year eras of 146097 days that start on 1 March
   * of a year divisible by 400; within an era, years run March to February
   * so that a leap day is the last day of its year. `mp` numbers the months
   * from March (0) to February (11).
   */
  function MonthStart(mp: int): int { (153 * mp + 2) / 5 }

  function YearOfEra(doe: int): int { (doe - doe / 1460 + doe / 36524 - doe / 146096) / 365 }

  function DayOfYear(doe: int, yoe: int): int { doe - (365 * yoe + yoe / 4 - yoe / 100) }

  /** Whether year k of an era (k = 1 .. 400) ends with a leap day. */
  predicate LeapInEra(k: int) { k % 4 == 0 && (k % 100 != 0 || k == 400) }

  /** The month counted from March (0) to February (11). */
  function MarchMonth(month: int): int { if month > 2 then month - 3 else month + 9 }

  /** The day number, plus 719468, of 1 March of year y. */
  function MarchYearStart(y: int): int
  {
    var era, yoe := y / 400, y % 400;
    era * 146097 + yoe * 365 + yoe / 4 - yoe / 100
  }

  /**
   * The day number of a civil date (its days since 1970-01-01): the start
   * of its March-based year plus the day within that year.
   */
  function DaysFromCivil(c: CivilDate): int
  {
    var y := c.year - (if c.month <= 2 then 1 else 0);
    MarchYearStart(y) + MonthStart(MarchMonth(c.month)) + c.day - 1 - 719468
  }

  /** The civil date of day number z; DaysFromCivil undoes it. */
  function CivilFromDays(z: int): (c: CivilDate)
    ensures ValidCivil(c)
    ensures DaysFromCivil(c) == z
  {
    var shifted := z + 719468;
    CivilOfEraDay(shifted / 146097, shifted % 146097)
  }

  /** The civil date of day doe of era `era`. */
  function CivilOfEraDay(era: int, doe: int): (c: CivilDate)
    requires 0 <= doe < 146097
    ensures ValidCivil(c)
    ensures DaysFromCivil(c) == era * 146097 + doe - 719468
  {
    var yoe := YearOfEra(doe);
    YearOfEraBounds(doe);
    CivilOfYearDay(era, yoe, DayOfYear(doe, yoe))
  }

  /** The civil date of day doy of year yoe (counted from March) of era `era`. */
  function CivilOfYearDay(era: int, yoe: int, doy: int): (c: CivilDate)
    requires 0 <= yoe <= 399
    requires 0 <= doy <= 364 + (if LeapInEra(yoe + 1) then 1 else 0)
    ensures ValidCivil(c)
    ensures DaysFromCivil(c) == era * 146097 + (365 * yoe + yoe / 4 - yoe / 100 + doy) - 719468
  {
    var mp := (5 * doy + 2) / 153;
    var m := if mp < 10 then mp + 3 else mp - 9;
    MonthOfDayOfYear(doy);
    LeapAcrossEras(era, yoe + 1);
    YearRoundTrip(era, yoe);
    CivilDate(yoe + era * 400 + (if m <= 2 then 1 else 0), m, doy - MonthStart(mp) + 1)
  }

  lemma QuotientsInCentury(c: int, q: int, s: int)
    requires 0 <= c <= 3 && 0 <= q <= 24 && 0 <= s <= 1460
    ensures var doe := 36524 * c + 1461 * q + s;
            doe / 1460 == 25 * c + q + (if 24 * c + q + s >= 1460 then 1 else 0) &&
            doe / 36524 == (if q == 24 && s == 1460 then c + 1 else c) &&
            doe / 146096 == (if c == 3 && q == 24 && s == 1460 then 1 else 0)
  {
  }

  lemma YearInCentury(c: int, q: int, j: int)
    requires 0 <= c <= 3 && 0 <= q <= 24 && 0 <= j <= 3
    ensures (100 * c + 4 * q + j) / 4 == 25 * c + q
    ensures (100 * c + 4 * q + j) / 100 == c
  {
  }

  lemma DivShift(k: int, r: int)
    requires 0 <= r
    ensures (365 * k + r) / 365 == k + r / 365
  {
  }

  /** The last day of a four-year cycle other than a century's last is a leap day. */
  lemma LeapAtCycleEnd(c: int, q: int)
    requires 0 <= c <= 3 && 0 <= q <= 23
    ensures LeapInEra(100 * c + 4 * q + 4)
  {
    var k := 100 * c + 4 * q + 4;
    assert k % 4 == 0;
    assert k % 100 == 4 * q + 4;
  }

  /** Day s of four-year cycle q of century c of an era. */
  lemma YearOfEraInCentury(c: int, q: int, s: int)
    requires 0 <= c <= 3 && 0 <= q <= 24 && 0 <= s <= 1460
    requires q == 24 ==> s <= 1459
    ensures var doe := 36524 * c + 1461 * q + s;
            0 <= YearOfEra(doe) <= 399 &&
            0 <= DayOfYear(doe, YearOfEra(doe)) <= 364 + (if LeapInEra(YearOfEra(doe) + 1) then 1 else 0)
  {
    var doe := 36524 * c + 1461 * q + s;
    var e := if 24 * c + q + s >= 1460 then 1 else 0;
    var j := YearInCycle(s, e);
    var yoe := 100 * c + 4 * q + j;
    assert YearOfEra(doe) == yoe by { YearOfEraOfCycle(c, q, s, e); }
    var doy := s - 365 * j;
    assert DayOfYear(doe, yoe) == doy by { YearInCentury(c, q, j); }
    assert 0 <= doy <= 364 + (if LeapInEra(yoe + 1) then 1 else 0) by {
      if doy == 365 { LeapAtCycleEnd(c, q); }
    }
  }

  /** The year of era of day s of cycle q of century c, with e the leap-day correction. */
  lemma YearOfEraOfCycle(c: int, q: int, s: int, e: int)
    requires 0 <= c <= 3 && 0 <= q <= 24 && 0 <= s <= 1460
    requires q == 24 ==> s <= 1459
    requires e == if 24 * c + q + s >= 1460 then 1 else 0
    ensures YearOfEra(36524 * c + 1461 * q + s) == 100 * c + 4 * q + (s - e) / 365
  {
    var doe := 36524 * c + 1461 * q + s;
    QuotientsInCentury(c, q, s);
    assert doe - doe / 1460 + doe / 36524 - doe / 146096 == 365 * (100 * c + 4 * q) + (s - e);
    DivShift(100 * c + 4 * q, s - e);
  }

  /** Year j of a four-year cycle holding day s, where e marks the cycle's leap day as passed. */
  lemma YearInCycle(s: int, e: int) returns (j: int)
    requires 0 <= e <= 1 && 0 <= s <= 1460 && (s == 1460 ==> e == 1) && (e == 1 ==> s >= 1364)
    ensures j == (s - e) / 365
    ensures 0 <= j <= 3 && 0 <= s - 365 * j <= 365 && (s - 365 * j == 365 ==> s == 1460 && j == 3)
  {
    j := (s - e) / 365;
  }

  /** The year of an era is in 0 .. 399 and the day of that year fits in it. */
  lemma YearOfEraBounds(doe: int)
    requires 0 <= doe <= 146096
    ensures 0 <= YearOfEra(doe) <= 399
    ensures 0 <= DayOfYear(doe, YearOfEra(doe)) <= 364 + (if LeapInEra(YearOfEra(doe) + 1) then 1 else 0)
  {
    if doe == 146096 {
      assert YearOfEra(doe) == 399;
    } else {
      var c, r := doe / 36524, doe % 36524;
      var q, s := r / 1461, r % 1461;
      assert doe == 36524 * c + 1461 * q + s;
      YearOfEraInCentury(c, q, s);
    }
  }

  /** The March-based month of a day of the year, and where that month starts. */
  lemma MonthOfDayOfYear(doy: int)
    requires 0 <= doy <= 365
    ensures var mp := (5 * doy + 2) / 153;
            0 <= mp <= 11 && MonthStart(mp) <= doy &&
            (mp < 11 ==> doy - MonthStart(mp) < DaysInMonth(0, if mp < 10 then mp + 3 else mp - 9)) &&
            (mp == 11 ==> doy - MonthStart(mp) <= 28)
  {
  }

  lemma LeapAcrossEras(era: int, k: int)
    requires 1 <= k <= 400
    ensures IsLeapYear(era * 400 + k) <==> LeapInEra(k)
  {
    ShiftMod4(100 * era, k);
    ShiftMod100(4 * era, k);
    ShiftMod400(era, k);
  }

  lemma ShiftMod4(n: int, k: int)
    ensures (4 * n + k) % 4 == k % 4
  {
  }

  lemma ShiftMod100(n: int, k: int)
    ensures (100 * n + k) % 100 == k % 100
  {
  }

  lemma ShiftMod400(n: int, k: int)
    ensures (400 * n + k) % 400 == k % 400
  {
  }

  lemma YearRoundTrip(era: int, yoe: int)
    requires 0 <= yoe <= 399
    ensures (yoe + era * 400) / 400 == era && (yoe + era * 400) % 400 == yoe
  {
  }

  /** Day number 0 is 1970-01-01, the epoch of `Date`. */
  lemma EpochIsDayZero()
    ensures DaysFromCivil(CivilDate(1970, 1, 1)) == 0
  {
  }

  /**
   * getUTCDay's numbering on the calendar: 1970-01-01 was a Thursday,
   * 2024-06-10 a Monday and 2024-06-16 a Sunday.
   */
  lemma KnownWeekDays()
    ensures DayWeekDay(DaysFromCivil(CivilDate(1970, 1, 1))) == 4
    ensures DayWeekDay(DaysFromCivil(CivilDate(2024, 6, 10))) == Monday
    ensures DayWeekDay(DaysFromCivil(CivilDate(2024, 6, 16))) == Sunday
  {
  }

  /** The calendar day after c: the next day of the month, else the first of the next month. */
  function NextDate(c: CivilDate): CivilDate
  {
    if c.day < DaysInMonth(c.year, c.month) then c.(day := c.day + 1)
    else if c.month == 12 then CivilDate(c.year + 1, 1, 1)
    else CivilDate(c.year, c.month + 1, 1)
  }

  /** Consecutive calendar days have consecutive day numbers, leap days included. */
  lemma DaysFromCivilNextDate(c: CivilDate)
    requires ValidCivil(c)
    ensures ValidCivil(NextDate(c))
    ensures DaysFromCivil(NextDate(c)) == DaysFromCivil(c) + 1
  {
    if c.day < DaysInMonth(c.year, c.month) {
      NextDayInMonth(c);
    } else if c.month == 2 {
      NextDayAfterFebruary(c);
    } else if c.month == 12 {
      NextDayAfterDecember(c);
    } else {
      NextDayAfterMonth(c);
    }
  }

  lemma NextDayInMonth(c: CivilDate)
    requires ValidCivil(c) && c.day < DaysInMonth(c.year, c.month)
    ensures DaysFromCivil(c.(day := c.day + 1)) == DaysFromCivil(c) + 1
  {
  }

  lemma NextDayAfterFebruary(c: CivilDate)
    requires c.month == 2 && c.day == DaysInMonth(c.year, 2)
    ensures DaysFromCivil(CivilDate(c.year, 3, 1)) == DaysFromCivil(c) + 1
  {
    MarchYearLength(c.year);
  }

  lemma NextDayAfterDecember(c: CivilDate)
    requires c.month == 12 && c.day == 31
    ensures DaysFromCivil(CivilDate(c.year + 1, 1, 1)) == DaysFromCivil(c) + 1
  {
  }

  lemma NextDayAfterMonth(c: CivilDate)
    requires 1 <= c.month < 12 && c.month != 2 && c.day == DaysInMonth(c.year, c.month)
    ensures DaysFromCivil(CivilDate(c.year, c.month + 1, 1)) == DaysFromCivil(c) + 1
  {
    var mp := MarchMonth(c.month);
    assert MarchMonth(c.month + 1) == mp + 1;
    assert (c.month + 1 <= 2) == (c.month <= 2);
    MonthLengths(mp);
  }

  /** Months from March: each starts where the previous one ends. */
  lemma MonthLengths(mp: int)
    requires 0 <= mp <= 10
    ensures MonthStart(mp + 1) - MonthStart(mp) == DaysInMonth(0, if mp < 10 then mp + 3 else mp - 9)
  {
  }

  /** The year from 1 March of y - 1 to 1 March of y has 366 days when y is a leap year, else 365. */
  lemma MarchYearLength(y: int)
    ensures MarchYearStart(y) == MarchYearStart(y - 1) + 365 + (if IsLeapYear(y) then 1 else 0)
  {
    var era, yoe := (y - 1) / 400, (y - 1) % 400;
    assert y == era * 400 + yoe + 1;
    LeapAcrossEras(era, yoe + 1);
    if yoe == 399 {
      assert y / 400 == era + 1 && y % 400 == 0;
    } else {
      YearRoundTrip(era, yoe + 1);
      YearStep(yoe + 1);
    }
  }

  /** How the leap-day count of a year of an era grows from year k - 1 to year k. */
  lemma YearStep(k: int)
    requires 1 <= k <= 399
    ensures k / 4 - (k - 1) / 4 == (if k % 4 == 0 then 1 else 0)
    ensures k / 100 - (k - 1) / 100 == (if k % 100 == 0 then 1 else 0)
  {
  }

  // ---------------------------------------------------------------------
  // UTC calendar fields and formatDate
  // ---------------------------------------------------------------------

  /** `getUTCFullYear()`; with the month and the day it names t's UTC day. */
  function GetUtcFullYear(t: int): (y: int)
    ensures ValidCivil(CivilDate(y, GetUtcMonth(t) + 1, GetUtcDate(t)))
    ensures DaysFromCivil(CivilDate(y, GetUtcMonth(t) + 1, GetUtcDate(t))) == Day(t)
  {
    CivilFromDays(Day(t)).year
  }

  /** `getUTCMonth()`, January = 0. */
  function GetUtcMonth(t: int): (m: nat)
    ensures m < 12
  {
    CivilFromDays(Day(t)).month - 1
  }

  /** `getUTCDate()`, the day of the month from 1. */
  function GetUtcDate(t: int): (d: nat)
    ensures 1 <= d <= 31
  {
    CivilFromDays(Day(t)).day
  }

  /** formatDate: `${year}-${MM}-${DD}` from the UTC fields. */
  function FormatDate(t: int): string
  {
    var year := GetUtcFullYear(t);
    var month := TwoDigits(GetUtcMonth(t) + 1);
    var day := TwoDigits(GetUtcDate(t));
    IntToString(year) + "-" + month + "-" + day
  }

  /** Reads `Y-MM-DD` back (Y any numeral, possibly signed); the inverse of FormatDate. */
  function ParseDate(s: string): Option<CivilDate>
  {
    if |s| < 7 || s[|s| - 6] != '-' || s[|s| - 3] != '-' then None
    else Some(CivilDate(ParseInt(s[..|s| - 6]), ParseDigits(s[|s| - 5..|s| - 3]), ParseDigits(s[|s| - 2..])))
  }

  /** Where the parts of `${y}-${mm}-${dd}` sit when mm and dd have two characters. */
  lemma DateTextParts(ys: string, ms: string, ds: string)
    requires |ys| >= 1 && |ms| == 2 && |ds| == 2
    ensures var s := ys + "-" + ms + "-" + ds;
            |s| == |ys| + 6 && s[..|s| - 6] == ys && s[|s| - 6] == '-' &&
            s[|s| - 5..|s| - 3] == ms && s[|s| - 3] == '-' && s[|s| - 2..] == ds
  {
  }

  lemma ParseDateOfParts(ys: string, ms: string, ds: string)
    requires |ys| >= 1 && |ms| == 2 && |ds| == 2
    ensures ParseDate(ys + "-" + ms + "-" + ds) == Some(CivilDate(ParseInt(ys), ParseDigits(ms), ParseDigits(ds)))
  {
    DateTextParts(ys, ms, ds);
  }

  /** The text `${y}-${MM}-${DD}` reads back as the date it was built from. */
  lemma DateTextParses(y: int, m: nat, d: nat)
    requires m < 100 && d < 100
    ensures ParseDate(IntToString(y) + "-" + TwoDigits(m) + "-" + TwoDigits(d)) == Some(CivilDate(y, m, d))
  {
    var ys, ms, ds := IntToString(y), TwoDigits(m), TwoDigits(d);
    TwoDigitsRoundTrip(m);
    TwoDigitsRoundTrip(d);
    ParseIntToString(y);
    ParseDateOfParts(ys, ms, ds);
  }

  /** formatDate names exactly t's UTC civil date. */
  lemma FormatDateParses(t: int)
    ensures ParseDate(FormatDate(t)) == Some(CivilFromDays(Day(t)))
  {
    var c := CivilFromDays(Day(t));
    DateTextParses(c.year, c.month, c.day);
  }

  /** formatDate depends on the UTC day alone. */
  lemma FormatDateByDay(t: int)
    ensures FormatDate(t) == FormatDate(GetStartOfDay(t))
  {
  }

  /** Two instants format alike exactly when they fall on the same UTC day. */
  lemma FormatDateInjective(t: int, u: int)
    ensures FormatDate(t) == FormatDate(u) <==> Day(t) == Day(u)
  {
    if FormatDate(t) == FormatDate(u) {
      FormatDateParses(t);
      FormatDateParses(u);
      assert DaysFromCivil(CivilFromDays(Day(t))) == DaysFromCivil(CivilFromDays(Day(u)));
    }
  }

  lemma DigitTextParts(ys: string, ms: string, ds: string)
    requires |ys| == 4 && |ms| == 2 && |ds| == 2
    requires forall i :: 0 <= i < 4 ==> IsDigit(ys[i])
    requires IsDigit(ms[0]) && IsDigit(ms[1]) && IsDigit(ds[0]) && IsDigit(ds[1])
    ensures var s := ys + "-" + ms + "-" + ds;
            |s| == 10 && s[4] == '-' && s[7] == '-' &&
            (forall i :: 0 <= i < 10 && i != 4 && i != 7 ==> IsDigit(s[i])) &&
            s[..4] == ys && s[5..7] == ms && s[8..] == ds
  {
  }

  /** A four-digit year gives a ten-character `YYYY-MM-DD` text. */
  lemma DateTextShape(y: nat, m: nat, d: nat)
    requires 1000 <= y <= 9999 && m < 100 && d < 100
    ensures var s := IntToString(y) + "-" + TwoDigits(m) + "-" + TwoDigits(d);
            |s| == 10 && s[4] == '-' && s[7] == '-' &&
            (forall i :: 0 <= i < 10 && i != 4 && i != 7 ==> IsDigit(s[i])) &&
            ParseDigits(s[..4]) == y && ParseDigits(s[5..7]) == m && ParseDigits(s[8..]) == d
  {
    NatToStringLength4(y);
    ParseNatToString(y);
    TwoDigitsRoundTrip(m);
    TwoDigitsRoundTrip(d);
    DigitTextParts(NatToString(y), TwoDigits(m), TwoDigits(d));
  }

  /** For four-digit years formatDate yields a ten-character `YYYY-MM-DD` naming a real date. */
  lemma FormatDateShape(t: int)
    requires 1000 <= GetUtcFullYear(t) <= 9999
    ensures var s := FormatDate(t);
            |s| == 10 && s[4] == '-' && s[7] == '-' &&
            (forall i :: 0 <= i < 10 && i != 4 && i != 7 ==> IsDigit(s[i])) &&
            ParseDigits(s[..4]) == GetUtcFullYear(t) &&
            1 <= ParseDigits(s[5..7]) <= 12 &&
            1 <= ParseDigits(s[8..]) <= DaysInMonth(ParseDigits(s[..4]), ParseDigits(s[5..7]))
  {
    var c := CivilFromDays(Day(t));
    DateTextShape(c.year, c.month, c.day);
  }
}
