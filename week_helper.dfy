/**
 * backend/src/utils/weekHelper.ts: the Monday-to-Sunday UTC week window
 * around an instant, as instants and as `YYYY-MM-DD` texts. The clock read
 * of `getCurrentWeekInfo` is the parameter `now`.
 */
module WeekHelper {
  import opened DateHelper

  datatype WeekInfo = WeekInfo(startDate: string, endDate: string, startDateObj: int, endDateObj: int)

  /** getWeekInfo: the week window holding `date`. */
  function GetWeekInfo(date: int): (w: WeekInfo)
    ensures w.startDateObj <= date <= w.endDateObj
    ensures w.endDateObj - w.startDateObj == 7 * MsPerDay - 1
    ensures w.startDateObj % MsPerDay == 0 && WeekDay(w.startDateObj) == Monday
  {
    var startOfWeek := GetStartOfWeek(date);
    var endOfWeek := GetEndOfWeek(date);
    WeekInfo(FormatDate(startOfWeek), FormatDate(endOfWeek), startOfWeek, endOfWeek)
  }

  /** getCurrentWeekInfo, with the current instant passed in. */
  function GetCurrentWeekInfo(now: int): (w: WeekInfo)
    ensures w.startDateObj == GetStartOfWeek(now) && w.endDateObj == GetEndOfWeek(now)
    ensures w.startDateObj <= now <= w.endDateObj
  {
    GetWeekInfo(now)
  }

  /** isInCurrentWeek: `date` lies inside the window of the week of `now`. */
  predicate IsInCurrentWeek(date: int, now: int)
  {
    var w := GetCurrentWeekInfo(now);
    date >= w.startDateObj && date <= w.endDateObj
  }

  /** The two texts name the UTC days of the window's ends: a Monday and the Sunday six days after it. */
  lemma WeekInfoDates(date: int)
    ensures var w := GetWeekInfo(date);
            ParseDate(w.startDate).Some? && ParseDate(w.endDate).Some? &&
            var first, last := ParseDate(w.startDate).value, ParseDate(w.endDate).value;
            ValidCivil(first) && ValidCivil(last) &&
            DaysFromCivil(first) == Day(w.startDateObj) && DaysFromCivil(last) == Day(w.endDateObj) &&
            DayWeekDay(DaysFromCivil(first)) == Monday &&
            DaysFromCivil(last) == DaysFromCivil(first) + 6
  {
    var w := GetWeekInfo(date);
    FormatDateParses(w.startDateObj);
    FormatDateParses(w.endDateObj);
  }

  /** An instant is in the current week exactly when its own week starts where now's does. */
  lemma IsInCurrentWeekIff(date: int, now: int)
    ensures IsInCurrentWeek(date, now) <==> GetStartOfWeek(date) == GetStartOfWeek(now)
    ensures IsInCurrentWeek(date, now) <==> 0 <= Day(date) - Day(GetStartOfWeek(now)) < 7
  {
    if IsInCurrentWeek(date, now) {
      WeekIsStable(now, date);
    }
    if GetStartOfWeek(date) == GetStartOfWeek(now) {
      assert GetEndOfWeek(date) == GetEndOfWeek(now);
    }
    var s := GetStartOfWeek(now);
    assert s / MsPerDay * MsPerDay == s;
  }

  /** Now is in its own week; the instants just outside the window are not. */
  lemma CurrentWeekBoundaries(now: int)
    ensures IsInCurrentWeek(now, now)
    ensures !IsInCurrentWeek(GetEndOfWeek(now) + 1, now)
    ensures !IsInCurrentWeek(GetStartOfWeek(now) - 1, now)
  {
  }

  /** Every instant of one week window gets the same week info. */
  lemma WeekInfoIsStable(t: int, u: int)
    requires GetStartOfWeek(t) <= u <= GetEndOfWeek(t)
    ensures GetWeekInfo(u) == GetWeekInfo(t)
  {
    WeekIsStable(t, u);
  }
}
