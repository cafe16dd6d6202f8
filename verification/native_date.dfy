/**
 The native `Date` operations the wrapper delegates to: the UTC mutators of
 section 21.4.4 of ECMA-262 (setUTCDate … setUTCSeconds) and the static
 `Date.UTC` of section 21.4.3.4, for integral arguments.

 Each mutator takes the current time value and returns the new one. A
 trailing argument that the caller leaves out is `None` and defaults to
 the corresponding field of the current time value, as the standard says
 ("if min is not present, let m be MinFromTime(t)").
 */
module NativeDate {

  import opened Results
  import opened EcmaTime
  import DivMod

  // ---------------------------------------------------------------------
  // Clock-field mutators: rollover is plain millisecond arithmetic
  // ---------------------------------------------------------------------

  /** Date.prototype.setUTCHours(hour [, min [, sec [, ms]]]) (21.4.4.24). */
  function SetUTCHours(t: int, hour: int, min: Option<int>, sec: Option<int>, ms: Option<int>): (r: int)
    ensures r == t + (hour - HourFromTime(t)) * MsPerHour
                   + (min.GetOr(MinFromTime(t)) - MinFromTime(t)) * MsPerMinute
                   + (sec.GetOr(SecFromTime(t)) - SecFromTime(t)) * MsPerSecond
                   + (ms.GetOr(MsFromTime(t)) - MsFromTime(t))
  {
    TimeDecomposition(t);
    MakeDate(Day(t), MakeTime(hour, min.GetOr(MinFromTime(t)), sec.GetOr(SecFromTime(t)), ms.GetOr(MsFromTime(t))))
  }

  /** Date.prototype.setUTCMinutes(min [, sec [, ms]]) (21.4.4.26). */
  function SetUTCMinutes(t: int, min: int, sec: Option<int>, ms: Option<int>): (r: int)
    ensures r == t + (min - MinFromTime(t)) * MsPerMinute
                   + (sec.GetOr(SecFromTime(t)) - SecFromTime(t)) * MsPerSecond
                   + (ms.GetOr(MsFromTime(t)) - MsFromTime(t))
  {
    TimeDecomposition(t);
    MakeDate(Day(t), MakeTime(HourFromTime(t), min, sec.GetOr(SecFromTime(t)), ms.GetOr(MsFromTime(t))))
  }

  /** Date.prototype.setUTCSeconds(sec [, ms]) (21.4.4.28). */
  function SetUTCSeconds(t: int, sec: int, ms: Option<int>): (r: int)
    ensures r == t + (sec - SecFromTime(t)) * MsPerSecond + (ms.GetOr(MsFromTime(t)) - MsFromTime(t))
  {
    TimeDecomposition(t);
    MakeDate(Day(t), MakeTime(HourFromTime(t), MinFromTime(t), sec, ms.GetOr(MsFromTime(t))))
  }

  /** Date.prototype.setUTCMilliseconds(ms) (21.4.4.25). */
  function SetUTCMilliseconds(t: int, ms: int): (r: int)
    ensures r == t + (ms - MsFromTime(t))
  {
    TimeDecomposition(t);
    MakeDate(Day(t), MakeTime(HourFromTime(t), MinFromTime(t), SecFromTime(t), ms))
  }

  // ---------------------------------------------------------------------
  // Calendar-field mutators: the time within the day is kept
  // ---------------------------------------------------------------------

  /** Date.prototype.setUTCDate(date) (21.4.4.23). */
  function SetUTCDate(t: int, date: int): (r: int)
    ensures r == t + (date - DateFromTime(t)) * MsPerDay
  {
    TimeDecomposition(t);
    MakeDayOfFields(t);
    MakeDate(MakeDay(YearFromTime(t), MonthFromTime(t), date), TimeWithinDay(t))
  }

  /** Date.prototype.setUTCMonth(month [, date]) (21.4.4.27). */
  function SetUTCMonth(t: int, month: int, date: Option<int>): (r: int)
    ensures TimeWithinDay(r) == TimeWithinDay(t)
  {
    var r := MakeDate(MakeDay(YearFromTime(t), month, date.GetOr(DateFromTime(t))), TimeWithinDay(t));
    DayOfMakeDate(MakeDay(YearFromTime(t), month, date.GetOr(DateFromTime(t))), TimeWithinDay(t));
    r
  }

  /** Date.prototype.setUTCFullYear(year [, month [, date]]) (21.4.4.22). */
  function SetUTCFullYear(t: int, year: int, month: Option<int>, date: Option<int>): (r: int)
    ensures TimeWithinDay(r) == TimeWithinDay(t)
  {
    var day := MakeDay(year, month.GetOr(MonthFromTime(t)), date.GetOr(DateFromTime(t)));
    DayOfMakeDate(day, TimeWithinDay(t));
    MakeDate(day, TimeWithinDay(t))
  }

  // ---------------------------------------------------------------------
  // Effects of the mutators on the fields, for in-range arguments
  // ---------------------------------------------------------------------

  /** setUTCHours sets the given clock fields and keeps the calendar date. */
  lemma SetUTCHoursFields(t: int, hour: int, min: Option<int>, sec: Option<int>, ms: Option<int>)
    requires 0 <= hour < 24
    requires min.Some? ==> 0 <= min.value < 60
    requires sec.Some? ==> 0 <= sec.value < 60
    requires ms.Some? ==> 0 <= ms.value < 1000
    ensures var r := SetUTCHours(t, hour, min, sec, ms);
      && Day(r) == Day(t)
      && HourFromTime(r) == hour
      && MinFromTime(r) == min.GetOr(MinFromTime(t))
      && SecFromTime(r) == sec.GetOr(SecFromTime(t))
      && MsFromTime(r) == ms.GetOr(MsFromTime(t))
  {
    FieldsOfMakeDate(Day(t), hour, min.GetOr(MinFromTime(t)), sec.GetOr(SecFromTime(t)), ms.GetOr(MsFromTime(t)));
  }

  /** setUTCMinutes sets the given clock fields and keeps the rest. */
  lemma SetUTCMinutesFields(t: int, min: int, sec: Option<int>, ms: Option<int>)
    requires 0 <= min < 60
    requires sec.Some? ==> 0 <= sec.value < 60
    requires ms.Some? ==> 0 <= ms.value < 1000
    ensures var r := SetUTCMinutes(t, min, sec, ms);
      && Day(r) == Day(t)
      && HourFromTime(r) == HourFromTime(t)
      && MinFromTime(r) == min
      && SecFromTime(r) == sec.GetOr(SecFromTime(t))
      && MsFromTime(r) == ms.GetOr(MsFromTime(t))
  {
    FieldsOfMakeDate(Day(t), HourFromTime(t), min, sec.GetOr(SecFromTime(t)), ms.GetOr(MsFromTime(t)));
  }

  /** setUTCSeconds sets the given clock fields and keeps the rest. */
  lemma SetUTCSecondsFields(t: int, sec: int, ms: Option<int>)
    requires 0 <= sec < 60
    requires ms.Some? ==> 0 <= ms.value < 1000
    ensures var r := SetUTCSeconds(t, sec, ms);
      && Day(r) == Day(t)
      && HourFromTime(r) == HourFromTime(t)
      && MinFromTime(r) == MinFromTime(t)
      && SecFromTime(r) == sec
      && MsFromTime(r) == ms.GetOr(MsFromTime(t))
  {
    FieldsOfMakeDate(Day(t), HourFromTime(t), MinFromTime(t), sec, ms.GetOr(MsFromTime(t)));
  }

  /** setUTCMilliseconds sets the millisecond field and keeps the rest. */
  lemma SetUTCMillisecondsFields(t: int, ms: int)
    requires 0 <= ms < 1000
    ensures var r := SetUTCMilliseconds(t, ms);
      && Day(r) == Day(t)
      && HourFromTime(r) == HourFromTime(t)
      && MinFromTime(r) == MinFromTime(t)
      && SecFromTime(r) == SecFromTime(t)
      && MsFromTime(r) == ms
  {
    FieldsOfMakeDate(Day(t), HourFromTime(t), MinFromTime(t), SecFromTime(t), ms);
  }

  /** setUTCDate sets the date and keeps year, month and clock. */
  lemma SetUTCDateFields(t: int, date: int)
    requires 1 <= date <= DaysInMonth(YearFromTime(t), MonthFromTime(t))
    ensures var r := SetUTCDate(t, date);
      && YearFromTime(r) == YearFromTime(t)
      && MonthFromTime(r) == MonthFromTime(t)
      && DateFromTime(r) == date
      && TimeWithinDay(r) == TimeWithinDay(t)
  {
    FieldsOfMakeDay(YearFromTime(t), MonthFromTime(t), date, TimeWithinDay(t));
  }

  /** setUTCMonth sets month (and date) and keeps the year and clock. */
  lemma SetUTCMonthFields(t: int, month: int, date: Option<int>)
    requires 0 <= month < 12
    requires 1 <= date.GetOr(DateFromTime(t)) <= DaysInMonth(YearFromTime(t), month)
    ensures var r := SetUTCMonth(t, month, date);
      && YearFromTime(r) == YearFromTime(t)
      && MonthFromTime(r) == month
      && DateFromTime(r) == date.GetOr(DateFromTime(t))
      && TimeWithinDay(r) == TimeWithinDay(t)
  {
    FieldsOfMakeDay(YearFromTime(t), month, date.GetOr(DateFromTime(t)), TimeWithinDay(t));
  }

  /** setUTCFullYear sets year (and month, date) and keeps the clock. */
  lemma SetUTCFullYearFields(t: int, year: int, month: Option<int>, date: Option<int>)
    requires 0 <= month.GetOr(MonthFromTime(t)) < 12
    requires 1 <= date.GetOr(DateFromTime(t)) <= DaysInMonth(year, month.GetOr(MonthFromTime(t)))
    ensures var r := SetUTCFullYear(t, year, month, date);
      && YearFromTime(r) == year
      && MonthFromTime(r) == month.GetOr(MonthFromTime(t))
      && DateFromTime(r) == date.GetOr(DateFromTime(t))
      && TimeWithinDay(r) == TimeWithinDay(t)
  {
    FieldsOfMakeDay(year, month.GetOr(MonthFromTime(t)), date.GetOr(DateFromTime(t)), TimeWithinDay(t));
  }

  /** Month lengths differ between years only in February. */
  lemma OnlyFebruaryVaries(y1: int, y2: int, m: int)
    requires 0 <= m < 12
    ensures m != 1 ==> DaysInMonth(y1, m) == DaysInMonth(y2, m)
    ensures DaysInMonth(y1, m) <= DaysInMonth(y2, m) + 1
  {
  }

  /**
   setUTCFullYear with one argument always lands in the requested year: the
   only date that does not exist there, 29 February, rolls over to 1 March.
   */
  lemma SetUTCFullYearLandsInYear(t: int, year: int)
    ensures YearFromTime(SetUTCFullYear(t, year, None, None)) == year
    ensures DateFromTime(t) <= DaysInMonth(year, MonthFromTime(t)) ==>
      MonthFromTime(SetUTCFullYear(t, year, None, None)) == MonthFromTime(t)
    ensures DateFromTime(t) > DaysInMonth(year, MonthFromTime(t)) ==>
      MonthFromTime(SetUTCFullYear(t, year, None, None)) == 2 &&
      DateFromTime(SetUTCFullYear(t, year, None, None)) == 1
  {
    var m := MonthFromTime(t);
    var date := DateFromTime(t);
    if date <= DaysInMonth(year, m) {
      SetUTCFullYearFields(t, year, None, None);
    } else {
      OnlyFebruaryVaries(YearFromTime(t), year, m);
      assert m == 1 && date == 29 && LeapDays(year) == 0;
      DivMod.DivUnique(1, 12, 0, 1);
      DivMod.DivUnique(2, 12, 0, 2);
      assert MakeDay(year, m, date) == DayFromYear(year) + 59;
      assert MakeDay(year, 2, 1) == DayFromYear(year) + 59;
      FieldsOfMakeDay(year, 2, 1, TimeWithinDay(t));
    }
  }

  // ---------------------------------------------------------------------
  // Date.UTC (21.4.3.4)
  // ---------------------------------------------------------------------

  /** Years 0 to 99 passed to Date.UTC mean 1900 to 1999 (MakeFullYear). */
  function MakeFullYear(year: int): int {
    if 0 <= year <= 99 then 1900 + year else year
  }

  /** Date.UTC(year [, month [, date [, hours [, minutes [, seconds [, ms]]]]]]). */
  function DateUTC(year: int, month: Option<int>, date: Option<int>, hours: Option<int>,
                   minutes: Option<int>, seconds: Option<int>, ms: Option<int>): int
  {
    MakeDate(MakeDay(MakeFullYear(year), month.GetOr(0), date.GetOr(1)),
             MakeTime(hours.GetOr(0), minutes.GetOr(0), seconds.GetOr(0), ms.GetOr(0)))
  }

  /** Date.UTC builds the time value whose UTC fields are its in-range arguments. */
  lemma DateUTCFields(year: int, month: Option<int>, date: Option<int>, hours: Option<int>,
                      minutes: Option<int>, seconds: Option<int>, ms: Option<int>)
    requires 0 <= month.GetOr(0) < 12
    requires 1 <= date.GetOr(1) <= DaysInMonth(MakeFullYear(year), month.GetOr(0))
    requires 0 <= hours.GetOr(0) < 24 && 0 <= minutes.GetOr(0) < 60
    requires 0 <= seconds.GetOr(0) < 60 && 0 <= ms.GetOr(0) < 1000
    ensures var t := DateUTC(year, month, date, hours, minutes, seconds, ms);
      && YearFromTime(t) == MakeFullYear(year)
      && MonthFromTime(t) == month.GetOr(0)
      && DateFromTime(t) == date.GetOr(1)
      && HourFromTime(t) == hours.GetOr(0)
      && MinFromTime(t) == minutes.GetOr(0)
      && SecFromTime(t) == seconds.GetOr(0)
      && MsFromTime(t) == ms.GetOr(0)
  {
    var time := MakeTime(hours.GetOr(0), minutes.GetOr(0), seconds.GetOr(0), ms.GetOr(0));
    var day := MakeDay(MakeFullYear(year), month.GetOr(0), date.GetOr(1));
    FieldsOfMakeDate(day, hours.GetOr(0), minutes.GetOr(0), seconds.GetOr(0), ms.GetOr(0));
    FieldsOfMakeDay(MakeFullYear(year), month.GetOr(0), date.GetOr(1), time);
  }
}
