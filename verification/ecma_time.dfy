/**
 The time-value arithmetic of section 21.4.1 of ECMA-262 (ECMAScript 2022),
 on which every native `Date` accessor and mutator rests.

 A time value is a whole number of milliseconds since 1970-01-01T00:00:00Z.
 All divisions below have a positive divisor, so Dafny's Euclidean `/` and
 `%` coincide with the specification's `floor` and `modulo`.
 */
module EcmaTime {

  import opened DivMod

  const MsPerSecond: int := 1000
  const MsPerMinute: int := 60000
  const MsPerHour: int := 3600000
  const MsPerDay: int := 86400000

  // ---------------------------------------------------------------------
  // Days and time within a day (21.4.1.3, 21.4.1.10)
  // ---------------------------------------------------------------------

  /** The number of the day that contains time value `t`. */
  function Day(t: int): int {
    t / MsPerDay
  }

  /** Milliseconds elapsed since the start of the day containing `t`. */
  function TimeWithinDay(t: int): int {
    t % MsPerDay
  }

  function HourFromTime(t: int): int {
    (t / MsPerHour) % 24
  }

  function MinFromTime(t: int): int {
    (t / MsPerMinute) % 60
  }

  function SecFromTime(t: int): int {
    (t / MsPerSecond) % 60
  }

  function MsFromTime(t: int): int {
    t % MsPerSecond
  }

  /** Day of the week, 0 for Sunday; day 0 (1970-01-01) was a Thursday. */
  function WeekDay(t: int): (r: int)
    ensures 0 <= r < 7
  {
    (Day(t) + 4) % 7
  }

  /** MakeTime for integral arguments (21.4.1.11). */
  function MakeTime(hour: int, min: int, sec: int, ms: int): int {
    hour * MsPerHour + min * MsPerMinute + sec * MsPerSecond + ms
  }

  /** MakeDate (21.4.1.13). */
  function MakeDate(day: int, time: int): int {
    day * MsPerDay + time
  }

  /** A time value is the sum of its day and its clock fields. */
  lemma TimeDecomposition(t: int)
    ensures t == MakeDate(Day(t), TimeWithinDay(t))
    ensures TimeWithinDay(t) == MakeTime(HourFromTime(t), MinFromTime(t), SecFromTime(t), MsFromTime(t))
  {
    var a := t / MsPerSecond;
    var b := a / 60;
    var c := b / 60;
    var d := c / 24;
    DivUnique(t, MsPerMinute, b, SecFromTime(t) * MsPerSecond + MsFromTime(t));
    DivUnique(t, MsPerHour, c, MinFromTime(t) * MsPerMinute + SecFromTime(t) * MsPerSecond + MsFromTime(t));
    DivUnique(t, MsPerDay, d, MakeTime(HourFromTime(t), MinFromTime(t), SecFromTime(t), MsFromTime(t)));
  }

  /**
   Reading the fields back from a date built out of in-range fields gives
   those fields: MakeDate/MakeTime and Day/…FromTime are inverse.
   */
  lemma FieldsOfMakeDate(day: int, hour: int, min: int, sec: int, ms: int)
    requires 0 <= hour < 24 && 0 <= min < 60 && 0 <= sec < 60 && 0 <= ms < 1000
    ensures Day(MakeDate(day, MakeTime(hour, min, sec, ms))) == day
    ensures TimeWithinDay(MakeDate(day, MakeTime(hour, min, sec, ms))) == MakeTime(hour, min, sec, ms)
    ensures HourFromTime(MakeDate(day, MakeTime(hour, min, sec, ms))) == hour
    ensures MinFromTime(MakeDate(day, MakeTime(hour, min, sec, ms))) == min
    ensures SecFromTime(MakeDate(day, MakeTime(hour, min, sec, ms))) == sec
    ensures MsFromTime(MakeDate(day, MakeTime(hour, min, sec, ms))) == ms
  {
    var t := MakeDate(day, MakeTime(hour, min, sec, ms));
    DivUnique(t, MsPerDay, day, MakeTime(hour, min, sec, ms));
    DivUnique(t, MsPerHour, day * 24 + hour, min * MsPerMinute + sec * MsPerSecond + ms);
    DivUnique(day * 24 + hour, 24, day, hour);
    DivUnique(t, MsPerMinute, (day * 24 + hour) * 60 + min, sec * MsPerSecond + ms);
    DivUnique((day * 24 + hour) * 60 + min, 60, day * 24 + hour, min);
    DivUnique(t, MsPerSecond, ((day * 24 + hour) * 60 + min) * 60 + sec, ms);
    DivUnique(((day * 24 + hour) * 60 + min) * 60 + sec, 60, (day * 24 + hour) * 60 + min, sec);
  }

  /** Day and time within the day are recovered from MakeDate. */
  lemma DayOfMakeDate(day: int, time: int)
    requires 0 <= time < MsPerDay
    ensures Day(MakeDate(day, time)) == day
    ensures TimeWithinDay(MakeDate(day, time)) == time
  {
  }

  // ---------------------------------------------------------------------
  // Years (21.4.1.4)
  // ---------------------------------------------------------------------

  /** Proleptic Gregorian year length. */
  function DaysInYear(y: int): int {
    if y % 4 != 0 then 365
    else if y % 100 != 0 then 366
    else if y % 400 != 0 then 365
    else 366
  }

  /** 1 in a leap year, 0 otherwise. */
  function LeapDays(y: int): int {
    DaysInYear(y) - 365
  }

  /** Day number of the first day of year `y`. */
  function DayFromYear(y: int): int {
    365 * (y - 1970) + (y - 1969) / 4 - (y - 1901) / 100 + (y - 1601) / 400
  }

  /** Time value of the start of year `y`. */
  function TimeFromYear(y: int): int {
    MsPerDay * DayFromYear(y)
  }

  /** The closed form of DayFromYear advances by the length of each year. */
  lemma DayFromYearStep(y: int)
    ensures DayFromYear(y + 1) == DayFromYear(y) + DaysInYear(y)
  {
    FloorStep(y - 1969, 4);
    ModShift(y, 492, 4);
    assert (y - 1968) / 4 - (y - 1969) / 4 == if y % 4 == 0 then 1 else 0;
    FloorStep(y - 1901, 100);
    ModShift(y, 19, 100);
    assert (y - 1900) / 100 - (y - 1901) / 100 == if y % 100 == 0 then 1 else 0;
    FloorStep(y - 1601, 400);
    ModShift(y, 4, 400);
    assert (y - 1600) / 400 - (y - 1601) / 400 == if y % 400 == 0 then 1 else 0;
    if y % 100 == 0 {
      DivUnique(y, 4, 25 * (y / 100), 0);
    }
    if y % 400 == 0 {
      DivUnique(y, 100, 4 * (y / 400), 0);
    }
  }

  /** Between two years lie between 365 and 366 days per year. */
  lemma {:induction false} DayFromYearBounds(y1: int, y2: int)
    requires y1 <= y2
    ensures 365 * (y2 - y1) <= DayFromYear(y2) - DayFromYear(y1) <= 366 * (y2 - y1)
    decreases y2 - y1
  {
    if y1 < y2 {
      DayFromYearBounds(y1, y2 - 1);
      DayFromYearStep(y2 - 1);
    }
  }

  /** DayFromYear is strictly increasing. */
  lemma DayFromYearMonotone(y1: int, y2: int)
    requires y1 < y2
    ensures DayFromYear(y1) < DayFromYear(y2)
  {
    DayFromYearBounds(y1, y2);
  }

  /** A year no later than the one containing day `d`. */
  function YearLowerBound(d: int): (y: int)
    ensures DayFromYear(y) <= d
  {
    var k := if d >= 0 then d / 366 else d / 365;
    if k >= 0 then
      DayFromYearBounds(1970, 1970 + k);
      1970 + k
    else
      DayFromYearBounds(1970 + k, 1970);
      1970 + k
  }

  /** The year containing day `d`, searched upwards from year `y`. */
  function YearSearch(d: int, y: int): (r: int)
    requires DayFromYear(y) <= d
    ensures y <= r
    ensures DayFromYear(r) <= d < DayFromYear(r + 1)
    decreases d - DayFromYear(y)
  {
    DayFromYearStep(y);
    if d < DayFromYear(y + 1) then y else YearSearch(d, y + 1)
  }

  /**
   YearFromTime (21.4.1.4): the year whose span of time values contains `t`,
   that is the largest `y` with TimeFromYear(y) <= t.
   */
  function YearFromTime(t: int): (y: int)
    ensures TimeFromYear(y) <= t < TimeFromYear(y + 1)
  {
    var d := Day(t);
    YearSearch(d, YearLowerBound(d))
  }

  /** YearFromTime is the largest year starting at or before `t`. */
  lemma YearFromTimeIsLargest(t: int, y: int)
    requires TimeFromYear(y) <= t
    ensures y <= YearFromTime(t)
  {
    var r := YearFromTime(t);
    if r < y {
      DayFromYearBounds(r + 1, y);
    }
  }

  /** A year whose span contains `t` is YearFromTime(t). */
  lemma YearFromTimeUnique(t: int, y: int)
    requires TimeFromYear(y) <= t < TimeFromYear(y + 1)
    ensures YearFromTime(t) == y
  {
    var r := YearFromTime(t);
    YearFromTimeIsLargest(t, y);
    if y < r {
      DayFromYearBounds(y + 1, r);
    }
  }

  /** 1 when `t` lies in a leap year, 0 otherwise. */
  function InLeapYear(t: int): int {
    LeapDays(YearFromTime(t))
  }

  /** Zero-based position of the day of `t` within its year (21.4.1.5). */
  function DayWithinYear(t: int): (r: int)
    ensures 0 <= r < DaysInYear(YearFromTime(t))
  {
    DayFromYearStep(YearFromTime(t));
    Day(t) - DayFromYear(YearFromTime(t))
  }

  // ---------------------------------------------------------------------
  // Months and dates (21.4.1.6, 21.4.1.7)
  // ---------------------------------------------------------------------

  /**
   Days of the year that precede month `m` (0 = January); MonthStart(12, …)
   is the length of the year.
   */
  function MonthStart(m: int, leap: int): int
    requires 0 <= m <= 12
  {
    if m == 0 then 0
    else if m == 1 then 31
    else if m == 2 then 59 + leap
    else if m == 3 then 90 + leap
    else if m == 4 then 120 + leap
    else if m == 5 then 151 + leap
    else if m == 6 then 181 + leap
    else if m == 7 then 212 + leap
    else if m == 8 then 243 + leap
    else if m == 9 then 273 + leap
    else if m == 10 then 304 + leap
    else if m == 11 then 334 + leap
    else 365 + leap
  }

  /** Length of month `m` (0-based) of year `y`. */
  function DaysInMonth(y: int, m: int): (r: int)
    requires 0 <= m < 12
    ensures 28 <= r <= 31
    ensures r == 29 <==> m == 1 && DaysInYear(y) == 366
  {
    MonthStart(m + 1, LeapDays(y)) - MonthStart(m, LeapDays(y))
  }

  /** MonthFromTime, following the table of 21.4.1.6. */
  function MonthFromTime(t: int): (m: int)
    ensures 0 <= m < 12
    ensures MonthStart(m, InLeapYear(t)) <= DayWithinYear(t) < MonthStart(m + 1, InLeapYear(t))
  {
    var d := DayWithinYear(t);
    var leap := InLeapYear(t);
    if d < 31 then 0
    else if d < 59 + leap then 1
    else if d < 90 + leap then 2
    else if d < 120 + leap then 3
    else if d < 151 + leap then 4
    else if d < 181 + leap then 5
    else if d < 212 + leap then 6
    else if d < 243 + leap then 7
    else if d < 273 + leap then 8
    else if d < 304 + leap then 9
    else if d < 334 + leap then 10
    else 11
  }

  /** DateFromTime (21.4.1.7): the 1-based day of the month. */
  function DateFromTime(t: int): (r: int)
    ensures 1 <= r <= DaysInMonth(YearFromTime(t), MonthFromTime(t))
  {
    DayWithinYear(t) - MonthStart(MonthFromTime(t), InLeapYear(t)) + 1
  }

  /** The month whose span within the year holds the day of `t` is its month. */
  lemma MonthOfDayWithinYear(t: int, m: int)
    requires 0 <= m < 12
    requires MonthStart(m, InLeapYear(t)) <= DayWithinYear(t) < MonthStart(m + 1, InLeapYear(t))
    ensures MonthFromTime(t) == m
  {
  }

  /**
   MakeDay (21.4.1.12) for integral arguments: the month is normalised into
   the year first, then the day number of the first of that month is
   found and `date - 1` days are added. Out-of-range months and dates roll
   over; the lemmas below justify the closed form.
   */
  function MakeDay(year: int, month: int, date: int): int {
    var ym := year + month / 12;
    var mn := month % 12;
    DayFromYear(ym) + MonthStart(mn, LeapDays(ym)) + date - 1
  }

  /**
   The day MakeDay starts from is the one whose year is `ym`, whose month is
   `mn` and whose date is 1, as 21.4.1.12 requires.
   */
  lemma MakeDayFindsFirstOfMonth(year: int, month: int, date: int)
    ensures var t := MakeDate(MakeDay(year + month / 12, month % 12, 1), 0);
      && YearFromTime(t) == year + month / 12
      && MonthFromTime(t) == month % 12
      && DateFromTime(t) == 1
      && MakeDay(year, month, date) == Day(t) + date - 1
  {
    var ym := year + month / 12;
    var mn := month % 12;
    DivUnique(mn, 12, 0, mn);
    var first := DayFromYear(ym) + MonthStart(mn, LeapDays(ym));
    assert MakeDay(ym, mn, 1) == first;
    assert MakeDay(year, month, date) == first + date - 1;
    FieldsOfMakeDay(ym, mn, 1, 0);
  }

  /** The day number of `t` is rebuilt from its year, month and date. */
  lemma MakeDayOfFields(t: int)
    ensures MakeDay(YearFromTime(t), MonthFromTime(t), DateFromTime(t)) == Day(t)
  {
    var m := MonthFromTime(t);
    DivUnique(m, 12, 0, m);
  }

  /**
   Conversely, an in-range (year, month, date) is read back unchanged from
   the day MakeDay gives it, whatever the time within that day.
   */
  lemma FieldsOfMakeDay(y: int, m: int, date: int, time: int)
    requires 0 <= m < 12
    requires 1 <= date <= DaysInMonth(y, m)
    requires 0 <= time < MsPerDay
    ensures Day(MakeDate(MakeDay(y, m, date), time)) == MakeDay(y, m, date)
    ensures TimeWithinDay(MakeDate(MakeDay(y, m, date), time)) == time
    ensures YearFromTime(MakeDate(MakeDay(y, m, date), time)) == y
    ensures MonthFromTime(MakeDate(MakeDay(y, m, date), time)) == m
    ensures DateFromTime(MakeDate(MakeDay(y, m, date), time)) == date
  {
    DivUnique(m, 12, 0, m);
    var leap := LeapDays(y);
    var day := DayFromYear(y) + MonthStart(m, leap) + date - 1;
    assert day == MakeDay(y, m, date);
    var t := MakeDate(day, time);
    DayOfMakeDate(day, time);
    DayFromYearStep(y);
    assert MonthStart(m, leap) + date - 1 < MonthStart(m + 1, leap) <= 365 + leap;
    YearFromTimeUnique(t, y);
    MonthOfDayWithinYear(t, m);
  }

  // ---------------------------------------------------------------------
  // Fields that depend only on the day, or only on the time within it
  // ---------------------------------------------------------------------

  /** The clock fields are those of the time within the day. */
  lemma ClockOfTimeWithinDay(t: int)
    ensures HourFromTime(t) == TimeWithinDay(t) / MsPerHour
    ensures MinFromTime(t) == (TimeWithinDay(t) / MsPerMinute) % 60
    ensures SecFromTime(t) == (TimeWithinDay(t) / MsPerSecond) % 60
    ensures MsFromTime(t) == TimeWithinDay(t) % MsPerSecond
  {
    TimeDecomposition(t);
    FieldsOfMakeDate(0, HourFromTime(t), MinFromTime(t), SecFromTime(t), MsFromTime(t));
  }

  /** Two time values on the same day have the same calendar fields. */
  lemma SameDaySameDate(t1: int, t2: int)
    requires Day(t1) == Day(t2)
    ensures YearFromTime(t1) == YearFromTime(t2)
    ensures MonthFromTime(t1) == MonthFromTime(t2)
    ensures DateFromTime(t1) == DateFromTime(t2)
    ensures WeekDay(t1) == WeekDay(t2)
  {
    var y := YearFromTime(t1);
    YearFromTimeUnique(t2, y);
    MonthOfDayWithinYear(t2, MonthFromTime(t1));
  }

  /** Two time values at the same time of day have the same clock fields. */
  lemma SameTimeOfDaySameClock(t1: int, t2: int)
    requires TimeWithinDay(t1) == TimeWithinDay(t2)
    ensures HourFromTime(t1) == HourFromTime(t2)
    ensures MinFromTime(t1) == MinFromTime(t2)
    ensures SecFromTime(t1) == SecFromTime(t2)
    ensures MsFromTime(t1) == MsFromTime(t2)
  {
    ClockOfTimeWithinDay(t1);
    ClockOfTimeWithinDay(t2);
  }
}
