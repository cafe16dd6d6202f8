/**
 DateTz (source/index.js): a native Date together with a fixed UTC offset.
 The `getTz*` methods read the UTC fields of a shifted copy of the time
 value, and the `setTz*` methods change one field of that shifted copy and
 store it back through the unshifting `__shifted` setter.

 A DateTz is a value here: each JavaScript mutator becomes a function that
 returns the object's state after the call (the JavaScript methods
 themselves return `undefined`).
 */
module DateTz {

  import opened Results
  import opened EcmaTime
  import opened NativeDate
  import opened Zone

  /** The zone used when the constructor receives `undefined`. */
  const DefaultZone: string := "+0000"

  /** The time value of the underlying Date and the three cached zone fields. */
  datatype TzDate = TzDate(time: int, offset: Offset)

  /** How far, in milliseconds, the zone's clock runs ahead of UTC. */
  function OffsetMs(o: Offset): int {
    (o.h * 60 + o.m) * MsPerMinute
  }

  /** The cached `__h`, `__m` agree with the cached `__zone`. */
  predicate Valid(d: TzDate) {
    Consistent(d.offset)
  }

  // ---------------------------------------------------------------------
  // Construction and the zone property
  // ---------------------------------------------------------------------

  /**
   `new DateTz(zone, t)` for a time value `t`: the Date part is built
   first, then the zone is assigned, which throws on a malformed string.
   */
  function New(zone: Option<string>, t: int): (r: Result<TzDate, ZoneError>)
    ensures r.Success? <==> MatchesPattern(zone.GetOr(DefaultZone))
    ensures r.Failure? ==> r.error == InvalidZone(zone.GetOr(DefaultZone))
    ensures r.Success? ==> r.value.time == t && Valid(r.value)
    ensures r.Success? ==> ParseZone(zone.GetOr(DefaultZone)) == Success(r.value.offset)
  {
    match ParseZone(zone.GetOr(DefaultZone))
    case Success(o) => Success(TzDate(t, o))
    case Failure(e) => Failure(e)
  }

  /** The `zone` getter: the cached canonical string. */
  function GetZone(d: TzDate): (z: string)
    ensures Valid(d) ==> |z| == 5 && ':' !in z
  {
    d.offset.zone
  }

  /** The state after `d.zone = value`, and the error it threw, if any. */
  datatype ZoneAssignment = ZoneAssignment(after: TzDate, thrown: Option<ZoneError>)

  /**
   The `zone` setter: all three cached fields are replaced together on a
   match; on a mismatch it throws before writing anything. The time value
   is never touched.
   */
  function AssignZone(d: TzDate, value: string): (r: ZoneAssignment)
    ensures r.after.time == d.time
    ensures r.thrown.None? <==> MatchesPattern(value)
    ensures r.thrown.Some? ==> r.after == d && r.thrown.value == InvalidZone(value)
    ensures r.thrown.None? ==> Valid(r.after) && ParseZone(value) == Success(r.after.offset)
  {
    match ParseZone(value)
    case Success(o) => ZoneAssignment(d.(offset := o), None)
    case Failure(e) => ZoneAssignment(d, Some(e))
  }

  // ---------------------------------------------------------------------
  // The shift engine: the `__shifted` getter and setter
  // ---------------------------------------------------------------------

  /**
   The `__shifted` getter: a copy of the time value whose UTC hours and
   minutes are advanced by the offset with `setUTCHours(H + h, Min + m)`.
   Whatever the rollover, the copy is the instant plus the offset.
   */
  function Shifted(d: TzDate): (s: int)
    ensures s == d.time + OffsetMs(d.offset)
  {
    SetUTCHours(d.time, HourFromTime(d.time) + d.offset.h, Some(MinFromTime(d.time) + d.offset.m), None, None)
  }

  /**
   The `__shifted` setter: copies the calendar date of `v` with
   `setUTCFullYear(Y, M, D)`, then its clock less the offset with
   `setUTCHours(H - h, Min - m, S, ms)`. The two steps together subtract the
   offset from `v`; the offset itself is untouched.
   */
  function StoreShifted(d: TzDate, v: int): (r: TzDate)
    ensures r.offset == d.offset
    ensures r.time == v - OffsetMs(d.offset)
  {
    var dated := SetUTCFullYear(d.time, YearFromTime(v), Some(MonthFromTime(v)), Some(DateFromTime(v)));
    MakeDayOfFields(v);
    TimeDecomposition(v);
    DayOfMakeDate(Day(v), TimeWithinDay(d.time));
    var timed := SetUTCHours(dated, HourFromTime(v) - d.offset.h, Some(MinFromTime(v) - d.offset.m),
                             Some(SecFromTime(v)), Some(MsFromTime(v)));
    d.(time := timed)
  }

  /** Storing the unmodified shifted view leaves the object as it was. */
  lemma StoreShiftedUndoesShifted(d: TzDate)
    ensures StoreShifted(d, Shifted(d)) == d
  {
  }

  /** Reading the view back after storing `v` gives `v`. */
  lemma ShiftedAfterStore(d: TzDate, v: int)
    ensures Shifted(StoreShifted(d, v)) == v
  {
  }

  // ---------------------------------------------------------------------
  // Getters
  // ---------------------------------------------------------------------

  function GetTzDate(d: TzDate): (r: int)
    ensures 1 <= r <= DaysInMonth(GetTzFullYear(d), GetTzMonth(d))
    ensures MakeDay(GetTzFullYear(d), GetTzMonth(d), r) == Day(d.time + OffsetMs(d.offset))
  {
    MakeDayOfFields(Shifted(d));
    DateFromTime(Shifted(d))
  }

  function GetTzDay(d: TzDate): (r: int)
    ensures 0 <= r < 7
  {
    WeekDay(Shifted(d))
  }

  function GetTzFullYear(d: TzDate): (r: int)
    ensures TimeFromYear(r) <= d.time + OffsetMs(d.offset) < TimeFromYear(r + 1)
  {
    YearFromTime(Shifted(d))
  }

  function GetTzHours(d: TzDate): (r: int)
    ensures 0 <= r < 24
  {
    HourFromTime(Shifted(d))
  }

  /**
   The offset is a whole number of minutes, so the zone's milliseconds are
   the UTC milliseconds.
   */
  function GetTzMilliseconds(d: TzDate): (r: int)
    ensures r == MsFromTime(d.time)
  {
    WholeMinutesKeepSeconds(d.time, d.offset.h * 60 + d.offset.m);
    MsFromTime(Shifted(d))
  }

  function GetTzMinutes(d: TzDate): (r: int)
    ensures 0 <= r < 60
  {
    MinFromTime(Shifted(d))
  }

  function GetTzMonth(d: TzDate): (r: int)
    ensures 0 <= r < 12
  {
    MonthFromTime(Shifted(d))
  }

  /**
   The offset is a whole number of minutes, so the zone's seconds are the
   UTC seconds.
   */
  function GetTzSeconds(d: TzDate): (r: int)
    ensures r == SecFromTime(d.time)
  {
    WholeMinutesKeepSeconds(d.time, d.offset.h * 60 + d.offset.m);
    SecFromTime(Shifted(d))
  }

  /**
   `getTzTimezoneOffset`: the minutes to add to the zone's clock to get
   UTC, the negated offset, as `Date.prototype.getTimezoneOffset` counts.
   */
  function GetTzTimezoneOffset(d: TzDate): (r: int)
    ensures d.time == Shifted(d) + r * MsPerMinute
  {
    -(d.offset.h * 60 + d.offset.m)
  }

  /** Adding whole minutes changes neither the seconds nor the milliseconds. */
  lemma WholeMinutesKeepSeconds(t: int, minutes: int)
    ensures SecFromTime(t + minutes * MsPerMinute) == SecFromTime(t)
    ensures MsFromTime(t + minutes * MsPerMinute) == MsFromTime(t)
  {
    var u := t + minutes * MsPerMinute;
    DivMod.DivUnique(u, MsPerSecond, t / MsPerSecond + minutes * 60, MsFromTime(t));
    DivMod.DivUnique(u / MsPerSecond, 60, t / MsPerSecond / 60 + minutes, SecFromTime(t));
  }

  /**
   The zone's clock fields and calendar fields, put back together with
   MakeTime, MakeDay and MakeDate, give the instant plus the offset; the
   zone's weekday is the weekday of the zone's date.
   */
  lemma TzFieldsAssembleShiftedInstant(d: TzDate)
    ensures MakeDate(MakeDay(GetTzFullYear(d), GetTzMonth(d), GetTzDate(d)),
                     MakeTime(GetTzHours(d), GetTzMinutes(d), GetTzSeconds(d), GetTzMilliseconds(d)))
            == d.time + OffsetMs(d.offset)
    ensures GetTzDay(d) == (MakeDay(GetTzFullYear(d), GetTzMonth(d), GetTzDate(d)) + 4) % 7
  {
    var s := Shifted(d);
    TimeDecomposition(s);
    MakeDayOfFields(s);
    WholeMinutesKeepSeconds(d.time, d.offset.h * 60 + d.offset.m);
  }

  /**
   The zone's wall clock reads the UTC wall clock plus the offset, modulo a
   day: the hours and minutes of the view are shifted, the rest are not.
   */
  lemma TzClockIsUtcClockPlusOffset(d: TzDate)
    ensures (GetTzHours(d) * 60 + GetTzMinutes(d)) % 1440
            == (HourFromTime(d.time) * 60 + MinFromTime(d.time) + d.offset.h * 60 + d.offset.m) % 1440
  {
    var t := d.time;
    var k := d.offset.h * 60 + d.offset.m;
    var s := Shifted(d);
    TimeDecomposition(t);
    TimeDecomposition(s);
    WholeMinutesKeepSeconds(t, k);
    var dayMinutes := Day(s) * 1440 + HourFromTime(s) * 60 + MinFromTime(s);
    assert dayMinutes == Day(t) * 1440 + HourFromTime(t) * 60 + MinFromTime(t) + k;
    DivMod.DivUnique(dayMinutes, 1440, Day(s), HourFromTime(s) * 60 + MinFromTime(s));
    DivMod.ModShift(HourFromTime(t) * 60 + MinFromTime(t) + k, -Day(t), 1440);
  }

  // ---------------------------------------------------------------------
  // Setters: change one field of the view, then store the view back
  // ---------------------------------------------------------------------

  /** `setTzDate(date)`. */
  function SetTzDate(d: TzDate, date: int): (r: TzDate)
    ensures r.offset == d.offset
    ensures Shifted(r) == SetUTCDate(Shifted(d), date)
  {
    StoreShifted(d, SetUTCDate(Shifted(d), date))
  }

  /** `setTzFullYear(year [, month [, date]])`. */
  function SetTzFullYear(d: TzDate, year: int, month: Option<int>, date: Option<int>): (r: TzDate)
    ensures r.offset == d.offset
    ensures Shifted(r) == SetUTCFullYear(Shifted(d), year, month, date)
  {
    StoreShifted(d, SetUTCFullYear(Shifted(d), year, month, date))
  }

  /** `setTzHours(hour [, min [, sec [, ms]]])`. */
  function SetTzHours(d: TzDate, hour: int, min: Option<int>, sec: Option<int>, ms: Option<int>): (r: TzDate)
    ensures r.offset == d.offset
    ensures Shifted(r) == SetUTCHours(Shifted(d), hour, min, sec, ms)
  {
    StoreShifted(d, SetUTCHours(Shifted(d), hour, min, sec, ms))
  }

  /**
   `setTzMilliseconds(ms)`: whatever the zone, the same instant as
   `setUTCMilliseconds(ms)` on the underlying Date.
   */
  function SetTzMilliseconds(d: TzDate, ms: int): (r: TzDate)
    ensures r.offset == d.offset
    ensures Shifted(r) == SetUTCMilliseconds(Shifted(d), ms)
    ensures r.time == SetUTCMilliseconds(d.time, ms)
  {
    WholeMinutesKeepSeconds(d.time, d.offset.h * 60 + d.offset.m);
    assert Shifted(d) == d.time + OffsetMs(d.offset);
    assert MsFromTime(Shifted(d)) == MsFromTime(d.time);
    StoreShifted(d, SetUTCMilliseconds(Shifted(d), ms))
  }

  /** `setTzMinutes(min [, sec [, ms]])`. */
  function SetTzMinutes(d: TzDate, min: int, sec: Option<int>, ms: Option<int>): (r: TzDate)
    ensures r.offset == d.offset
    ensures Shifted(r) == SetUTCMinutes(Shifted(d), min, sec, ms)
  {
    StoreShifted(d, SetUTCMinutes(Shifted(d), min, sec, ms))
  }

  /** `setTzMonth(month [, date])`. */
  function SetTzMonth(d: TzDate, month: int, date: Option<int>): (r: TzDate)
    ensures r.offset == d.offset
    ensures Shifted(r) == SetUTCMonth(Shifted(d), month, date)
  {
    StoreShifted(d, SetUTCMonth(Shifted(d), month, date))
  }

  /**
   `setTzSeconds(sec [, ms])`: whatever the zone, the same instant as
   `setUTCSeconds(sec [, ms])` on the underlying Date.
   */
  function SetTzSeconds(d: TzDate, sec: int, ms: Option<int>): (r: TzDate)
    ensures r.offset == d.offset
    ensures Shifted(r) == SetUTCSeconds(Shifted(d), sec, ms)
    ensures r.time == SetUTCSeconds(d.time, sec, ms)
  {
    WholeMinutesKeepSeconds(d.time, d.offset.h * 60 + d.offset.m);
    assert SecFromTime(Shifted(d)) == SecFromTime(d.time) && MsFromTime(Shifted(d)) == MsFromTime(d.time);
    StoreShifted(d, SetUTCSeconds(Shifted(d), sec, ms))
  }

  /**
   `getTzTimezoneOffset` depends on the cached offset alone; since every
   `setTz*` keeps the offset, no setter changes what it returns.
   */
  lemma TimezoneOffsetDependsOnlyOnZone(d: TzDate, e: TzDate)
    requires d.offset == e.offset
    ensures GetTzTimezoneOffset(d) == GetTzTimezoneOffset(e)
    ensures GetTzTimezoneOffset(d) == -OffsetMs(e.offset) / MsPerMinute
  {
  }

  // ---------------------------------------------------------------------
  // Reading back what a setter wrote
  // ---------------------------------------------------------------------

  /** After `setTzDate(date)` with a date of the zone's month, the zone reads that date; nothing else moves. */
  lemma SetTzDateReadsBack(d: TzDate, date: int)
    requires 1 <= date <= DaysInMonth(GetTzFullYear(d), GetTzMonth(d))
    ensures var r := SetTzDate(d, date);
      && GetTzDate(r) == date
      && GetTzMonth(r) == GetTzMonth(d)
      && GetTzFullYear(r) == GetTzFullYear(d)
      && GetTzHours(r) == GetTzHours(d)
      && GetTzMinutes(r) == GetTzMinutes(d)
      && GetTzSeconds(r) == GetTzSeconds(d)
      && GetTzMilliseconds(r) == GetTzMilliseconds(d)
  {
    var s := Shifted(d);
    SetUTCDateFields(s, date);
    SameTimeOfDaySameClock(SetUTCDate(s, date), s);
  }

  /**
   After `setTzFullYear(year)` the zone reads that year, always: a 29
   February that does not exist in `year` becomes 1 March. Otherwise month,
   date and clock are unchanged.
   */
  lemma SetTzFullYearReadsBack(d: TzDate, year: int)
    ensures var r := SetTzFullYear(d, year, None, None);
      && GetTzFullYear(r) == year
      && GetTzHours(r) == GetTzHours(d)
      && GetTzMinutes(r) == GetTzMinutes(d)
      && GetTzSeconds(r) == GetTzSeconds(d)
      && GetTzMilliseconds(r) == GetTzMilliseconds(d)
      && (GetTzDate(d) <= DaysInMonth(year, GetTzMonth(d)) ==>
            GetTzMonth(r) == GetTzMonth(d) && GetTzDate(r) == GetTzDate(d))
  {
    var s := Shifted(d);
    SetUTCFullYearLandsInYear(s, year);
    if GetTzDate(d) <= DaysInMonth(year, GetTzMonth(d)) {
      SetUTCFullYearFields(s, year, None, None);
    }
    SameTimeOfDaySameClock(SetUTCFullYear(s, year, None, None), s);
  }

  /** `setTzFullYear(year, month, date)` with a real date sets all three. */
  lemma SetTzFullYearAllFieldsReadBack(d: TzDate, year: int, month: int, date: int)
    requires 0 <= month < 12 && 1 <= date <= DaysInMonth(year, month)
    ensures var r := SetTzFullYear(d, year, Some(month), Some(date));
      && GetTzFullYear(r) == year
      && GetTzMonth(r) == month
      && GetTzDate(r) == date
      && GetTzHours(r) == GetTzHours(d)
      && GetTzMinutes(r) == GetTzMinutes(d)
      && GetTzSeconds(r) == GetTzSeconds(d)
      && GetTzMilliseconds(r) == GetTzMilliseconds(d)
  {
    var s := Shifted(d);
    SetUTCFullYearFields(s, year, Some(month), Some(date));
    SameTimeOfDaySameClock(SetUTCFullYear(s, year, Some(month), Some(date)), s);
  }

  /** After `setTzHours(hour)` the zone reads that hour; date and the rest of the clock stay. */
  lemma SetTzHoursReadsBack(d: TzDate, hour: int)
    requires 0 <= hour < 24
    ensures var r := SetTzHours(d, hour, None, None, None);
      && GetTzHours(r) == hour
      && GetTzMinutes(r) == GetTzMinutes(d)
      && GetTzSeconds(r) == GetTzSeconds(d)
      && GetTzMilliseconds(r) == GetTzMilliseconds(d)
      && GetTzDate(r) == GetTzDate(d)
      && GetTzMonth(r) == GetTzMonth(d)
      && GetTzFullYear(r) == GetTzFullYear(d)
  {
    var s := Shifted(d);
    SetUTCHoursFields(s, hour, None, None, None);
    SameDaySameDate(SetUTCHours(s, hour, None, None, None), s);
  }

  /** `setTzHours(hour, min, sec, ms)` with in-range arguments sets the whole clock. */
  lemma SetTzHoursAllFieldsReadBack(d: TzDate, hour: int, min: int, sec: int, ms: int)
    requires 0 <= hour < 24 && 0 <= min < 60 && 0 <= sec < 60 && 0 <= ms < 1000
    ensures var r := SetTzHours(d, hour, Some(min), Some(sec), Some(ms));
      && GetTzHours(r) == hour
      && GetTzMinutes(r) == min
      && GetTzSeconds(r) == sec
      && GetTzMilliseconds(r) == ms
      && GetTzDate(r) == GetTzDate(d)
      && GetTzMonth(r) == GetTzMonth(d)
      && GetTzFullYear(r) == GetTzFullYear(d)
  {
    var s := Shifted(d);
    SetUTCHoursFields(s, hour, Some(min), Some(sec), Some(ms));
    SameDaySameDate(SetUTCHours(s, hour, Some(min), Some(sec), Some(ms)), s);
  }

  /** After `setTzMinutes(min)` the zone reads those minutes; the rest stays. */
  lemma SetTzMinutesReadsBack(d: TzDate, min: int)
    requires 0 <= min < 60
    ensures var r := SetTzMinutes(d, min, None, None);
      && GetTzMinutes(r) == min
      && GetTzHours(r) == GetTzHours(d)
      && GetTzSeconds(r) == GetTzSeconds(d)
      && GetTzMilliseconds(r) == GetTzMilliseconds(d)
      && GetTzDate(r) == GetTzDate(d)
      && GetTzMonth(r) == GetTzMonth(d)
      && GetTzFullYear(r) == GetTzFullYear(d)
  {
    var s := Shifted(d);
    SetUTCMinutesFields(s, min, None, None);
    SameDaySameDate(SetUTCMinutes(s, min, None, None), s);
  }

  /** After `setTzMonth(month)`, when the zone's date exists in that month, the zone reads that month. */
  lemma SetTzMonthReadsBack(d: TzDate, month: int)
    requires 0 <= month < 12
    requires GetTzDate(d) <= DaysInMonth(GetTzFullYear(d), month)
    ensures var r := SetTzMonth(d, month, None);
      && GetTzMonth(r) == month
      && GetTzDate(r) == GetTzDate(d)
      && GetTzFullYear(r) == GetTzFullYear(d)
      && GetTzHours(r) == GetTzHours(d)
      && GetTzMinutes(r) == GetTzMinutes(d)
      && GetTzSeconds(r) == GetTzSeconds(d)
      && GetTzMilliseconds(r) == GetTzMilliseconds(d)
  {
    var s := Shifted(d);
    SetUTCMonthFields(s, month, None);
    SameTimeOfDaySameClock(SetUTCMonth(s, month, None), s);
  }

  /** After `setTzSeconds(sec)` both the zone and UTC read those seconds. */
  lemma SetTzSecondsReadsBack(d: TzDate, sec: int)
    requires 0 <= sec < 60
    ensures var r := SetTzSeconds(d, sec, None);
      && GetTzSeconds(r) == sec
      && SecFromTime(r.time) == sec
      && GetTzMilliseconds(r) == GetTzMilliseconds(d)
      && GetTzMinutes(r) == GetTzMinutes(d)
      && GetTzHours(r) == GetTzHours(d)
      && GetTzDate(r) == GetTzDate(d)
      && GetTzMonth(r) == GetTzMonth(d)
      && GetTzFullYear(r) == GetTzFullYear(d)
  {
    var s := Shifted(d);
    SetUTCSecondsFields(s, sec, None);
    SameDaySameDate(SetUTCSeconds(s, sec, None), s);
  }

  /** After `setTzMilliseconds(ms)` both the zone and UTC read those milliseconds. */
  lemma SetTzMillisecondsReadsBack(d: TzDate, ms: int)
    requires 0 <= ms < 1000
    ensures var r := SetTzMilliseconds(d, ms);
      && GetTzMilliseconds(r) == ms
      && MsFromTime(r.time) == ms
      && GetTzSeconds(r) == GetTzSeconds(d)
      && GetTzMinutes(r) == GetTzMinutes(d)
      && GetTzHours(r) == GetTzHours(d)
      && GetTzDate(r) == GetTzDate(d)
      && GetTzMonth(r) == GetTzMonth(d)
      && GetTzFullYear(r) == GetTzFullYear(d)
  {
    var s := Shifted(d);
    SetUTCMillisecondsFields(s, ms);
    SameDaySameDate(SetUTCMilliseconds(s, ms), s);
  }

  // ---------------------------------------------------------------------
  // Static factory
  // ---------------------------------------------------------------------

  /** `DateTz.UTC(zone, year, …)`: a DateTz at the instant `Date.UTC` builds. */
  function UTC(zone: Option<string>, year: int, month: Option<int>, date: Option<int>, hours: Option<int>,
               minutes: Option<int>, seconds: Option<int>, ms: Option<int>): (r: Result<TzDate, ZoneError>)
    ensures r.Success? <==> MatchesPattern(zone.GetOr(DefaultZone))
    ensures r.Failure? ==> r.error == InvalidZone(zone.GetOr(DefaultZone))
    ensures r.Success? ==> r.value.time == DateUTC(year, month, date, hours, minutes, seconds, ms)
  {
    New(zone, DateUTC(year, month, date, hours, minutes, seconds, ms))
  }
}
