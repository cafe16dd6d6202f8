/**
 The worked examples of source/index.test.js, restated as lemmas about the
 model. Instants are milliseconds since the epoch; each lemma takes its
 instant as a parameter fixed by its precondition, with the ISO string of
 the test beside it.
 */
module Scenarios {

  import opened Results
  import opened EcmaTime
  import opened DivMod
  import opened NativeDate
  import opened Zone
  import opened DateTz

  /** 2000-01-01T00:00:00.000Z */
  const Y2K: int := 946684800000

  /** Too short for the hours group (index.test.js:37-43). */
  lemma RejectedShortZones()
    ensures ParseZone("") == Failure(InvalidZone(""))
    ensures ParseZone("1") == Failure(InvalidZone("1"))
  {
  }

  /** A letter where a digit must be (index.test.js:45-47, 53-55). */
  lemma RejectedLetterZones()
    ensures ParseZone("d1") == Failure(InvalidZone("d1"))
    ensures ParseZone("6d03") == Failure(InvalidZone("6d03"))
  {
  }

  /** A lone third digit (index.test.js:49-51). */
  lemma RejectedThreeDigitZone()
    ensures ParseZone("603") == Failure(InvalidZone("603"))
  {
  }

  /** Too long for the anchored pattern (index.test.js:57-59). */
  lemma RejectedLongZone()
    ensures !MatchesPattern("+12345")
    ensures ParseZone("+12345") == Failure(InvalidZone("+12345"))
  {
    ExecMatchesPattern("+12345");
  }

  /** The zone string spelled by `mt` parses to `o`. */
  lemma ParsesTo(mt: Match, o: Offset)
    requires WellFormed(mt)
    requires var sign := if mt.sign == Some('-') then -1 else 1;
      && o.h == sign * TwoDigitValue(mt.hours)
      && o.m == (if mt.minutes.Some? then sign * TwoDigitValue(mt.minutes.value) else 0)
      && o.zone == [mt.sign.GetOr('+')] + mt.hours + mt.minutes.GetOr("00")
    ensures ParseZone(Spelling(mt)) == Success(o)
  {
    ParseZoneOfMatch(mt);
  }

  /** A missing sign reads as '+', missing minutes as "00" (index.test.js:9, 66). */
  lemma ZoneDefaults()
    ensures ParseZone("+03") == Success(Offset(3, 0, "+0300"))
    ensures ParseZone("06") == Success(Offset(6, 0, "+0600"))
  {
    var mt1 := Match(Some('+'), "03", false, None);
    assert Spelling(mt1) == "+03" && ['+'] + "03" + "00" == "+0300";
    ParsesTo(mt1, Offset(3, 0, "+0300"));
    var mt2 := Match(None, "06", false, None);
    assert Spelling(mt2) == "06" && ['+'] + "06" + "00" == "+0600";
    ParsesTo(mt2, Offset(6, 0, "+0600"));
  }

  /** A negative zone signs both hours and minutes (index.test.js:94). */
  lemma NegativeZone()
    ensures ParseZone("-0603") == Success(Offset(-6, -3, "-0603"))
  {
    var mt := Match(Some('-'), "06", false, Some("03"));
    assert Spelling(mt) == "-0603" && ['-'] + "06" + "03" == "-0603";
    ParsesTo(mt, Offset(-6, -3, "-0603"));
  }

  /** The pattern admits a trailing colon and drops it from the zone string. */
  lemma TrailingColonZone()
    ensures ParseZone("06:") == Success(Offset(6, 0, "+0600"))
  {
    var mt := Match(None, "06", true, None);
    assert Spelling(mt) == "06:" && ['+'] + "06" + "00" == "+0600";
    ParsesTo(mt, Offset(6, 0, "+0600"));
  }

  /** A colon between hours and minutes is dropped from the zone string. */
  lemma ColonZone()
    ensures ParseZone("-02:00") == Success(Offset(-2, 0, "-0200"))
  {
    var mt := Match(Some('-'), "02", true, Some("00"));
    assert Spelling(mt) == "-02:00" && ['-'] + "02" + "00" == "-0200";
    ParsesTo(mt, Offset(-2, 0, "-0200"));
  }

  /** Minutes are two digits, not a minute of the hour: "+0099" is accepted. */
  lemma MinutesUpTo99()
    ensures ParseZone("+0099") == Success(Offset(0, 99, "+0099"))
  {
    var mt := Match(Some('+'), "00", false, Some("99"));
    assert Spelling(mt) == "+0099" && ['+'] + "00" + "99" == "+0099";
    ParsesTo(mt, Offset(0, 99, "+0099"));
  }

  /** The start states of the examples in whole-hour zones (index.test.js:73-166). */
  lemma ConstructedInSixHourZones(t: int)
    ensures New(Some("+06"), t) == Success(TzDate(t, Offset(6, 0, "+0600")))
    ensures New(Some("-06"), t) == Success(TzDate(t, Offset(-6, 0, "-0600")))
  {
    var plus := Match(Some('+'), "06", false, None);
    assert Spelling(plus) == "+06" && ['+'] + "06" + "00" == "+0600";
    ParsesTo(plus, Offset(6, 0, "+0600"));
    var minus := Match(Some('-'), "06", false, None);
    assert Spelling(minus) == "-06" && ['-'] + "06" + "00" == "-0600";
    ParsesTo(minus, Offset(-6, 0, "-0600"));
  }

  /** The start states of the examples with minutes in the zone (index.test.js:94, 173-197). */
  lemma ConstructedInZonesWithMinutes(t: int)
    ensures New(Some("-0603"), t) == Success(TzDate(t, Offset(-6, -3, "-0603")))
    ensures New(Some("+1206"), t) == Success(TzDate(t, Offset(12, 6, "+1206")))
    ensures New(Some("-0507"), t) == Success(TzDate(t, Offset(-5, -7, "-0507")))
  {
    NegativeZone();
    var plus := Match(Some('+'), "12", false, Some("06"));
    assert Spelling(plus) == "+1206" && ['+'] + "12" + "06" == "+1206";
    ParsesTo(plus, Offset(12, 6, "+1206"));
    var minus := Match(Some('-'), "05", false, Some("07"));
    assert Spelling(minus) == "-0507" && ['-'] + "05" + "07" == "-0507";
    ParsesTo(minus, Offset(-5, -7, "-0507"));
  }

  /** The constructor: the default zone, and a rejected zone (index.test.js:37-39, 255-256). */
  lemma ConstructorExamples(t: int)
    ensures New(None, t) == Success(TzDate(t, Offset(0, 0, "+0000")))
    ensures New(Some(""), t).Failure?
  {
    var mt := Match(Some('+'), "00", false, Some("00"));
    assert Spelling(mt) == "+0000" && ['+'] + "00" + "00" == "+0000";
    ParsesTo(mt, Offset(0, 0, "+0000"));
  }

  /** getTzTimezoneOffset for '+1206' and '-0507', before and after setTzMonth(5) (index.test.js:172-182). */
  lemma TimezoneOffsetExamples(t: int)
    ensures GetTzTimezoneOffset(TzDate(t, Offset(12, 6, "+1206"))) == -726
    ensures GetTzTimezoneOffset(SetTzMonth(TzDate(t, Offset(12, 6, "+1206")), 5, None)) == -726
    ensures GetTzTimezoneOffset(SetTzMonth(TzDate(t, Offset(-5, -7, "-0507")), 5, None)) == 307
  {
  }

  /** Reading the minute field off a time value whose minute count is known. */
  lemma MinuteOf(t: int, minutes: int, m: int)
    requires minutes * MsPerMinute <= t < (minutes + 1) * MsPerMinute && minutes % 60 == m
    ensures MinFromTime(t) == m
  {
    DivUnique(t, MsPerMinute, minutes, t - minutes * MsPerMinute);
  }

  /** Reading the hour field off a time value whose hour count is known. */
  lemma HourOf(t: int, hours: int, h: int)
    requires hours * MsPerHour <= t < (hours + 1) * MsPerHour && hours % 24 == h
    ensures HourFromTime(t) == h
  {
    DivUnique(t, MsPerHour, hours, t - hours * MsPerHour);
  }

  /** The zone hour of a date whose shifted hour count is known. */
  lemma TzHourOf(d: TzDate, hours: int, h: int)
    requires hours * MsPerHour <= Shifted(d) < (hours + 1) * MsPerHour && hours % 24 == h
    ensures GetTzHours(d) == h
  {
    HourOf(Shifted(d), hours, h);
  }

  /** setTzHours with the hour alone moves the instant by whole hours. */
  lemma SetTzHoursAlone(d: TzDate, hour: int)
    ensures SetTzHours(d, hour, None, None, None) == d.(time := d.time + (hour - GetTzHours(d)) * MsPerHour)
  {
  }

  /** setTzFullYear with the year alone keeps the zone's month, date and clock. */
  lemma SetTzFullYearAlone(d: TzDate, year: int, month: int, date: int, clock: int)
    requires GetTzMonth(d) == month && GetTzDate(d) == date && TimeWithinDay(Shifted(d)) == clock
    ensures SetTzFullYear(d, year, None, None)
         == d.(time := MakeDate(MakeDay(year, month, date), clock) - OffsetMs(d.offset))
  {
  }

  /** '-0603' at 06:00Z, setTzMinutes(15): zone minutes 15, UTC minutes 18 (index.test.js:93-98). */
  lemma SetTzMinutesExample(t: int)
    requires t == Y2K + 6 * MsPerHour  // 2000-01-01T06:00:00.000Z
    ensures var r := SetTzMinutes(TzDate(t, Offset(-6, -3, "-0603")), 15, None, None);
      && GetTzMinutes(r) == 15
      && MinFromTime(r.time) == 18
  {
    var d := TzDate(t, Offset(-6, -3, "-0603"));
    var s := Shifted(d);
    MinuteOf(s, 15778077, 57);  // 1999-12-31T23:57Z
    var r := SetTzMinutes(d, 15, None, None);
    assert Shifted(r) == s - 42 * MsPerMinute;
    MinuteOf(Shifted(r), 15778035, 15);  // 1999-12-31T23:15Z
    MinuteOf(r.time, 15778398, 18);  // 2000-01-01T05:18Z
  }

  /** '+06' at 00:00Z, setTzHours(12): zone hours 6 then 12, UTC hours 6 (index.test.js:100-106). */
  lemma SetTzHoursExample(t: int)
    requires t == Y2K  // 2000-01-01T00:00:00.000Z
    ensures GetTzHours(TzDate(t, Offset(6, 0, "+0600"))) == 6
    ensures SetTzHours(TzDate(t, Offset(6, 0, "+0600")), 12, None, None, None)
         == TzDate(t + 6 * MsPerHour, Offset(6, 0, "+0600"))
    ensures GetTzHours(TzDate(t + 6 * MsPerHour, Offset(6, 0, "+0600"))) == 12
    ensures HourFromTime(t + 6 * MsPerHour) == 6
  {
    TzHourOf(TzDate(t, Offset(6, 0, "+0600")), 262974, 6);
    TzHourOf(TzDate(t + 6 * MsPerHour, Offset(6, 0, "+0600")), 262980, 12);
    HourOf(t + 6 * MsPerHour, 262974, 6);
    SetTzHoursAlone(TzDate(t, Offset(6, 0, "+0600")), 12);
  }

  /**
   '+06' at 2000-01-10T00:00+06:00, setTzDate(12): zone date 12, UTC date 11
   (index.test.js:116-121).
   */
  lemma SetTzDateExample(t: int)
    requires t == Y2K + 8 * MsPerDay + 18 * MsPerHour  // 2000-01-09T18:00:00.000Z
    ensures var r := SetTzDate(TzDate(t, Offset(6, 0, "+0600")), 12);
      && GetTzDate(r) == 12
      && DateFromTime(r.time) == 11
  {
    var d := TzDate(t, Offset(6, 0, "+0600"));
    var s := Shifted(d);
    assert MakeDay(2000, 0, 10) == 10966 && MakeDay(2000, 0, 12) == 10968 && MakeDay(2000, 0, 11) == 10967;
    assert s == MakeDate(MakeDay(2000, 0, 10), 0);
    FieldsOfMakeDay(2000, 0, 10, 0);
    var r := SetTzDate(d, 12);
    assert Shifted(r) == MakeDate(MakeDay(2000, 0, 12), 0);
    FieldsOfMakeDay(2000, 0, 12, 0);
    assert r.time == MakeDate(MakeDay(2000, 0, 11), 18 * MsPerHour);
    FieldsOfMakeDay(2000, 0, 11, 18 * MsPerHour);
  }

  /** The '-06' view of 2001-01-01T02:00Z is 2000-12-31, 20:00. */
  lemma NewYearEveInMinusSix(t: int)
    requires t == 978314400000  // 2001-01-01T02:00:00.000Z
    ensures var d := TzDate(t, Offset(-6, 0, "-0600"));
      && GetTzFullYear(d) == 2000 && GetTzMonth(d) == 11 && GetTzDate(d) == 31
      && TimeWithinDay(Shifted(d)) == 20 * MsPerHour
  {
    assert MakeDay(2000, 11, 31) == 11322;
    assert Shifted(TzDate(t, Offset(-6, 0, "-0600"))) == MakeDate(MakeDay(2000, 11, 31), 20 * MsPerHour);
    FieldsOfMakeDay(2000, 11, 31, 20 * MsPerHour);
  }

  /**
   '-06' at 2000-12-31T20:00-06:00, setTzFullYear(2001): zone year 2001,
   UTC year 2002 (index.test.js:165-170).
   */
  lemma SetTzFullYearExample(t: int, u: int)
    requires t == 978314400000   // 2001-01-01T02:00:00.000Z
    requires u == 1009850400000  // 2002-01-01T02:00:00.000Z
    ensures GetTzFullYear(TzDate(t, Offset(-6, 0, "-0600"))) == 2000
    ensures SetTzFullYear(TzDate(t, Offset(-6, 0, "-0600")), 2001, None, None) == TzDate(u, Offset(-6, 0, "-0600"))
    ensures GetTzFullYear(TzDate(u, Offset(-6, 0, "-0600"))) == 2001
    ensures YearFromTime(u) == 2002
  {
    NewYearEveInMinusSix(t);
    NewYearEveOneYearOn(u);
    SetTzFullYearAlone(TzDate(t, Offset(-6, 0, "-0600")), 2001, 11, 31, 20 * MsPerHour);
  }

  /** 2002-01-01T02:00Z reads 2001-12-31 20:00 under -06:00. */
  lemma NewYearEveOneYearOn(u: int)
    requires u == 1009850400000  // 2002-01-01T02:00:00.000Z
    ensures u == MakeDate(MakeDay(2001, 11, 31), 20 * MsPerHour) + 6 * MsPerHour
    ensures GetTzFullYear(TzDate(u, Offset(-6, 0, "-0600"))) == 2001
    ensures YearFromTime(u) == 2002
  {
    assert MakeDay(2001, 11, 31) == 11687 && MakeDay(2002, 0, 1) == 11688;
    assert Shifted(TzDate(u, Offset(-6, 0, "-0600"))) == MakeDate(MakeDay(2001, 11, 31), 20 * MsPerHour);
    FieldsOfMakeDay(2001, 11, 31, 20 * MsPerHour);
    assert u == MakeDate(MakeDay(2002, 0, 1), 2 * MsPerHour);
    FieldsOfMakeDay(2002, 0, 1, 2 * MsPerHour);
  }

  // The zone-change walk-through of index.test.js:254-277, at
  // 2000-01-01T00:00Z: a zone assignment moves the view only, and setTzHours
  // writes back through the zone current at the time of the write.

  /** Assigning a canonical zone string installs exactly the offset it spells. */
  lemma AssignCanonicalZone(d: TzDate, o: Offset)
    requires Consistent(o)
    ensures AssignZone(d, o.zone) == ZoneAssignment(d.(offset := o), None)
  {
    ParseCanonicalFixedPoint(o);
  }

  /** `zone = '+0300'` keeps the instant and installs +03:00. */
  lemma ZoneChangeToPlusThree(t: int)
    requires t == Y2K
    ensures AssignZone(TzDate(t, Offset(0, 0, "+0000")), "+0300") == ZoneAssignment(TzDate(t, Offset(3, 0, "+0300")), None)
  {
    assert Consistent(Offset(3, 0, "+0300"));
    AssignCanonicalZone(TzDate(t, Offset(0, 0, "+0000")), Offset(3, 0, "+0300"));
  }

  /** `zone = '-0200'` keeps the instant and installs -02:00. */
  lemma ZoneChangeToMinusTwo(t: int)
    requires t == Y2K
    ensures AssignZone(TzDate(t + 5 * MsPerHour, Offset(3, 0, "+0300")), "-0200")
         == ZoneAssignment(TzDate(t + 5 * MsPerHour, Offset(-2, 0, "-0200")), None)
  {
    assert Consistent(Offset(-2, 0, "-0200"));
    AssignCanonicalZone(TzDate(t + 5 * MsPerHour, Offset(3, 0, "+0300")), Offset(-2, 0, "-0200"));
  }

  /** setTzHours(5) in '+0300' lands on 02:00Z. */
  lemma ZoneChangeWrite(t: int)
    requires t == Y2K
    ensures SetTzHours(TzDate(t, Offset(3, 0, "+0300")), 5, None, None, None)
         == TzDate(t + 2 * MsPerHour, Offset(3, 0, "+0300"))
  {
    TzHourOf(TzDate(t, Offset(3, 0, "+0300")), 262971, 3);
    SetTzHoursAlone(TzDate(t, Offset(3, 0, "+0300")), 5);
  }

  /** setUTCHours(5) on the result lands on 05:00Z. */
  lemma ZoneChangeUtcWrite(t: int)
    requires t == Y2K
    ensures SetUTCHours(t + 2 * MsPerHour, 5, None, None, None) == t + 5 * MsPerHour
  {
    HourOf(t + 2 * MsPerHour, 262970, 2);
  }

  /** What each stage reads, in the zone and in UTC. */
  lemma ZoneChangeViews(t: int)
    requires t == Y2K
    ensures GetTzHours(TzDate(t, Offset(0, 0, "+0000"))) == 0 && HourFromTime(t) == 0
    ensures GetTzHours(TzDate(t, Offset(3, 0, "+0300"))) == 3
    ensures GetTzHours(TzDate(t + 2 * MsPerHour, Offset(3, 0, "+0300"))) == 5 && HourFromTime(t + 2 * MsPerHour) == 2
    ensures GetTzHours(TzDate(t + 5 * MsPerHour, Offset(3, 0, "+0300"))) == 8 && HourFromTime(t + 5 * MsPerHour) == 5
    ensures GetTzHours(TzDate(t + 5 * MsPerHour, Offset(-2, 0, "-0200"))) == 3
  {
    TzHourOf(TzDate(t, Offset(0, 0, "+0000")), 262968, 0);
    HourOf(t, 262968, 0);
    TzHourOf(TzDate(t, Offset(3, 0, "+0300")), 262971, 3);
    TzHourOf(TzDate(t + 2 * MsPerHour, Offset(3, 0, "+0300")), 262973, 5);
    HourOf(t + 2 * MsPerHour, 262970, 2);
    TzHourOf(TzDate(t + 5 * MsPerHour, Offset(3, 0, "+0300")), 262976, 8);
    HourOf(t + 5 * MsPerHour, 262973, 5);
    TzHourOf(TzDate(t + 5 * MsPerHour, Offset(-2, 0, "-0200")), 262971, 3);
  }

  /** DateTz.UTC(undefined, 2000, 11, 31, 23, 2) (index.test.js:283-290). */
  lemma UTCExample()
    ensures var r := UTC(None, 2000, Some(11), Some(31), Some(23), Some(2), None, None);
      && r.Success?
      && GetZone(r.value) == "+0000"
      && YearFromTime(r.value.time) == 2000
      && MonthFromTime(r.value.time) == 11
      && DateFromTime(r.value.time) == 31
      && HourFromTime(r.value.time) == 23
      && MinFromTime(r.value.time) == 2
  {
    ConstructorExamples(DateUTC(2000, Some(11), Some(31), Some(23), Some(2), None, None));
    DateUTCFields(2000, Some(11), Some(31), Some(23), Some(2), None, None);
  }
}
