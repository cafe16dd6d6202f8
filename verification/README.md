# DateTz in Dafny

DateTz (`source/index.js`) wraps a JavaScript `Date` with a fixed UTC
offset written as a zone string such as `+0300`, `-06`, `06:` or `+05:30`.
Its `getTz*` methods read the clock and calendar as seen in that zone, and
its `setTz*` methods change one field of that view. The time value stored
in the underlying `Date` is always a UTC instant.

The wrapper works by shifting:
- The private `__shifted` getter copies the time value and advances its UTC
  hours and minutes by the offset.
- A getter reads the UTC field of that shifted copy.
- A setter calls the native `setUTC*` method on the shifted copy.
- The `__shifted` setter then copies the copy's date and clock back,
  subtracting the offset again.

This project models that core:

| file | module | what it holds |
|---|---|---|
| `results.dfy` | `Results` | `Option` (an argument not passed) and `Result` (a thrown error) |
| `div_mod.dfy` | `DivMod` | small facts about floor division |
| `ecma_time.dfy` | `EcmaTime` | the day, time, year, month and date arithmetic of section 21.4.1 of ECMA-262, on unbounded integers |
| `native_date.dfy` | `NativeDate` | `Date.prototype.setUTCHours` … `setUTCFullYear` and `Date.UTC`, as functions from the old time value to the new one |
| `zone.dfy` | `Zone` | the pattern `^(\+|-)?(\d{2}):?(\d{2})?$` and the decomposition the `zone` setter performs |
| `date_tz.dfy` | `DateTz` | the object (time value plus cached `__h`, `__m`, `__zone`), the shift engine, every `getTz*`/`setTz*` method, `getTzTimezoneOffset` and `DateTz.UTC` |
| `scenarios.dfy` | `Scenarios` | the worked examples of `source/index.test.js`, restated as lemmas |

A DateTz is an immutable value here. Each JavaScript mutator becomes a
function that returns the object's state after the call. The zone setter
becomes `AssignZone`, which returns the state after the assignment together
with the error it threw, if any. A trailing argument a caller leaves out is
`None`; the native setters then use the current field, as section 21.4.4 of
ECMA-262 prescribes.

The main results:
- **Shift engine.** The shifted view is the instant plus the offset
  (`Shifted`), and storing a view subtracts it again (`StoreShifted`). This
  holds whatever the rollover of the hour and minute arithmetic. So reading
  back a stored view gives the view, and storing the unmodified view changes
  nothing.
- **Setters.** After each `setTz*`, the zone view equals the native
  `setUTC*` applied to the old view. The `ReadsBack` lemmas give the
  field-level consequences. A field set to an in-range value reads back; for
  `setTzMonth` the zone's date must also exist in the new month. Every other
  field among the zone's year, month, date, hours, minutes, seconds and
  milliseconds keeps its value. The one exception is `setTzFullYear(y)` from
  29 February into a year without one: it still lands in year `y`, on
  1 March.
- **Zone parse.** `ParseZone` succeeds exactly on the strings the pattern
  generates (a recogniser proved equal to a generator). On any other string
  it throws the `Invalid timezone zone format` error carrying the value. It
  yields a canonical zone string whose re-parse changes nothing.

The Scenarios lemmas restate the outcomes `source/index.test.js` expects. That file is read as a list of
intended examples, and two things in it are not taken literally. First, it requires the module object
rather than the class (index.test.js:3). Second, its throw tests call `.to.throw` inside the arrow
function (index.test.js:38-58).

Two behaviours of the code are worth stating plainly:
- The offset minutes accept any two digits, 00 to 99, not only 00 to 59 (`Zone.ConsistentOffsetBounds`, `Scenarios.MinutesUpTo99`).
- The `setTz*` methods return `undefined`. The model's setters return the object's new state instead.

## Model

| member | source | states |
|---|---|---|
| Zone.Message | source/index.js:41 | the thrown message is `Invalid timezone zone format`, then `. Got: `, then the rejected value, verbatim |
| Zone.Exec | source/index.js:1 | whatever `exec` returns is a well-formed match (optional sign, two-digit hours, optional colon, optional two-digit minutes) that spells the whole input |
| Zone.ExecAfterSign | source/index.js:1 | after the sign group, a match keeps the sign and spells exactly the rest of the input, with two-digit hours and minutes |
| Zone.ExecRecognisesBody | source/index.js:1 | after the sign group, the recogniser reads back the very match that spelled the rest |
| Zone.ExecRecognisesSpelling | source/index.js:1 | on any string the pattern generates, `exec` returns the match that generated it |
| Zone.ExecMatchesPattern | source/index.js:1 | `exec` succeeds if and only if the string is in the pattern's language |
| Zone.ParseZone | source/index.js:33-43 | success exactly on pattern strings; otherwise the error carries the value; on success, hours, minutes and the zone string agree and share one sign |
| Zone.ParseZoneOfMatch | source/index.js:36-39 | sign defaults to `+` and minutes to `00`; both numbers take the sign; the zone string is sign, hours, minutes without the colon |
| Zone.ConsistentOffsetBounds | source/index.js:36-39 | cached hours and minutes each lie in -99..99, never have opposite signs, and are non-negative under `+` |
| Zone.ParseCanonicalFixedPoint | source/index.js:33-47 | assigning back the canonical string the getter returns reproduces the same three cached fields |
| Zone.ParseZoneIdempotent | source/index.js:33-47 | re-parsing the zone string a parse produced gives the same result |
| DateTz.New | source/index.js:15-18 | construction succeeds if and only if the zone (default `+0000`) matches the pattern; it keeps the time value and throws the zone error otherwise |
| DateTz.GetZone | source/index.js:45-47 | the zone getter returns a five-character string without a colon |
| DateTz.AssignZone | source/index.js:33-43 | assignment never moves the instant; it throws exactly on non-pattern strings and then leaves the object unchanged; otherwise it installs the parsed offset |
| DateTz.Shifted | source/index.js:49-56 | `setUTCHours(H + h, Min + m)` on a copy yields the instant plus the offset, whatever the rollover |
| DateTz.StoreShifted | source/index.js:58-71 | `setUTCFullYear(Y, M, D)` followed by `setUTCHours(H - h, Min - m, S, ms)` stores the view minus the offset and keeps the offset |
| DateTz.StoreShiftedUndoesShifted | source/index.js:49-71 | storing the unmodified view leaves the object as it was |
| DateTz.ShiftedAfterStore | source/index.js:49-71 | the view read after storing `v` is `v` |
| DateTz.GetTzDate | source/index.js:77-79 | the zone's date lies between 1 and the length of the zone's month, and with the zone's year and month it names the day of the instant plus the offset |
| DateTz.GetTzDay | source/index.js:85-87 | the zone's weekday lies in 0..6 |
| DateTz.GetTzFullYear | source/index.js:93-95 | the shifted instant lies inside the zone's year |
| DateTz.GetTzHours | source/index.js:101-103 | the zone's hour lies in 0..23 |
| DateTz.GetTzMilliseconds | source/index.js:109-111 | the zone's milliseconds equal the UTC milliseconds |
| DateTz.GetTzMinutes | source/index.js:117-119 | the zone's minute lies in 0..59 |
| DateTz.GetTzMonth | source/index.js:125-127 | the zone's month lies in 0..11 |
| DateTz.GetTzSeconds | source/index.js:133-135 | the zone's seconds equal the UTC seconds |
| DateTz.GetTzTimezoneOffset | source/index.js:141-143 | the result, in minutes, added to the zone's view gives back the UTC instant |
| DateTz.WholeMinutesKeepSeconds | source/index.js:109-135 | a whole-minute offset changes neither seconds nor milliseconds |
| DateTz.TzFieldsAssembleShiftedInstant | source/index.js:77-135 | MakeDate of the zone's year, month, date and clock is the instant plus the offset; the zone's weekday is that of the zone's date |
| DateTz.TzClockIsUtcClockPlusOffset | source/index.js:49-56 | the zone's wall-clock minutes equal the UTC wall-clock minutes plus the offset, modulo a day |
| DateTz.SetTzDate | source/index.js:148-152 | the offset is kept; the new view is `setUTCDate` applied to the old view |
| DateTz.SetTzFullYear | source/index.js:157-161 | the offset is kept; the new view is `setUTCFullYear` applied to the old view |
| DateTz.SetTzHours | source/index.js:166-170 | the offset is kept; the new view is `setUTCHours` applied to the old view |
| DateTz.SetTzMilliseconds | source/index.js:175-179 | the new view is `setUTCMilliseconds` of the old view, and the new instant is `setUTCMilliseconds` of the old instant |
| DateTz.SetTzMinutes | source/index.js:184-188 | the offset is kept; the new view is `setUTCMinutes` applied to the old view |
| DateTz.SetTzMonth | source/index.js:193-197 | the offset is kept; the new view is `setUTCMonth` applied to the old view |
| DateTz.SetTzSeconds | source/index.js:202-206 | the new view is `setUTCSeconds` of the old view, and the new instant is `setUTCSeconds` of the old instant |
| DateTz.TimezoneOffsetDependsOnlyOnZone | source/index.js:141-143 | `getTzTimezoneOffset` is the negated offset in minutes and depends on the zone alone, so no `setTz*` (each keeps the offset) changes it |
| DateTz.SetTzDateReadsBack | source/index.js:148-152 | with a date of the zone's month, the zone reads that date, and year, month and clock do not move |
| DateTz.SetTzFullYearReadsBack | source/index.js:157-161 | the zone always reads the new year; month and date stay unless 29 February does not exist; hours, minutes, seconds and milliseconds stay |
| DateTz.SetTzFullYearAllFieldsReadBack | source/index.js:157-161 | with a real (year, month, date), the zone reads all three, and hours, minutes, seconds and milliseconds stay |
| DateTz.SetTzHoursReadsBack | source/index.js:166-170 | the zone reads the new hour; the rest of the clock and the calendar date do not move |
| DateTz.SetTzHoursAllFieldsReadBack | source/index.js:166-170 | with in-range hour, minute, second and millisecond, the zone reads all four; date, month and year stay |
| DateTz.SetTzMinutesReadsBack | source/index.js:184-188 | the zone reads the new minutes; hours, seconds, milliseconds, date, month and year do not move |
| DateTz.SetTzMonthReadsBack | source/index.js:193-197 | when the zone's date exists in the new month, the zone reads that month; date, year, hours, minutes, seconds and milliseconds stay |
| DateTz.SetTzSecondsReadsBack | source/index.js:202-206 | both the zone and UTC read the new seconds; the zone's milliseconds, minutes, hours, date, month and year stay |
| DateTz.SetTzMillisecondsReadsBack | source/index.js:175-179 | both the zone and UTC read the new milliseconds; the zone's seconds, minutes, hours, date, month and year stay |
| DateTz.UTC | source/index.js:214-216 | succeeds exactly for a pattern zone (default `+0000`), throws the zone error otherwise, and holds the instant `Date.UTC` builds |
| NativeDate.SetUTCHours | source/index.js:51-54 | the new time value moves by the differences of the given hour, minute, second and millisecond fields; a field not passed moves by nothing |
| NativeDate.SetUTCMinutes | source/index.js:186 | the new time value moves by the differences of the given minute, second and millisecond fields |
| NativeDate.SetUTCSeconds | source/index.js:204 | the new time value moves by the differences of the given second and millisecond fields |
| NativeDate.SetUTCMilliseconds | source/index.js:177 | the new time value moves by the difference of the millisecond field |
| NativeDate.SetUTCDate | source/index.js:150 | the new time value moves by whole days, the difference of the date field |
| NativeDate.SetUTCMonth | source/index.js:195 | the time within the day is kept |
| NativeDate.SetUTCFullYear | source/index.js:59-63 | the time within the day is kept |
| NativeDate.SetUTCHoursFields | source/index.js:65-70 | with in-range arguments the day is kept and each given clock field reads back; fields not passed stay |
| NativeDate.SetUTCMinutesFields | source/index.js:186 | with in-range arguments the day and hour are kept and the given fields read back |
| NativeDate.SetUTCSecondsFields | source/index.js:204 | with in-range arguments day, hour and minute are kept and the given fields read back |
| NativeDate.SetUTCMillisecondsFields | source/index.js:177 | with an in-range argument everything but the millisecond field is kept |
| NativeDate.SetUTCDateFields | source/index.js:150 | with a date of the current month, year, month and clock are kept and the date reads back |
| NativeDate.SetUTCMonthFields | source/index.js:195 | with a real date in the new month, year and clock are kept and month and date read back |
| NativeDate.SetUTCFullYearFields | source/index.js:59-63 | with a real (year, month, date), the three read back and the clock is kept |
| NativeDate.SetUTCFullYearLandsInYear | source/index.js:159 | a one-argument `setUTCFullYear` always lands in the requested year; a missing 29 February becomes 1 March |
| NativeDate.DateUTCFields | source/index.js:215 | with in-range arguments every UTC field of the result is the argument, with years 0..99 read as 1900..1999 |
| EcmaTime.YearFromTime | source/index.js:94 | the year found is the one whose span contains the time value |
| EcmaTime.YearFromTimeUnique | source/index.js:94 | a year whose span contains the time value is the year found |
| EcmaTime.MonthFromTime | source/index.js:126 | the month lies in 0..11, and the day within the year falls inside that month |
| EcmaTime.DateFromTime | source/index.js:78 | the date lies between 1 and the length of its month |
| EcmaTime.WeekDay | source/index.js:86 | the weekday lies in 0..6 |
| EcmaTime.TimeDecomposition | source/index.js:65-70 | a time value is its day times a day's length plus MakeTime of its clock fields |
| EcmaTime.FieldsOfMakeDay | source/index.js:59-63 | MakeDate(MakeDay(y, m, d), t) with a real date reads back y, m, d and t |
| Scenarios.RejectedShortZones | source/index.test.js:37-43 | `''` and `'1'` are rejected with the zone error |
| Scenarios.RejectedLetterZones | source/index.test.js:45-55 | `'d1'` and `'6d03'` are rejected with the zone error |
| Scenarios.RejectedThreeDigitZone | source/index.test.js:49-51 | `'603'` is rejected with the zone error |
| Scenarios.RejectedLongZone | source/index.test.js:57-59 | `'+12345'` is outside the pattern and is rejected |
| Scenarios.ZoneDefaults | source/index.test.js:9 | `'+03'` and `'06'` parse to `+0300` and `+0600` |
| Scenarios.NegativeZone | source/index.test.js:94 | `'-0603'` parses to hours -6 and minutes -3 |
| Scenarios.TrailingColonZone | source/index.js:1 | `'06:'` is accepted and parses to `+0600` |
| Scenarios.ColonZone | source/index.js:1 | `'-02:00'` parses to `-0200` |
| Scenarios.MinutesUpTo99 | source/index.js:1 | `'+0099'` is accepted with minutes 99 |
| Scenarios.ConstructedInSixHourZones | source/index.test.js:73-166 | `new DateTz('+06', t)` and `new DateTz('-06', t)` start at `t` with offsets +06:00 and -06:00 |
| Scenarios.ConstructedInZonesWithMinutes | source/index.test.js:94-197 | `'-0603'`, `'+1206'` and `'-0507'` start at `t` with both fields signed: (-6, -3), (12, 6), (-5, -7) |
| Scenarios.ConstructorExamples | source/index.test.js:37-39 | no zone gives `+0000`; the empty zone is rejected |
| Scenarios.TimezoneOffsetExamples | source/index.test.js:172-182 | `+1206` gives -726 and `-0507` gives 307, also after `setTzMonth(5)` |
| Scenarios.SetTzMinutesExample | source/index.test.js:93-98 | `-0603` at 06:00Z, `setTzMinutes(15)`: zone minutes 15, UTC minutes 18 |
| Scenarios.SetTzHoursExample | source/index.test.js:100-106 | `+06` at 00:00Z: zone hours 6; after `setTzHours(12)`, zone hours 12 and UTC hours 6 |
| Scenarios.SetTzDateExample | source/index.test.js:116-121 | `+06` on 10 January, `setTzDate(12)`: zone date 12, UTC date 11 |
| Scenarios.NewYearEveInMinusSix | source/index.test.js:166 | `-06` at 2001-01-01T02:00Z reads 2000-12-31 20:00 |
| Scenarios.NewYearEveOneYearOn | source/index.test.js:168-169 | 2002-01-01T02:00Z is in UTC year 2002 but reads year 2001 under `-06` |
| Scenarios.SetTzFullYearExample | source/index.test.js:165-170 | `-06` on 31 December 2000, `setTzFullYear(2001)`: zone year 2001, UTC year 2002 |
| Scenarios.ZoneChangeToPlusThree | source/index.test.js:260-263 | `zone = '+0300'` keeps the instant and installs +03:00 |
| Scenarios.ZoneChangeWrite | source/index.test.js:265-267 | `setTzHours(5)` in `+0300` lands on 02:00Z |
| Scenarios.ZoneChangeUtcWrite | source/index.test.js:269-271 | `setUTCHours(5)` lands on 05:00Z |
| Scenarios.ZoneChangeToMinusTwo | source/index.test.js:273-276 | `zone = '-0200'` keeps the instant and installs -02:00 |
| Scenarios.ZoneChangeViews | source/index.test.js:254-277 | zone and UTC hours at each stage: 0/0, 3/0, 5/2, 8/5, 3/5 |
| Scenarios.UTCExample | source/index.test.js:283-290 | `DateTz.UTC(undefined, 2000, 11, 31, 23, 2)` has zone `+0000` and those UTC fields |

## Left out

- `DateTz.now`: it reads the clock. A DateTz at a given instant is `DateTz.New`.
- `DateTz.parse`: it delegates to `Date.parse`, whose string grammar is implementation-defined.
- Other constructor forms: the model takes a time value. A `Date`, an ISO string or a list of components passed to the `Date` constructor are not modelled.
- Invalid dates: `TimeClip`, `NaN` time values and the ±8.64e15 ms range are not modelled. Time values are unbounded integers.
- Non-integral arguments: the native setters and `Date.UTC` take integers. `ToNumber`/`ToIntegerOrInfinity` of other values, `NaN`, infinities and `-0` are not modelled.
- Non-string zones: the zone is a string. `exec` would first convert any other value with `ToString`; that is not modelled.
- Methods inherited from `Date`: `toString`, `toISOString`, `toLocale*String`, `valueOf`, `getUTC*` and `setUTC*` on the object are not modelled as methods. The UTC getters appear only as the EcmaTime field functions, and the UTC setters only as the NativeDate functions on the time value.
- The module's exports and `gulpfile.js` are build plumbing, not behaviour.
- DateTz.GetTzDay: the ensures states only the range 0..6; the value is tied to the zone's date by `DateTz.TzFieldsAssembleShiftedInstant`.
- DateTz.GetTzHours: the ensures states only the range 0..23; the value is tied to the instant by `DateTz.TzFieldsAssembleShiftedInstant` and `DateTz.TzClockIsUtcClockPlusOffset`.
- DateTz.GetTzMinutes: the ensures states only the range 0..59; the value is tied to the instant by the same two lemmas.
- DateTz.GetTzMonth: the ensures states only the range 0..11; the value is tied to the instant by `DateTz.TzFieldsAssembleShiftedInstant`.
- NativeDate.SetUTCMonth: the ensures states only that the clock is kept. The calendar effect for a real date is `NativeDate.SetUTCMonthFields`. An overflowing month or date (month 13, 31 April) is covered by no lemma.
- NativeDate.SetUTCFullYear: the ensures states only that the clock is kept. The calendar effect is `NativeDate.SetUTCFullYearFields` and `NativeDate.SetUTCFullYearLandsInYear`. An overflowing month or date is covered by no lemma.
