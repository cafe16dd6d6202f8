/**
 The zone string of DateTz: the pattern `^(\+|-)?(\d{2}):?(\d{2})?$`
 (source/index.js:1) and the decomposition the `zone` setter performs on a
 match (source/index.js:33-43).

 The pattern is described twice: as a generator (`Spelling` of a
 well-formed `Match`, one per way of filling its optional parts) and as a
 recogniser (`Exec`, the deterministic reading of the regular expression).
 `ExecMatchesPattern` proves the two agree.
 */
module Zone {

  import opened Results

  /** The message every rejected zone string's error starts with. */
  const InvalidZoneFormat: string := "Invalid timezone zone format"

  /** The error thrown for a string that does not match the pattern. */
  datatype ZoneError = InvalidZone(got: string)

  /** The thrown error's message: the fixed prefix, then the rejected value. */
  function Message(e: ZoneError): (msg: string)
    ensures |msg| == |InvalidZoneFormat| + 7 + |e.got|
    ensures msg[..|InvalidZoneFormat|] == InvalidZoneFormat
    ensures msg[|InvalidZoneFormat|..|InvalidZoneFormat| + 7] == ". Got: "
    ensures msg[|InvalidZoneFormat| + 7..] == e.got
  {
    InvalidZoneFormat + ". Got: " + e.got
  }

  // ---------------------------------------------------------------------
  // The pattern
  // ---------------------------------------------------------------------

  /** `\d` without the unicode flag: an ASCII decimal digit. */
  predicate IsDigit(c: char) {
    '0' <= c <= '9'
  }

  predicate IsSign(c: char) {
    c == '+' || c == '-'
  }

  predicate IsTwoDigits(s: string) {
    |s| == 2 && IsDigit(s[0]) && IsDigit(s[1])
  }

  /**
   One way of matching the pattern: the optional sign group, the hours
   group, whether the optional colon is present, the optional minutes group.
   */
  datatype Match = Match(sign: Option<char>, hours: string, colon: bool, minutes: Option<string>)

  predicate WellFormed(mt: Match) {
    && (mt.sign.Some? ==> IsSign(mt.sign.value))
    && IsTwoDigits(mt.hours)
    && (mt.minutes.Some? ==> IsTwoDigits(mt.minutes.value))
  }

  /** What a match spans after the sign group. */
  function Body(mt: Match): string {
    mt.hours + (if mt.colon then ":" else "") + mt.minutes.GetOr("")
  }

  /** The whole input a match spans (the pattern is anchored at both ends). */
  function Spelling(mt: Match): string {
    (if mt.sign.Some? then [mt.sign.value] else []) + Body(mt)
  }

  /** The language of the pattern. */
  ghost predicate MatchesPattern(s: string) {
    exists mt :: WellFormed(mt) && Spelling(mt) == s
  }

  /**
   `patternTimezone.exec(value)`: the greedy, backtracking reading of the
   pattern. Backtracking never changes the outcome: giving up the sign or
   the colon leaves a character that neither `\d` nor the end anchor accept.
   */
  function Exec(s: string): (r: Option<Match>)
    ensures r.Some? ==> WellFormed(r.value) && Spelling(r.value) == s
  {
    if |s| > 0 && IsSign(s[0]) then
      assert s == [s[0]] + s[1..];
      ExecAfterSign(Some(s[0]), s[1..])
    else ExecAfterSign(None, s)
  }

  /** The reading of the pattern once the sign group is settled. */
  function ExecAfterSign(sign: Option<char>, rest: string): (r: Option<Match>)
    ensures r.Some? ==> r.value.sign == sign && Body(r.value) == rest
    ensures r.Some? && sign.Some? ==> Spelling(r.value) == [sign.value] + rest
    ensures r.Some? ==> IsTwoDigits(r.value.hours) && (r.value.minutes.Some? ==> IsTwoDigits(r.value.minutes.value))
  {
    if |rest| < 2 || !IsTwoDigits(rest[..2]) then None
    else
      var colon := |rest| > 2 && rest[2] == ':';
      var tail := if colon then rest[3..] else rest[2..];
      if |tail| == 0 then
        assert rest == Body(Match(sign, rest[..2], colon, None));
        Some(Match(sign, rest[..2], colon, None))
      else if IsTwoDigits(tail) then
        assert rest == Body(Match(sign, rest[..2], colon, Some(tail)));
        Some(Match(sign, rest[..2], colon, Some(tail)))
      else None
  }

  /** After the sign group, the recogniser reads back the rest of any well-formed match. */
  lemma ExecRecognisesBody(mt: Match)
    requires IsTwoDigits(mt.hours)
    requires mt.minutes.Some? ==> IsTwoDigits(mt.minutes.value)
    ensures ExecAfterSign(mt.sign, Body(mt)) == Some(mt)
  {
    var body := Body(mt);
    var tail := mt.minutes.GetOr("");
    assert body[..2] == mt.hours;
    if mt.colon {
      assert body[2] == ':' && body[3..] == tail;
    } else {
      assert body[2..] == tail;
      assert |tail| > 0 ==> body[2] == tail[0];
    }
  }

  /** The recogniser finds, in any string the pattern generates, the match that generated it. */
  lemma ExecRecognisesSpelling(mt: Match)
    requires WellFormed(mt)
    ensures Exec(Spelling(mt)) == Some(mt)
  {
    var s := Spelling(mt);
    ExecRecognisesBody(mt);
    if mt.sign.Some? {
      assert s[0] == mt.sign.value && s[1..] == Body(mt);
    } else {
      assert s == Body(mt);
      assert s[0] == mt.hours[0];
    }
  }

  /** `exec` succeeds exactly on the strings the pattern describes. */
  lemma ExecMatchesPattern(s: string)
    ensures Exec(s).Some? <==> MatchesPattern(s)
  {
    if MatchesPattern(s) {
      var mt :| WellFormed(mt) && Spelling(mt) == s;
      ExecRecognisesSpelling(mt);
    }
  }

  // ---------------------------------------------------------------------
  // The offset the setter derives from a match
  // ---------------------------------------------------------------------

  /**
   The three fields the zone setter writes: `__h`, `__m` and `__zone`.
   */
  datatype Offset = Offset(h: int, m: int, zone: string)

  function DigitValue(c: char): int {
    c as int - '0' as int
  }

  /** The value of two decimal digits. */
  function TwoDigitValue(s: string): int
    requires |s| == 2
  {
    10 * DigitValue(s[0]) + DigitValue(s[1])
  }

  /** `Number.parseInt` of a sign followed by two digits. */
  function ParseSigned(sign: char, digits: string): int
    requires |digits| == 2
  {
    if sign == '-' then -TwoDigitValue(digits) else TwoDigitValue(digits)
  }

  /** The success branch of the setter: sign defaults to '+', minutes to "00". */
  function OffsetOf(mt: Match): Offset
    requires WellFormed(mt)
  {
    var sign := mt.sign.GetOr('+');
    var minutes := mt.minutes.GetOr("00");
    Offset(ParseSigned(sign, mt.hours), ParseSigned(sign, minutes), [sign] + mt.hours + minutes)
  }

  /** A canonical zone string: a sign and four digits, no colon. */
  predicate IsCanonical(zone: string) {
    |zone| == 5 && IsSign(zone[0]) && IsTwoDigits(zone[1..3]) && IsTwoDigits(zone[3..5])
  }

  /**
   The cached fields agree with the canonical zone string: both hours and
   minutes carry its sign.
   */
  predicate Consistent(o: Offset) {
    && IsCanonical(o.zone)
    && o.h == ParseSigned(o.zone[0], o.zone[1..3])
    && o.m == ParseSigned(o.zone[0], o.zone[3..5])
  }

  /**
   The zone setter's parse: a consistent offset for a string the pattern
   accepts, the INVALID_ZONE_FORMAT error carrying the value otherwise.
   */
  function ParseZone(value: string): (r: Result<Offset, ZoneError>)
    ensures r.Success? <==> MatchesPattern(value)
    ensures r.Failure? ==> r.error == InvalidZone(value)
    ensures r.Success? ==> Consistent(r.value)
  {
    ExecMatchesPattern(value);
    match Exec(value)
    case Some(mt) =>
      var o := OffsetOf(mt);
      assert o.zone[1..3] == mt.hours && o.zone[3..5] == mt.minutes.GetOr("00");
      Success(o)
    case None => Failure(InvalidZone(value))
  }

  /**
   What a string the pattern generates parses to: hours and minutes signed
   by the sign ('+' when absent), minutes 0 when absent, and the zone string
   rebuilt as sign, hours, minutes without the colon.
   */
  lemma ParseZoneOfMatch(mt: Match)
    requires WellFormed(mt)
    ensures var sign := if mt.sign == Some('-') then -1 else 1;
      && ParseZone(Spelling(mt)).Success?
      && ParseZone(Spelling(mt)).value.h == sign * TwoDigitValue(mt.hours)
      && ParseZone(Spelling(mt)).value.m == (if mt.minutes.Some? then sign * TwoDigitValue(mt.minutes.value) else 0)
      && ParseZone(Spelling(mt)).value.zone == [mt.sign.GetOr('+')] + mt.hours + mt.minutes.GetOr("00")
  {
    ExecRecognisesSpelling(mt);
  }

  /**
   Offsets are small and never point two ways: hours and minutes are each
   at most 99 in magnitude (minutes are not limited to 59) and share a sign.
   */
  lemma ConsistentOffsetBounds(o: Offset)
    requires Consistent(o)
    ensures -99 <= o.h <= 99 && -99 <= o.m <= 99
    ensures (o.h >= 0 && o.m >= 0) || (o.h <= 0 && o.m <= 0)
    ensures o.zone[0] == '+' ==> o.h >= 0 && o.m >= 0
  {
  }

  /** A canonical zone string parses back to the very same offset. */
  lemma ParseCanonicalFixedPoint(o: Offset)
    requires Consistent(o)
    ensures ParseZone(o.zone) == Success(o)
  {
    var mt := Match(Some(o.zone[0]), o.zone[1..3], false, Some(o.zone[3..5]));
    assert Spelling(mt) == o.zone;
    ExecRecognisesSpelling(mt);
    assert OffsetOf(mt).zone == o.zone;
  }

  /** Re-parsing the zone string a parse produced changes nothing. */
  lemma ParseZoneIdempotent(value: string)
    requires ParseZone(value).Success?
    ensures ParseZone(ParseZone(value).value.zone) == ParseZone(value)
  {
    ParseCanonicalFixedPoint(ParseZone(value).value);
  }
}
