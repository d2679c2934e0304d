// The clock-string helpers of src/utils/dateUtils.ts (class DateUtils):
// the HH:MM format test, the 12-hour and 24-hour converters with the
// Arabic period letters, the unwrapped minute difference and the
// time-window test.

module DateUtils {
  import opened JsText

  /** The morning period letter ('ص') and the evening one ('م'). */
  const AM: char := 'ص'
  const PM: char := 'م'

  predicate IsPeriod(c: char) { c == AM || c == PM }

  // ---------------------------------------------------------------------
  // isValidTimeFormat
  // ---------------------------------------------------------------------

  /** `/^\d{2}:\d{2}$/.test(time)`: two ASCII digits, a colon and two ASCII
      digits, with nothing before or after. */
  function IsValidTimeFormat(time: string): (r: bool)
    ensures r <==> IsHHMM(time)
  {
    if |time| == 5 then
      assert time[..2] == [time[0], time[1]] && time[3..] == [time[3], time[4]];
      AllDigits(time[..2]) && time[2] == ':' && AllDigits(time[3..])
    else false
  }

  /** The test is about the shape only: out-of-range hours and minutes
      pass it. */
  lemma ValidFormatAcceptsOutOfRange()
    ensures IsValidTimeFormat("99:99") && !IsTimeOfDay("99:99")
    ensures !IsValidTimeFormat("9:30") && !IsValidTimeFormat("09:30 ")
  {
  }

  // ---------------------------------------------------------------------
  // convertTo12Hour
  // ---------------------------------------------------------------------

  /** `convertTo12Hour`: the hour modulo 12 with 0 shown as 12, not
      padded, the minutes padded to two digits, a space and the period
      letter, 'م' iff the hour is at least 12. None where the conversion
      throws: a string without a colon has no minutes part, and
      `undefined.toString()` raises a TypeError. */
  function ConvertTo12Hour(time24: string): Option<string> {
    if ':' !in time24 then None
    else
      var hours, minutes := NumberPart(time24, 0), NumberPart(time24, 1);
      var period := if Ge(hours, Int(12)) then PM else AM;
      var hours12 := if hours.NaN? || JsRem(hours.i, 12) == 0 then 12 else JsRem(hours.i, 12);
      Some(IntToString(hours12) + ":" + PadStart2(NumToString(minutes)) + " " + [period])
  }

  lemma {:induction false} NatToStringShort(n: nat)
    requires n < 100
    ensures 1 <= |NatToString(n)| <= 2
  {
    if n >= 10 {
      assert NatToString(n / 10) == [DigitChar(n / 10)];
    }
  }

  /** The hour and the period letter `convertTo12Hour` shows for a
      non-negative hour. */
  function Hour12(h: nat): nat { if h % 12 == 0 then 12 else h % 12 }

  function PeriodOf(h: nat): char { if h >= 12 then PM else AM }

  /** The 12-hour spelling of a time of day: hour 0 and hour 12 show as
      12, the period is 'م' exactly from hour 12 on, the hour is not
      padded and the minutes are. */
  lemma {:induction false} TwelveHourOfTimeOfDay(t: string)
    requires IsTimeOfDay(t)
    ensures ConvertTo12Hour(t) == Some(NatToString(Hour12(Hours(t))) + ":" + t[3..] + " " + [PeriodOf(Hours(t))])
  {
    TimeOfDayParts(t);
    HHMMParts(t);
    Pad2OfTwoDigits(t[3..]);
  }

  // ---------------------------------------------------------------------
  // convertTo24Hour
  // ---------------------------------------------------------------------

  /** The three capture groups of a successful match. */
  datatype Match12 = Match12(hours: string, minutes: string, period: char)

  /** What `/^(\d{1,2}):(\d{2})\s*(ص|م)$/` accepts, given as its parts: one
      or two digits, two digits, white space and a period letter. */
  predicate Shaped(hours: string, minutes: string, spaces: string, period: char) {
    1 <= |hours| <= 2 && AllDigits(hours) && |minutes| == 2 && AllDigits(minutes) &&
    AllSpace(spaces) && IsPeriod(period)
  }

  /** `time12.match(/^(\d{1,2}):(\d{2})\s*(ص|م)$/)`. The first colon ends
      the hour group, since digits are not colons. */
  function MatchTwelveHour(s: string): (r: Option<Match12>)
    ensures r.Some? ==> |r.value.hours| + 4 <= |s|
    ensures r.Some? ==>
      var sp := s[|r.value.hours| + 3..|s| - 1];
      Shaped(r.value.hours, r.value.minutes, sp, r.value.period) &&
      s == r.value.hours + ":" + r.value.minutes + sp + [r.value.period]
  {
    if ':' !in s then None
    else
      var i := IndexOf(s, ':');
      if 1 <= i <= 2 && |s| >= i + 4 && AllDigits(s[..i]) && AllDigits(s[i + 1..i + 3]) &&
         AllSpace(s[i + 3..|s| - 1]) && IsPeriod(s[|s| - 1])
      then
        assert s == s[..i] + ":" + s[i + 1..i + 3] + s[i + 3..|s| - 1] + [s[|s| - 1]];
        Some(Match12(s[..i], s[i + 1..i + 3], s[|s| - 1]))
      else None
  }

  /** Every string of the accepted shape matches, with its own parts as
      the groups. */
  lemma {:induction false} MatchTwelveHourComplete(hours: string, minutes: string, spaces: string, period: char)
    requires Shaped(hours, minutes, spaces, period)
    ensures MatchTwelveHour(hours + ":" + minutes + spaces + [period]) == Some(Match12(hours, minutes, period))
  {
    var s := hours + ":" + minutes + spaces + [period];
    assert s[|hours|] == ':';
    var i := IndexOf(s, ':');
    if i < |hours| {
      assert false;
    }
    if i > |hours| {
      assert false;
    }
    assert s[..i] == hours;
    assert s[i + 1..i + 3] == minutes;
    assert s[i + 3..|s| - 1] == spaces;
  }

  /** `convertTo24Hour`: a string that does not match is returned as it
      is; otherwise 12 'ص' becomes 0, an evening hour other than 12 gains
      12, and the hour is padded to two digits ahead of the minutes group.
  */
  function ConvertTo24Hour(time12: string): string {
    var m := MatchTwelveHour(time12);
    if m.None? then time12
    else
      ParseIntDigits(m.value.hours);
      var hours := ParseInt(m.value.hours).i;
      Pad2(Hours24(hours, m.value.period)) + ":" + m.value.minutes
  }

  /** The hour on the 24-hour clock: 12 'ص' is 0, an evening hour other
      than 12 gains 12, any other hour stays. */
  function Hours24(hours: int, period: char): int {
    if period == AM && hours == 12 then 0 else if period == PM && hours != 12 then hours + 12 else hours
  }

  /** The result on a string of the accepted shape, in terms of the value
      of its hour digits. */
  lemma {:induction false} ConvertTo24HourShaped(hours: string, minutes: string, spaces: string, period: char)
    requires Shaped(hours, minutes, spaces, period)
    ensures ConvertTo24Hour(hours + ":" + minutes + spaces + [period]) == Pad2(Hours24(DigitsValue(hours), period)) + ":" + minutes
  {
    MatchTwelveHourComplete(hours, minutes, spaces, period);
    ParseIntDigits(hours);
  }

  /** A string that does not have the shape is returned unchanged. */
  lemma ConvertTo24HourUnmatched(s: string)
    requires MatchTwelveHour(s).None?
    ensures ConvertTo24Hour(s) == s
  {
  }

  /** "12:MM ص" is the first hour of the day. */
  lemma {:induction false} MidnightHour(minutes: string)
    requires |minutes| == 2 && AllDigits(minutes)
    ensures ConvertTo24Hour("12:" + minutes + " " + [AM]) == "00:" + minutes
  {
    MidnightParts(minutes);
    ConvertTo24HourShaped("12", minutes, " ", AM);
    assert "12" + ":" + minutes + " " + [AM] == "12:" + minutes + " " + [AM];
  }

  lemma MidnightParts(minutes: string)
    requires |minutes| == 2 && AllDigits(minutes)
    ensures Shaped("12", minutes, " ", AM)
    ensures Pad2(Hours24(DigitsValue("12"), AM)) == "00"
  {
    assert AllDigits("12") && AllSpace(" ");
    TwoDigitsValue("12");
  }

  /** The 24-hour reading of the 12-hour hour of h is h. */
  lemma Hours24OfHour12(h: nat)
    requires h < 24
    ensures Hours24(Hour12(h), PeriodOf(h)) == h
  {
  }

  /** Reading back the 12-hour spelling of an hour of the day gives the
      padded hour. */
  lemma {:induction false} TwentyFourOfTwelve(h: nat, minutes: string)
    requires h < 24 && |minutes| == 2 && AllDigits(minutes)
    ensures ConvertTo24Hour(NatToString(Hour12(h)) + ":" + minutes + " " + [PeriodOf(h)]) == Pad2(h) + ":" + minutes
  {
    var h12 := Hour12(h);
    NatToStringShort(h12);
    NatToStringValue(h12);
    assert AllSpace(" ");
    ConvertTo24HourShaped(NatToString(h12), minutes, " ", PeriodOf(h));
    Hours24OfHour12(h);
  }

  /** Converting a time of day to 12 hours and back gives it back. */
  lemma {:induction false} TwelveHourRoundTrip(t: string)
    requires IsTimeOfDay(t)
    ensures ConvertTo12Hour(t).Some? && ConvertTo24Hour(ConvertTo12Hour(t).value) == t
  {
    var h := Hours(t);
    TwelveHourOfTimeOfDay(t);
    HHMMParts(t);
    TwentyFourOfTwelve(h, t[3..]);
    HHMMIsFormatted(t);
    Pad2OfTwoDigits(t[3..]);
  }

  // ---------------------------------------------------------------------
  // getTimeDifferenceInMinutes and isCurrentTimeBetween
  // ---------------------------------------------------------------------

  /** `getTimeDifferenceInMinutes`: the minutes of time2 less those of
      time1, with no wrap around midnight; NaN when a part is not a number
      or missing. */
  function TimeDifferenceInMinutes(time1: string, time2: string): (r: Num)
    ensures r.NaN? <==> MinutesOf(time1).NaN? || MinutesOf(time2).NaN?
  {
    Sub(MinutesOf(time2), MinutesOf(time1))
  }

  /** Swapping the arguments negates the difference. */
  lemma DifferenceAntisymmetric(a: string, b: string)
    ensures TimeDifferenceInMinutes(a, b).Int? <==> TimeDifferenceInMinutes(b, a).Int?
    ensures TimeDifferenceInMinutes(a, b).Int? ==> TimeDifferenceInMinutes(a, b).i == -TimeDifferenceInMinutes(b, a).i
  {
  }

  /** Between times of day the difference is the difference of their
      minutes, strictly within a day either way: an end after midnight
      counts as earlier. */
  lemma {:induction false} DifferenceOfTimesOfDay(a: string, b: string)
    requires IsTimeOfDay(a) && IsTimeOfDay(b)
    ensures TimeDifferenceInMinutes(a, b) == Int(ClockMinutes(b) - ClockMinutes(a))
    ensures -1440 < ClockMinutes(b) - ClockMinutes(a) < 1440
  {
    MinutesOfHHMM(a);
    MinutesOfHHMM(b);
    TimeOfDayRange(a);
    TimeOfDayRange(b);
  }

  /** `isCurrentTimeBetween`. `clockNow` stands for
      `new Date().toTimeString().slice(0, 5)`, used when no current time
      is passed or it is empty. An ordered window is inclusive at both
      ends; a window with start after end wraps past midnight. */
  function IsCurrentTimeBetween(startTime: string, endTime: string, currentTime: Option<string>, clockNow: string): bool {
    var current := if currentTime.Some? && currentTime.value != [] then currentTime.value else clockNow;
    var c, s, e := MinutesOf(current), MinutesOf(startTime), MinutesOf(endTime);
    if Ge(e, s) then Ge(c, s) && Ge(e, c) else Ge(c, s) || Ge(e, c)
  }

  /** On times of day the test is membership of the circular window that
      runs forward from start to end: the current minute is reached from
      start no later than end is. */
  lemma {:induction false} BetweenIsCircularWindow(startTime: string, endTime: string, current: string, clockNow: string)
    requires IsTimeOfDay(startTime) && IsTimeOfDay(endTime) && IsTimeOfDay(current)
    ensures IsCurrentTimeBetween(startTime, endTime, Some(current), clockNow) ==
            InCircularWindow(ClockMinutes(startTime), ClockMinutes(endTime), ClockMinutes(current))
  {
    var s, e, c := ClockMinutes(startTime), ClockMinutes(endTime), ClockMinutes(current);
    TimeOfDayMinutesOf(startTime);
    TimeOfDayMinutesOf(endTime);
    TimeOfDayMinutesOf(current);
    BetweenOfMinutes(startTime, endTime, current, clockNow, s, e, c);
    CircularWindow(s, e, c);
  }

  /** A time of day is non-empty and its `Number` parts give its minute of
      the day. */
  lemma TimeOfDayMinutesOf(t: string)
    requires IsTimeOfDay(t)
    ensures t != [] && MinutesOf(t) == Int(ClockMinutes(t)) && 0 <= ClockMinutes(t) < 1440
  {
    MinutesOfHHMM(t);
    MinuteOfDayBound(t);
  }

  lemma MinuteOfDayBound(t: string)
    requires IsTimeOfDay(t)
    ensures 0 <= ClockMinutes(t) < 1440
  {
  }

  /** The test on strings whose minutes are the integers s, e and c. */
  lemma BetweenOfMinutes(startTime: string, endTime: string, current: string, clockNow: string, s: int, e: int, c: int)
    requires current != []
    requires MinutesOf(startTime) == Int(s) && MinutesOf(endTime) == Int(e) && MinutesOf(current) == Int(c)
    ensures IsCurrentTimeBetween(startTime, endTime, Some(current), clockNow) <==> (if e >= s then c >= s && e >= c else c >= s || e >= c)
  {
  }

  /** The minute c is reached going forward from s no later than e is. */
  predicate InCircularWindow(s: int, e: int, c: int) {
    (c - s) % 1440 <= (e - s) % 1440
  }

  lemma CircularWindow(s: int, e: int, c: int)
    requires 0 <= s < 1440 && 0 <= e < 1440 && 0 <= c < 1440
    ensures (if e >= s then c >= s && e >= c else c >= s || e >= c) <==> InCircularWindow(s, e, c)
  {
    if c < s {
      assert (c - s) % 1440 == c - s + 1440;
    } else {
      assert (c - s) % 1440 == c - s;
    }
    if e < s {
      assert (e - s) % 1440 == e - s + 1440;
    } else {
      assert (e - s) % 1440 == e - s;
    }
  }

  /** Both ends of a window whose ends parse are inside it. */
  lemma EndsAreInside(startTime: string, endTime: string, clockNow: string)
    requires startTime != [] && endTime != []
    requires MinutesOf(startTime).Int? && MinutesOf(endTime).Int?
    ensures IsCurrentTimeBetween(startTime, endTime, Some(startTime), clockNow)
    ensures IsCurrentTimeBetween(startTime, endTime, Some(endTime), clockNow)
  {
  }

  /** A start that does not parse makes the test `current <= end`: the
      ordered branch is not taken, and the first disjunct never holds. */
  lemma UnparsableStart(startTime: string, endTime: string, current: string, clockNow: string)
    requires current != [] && MinutesOf(startTime).NaN?
    ensures IsCurrentTimeBetween(startTime, endTime, Some(current), clockNow) == Ge(MinutesOf(endTime), MinutesOf(current))
  {
  }

  /** An empty current time falls back to the host clock's reading. */
  lemma EmptyCurrentUsesClock(startTime: string, endTime: string, clockNow: string)
    ensures IsCurrentTimeBetween(startTime, endTime, Some(""), clockNow) == IsCurrentTimeBetween(startTime, endTime, None, clockNow)
    ensures IsCurrentTimeBetween(startTime, endTime, None, clockNow) == IsCurrentTimeBetween(startTime, endTime, Some(clockNow), clockNow)
  {
  }
}
