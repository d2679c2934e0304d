// The pure clock-string helpers of src/components/AlMoazinClock.tsx:
// shifting an "HH:MM" string by a number of minutes, recovering the
// shift between two such strings, the next-prayer countdown and the
// iqama countdown.

module MoazinTime {
  import opened JsText
  import opened ClockSettings

  const MinutesPerDay: int := 1440

  /** `((x % 1440) + 1440) % 1440` with JavaScript's truncating `%`: the
      minute of the day that x minutes names, which is the mathematical
      remainder of x by 1440. */
  function WrapToDay(x: int): (r: int)
    ensures r == x % MinutesPerDay
  {
    var inner := JsRem(x, MinutesPerDay);
    assert (inner + MinutesPerDay) % MinutesPerDay == x % MinutesPerDay;
    JsRem(inner + MinutesPerDay, MinutesPerDay)
  }

  /** `applyOffsetToTime`: the clock string moved by `offset` minutes,
      wrapped into one day. */
  function ApplyOffsetToTime(time: string, offset: int): string {
    if time == [] || ':' !in time then time
    else
      var hours, minutes := NumberPart(time, 0), NumberPart(time, 1);
      if hours.NaN? || minutes.NaN? then time
      else ShiftedClock(hours.i, minutes.i, offset)
  }

  /** The arithmetic branch of `applyOffsetToTime`: `h * 60 + m + offset`
      wrapped into one day and formatted as HH:MM. */
  function ShiftedClock(h: int, m: int, offset: int): string {
    var total := h * 60 + m + offset;
    var adjusted := WrapToDay(total);
    // adjusted is non-negative, so Math.floor and JavaScript's % agree
    // with Dafny's / and %.
    FormatHHMM(adjusted / 60, adjusted % 60)
  }

  /** A string without a colon, or whose two parts are not numbers, is
      returned unchanged. */
  lemma ApplyOffsetUnparsable(time: string, offset: int)
    requires ':' !in time || NumberPart(time, 0).NaN? || NumberPart(time, 1).NaN?
    ensures ApplyOffsetToTime(time, offset) == time
  {
  }

  /** A string whose two parts are the numbers h and m becomes the time of
      day whose minute is h * 60 + m plus the offset, modulo one day. */
  lemma ApplyOffsetParsed(time: string, offset: int, h: int, m: int)
    requires ':' in time && NumberPart(time, 0) == Int(h) && NumberPart(time, 1) == Int(m)
    ensures IsTimeOfDay(ApplyOffsetToTime(time, offset))
    ensures ClockMinutes(ApplyOffsetToTime(time, offset)) == (h * 60 + m + offset) % MinutesPerDay
  {
    var v := (h * 60 + m + offset) % MinutesPerDay;
    ApplyOffsetValue(time, offset, h, m);
    FormatMinuteOfDay(v);
  }

  lemma ApplyOffsetValue(time: string, offset: int, h: int, m: int)
    requires ':' in time && NumberPart(time, 0) == Int(h) && NumberPart(time, 1) == Int(m)
    ensures var v := (h * 60 + m + offset) % MinutesPerDay;
            ApplyOffsetToTime(time, offset) == FormatHHMM(v / 60, v % 60)
  {
    assert time != [];
    assert ApplyOffsetToTime(time, offset) == ShiftedClock(h, m, offset);
  }

  /** On a well-formed time of day the shifted string is the time of day
      whose minute count is the original one plus the offset, modulo a day. */
  lemma {:induction false} ApplyOffsetOfTimeOfDay(t: string, k: int)
    requires IsTimeOfDay(t)
    ensures IsTimeOfDay(ApplyOffsetToTime(t, k))
    ensures ClockMinutes(ApplyOffsetToTime(t, k)) == (ClockMinutes(t) + k) % MinutesPerDay
  {
    TimeOfDayParts(t);
    ApplyOffsetParsed(t, k, Hours(t), Mins(t));
  }

  /** Shifting a time of day lands on the time of day whose minute is the
      shifted minute, modulo a day. */
  lemma {:induction false} ShiftTo(t: string, target: string, k: int)
    requires IsTimeOfDay(t) && IsTimeOfDay(target)
    requires (ClockMinutes(t) + k) % MinutesPerDay == ClockMinutes(target)
    ensures ApplyOffsetToTime(t, k) == target
  {
    ApplyOffsetOfTimeOfDay(t, k);
    SameClockMinutes(ApplyOffsetToTime(t, k), target);
  }

  /** Shifting by zero leaves a time of day as it is. */
  lemma {:induction false} ApplyZeroOffset(t: string)
    requires IsTimeOfDay(t)
    ensures ApplyOffsetToTime(t, 0) == t
  {
    TimeOfDayRange(t);
    ShiftTo(t, t, 0);
  }

  /** Shifting by k and then by -k gives back the original time of day. */
  lemma {:induction false} ApplyOffsetRoundTrip(t: string, k: int)
    requires IsTimeOfDay(t)
    ensures ApplyOffsetToTime(ApplyOffsetToTime(t, k), -k) == t
  {
    ApplyOffsetOfTimeOfDay(t, k);
    ShiftBack(t, ApplyOffsetToTime(t, k), k);
  }

  /** A time of day r that is t shifted by k goes back to t by -k. */
  lemma {:induction false} ShiftBack(t: string, r: string, k: int)
    requires IsTimeOfDay(t) && IsTimeOfDay(r) && ClockMinutes(r) == (ClockMinutes(t) + k) % MinutesPerDay
    ensures ApplyOffsetToTime(r, -k) == t
  {
    TimeOfDayRange(t);
    ModShiftBack(ClockMinutes(t), k);
    ShiftTo(r, t, -k);
  }

  lemma ModShiftBack(m: int, k: int)
    requires 0 <= m < MinutesPerDay
    ensures ((m + k) % MinutesPerDay - k) % MinutesPerDay == m
  {
    var q := (m + k) / MinutesPerDay;
    assert (m + k) % MinutesPerDay - k == m - q * MinutesPerDay;
    ModMultiple(m, -q);
  }

  lemma ModMultiple(m: int, q: int)
    requires 0 <= m < MinutesPerDay
    ensures (m + q * MinutesPerDay) % MinutesPerDay == m
  {
  }

  /** `calculateOffset`: the number of minutes between an original and a
      modified clock string, 0 when either is empty or has no colon and NaN
      when one of their parts is not a number. */
  function CalculateOffset(original: string, modified: string): (r: Num)
    ensures ':' !in original || ':' !in modified ==> r == Int(0)
    ensures ':' in original && ':' in modified ==> (r.Int? <==> MinutesOf(original).Int? && MinutesOf(modified).Int?)
  {
    if original == [] || modified == [] || ':' !in original || ':' !in modified then Int(0)
    else Sub(MinutesOf(modified), MinutesOf(original))
  }

  /** Between two times of day, `calculateOffset` is the difference of
      their minutes. */
  lemma {:induction false} OffsetOfTimesOfDay(original: string, modified: string)
    requires IsTimeOfDay(original) && IsTimeOfDay(modified)
    ensures CalculateOffset(original, modified) == Int(ClockMinutes(modified) - ClockMinutes(original))
  {
    MinutesOfHHMM(original);
    MinutesOfHHMM(modified);
    assert original[2] == ':' && modified[2] == ':';
  }

  /** The offset recovered from a pair of times of day, applied to the
      original, gives the modified time back; this is how stored manual
      edits are carried over to freshly fetched times. */
  lemma {:induction false} OffsetRestoresModified(original: string, modified: string)
    requires IsTimeOfDay(original) && IsTimeOfDay(modified)
    ensures CalculateOffset(original, modified) == Int(ClockMinutes(modified) - ClockMinutes(original))
    ensures ApplyOffsetToTime(original, ClockMinutes(modified) - ClockMinutes(original)) == modified
  {
    OffsetOfTimesOfDay(original, modified);
    ShiftByDifference(original, modified);
  }

  lemma {:induction false} ShiftByDifference(original: string, modified: string)
    requires IsTimeOfDay(original) && IsTimeOfDay(modified)
    ensures ApplyOffsetToTime(original, ClockMinutes(modified) - ClockMinutes(original)) == modified
  {
    var cm := ClockMinutes(modified);
    TimeOfDayRange(modified);
    assert ClockMinutes(original) + (cm - ClockMinutes(original)) == cm + 0 * MinutesPerDay;
    ModMultiple(cm, 0);
    ShiftTo(original, modified, cm - ClockMinutes(original));
  }

  /** A time of day differs from itself by zero minutes. */
  lemma {:induction false} OffsetToItself(t: string)
    requires IsTimeOfDay(t)
    ensures CalculateOffset(t, t) == Int(0)
  {
    OffsetOfTimesOfDay(t, t);
  }

  // ---------------------------------------------------------------------
  // Next-prayer countdown

  /** `toMinutes` of the next-prayer memo: `parseInt` of both parts; none
      for a missing colon or a part without digits. */
  function ToMinutes(s: string): (r: Option<int>)
    ensures ':' !in s ==> r.None?
    ensures r.Some? <==> ':' in s && ParseInt(Split(s, ':')[0]).Int? && ParseInt(Split(s, ':')[1]).Int?
  {
    if s == [] || ':' !in s then None
    else MinutesOfParts(Split(s, ':'))
  }

  /** Hours and minutes read from the first two colon-separated parts. */
  function MinutesOfParts(parts: seq<string>): Option<int>
    requires |parts| >= 2
  {
    var h, m := ParseInt(parts[0]), ParseInt(parts[1]);
    if h.NaN? || m.NaN? then None else Some(h.i * 60 + m.i)
  }

  lemma ToMinutesOfParts(s: string, a: string, b: string, h: int, m: int)
    requires ':' in s && Split(s, ':') == [a, b]
    requires ParseInt(a) == Int(h) && ParseInt(b) == Int(m)
    ensures ToMinutes(s) == Some(h * 60 + m)
  {
    assert s != [];
    assert ToMinutes(s) == MinutesOfParts([a, b]);
    MinutesOfTwoParts(a, b, h, m);
  }

  lemma MinutesOfTwoParts(a: string, b: string, h: int, m: int)
    requires ParseInt(a) == Int(h) && ParseInt(b) == Int(m)
    ensures MinutesOfParts([a, b]) == Some(h * 60 + m)
  {
    var parts := [a, b];
    assert parts[0] == a && parts[1] == b;
  }

  /** `toMinutes` reads a well-formed clock string as its minute of the day. */
  lemma {:induction false} ToMinutesOfHHMM(s: string)
    requires IsHHMM(s)
    ensures ToMinutes(s) == Some(ClockMinutes(s))
  {
    assert s[2] == ':';
    HHMMParts(s);
    ParseIntDigits(s[..2]);
    ParseIntDigits(s[3..]);
    ToMinutesOfParts(s, s[..2], s[3..], Hours(s), Mins(s));
  }

  /** The `map` step of the memo: each prayer's time in minutes, if any. */
  function Parsed(times: PerPrayer<string>): PerPrayer<Option<int>> {
    PerPrayer(ToMinutes(times.fajr), ToMinutes(times.dhuhr), ToMinutes(times.asr),
              ToMinutes(times.maghrib), ToMinutes(times.isha))
  }

  /** The prayer's time parsed and lies strictly after `current`. */
  predicate IsAfter(mins: PerPrayer<Option<int>>, k: PrayerKey, current: int) {
    Get(mins, k).Some? && Get(mins, k).value > current
  }

  /** `schedule.find(p => p.min > currentMinutes)` where `schedule` is
      `keys` with the unparsed prayers filtered out: the first key, in the
      order of `keys`, whose time parsed and lies after `current`. */
  function FirstAfter(keys: seq<PrayerKey>, mins: PerPrayer<Option<int>>, current: int): (r: Option<PrayerKey>)
    ensures r.None? <==> forall i :: 0 <= i < |keys| ==> !IsAfter(mins, keys[i], current)
    ensures r.Some? ==> exists i :: 0 <= i < |keys| && keys[i] == r.value && IsAfter(mins, keys[i], current)
                          && forall j :: 0 <= j < i ==> !IsAfter(mins, keys[j], current)
  {
    if keys == [] then None
    else if IsAfter(mins, keys[0], current) then Some(keys[0])
    else
      var rest := FirstAfter(keys[1..], mins, current);
      if rest.Some? then
        ghost var i :| 0 <= i < |keys[1..]| && keys[1..][i] == rest.value && IsAfter(mins, keys[1..][i], current)
                       && forall j :: 0 <= j < i ==> !IsAfter(mins, keys[1..][j], current);
        assert keys[i + 1] == rest.value;
        assert forall j :: 0 <= j < i + 1 ==> !IsAfter(mins, keys[j], current) by {
          forall j | 0 <= j < i + 1 ensures !IsAfter(mins, keys[j], current) {
            if j > 0 { assert keys[j] == keys[1..][j - 1]; }
          }
        }
        rest
      else
        assert forall i :: 0 <= i < |keys| ==> !IsAfter(mins, keys[i], current) by {
          forall i | 0 <= i < |keys| ensures !IsAfter(mins, keys[i], current) {
            if i > 0 { assert keys[i] == keys[1..][i - 1]; }
          }
        }
        rest
  }

  /** Over `PrayerOrder`, the first prayer after `current` is one whose
      every predecessor is not after `current`. */
  lemma FirstAfterInOrder(mins: PerPrayer<Option<int>>, current: int)
    ensures FirstAfter(PrayerOrder, mins, current).None? <==> forall k :: !IsAfter(mins, k, current)
    ensures FirstAfter(PrayerOrder, mins, current).Some? ==>
              var k := FirstAfter(PrayerOrder, mins, current).value;
              IsAfter(mins, k, current) && forall j :: Rank(j) < Rank(k) ==> !IsAfter(mins, j, current)
  {
    var r := FirstAfter(PrayerOrder, mins, current);
    if r.None? {
      forall k ensures !IsAfter(mins, k, current) {
        assert PrayerOrder[Rank(k)] == k;
      }
    } else {
      var k := r.value;
      var i :| 0 <= i < |PrayerOrder| && PrayerOrder[i] == k && IsAfter(mins, PrayerOrder[i], current)
               && forall j :: 0 <= j < i ==> !IsAfter(mins, PrayerOrder[j], current);
      assert i == Rank(k);
      forall j | Rank(j) < Rank(k) ensures !IsAfter(mins, j, current) {
        assert PrayerOrder[Rank(j)] == j;
      }
    }
  }

  /** What the header shows: nothing to count down to, or a prayer and the
      number of seconds left until it. */
  datatype Upcoming = NoUpcoming | Upcoming(prayer: PrayerKey, seconds: int)

  /** The next-prayer memo over parsed minutes: the first prayer of the day
      after the current minute, otherwise tomorrow's Fajr (1440 minutes
      later), otherwise nothing when Fajr has no time. */
  function NextPrayerCountdown(mins: PerPrayer<Option<int>>, currentMinutes: int, currentSeconds: int): (r: Upcoming)
    ensures r.NoUpcoming? <==> mins.fajr.None? && forall k :: !IsAfter(mins, k, currentMinutes)
    ensures r.Upcoming? ==> Get(mins, r.prayer).Some?
    ensures r.Upcoming? && IsAfter(mins, r.prayer, currentMinutes) ==>
              r.seconds == Get(mins, r.prayer).value * 60 - (currentMinutes * 60 + currentSeconds)
              && forall k :: Rank(k) < Rank(r.prayer) ==> !IsAfter(mins, k, currentMinutes)
    ensures r.Upcoming? && !IsAfter(mins, r.prayer, currentMinutes) ==>
              r.prayer == Fajr
              && r.seconds == (mins.fajr.value + MinutesPerDay) * 60 - (currentMinutes * 60 + currentSeconds)
              && forall k :: !IsAfter(mins, k, currentMinutes)
    ensures 0 <= currentSeconds < 60 && 0 <= currentMinutes < MinutesPerDay
            && (mins.fajr.Some? ==> mins.fajr.value >= 0) && r.Upcoming?
            ==> r.seconds >= 1
  {
    FirstAfterInOrder(mins, currentMinutes);
    var now := currentMinutes * 60 + currentSeconds;
    match FirstAfter(PrayerOrder, mins, currentMinutes)
    case Some(k) => Upcoming(k, Get(mins, k).value * 60 - now)
    case None =>
      match mins.fajr
      case None => NoUpcoming
      case Some(fajr) => Upcoming(Fajr, (fajr + MinutesPerDay) * 60 - now)
  }

  /** The memo on the settings' clock strings. */
  function NextPrayerFromTimes(times: PerPrayer<string>, currentMinutes: int, currentSeconds: int): Upcoming {
    NextPrayerCountdown(Parsed(times), currentMinutes, currentSeconds)
  }

  /** When every time is a well-formed time of day, there is always a
      countdown and it lasts between one second and one day. */
  lemma {:induction false} CountdownAtMostADay(times: PerPrayer<string>, currentMinutes: int, currentSeconds: int)
    requires forall k :: IsTimeOfDay(Get(times, k))
    requires 0 <= currentMinutes < MinutesPerDay && 0 <= currentSeconds < 60
    ensures NextPrayerFromTimes(times, currentMinutes, currentSeconds).Upcoming?
    ensures 1 <= NextPrayerFromTimes(times, currentMinutes, currentSeconds).seconds <= MinutesPerDay * 60
  {
    var mins := Parsed(times);
    forall k ensures Get(mins, k).Some? && 0 <= Get(mins, k).value < MinutesPerDay {
      ParsedGet(times, k);
      TimeOfDayMinutes(Get(times, k));
    }
    CountdownBound(mins, currentMinutes, currentSeconds);
  }

  lemma ParsedGet(times: PerPrayer<string>, k: PrayerKey)
    ensures Get(Parsed(times), k) == ToMinutes(Get(times, k))
  {
  }

  /** A time of day parses to a minute of the day. */
  lemma TimeOfDayMinutes(t: string)
    requires IsTimeOfDay(t)
    ensures ToMinutes(t).Some? && 0 <= ToMinutes(t).value < MinutesPerDay
  {
    ToMinutesOfHHMM(t);
    TimeOfDayRange(t);
  }

  /** The bound of CountdownAtMostADay over parsed minutes of the day. */
  lemma CountdownBound(mins: PerPrayer<Option<int>>, currentMinutes: int, currentSeconds: int)
    requires forall k :: Get(mins, k).Some? && 0 <= Get(mins, k).value < MinutesPerDay
    requires 0 <= currentMinutes < MinutesPerDay && 0 <= currentSeconds < 60
    ensures NextPrayerCountdown(mins, currentMinutes, currentSeconds).Upcoming?
    ensures 1 <= NextPrayerCountdown(mins, currentMinutes, currentSeconds).seconds <= MinutesPerDay * 60
  {
    var r := NextPrayerCountdown(mins, currentMinutes, currentSeconds);
    assert Get(mins, Fajr).Some?;
    if IsAfter(mins, r.prayer, currentMinutes) {
      assert Get(mins, r.prayer).value < MinutesPerDay;
    } else {
      assert !IsAfter(mins, Fajr, currentMinutes);
    }
  }

  /** `Math.floor(d / 3600)`, `Math.floor((d % 3600) / 60)` and `d % 60`,
      with JavaScript's `%`. */
  function ClockParts(d: int): (p: (int, int, int))
    ensures d >= 0 ==> 0 <= p.1 < 60 && 0 <= p.2 < 60 && p.0 >= 0 && p.0 * 3600 + p.1 * 60 + p.2 == d
  {
    if d >= 0 then ClockSplit(d); (FloorDiv(d, 3600), FloorDiv(JsRem(d, 3600), 60), JsRem(d, 60))
    else (FloorDiv(d, 3600), FloorDiv(JsRem(d, 3600), 60), JsRem(d, 60))
  }

  /** Hours, minutes of the hour and seconds of a non-negative count. */
  lemma ClockSplit(d: int)
    requires d >= 0
    ensures d / 3600 * 3600 + (d % 3600) / 60 * 60 + d % 60 == d
    ensures 0 <= (d % 3600) / 60 < 60
  {
    var h, r := d / 3600, d % 3600;
    var m, sec := r / 60, r % 60;
    assert r == 60 * m + sec;
    assert d == 3600 * h + r;
    assert d == 60 * (60 * h + m) + sec;
    ModUnique(d, 60, 60 * h + m, sec);
  }

  /** The "HH:MM:SS" countdown text. */
  function CountdownText(d: int): string {
    var p := ClockParts(d);
    Pad2(p.0) + ":" + Pad2(p.1) + ":" + Pad2(p.2)
  }

  /** The name and countdown the header shows. */
  function Header(u: Upcoming): (r: (string, string))
    ensures u.NoUpcoming? ==> r == ("...", "--:--:--")
    ensures u.Upcoming? ==> r.0 == ArabicName(u.prayer)
  {
    match u
    case NoUpcoming => ("...", "--:--:--")
    case Upcoming(k, d) => (ArabicName(k), CountdownText(d))
  }

  // ---------------------------------------------------------------------
  // Iqama countdown

  /** `countdownToIqama`: nothing without an end time, "00:00" once it has
      passed, and otherwise whole minutes and seconds left as "MM:SS". */
  function CountdownToIqama(iqamaEnd: Option<int>, now: int): (r: Option<string>)
    ensures r.None? <==> iqamaEnd.None?
    ensures iqamaEnd.Some? && iqamaEnd.value - now <= 0 ==> r == Some("00:00")
    ensures iqamaEnd.Some? && 0 < iqamaEnd.value - now < 100 * 60000 ==>
              r.Some? && IsHHMM(r.value) && Mins(r.value) < 60
              && Hours(r.value) * 60 + Mins(r.value) == (iqamaEnd.value - now) / 1000
  {
    match iqamaEnd
    case None => None
    case Some(end) =>
      var diff := end - now;
      if diff <= 0 then Some("00:00")
      else
        var minutes := diff / 60000;
        var seconds := (diff % 60000) / 1000;
        IqamaTextParts(diff);
        Some(FormatHHMM(minutes, seconds))
  }

  lemma IqamaTextParts(diff: int)
    requires diff > 0
    ensures diff < 100 * 60000 ==>
              var t := FormatHHMM(diff / 60000, (diff % 60000) / 1000);
              IsHHMM(t) && Mins(t) < 60 && Hours(t) * 60 + Mins(t) == diff / 1000
  {
    if diff < 100 * 60000 {
      FormatHHMMParts(diff / 60000, (diff % 60000) / 1000);
    }
  }
}
