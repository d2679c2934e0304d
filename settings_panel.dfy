// src/components/SettingsPanel.tsx: the signed minute difference between
// two clock strings and the handlers that replace the panel's local copy
// of the settings, up to `saveAndClose`.

module SettingsPanel {
  import opened JsText
  import opened ClockSettings
  import MoazinTime

  // ---------------------------------------------------------------------
  // calculateTimeDifference
  // ---------------------------------------------------------------------

  /** A clock string both of whose colon-separated parts read as numbers. */
  predicate Parses(t: string) {
    t != [] && ':' in t && NumberPart(t, 0).Int? && NumberPart(t, 1).Int?
  }

  /** `h * 60 + m` of a clock string that parses. */
  function MinuteCount(t: string): int
    requires Parses(t)
  {
    NumberPart(t, 0).i * 60 + NumberPart(t, 1).i
  }

  /** `calculateTimeDifference`: time1 minus time2 in minutes, moved by one
      day when it exceeds half a day either way; 0 when either string is
      empty, has no colon or has a part that is not a number. */
  function TimeDifference(time1: string, time2: string): (r: int)
    ensures !(Parses(time1) && Parses(time2)) ==> r == 0
    ensures Parses(time1) && Parses(time2) ==>
              (r - (MinuteCount(time1) - MinuteCount(time2))) % MoazinTime.MinutesPerDay == 0
  {
    if time1 == [] || time2 == [] || ':' !in time1 || ':' !in time2 then 0
    else
      var h1, m1 := NumberPart(time1, 0), NumberPart(time1, 1);
      var h2, m2 := NumberPart(time2, 0), NumberPart(time2, 1);
      if h1.NaN? || m1.NaN? || h2.NaN? || m2.NaN? then 0
      else
        var diff := (h1.i * 60 + m1.i) - (h2.i * 60 + m2.i);
        var wrappedDown := if diff > 720 then diff - 1440 else diff;
        var r := if wrappedDown < -720 then wrappedDown + 1440 else wrappedDown;
        assert r - diff == 1440 * ((r - diff) / 1440) by {
          assert r - diff in {-1440, 0, 1440};
        }
        r
  }

  /** A raw difference of at most a day and a half either way ends up
      within half a day. */
  lemma TimeDifferenceRange(time1: string, time2: string)
    requires Parses(time1) && Parses(time2)
    requires -2160 <= MinuteCount(time1) - MinuteCount(time2) <= 2160
    ensures -720 <= TimeDifference(time1, time2) <= 720
  {
  }

  /** Between two times of day the difference is within half a day and
      congruent to the difference of their minutes modulo a day. */
  lemma {:induction false} TimesOfDayDifference(time1: string, time2: string)
    requires IsTimeOfDay(time1) && IsTimeOfDay(time2)
    ensures -720 <= TimeDifference(time1, time2) <= 720
    ensures (TimeDifference(time1, time2) - (ClockMinutes(time1) - ClockMinutes(time2))) % MoazinTime.MinutesPerDay == 0
    ensures var raw := ClockMinutes(time1) - ClockMinutes(time2);
      (-720 <= raw <= 720 ==> TimeDifference(time1, time2) == raw) &&
      (raw > 720 ==> TimeDifference(time1, time2) == raw - 1440) &&
      (raw < -720 ==> TimeDifference(time1, time2) == raw + 1440)
  {
    TimeOfDayParts(time1);
    TimeOfDayParts(time2);
    TimeOfDayRange(time1);
    TimeOfDayRange(time2);
    assert MinuteCount(time1) == ClockMinutes(time1) && MinuteCount(time2) == ClockMinutes(time2);
    TimeDifferenceRange(time1, time2);
  }

  /** A string's difference to itself is 0, whether or not it parses. */
  lemma TimeDifferenceSelf(t: string)
    ensures TimeDifference(t, t) == 0
  {
  }

  /** Swapping the arguments negates the difference, for every pair of
      strings: the two half-day corrections mirror each other. */
  lemma TimeDifferenceAntisymmetric(a: string, b: string)
    ensures TimeDifference(a, b) == -TimeDifference(b, a)
  {
  }

  /** The offset stored for an edited time, applied to the fetched time the
      way the clock applies offsets, gives the edited time back. */
  lemma {:induction false} DifferenceRestoresEdit(original: string, value: string)
    requires IsTimeOfDay(original) && IsTimeOfDay(value)
    ensures MoazinTime.ApplyOffsetToTime(original, TimeDifference(value, original)) == value
  {
    TimesOfDayDifference(value, original);
    RestoreByCongruentShift(original, value, TimeDifference(value, original));
  }

  /** Any shift congruent to the minute difference restores the edit. */
  lemma {:induction false} RestoreByCongruentShift(original: string, value: string, r: int)
    requires IsTimeOfDay(original) && IsTimeOfDay(value)
    requires (r - (ClockMinutes(value) - ClockMinutes(original))) % MoazinTime.MinutesPerDay == 0
    ensures MoazinTime.ApplyOffsetToTime(original, r) == value
  {
    TimeOfDayRange(value);
    CongruentShift(ClockMinutes(original), ClockMinutes(value), r);
    MoazinTime.ShiftTo(original, value, r);
  }

  /** A shift congruent to cv - co modulo a day takes co to cv. */
  lemma CongruentShift(co: int, cv: int, r: int)
    requires 0 <= cv < MoazinTime.MinutesPerDay
    requires (r - (cv - co)) % MoazinTime.MinutesPerDay == 0
    ensures (co + r) % MoazinTime.MinutesPerDay == cv
  {
    var q := (r - (cv - co)) / MoazinTime.MinutesPerDay;
    assert co + r == cv + q * MoazinTime.MinutesPerDay;
    MoazinTime.ModMultiple(cv, q);
  }

  // ---------------------------------------------------------------------
  // The edit handlers, as updates of the local settings record
  // ---------------------------------------------------------------------

  /** `prev.prayerTimeOffsets || { fajr: 0, ... }`. */
  function OffsetsOrZero(s: Settings): PerPrayer<int> {
    if s.prayerTimeOffsets.Some? then s.prayerTimeOffsets.value else Uniform(0)
  }

  /** The original fetched time of a prayer, when one is known and is not
      the empty string. */
  predicate KnownOriginal(original: Option<PerPrayer<string>>, prayer: PrayerKey) {
    original.Some? && Get(original.value, prayer) != []
  }

  /** The updater `handlePrayerTimeChange` passes to `setLocalSettings`. */
  function PrayerTimeChange(prev: Settings, original: Option<PerPrayer<string>>, prayer: PrayerKey, value: string): Settings {
    var offsets := OffsetsOrZero(prev);
    var newOffsets :=
      if KnownOriginal(original, prayer)
      then Set(offsets, prayer, TimeDifference(value, Get(original.value, prayer)))
      else offsets;
    prev.(prayerTimes := Set(prev.prayerTimes, prayer, value), prayerTimeOffsets := Some(newOffsets))
  }

  /** Only the edited prayer's time changes; its offset changes only when
      its original time is known; every other time, offset and field keeps
      its value. */
  lemma PrayerTimeChangeOnlyEdited(prev: Settings, original: Option<PerPrayer<string>>, prayer: PrayerKey, value: string)
    ensures var next := PrayerTimeChange(prev, original, prayer, value);
      Get(next.prayerTimes, prayer) == value &&
      next.prayerTimeOffsets.Some? &&
      (KnownOriginal(original, prayer) ==>
         Get(next.prayerTimeOffsets.value, prayer) == TimeDifference(value, Get(original.value, prayer))) &&
      (!KnownOriginal(original, prayer) ==>
         Get(next.prayerTimeOffsets.value, prayer) == Get(OffsetsOrZero(prev), prayer)) &&
      (forall k :: k != prayer ==>
         Get(next.prayerTimes, k) == Get(prev.prayerTimes, k) &&
         Get(next.prayerTimeOffsets.value, k) == Get(OffsetsOrZero(prev), k)) &&
      next.(prayerTimes := prev.prayerTimes, prayerTimeOffsets := prev.prayerTimeOffsets) == prev
  {
  }

  /** With a known original, the stored offset turns the original into the
      edited time again. */
  lemma PrayerTimeChangeReproducible(prev: Settings, original: Option<PerPrayer<string>>, prayer: PrayerKey, value: string)
    requires original.Some? && IsTimeOfDay(Get(original.value, prayer)) && IsTimeOfDay(value)
    ensures var next := PrayerTimeChange(prev, original, prayer, value);
      next.prayerTimeOffsets.Some? &&
      MoazinTime.ApplyOffsetToTime(Get(original.value, prayer), Get(next.prayerTimeOffsets.value, prayer)) == value
  {
    DifferenceRestoresEdit(Get(original.value, prayer), value);
  }

  /** `handleIqamaCountdownChange`: input that `parseInt` reads as NaN
      changes nothing, otherwise the prayer's wait becomes the number read. */
  function IqamaCountdownChange(prev: Settings, prayer: PrayerKey, value: string): Settings {
    var minutes := ParseInt(value);
    if minutes.NaN? then prev
    else prev.(iqamaCountdown := Set(prev.iqamaCountdown, prayer, minutes.i))
  }

  lemma IqamaCountdownChangeOnlyEdited(prev: Settings, prayer: PrayerKey, value: string)
    ensures var next := IqamaCountdownChange(prev, prayer, value);
      (ParseInt(value).NaN? ==> next == prev) &&
      (ParseInt(value).Int? ==>
         Get(next.iqamaCountdown, prayer) == ParseInt(value).i &&
         (forall k :: k != prayer ==> Get(next.iqamaCountdown, k) == Get(prev.iqamaCountdown, k)) &&
         next.(iqamaCountdown := prev.iqamaCountdown) == prev)
  {
  }

  /** The shuruq time input's updater: the offset is recomputed against
      the original shuruq time when one is known and non-empty, otherwise
      the previous offset (or 0) is kept. */
  function ShuruqTimeChange(prev: Settings, originalShuruq: Option<string>, value: string): Settings {
    var previous := if prev.shuruqOffset.Some? then prev.shuruqOffset.value else 0;
    var newOffset :=
      if originalShuruq.Some? && originalShuruq.value != [] then TimeDifference(value, originalShuruq.value) else previous;
    prev.(shuruqTime := value, shuruqOffset := Some(newOffset))
  }

  lemma ShuruqTimeChangeOffset(prev: Settings, originalShuruq: Option<string>, value: string)
    ensures var next := ShuruqTimeChange(prev, originalShuruq, value);
      next.shuruqTime == value && next.shuruqOffset.Some? &&
      (originalShuruq.Some? && originalShuruq.value != [] ==>
         next.shuruqOffset.value == TimeDifference(value, originalShuruq.value)) &&
      (!(originalShuruq.Some? && originalShuruq.value != []) ==>
         next.shuruqOffset.value == (if prev.shuruqOffset.Some? then prev.shuruqOffset.value else 0)) &&
      next.(shuruqTime := prev.shuruqTime, shuruqOffset := prev.shuruqOffset) == prev
  {
  }

  /** `hasLocationChanged` in `saveAndClose`. */
  predicate LocationChanged(local: Settings, committed: Settings) {
    local.country != committed.country || local.city != committed.city
  }

  /** Editing a prayer time, an iqama countdown or the Shuruq time never
      makes the next save refetch: only the location fields decide that. */
  lemma TimeEditsKeepLocation(prev: Settings, committed: Settings, original: Option<PerPrayer<string>>,
                              originalShuruq: Option<string>, prayer: PrayerKey, value: string)
    ensures LocationChanged(PrayerTimeChange(prev, original, prayer, value), committed) == LocationChanged(prev, committed)
    ensures LocationChanged(IqamaCountdownChange(prev, prayer, value), committed) == LocationChanged(prev, committed)
    ensures LocationChanged(ShuruqTimeChange(prev, originalShuruq, value), committed) == LocationChanged(prev, committed)
  {
  }

  /** What the opening effect finds under the stored prayer-times key. */
  datatype StoredTimes =
    | NoRecord
    | Malformed
    | Record(times: Option<PerPrayer<string>>, shuruq: Option<string>)

  /** The panel's state: the committed settings it was given, its local
      copy, whether it is open, and the original fetched times. */
  class SettingsPanelState {
    var settings: Settings
    var localSettings: Settings
    var isOpen: bool
    var originalPrayerTimes: Option<PerPrayer<string>>
    var originalShuruqTime: Option<string>

    constructor (committed: Settings)
      ensures settings == committed && localSettings == committed && !isOpen
      ensures originalPrayerTimes.None? && originalShuruqTime.None?
    {
      settings := committed;
      localSettings := committed;
      isOpen := false;
      originalPrayerTimes := None;
      originalShuruqTime := None;
    }

    /** The opening effect: the local copy is reset to the committed
        settings and the original times are read from the stored record;
        a field missing from the record keeps its previous original, a
        record that does not parse clears both. */
    method Open(stored: StoredTimes)
      modifies this
      ensures isOpen && localSettings == settings && settings == old(settings)
      ensures stored.NoRecord? ==>
                originalPrayerTimes == old(originalPrayerTimes) && originalShuruqTime == old(originalShuruqTime)
      ensures stored.Malformed? ==> originalPrayerTimes.None? && originalShuruqTime.None?
      ensures stored.Record? ==>
                originalPrayerTimes == (if stored.times.Some? then stored.times else old(originalPrayerTimes)) &&
                originalShuruqTime == (if stored.shuruq.Some? && stored.shuruq.value != [] then stored.shuruq else old(originalShuruqTime))
    {
      isOpen := true;
      localSettings := settings;
      match stored
      case NoRecord =>
      case Malformed =>
        originalPrayerTimes := None;
        originalShuruqTime := None;
      case Record(times, shuruq) =>
        if times.Some? {
          originalPrayerTimes := times;
        }
        if shuruq.Some? && shuruq.value != [] {
          originalShuruqTime := shuruq;
        }
    }

    method OnPrayerTimeChange(prayer: PrayerKey, value: string)
      modifies this
      ensures localSettings == PrayerTimeChange(old(localSettings), originalPrayerTimes, prayer, value)
      ensures unchanged(this`settings, this`isOpen, this`originalPrayerTimes, this`originalShuruqTime)
    {
      var offsets := OffsetsOrZero(localSettings);
      if originalPrayerTimes.Some? && Get(originalPrayerTimes.value, prayer) != [] {
        var diff := TimeDifference(value, Get(originalPrayerTimes.value, prayer));
        offsets := Set(offsets, prayer, diff);
      }
      localSettings := localSettings.(prayerTimes := Set(localSettings.prayerTimes, prayer, value), prayerTimeOffsets := Some(offsets));
    }

    method OnIqamaCountdownChange(prayer: PrayerKey, value: string)
      modifies this
      ensures localSettings == IqamaCountdownChange(old(localSettings), prayer, value)
      ensures unchanged(this`settings, this`isOpen, this`originalPrayerTimes, this`originalShuruqTime)
    {
      var minutes := ParseInt(value);
      if minutes.NaN? {
        return;
      }
      localSettings := localSettings.(iqamaCountdown := Set(localSettings.iqamaCountdown, prayer, minutes.i));
    }

    method OnShuruqTimeChange(value: string)
      modifies this
      ensures localSettings == ShuruqTimeChange(old(localSettings), originalShuruqTime, value)
      ensures unchanged(this`settings, this`isOpen, this`originalPrayerTimes, this`originalShuruqTime)
    {
      var newOffset := if localSettings.shuruqOffset.Some? then localSettings.shuruqOffset.value else 0;
      if originalShuruqTime.Some? && originalShuruqTime.value != [] {
        newOffset := TimeDifference(value, originalShuruqTime.value);
      }
      localSettings := localSettings.(shuruqTime := value, shuruqOffset := Some(newOffset));
    }

    /** `saveAndClose`: commits the local copy, closes the panel and
        reports whether `triggerFetch(true)` is called. */
    method SaveAndClose() returns (refetch: bool)
      modifies this
      ensures refetch <==> LocationChanged(old(localSettings), old(settings))
      ensures settings == old(localSettings) && localSettings == old(localSettings) && !isOpen
      ensures unchanged(this`originalPrayerTimes, this`originalShuruqTime)
    {
      refetch := localSettings.country != settings.country || localSettings.city != settings.city;
      settings := localSettings;
      isOpen := false;
    }
  }
}
