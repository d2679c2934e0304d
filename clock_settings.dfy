// The settings record both clock components and the settings panel share
// (the `ClockSettings` and `PrayerTimes` types of
// src/components/AlMoazinClock.tsx), reduced to the fields the modelled
// logic reads.

module ClockSettings {
  import opened JsText

  /** The five keys of a `PrayerTimes` record. */
  datatype PrayerKey = Fajr | Dhuhr | Asr | Maghrib | Isha

  /** `PRAYER_ORDER`, also the key order of the records below. */
  const PrayerOrder: seq<PrayerKey> := [Fajr, Dhuhr, Asr, Maghrib, Isha]

  lemma PrayerOrderComplete(k: PrayerKey)
    ensures k in PrayerOrder
  {
  }

  /** The position of a prayer in `PrayerOrder`. */
  function Rank(k: PrayerKey): (n: nat)
    ensures n < |PrayerOrder| && PrayerOrder[n] == k
  {
    match k
    case Fajr => 0
    case Dhuhr => 1
    case Asr => 2
    case Maghrib => 3
    case Isha => 4
  }

  /** One value per prayer: `{ fajr, dhuhr, asr, maghrib, isha }`. */
  datatype PerPrayer<T> = PerPrayer(fajr: T, dhuhr: T, asr: T, maghrib: T, isha: T)

  function Get<T>(r: PerPrayer<T>, k: PrayerKey): T {
    match k
    case Fajr => r.fajr
    case Dhuhr => r.dhuhr
    case Asr => r.asr
    case Maghrib => r.maghrib
    case Isha => r.isha
  }

  /** `{ ...r, [k]: v }`: only the entry for k changes. */
  function Set<T>(r: PerPrayer<T>, k: PrayerKey, v: T): (r': PerPrayer<T>)
    ensures Get(r', k) == v
    ensures forall j :: j != k ==> Get(r', j) == Get(r, j)
  {
    match k
    case Fajr => r.(fajr := v)
    case Dhuhr => r.(dhuhr := v)
    case Asr => r.(asr := v)
    case Maghrib => r.(maghrib := v)
    case Isha => r.(isha := v)
  }

  function Uniform<T>(v: T): PerPrayer<T> { PerPrayer(v, v, v, v, v) }

  /** `Object.keys(prayerTimes).find(p => prayerTimes[p] === t)`: the first
      prayer, in record order, whose stored time is t. */
  function MatchingPrayer(times: PerPrayer<string>, t: string): (r: Option<PrayerKey>)
    ensures r.None? <==> forall k :: Get(times, k) != t
    ensures r.Some? ==> Get(times, r.value) == t && forall j :: Rank(j) < Rank(r.value) ==> Get(times, j) != t
  {
    if times.fajr == t then assert Get(times, Fajr) == t; Some(Fajr)
    else if times.dhuhr == t then assert Get(times, Dhuhr) == t; Some(Dhuhr)
    else if times.asr == t then assert Get(times, Asr) == t; Some(Asr)
    else if times.maghrib == t then assert Get(times, Maghrib) == t; Some(Maghrib)
    else if times.isha == t then assert Get(times, Isha) == t; Some(Isha)
    else None
  }

  /** The Arabic display names (`prayerNames`). */
  function ArabicName(k: PrayerKey): string {
    match k
    case Fajr => "الفجر"
    case Dhuhr => "الظهر"
    case Asr => "العصر"
    case Maghrib => "المغرب"
    case Isha => "العشاء"
  }

  /** The number of entries of `azkarAfterPrayer`. */
  const AzkarCount: nat := 11

  datatype Settings = Settings(
    prayerTimes: PerPrayer<string>,
    prayerTimeOffsets: Option<PerPrayer<int>>,
    iqamaCountdown: PerPrayer<int>,
    adhanDurationMinutes: int,
    adhanDurationSeconds: int,
    phoneImageDurationMinutes: int,
    phoneImageDurationSeconds: int,
    azkarDurationMinutes: int,
    azkarDurationSeconds: int,
    shuruqTime: string,
    shuruqOffset: Option<int>,
    country: string,
    city: string,
    isMuted: bool)

  /** `(minutes * 60 + seconds) * 1000` for the three configured durations. */
  function AdhanDuration(s: Settings): int {
    (s.adhanDurationMinutes * 60 + s.adhanDurationSeconds) * 1000
  }

  function PhoneImageDuration(s: Settings): int {
    (s.phoneImageDurationMinutes * 60 + s.phoneImageDurationSeconds) * 1000
  }

  function AzkarDuration(s: Settings): int {
    (s.azkarDurationMinutes * 60 + s.azkarDurationSeconds) * 1000
  }

  /** `settings.iqamaCountdown[prayer] || 0`; a number field that is 0 stays 0. */
  function IqamaWait(s: Settings, k: PrayerKey): int {
    Get(s.iqamaCountdown, k)
  }
}
