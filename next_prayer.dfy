// The two versions of `getNextPrayer` over the six daily times, sunrise
// included: src/utils/prayerTimes.ts (with `Array.prototype.find`) and
// src/utils/prayerTimes-new.ts (with a loop and an early return), and
// `getArabicName`. The current time is its hours and minutes on the host
// clock; seconds play no part.

module NextPrayer {
  import opened JsText

  /** The entries of `PRAYER_ORDER`. */
  datatype DailyKey = Fajr | Sunrise | Dhuhr | Asr | Maghrib | Isha

  const DailyOrder: seq<DailyKey> := [Fajr, Sunrise, Dhuhr, Asr, Maghrib, Isha]

  /** The position of a key in `PRAYER_ORDER`. */
  function Position(k: DailyKey): (n: nat)
    ensures n < |DailyOrder| && DailyOrder[n] == k
  {
    match k
    case Fajr => 0
    case Sunrise => 1
    case Dhuhr => 2
    case Asr => 3
    case Maghrib => 4
    case Isha => 5
  }

  lemma PositionOfIndex(n: nat)
    requires n < |DailyOrder|
    ensures Position(DailyOrder[n]) == n
  {
    if n == 0 {} else if n == 1 {} else if n == 2 {} else if n == 3 {} else if n == 4 {} else {}
  }

  /** The record key spelling of each entry. */
  function KeyName(k: DailyKey): string {
    match k
    case Fajr => "fajr"
    case Sunrise => "sunrise"
    case Dhuhr => "dhuhr"
    case Asr => "asr"
    case Maghrib => "maghrib"
    case Isha => "isha"
  }

  function ArabicOf(k: DailyKey): string {
    match k
    case Fajr => "الفجر"
    case Sunrise => "الشروق"
    case Dhuhr => "الظهر"
    case Asr => "العصر"
    case Maghrib => "المغرب"
    case Isha => "العشاء"
  }

  /** `getArabicName`: `names[prayer] || prayer`. */
  function ArabicName(prayer: string): string {
    if prayer == "fajr" then ArabicOf(Fajr)
    else if prayer == "sunrise" then ArabicOf(Sunrise)
    else if prayer == "dhuhr" then ArabicOf(Dhuhr)
    else if prayer == "asr" then ArabicOf(Asr)
    else if prayer == "maghrib" then ArabicOf(Maghrib)
    else if prayer == "isha" then ArabicOf(Isha)
    else prayer
  }

  /** Each key gets its own Arabic name, and a string that is no key comes
      back unchanged. */
  lemma ArabicNameLookup(prayer: string)
    ensures forall k :: prayer == KeyName(k) ==> ArabicName(prayer) == ArabicOf(k)
    ensures (forall k :: prayer != KeyName(k)) ==> ArabicName(prayer) == prayer
  {
    if forall k :: prayer != KeyName(k) {
      assert prayer != KeyName(Fajr) && prayer != KeyName(Sunrise) && prayer != KeyName(Dhuhr);
      assert prayer != KeyName(Asr) && prayer != KeyName(Maghrib) && prayer != KeyName(Isha);
    }
  }

  lemma ArabicNameOfKey(k: DailyKey)
    ensures ArabicName(KeyName(k)) == ArabicOf(k)
  {
  }

  /** The six stored strings of the `prayerTimes` record. */
  datatype DailyTimes = DailyTimes(fajr: string, sunrise: string, dhuhr: string, asr: string, maghrib: string, isha: string)

  function TimeOf(times: DailyTimes, k: DailyKey): string {
    match k
    case Fajr => times.fajr
    case Sunrise => times.sunrise
    case Dhuhr => times.dhuhr
    case Asr => times.asr
    case Maghrib => times.maghrib
    case Isha => times.isha
  }

  /** The stored time of k is at a later minute of the day than `current`;
      a time whose parts are not numbers is never later. */
  predicate Later(times: DailyTimes, current: int, k: DailyKey) {
    Gt(MinutesOf(TimeOf(times, k)), Int(current))
  }

  datatype PrayerTime = PrayerTime(name: string, time: string, arabicName: string)

  // ---------------------------------------------------------------------
  // src/utils/prayerTimes.ts
  // ---------------------------------------------------------------------

  /** An element of `prayerTimesArray`: the key, its stored string and
      its minute count. The find-based version reads the string back from
      the record by key, the loop-based one from the entry; both are the
      same string. The Arabic name is `getArabicName` of the key, taken when
      the result is built. */
  datatype Entry = Entry(name: DailyKey, time: string, minutes: Num)

  function EntryOf(times: DailyTimes, k: DailyKey): Entry {
    Entry(k, TimeOf(times, k), MinutesOf(TimeOf(times, k)))
  }

  /** `keys.map(...)`; the parsed minutes of an element are given by
      `EntryAt`, so that the generic reasoning below never unfolds the
      parser. */
  function EntriesOf(times: DailyTimes, keys: seq<DailyKey>): (r: seq<Entry>)
    ensures |r| == |keys|
    ensures forall n :: 0 <= n < |r| ==> r[n].name == keys[n] && r[n].time == TimeOf(times, keys[n])
  {
    if keys == [] then [] else [EntryOf(times, keys[0])] + EntriesOf(times, keys[1..])
  }

  /** `PRAYER_ORDER.map(...)`. */
  function Entries(times: DailyTimes): (r: seq<Entry>)
    ensures |r| == |DailyOrder|
  {
    EntriesOf(times, DailyOrder)
  }

  lemma {:induction false} EntriesOfAt(times: DailyTimes, keys: seq<DailyKey>, n: nat)
    requires n < |keys|
    ensures EntriesOf(times, keys)[n] == EntryOf(times, keys[n])
    decreases n
  {
    if n > 0 {
      EntriesOfAt(times, keys[1..], n - 1);
    }
  }

  /** Element n of the array is the entry of the n-th key. */
  lemma EntryAt(times: DailyTimes, n: nat)
    requires n < |DailyOrder|
    ensures Entries(times)[n] == EntryOf(times, DailyOrder[n])
  {
    EntriesOfAt(times, DailyOrder, n);
  }

  /** The index `.find(p => p.minutes > current)` stops at, or |s| when no
      entry is later. */
  function FirstLater(s: seq<Entry>, current: int): (i: nat)
    ensures i <= |s|
    ensures i < |s| ==> Gt(s[i].minutes, Int(current))
    ensures forall j :: 0 <= j < i ==> !Gt(s[j].minutes, Int(current))
  {
    if s == [] then 0
    else if Gt(s[0].minutes, Int(current)) then 0
    else
      var i := FirstLater(s[1..], current);
      assert forall j :: 1 <= j <= i ==> s[j] == s[1..][j - 1];
      1 + i
  }

  /** `find` stops at an index that is later when no earlier one is. */
  lemma FirstLaterAt(s: seq<Entry>, current: int, p: nat)
    requires p < |s| && Gt(s[p].minutes, Int(current))
    requires forall j :: 0 <= j < p ==> !Gt(s[j].minutes, Int(current))
    ensures FirstLater(s, current) == p
  {
  }

  /** `getNextPrayer` of src/utils/prayerTimes.ts. */
  function GetNextPrayer(hours: int, minutes: int, times: DailyTimes): Option<PrayerTime> {
    var current := hours * 60 + minutes;
    var entries := Entries(times);
    var i := FirstLater(entries, current);
    var next := if i < |entries| then entries[i] else entries[0];
    Some(PrayerTime(KeyName(next.name), TimeOf(times, next.name), ArabicName(KeyName(next.name))))
  }

  /** The next prayer is the first key, in `PRAYER_ORDER`, whose time is at
      a later minute than now; its time is the stored string for it. */
  lemma {:induction false} NextIsFirstLater(hours: int, minutes: int, times: DailyTimes, k: DailyKey)
    requires Later(times, hours * 60 + minutes, k)
    requires forall j :: Position(j) < Position(k) ==> !Later(times, hours * 60 + minutes, j)
    ensures GetNextPrayer(hours, minutes, times) == Some(PrayerTime(KeyName(k), TimeOf(times, k), ArabicOf(k)))
  {
    var p := Position(k);
    FindStopsAtFirstLater(hours * 60 + minutes, times, k);
    NextAtIndex(hours, minutes, times, p);
    EntryAt(times, p);
    ArabicNameOfKey(k);
  }

  /** Over the entries of a record, `find` stops at the position of the
      first later key. */
  lemma {:induction false} FindStopsAtFirstLater(current: int, times: DailyTimes, k: DailyKey)
    requires Later(times, current, k)
    requires forall j :: Position(j) < Position(k) ==> !Later(times, current, j)
    ensures FirstLater(Entries(times), current) == Position(k)
  {
    var entries := Entries(times);
    var p := Position(k);
    EntryAt(times, p);
    assert Gt(entries[p].minutes, Int(current));
    forall j | 0 <= j < p ensures !Gt(entries[j].minutes, Int(current)) {
      var kj := DailyOrder[j];
      PositionOfIndex(j);
      assert !Later(times, current, kj);
      EntryAt(times, j);
    }
    FirstLaterAt(entries, current, p);
  }

  /** When no time is later, the answer is fajr, as it is stored. */
  lemma {:induction false} NextFallsBackToFajr(hours: int, minutes: int, times: DailyTimes)
    requires forall n :: 0 <= n < |DailyOrder| ==> !Later(times, hours * 60 + minutes, DailyOrder[n])
    ensures GetNextPrayer(hours, minutes, times) == Some(PrayerTime("fajr", times.fajr, "الفجر"))
  {
    var current := hours * 60 + minutes;
    var entries := Entries(times);
    var i := FirstLater(entries, current);
    if i < |entries| {
      EntryAt(times, i);
      assert false;
    }
    NextAtIndex(hours, minutes, times, i);
  }

  /** The answer is never null, and its time is always the stored string
      of the key it names. */
  lemma NextNeverNull(hours: int, minutes: int, times: DailyTimes)
    ensures var r := GetNextPrayer(hours, minutes, times);
      r.Some? && exists k :: r.value.name == KeyName(k) && r.value.time == TimeOf(times, k)
  {
    var entries := Entries(times);
    var i := FirstLater(entries, hours * 60 + minutes);
    var next := if i < |entries| then entries[i] else entries[0];
    assert GetNextPrayer(hours, minutes, times).value.name == KeyName(next.name);
  }

  /** A prayer at the current minute is not next, since the comparison is
      strict and seconds are not looked at; only fajr can still be the
      answer, as the fallback. */
  lemma {:induction false} CurrentMinuteIsNotNext(hours: int, minutes: int, times: DailyTimes, k: DailyKey)
    requires MinutesOf(TimeOf(times, k)) == Int(hours * 60 + minutes) && k != Fajr
    ensures GetNextPrayer(hours, minutes, times).value.name != KeyName(k)
  {
    var current := hours * 60 + minutes;
    var entries := Entries(times);
    var i := FirstLater(entries, current);
    EntryAt(times, Position(k));
    assert !Gt(entries[Position(k)].minutes, Int(current));
    NextAtIndex(hours, minutes, times, i);
    if i < |entries| {
      PositionOfIndex(i);
      KeyNamesDistinct(DailyOrder[i], k);
    } else {
      KeyNamesDistinct(Fajr, k);
    }
  }

  lemma KeyNamesDistinct(a: DailyKey, b: DailyKey)
    requires a != b
    ensures KeyName(a) != KeyName(b)
  {
  }

  // ---------------------------------------------------------------------
  // src/utils/prayerTimes-new.ts
  // ---------------------------------------------------------------------

  /** `getNextPrayer` of src/utils/prayerTimes-new.ts: the loop returns the
      first entry later than now, and after the loop the answer is fajr. It
      agrees with the find-based version on every input, and so never
      returns null. */
  method GetNextPrayerByLoop(hours: int, minutes: int, times: DailyTimes) returns (r: PrayerTime)
    ensures GetNextPrayer(hours, minutes, times) == Some(r)
  {
    var currentTotalMinutes := hours * 60 + minutes;
    var prayerTimesArray := Entries(times);
    ghost var stop := FirstLater(prayerTimesArray, currentTotalMinutes);
    for i := 0 to |prayerTimesArray|
      invariant i <= stop
    {
      var prayer := prayerTimesArray[i];
      if Gt(prayer.minutes, Int(currentTotalMinutes)) {
        NextAtIndex(hours, minutes, times, i);
        return PrayerTime(KeyName(prayer.name), prayer.time, ArabicName(KeyName(prayer.name)));
      }
      NotLaterIsBeforeStop(prayerTimesArray, currentTotalMinutes, i);
    }
    NextAtIndex(hours, minutes, times, |prayerTimesArray|);
    return PrayerTime("fajr", times.fajr, "الفجر");
  }

  /** The answer of the find-based version once the index `.find` stops at
      is known. */
  lemma NextAtIndex(hours: int, minutes: int, times: DailyTimes, i: nat)
    requires FirstLater(Entries(times), hours * 60 + minutes) == i
    ensures i < |DailyOrder| ==>
      GetNextPrayer(hours, minutes, times) == Some(PrayerTime(KeyName(Entries(times)[i].name), Entries(times)[i].time, ArabicName(KeyName(Entries(times)[i].name))))
    ensures i == |DailyOrder| ==> GetNextPrayer(hours, minutes, times) == Some(PrayerTime("fajr", times.fajr, "الفجر"))
  {
    if i == |DailyOrder| {
      assert Entries(times)[0].name == Fajr;
      ArabicNameOfKey(Fajr);
    }
  }

  /** An entry that is not later lies before the index `.find` stops at. */
  lemma NotLaterIsBeforeStop(s: seq<Entry>, current: int, i: nat)
    requires i <= FirstLater(s, current) && i < |s| && !Gt(s[i].minutes, Int(current))
    ensures i + 1 <= FirstLater(s, current)
  {
  }
}
