// The earlier clock component, src/components/ExactMosqueClock.tsx: a
// prayer-time trigger that starts an iqama countdown and a dimmed screen,
// their expiry, the next-prayer display (map, filter, sort, find) and the
// iqama countdown text. Times are integer ms; `dayStart` is the local
// midnight of the current day.

module ExactClock {
  import opened JsText
  import opened ClockSettings
  import MoazinTime

  /** The settings fields the modelled logic reads. */
  datatype ExactSettings = ExactSettings(
    prayerTimes: PerPrayer<string>,
    iqamaCountdown: PerPrayer<int>,
    dimDuration: int,
    adhanSound: string,
    isMuted: bool)

  const DefaultExactSettings: ExactSettings := ExactSettings(
    PerPrayer("04:02", "12:42", "16:23", "19:51", "21:22"),
    PerPrayer(20, 15, 15, 10, 15),
    1, "", false)

  datatype Countdown = Countdown(prayer: PrayerKey, endTime: int)

  datatype ExactState = ExactState(
    activeCountdown: Option<Countdown>,
    isDimmed: bool,
    dimAt: Option<int>)          // dimTimeoutRef

  const InitialExact: ExactState := ExactState(None, false, None)

  // ---------------------------------------------------------------------
  // The trigger, dimming and expiry effects
  // ---------------------------------------------------------------------

  /** The trigger effect, run on every clock change: it needs an adhan
      sound, no mute, a client, a stored time equal to the current HH:MM and
      no countdown already running. It starts a countdown for a positive
      iqama wait and dims the screen for a positive dim duration. */
  function Trigger(s: ExactSettings, c: ExactState, hours: int, minutes: int, now: int, isClient: bool): ExactState {
    var k := MatchingPrayer(s.prayerTimes, FormatHHMM(hours, minutes));
    if s.adhanSound == [] || s.isMuted || !isClient || k.None? || c.activeCountdown.Some? then c
    else
      var wait := Get(s.iqamaCountdown, k.value);
      var c1 := if wait > 0 then c.(activeCountdown := Some(Countdown(k.value, now + wait * 60000))) else c;
      if s.dimDuration > 0 then c1.(isDimmed := true, dimAt := Some(now + s.dimDuration * 60000)) else c1
  }

  /** The dimming timeout: undims and clears the countdown. */
  function DimTimeout(c: ExactState, now: int): ExactState {
    if c.dimAt.Some? && now >= c.dimAt.value then ExactState(None, false, None) else c
  }

  /** The expiry effect: a countdown whose end has passed is cleared and the
      screen undimmed; the dimming timeout stays armed. */
  function Expire(c: ExactState, now: int): ExactState {
    if c.activeCountdown.Some? && now >= c.activeCountdown.value.endTime then
      c.(activeCountdown := None, isDimmed := false)
    else c
  }

  lemma TriggerConditions(s: ExactSettings, c: ExactState, hours: int, minutes: int, now: int, isClient: bool)
    ensures var r := Trigger(s, c, hours, minutes, now, isClient);
      var k := MatchingPrayer(s.prayerTimes, FormatHHMM(hours, minutes));
      var fires := s.adhanSound != [] && !s.isMuted && isClient && k.Some? && c.activeCountdown.None?;
      (!fires ==> r == c) &&
      (fires ==>
        (Get(s.iqamaCountdown, k.value) > 0 ==>
           r.activeCountdown == Some(Countdown(k.value, now + Get(s.iqamaCountdown, k.value) * 60000))) &&
        (Get(s.iqamaCountdown, k.value) <= 0 ==> r.activeCountdown.None?) &&
        (s.dimDuration > 0 ==> r.isDimmed && r.dimAt == Some(now + s.dimDuration * 60000)) &&
        (s.dimDuration <= 0 ==> r.isDimmed == c.isDimmed && r.dimAt == c.dimAt))
  {
  }

  /** With the shipped defaults the adhan sound is empty, so nothing ever
      triggers. */
  lemma DefaultsNeverTrigger(c: ExactState, hours: int, minutes: int, now: int, isClient: bool)
    ensures Trigger(DefaultExactSettings, c, hours, minutes, now, isClient) == c
  {
  }

  lemma DimTimeoutClears(c: ExactState, now: int)
    requires c.dimAt.Some? && now >= c.dimAt.value
    ensures !DimTimeout(c, now).isDimmed && DimTimeout(c, now).activeCountdown.None?
  {
  }

  lemma ExpireClears(c: ExactState, now: int)
    ensures c.activeCountdown.Some? && now >= c.activeCountdown.value.endTime ==>
              Expire(c, now).activeCountdown.None? && !Expire(c, now).isDimmed && Expire(c, now).dimAt == c.dimAt
    ensures !(c.activeCountdown.Some? && now >= c.activeCountdown.value.endTime) ==> Expire(c, now) == c
  {
  }

  class ExactMosqueClock {
    const settings: ExactSettings
    var activeCountdown: Option<Countdown>
    var isDimmed: bool
    var dimAt: Option<int>

    function State(): ExactState
      reads this
    {
      ExactState(activeCountdown, isDimmed, dimAt)
    }

    constructor (s: ExactSettings)
      ensures settings == s && State() == InitialExact
    {
      settings := s;
      activeCountdown, isDimmed, dimAt := None, false, None;
    }

    /** The trigger effect for the clock reading `hours:minutes` at `now`. */
    method CheckTrigger(hours: int, minutes: int, now: int, isClient: bool)
      modifies this
      ensures State() == Trigger(settings, old(State()), hours, minutes, now, isClient)
    {
      if settings.adhanSound == [] || settings.isMuted || !isClient {
        return;
      }
      var k := MatchingPrayer(settings.prayerTimes, FormatHHMM(hours, minutes));
      if k.Some? && activeCountdown.None? {
        var wait := Get(settings.iqamaCountdown, k.value);
        if wait > 0 {
          activeCountdown := Some(Countdown(k.value, now + wait * 60000));
        }
        if settings.dimDuration > 0 {
          isDimmed := true;
          dimAt := Some(now + settings.dimDuration * 60000);
        }
      }
    }

    method OnDimTimeout(now: int)
      modifies this
      ensures State() == DimTimeout(old(State()), now)
    {
      if dimAt.Some? && now >= dimAt.value {
        isDimmed := false;
        activeCountdown := None;
        dimAt := None;
      }
    }

    method CheckExpiry(now: int)
      modifies this
      ensures State() == Expire(old(State()), now)
    {
      if activeCountdown.Some? && now >= activeCountdown.value.endTime {
        activeCountdown := None;
        isDimmed := false;
      }
    }
  }

  // ---------------------------------------------------------------------
  // The next-prayer display
  // ---------------------------------------------------------------------

  datatype Entry = Entry(name: PrayerKey, date: int)

  /** A stored time on the day starting at `dayStart`, or `new Date(0)` when
      it is empty, has no colon or an hour or minute part is NaN. */
  function EntryOf(k: PrayerKey, time: string, dayStart: int): Entry {
    if time == [] || ':' !in time then Entry(k, 0)
    else
      var h, m := NumberPart(time, 0), NumberPart(time, 1);
      if h.NaN? || m.NaN? then Entry(k, 0) else Entry(k, dayStart + h.i * 3600000 + m.i * 60000)
  }

  /** `Object.entries(prayerTimes).map(...)`, in record order. */
  function Entries(times: PerPrayer<string>, dayStart: int): (r: seq<Entry>)
    ensures |r| == |PrayerOrder|
  {
    [EntryOf(Fajr, times.fajr, dayStart), EntryOf(Dhuhr, times.dhuhr, dayStart),
     EntryOf(Asr, times.asr, dayStart), EntryOf(Maghrib, times.maghrib, dayStart),
     EntryOf(Isha, times.isha, dayStart)]
  }

  /** The list holds each prayer's dated entry, in record order. */
  lemma EntriesInRecordOrder(times: PerPrayer<string>, dayStart: int)
    ensures forall n :: 0 <= n < |PrayerOrder| ==>
      Entries(times, dayStart)[n] == EntryOf(PrayerOrder[n], Get(times, PrayerOrder[n]), dayStart)
  {
  }

  /** `.filter(p => p.date.getTime() > 0)`. */
  function Positive(s: seq<Entry>): (r: seq<Entry>)
    ensures forall e :: e in r <==> e in s && e.date > 0
  {
    if s == [] then []
    else if s[0].date > 0 then [s[0]] + Positive(s[1..])
    else Positive(s[1..])
  }

  predicate SortedByDate(s: seq<Entry>) {
    forall i, j :: 0 <= i < j < |s| ==> s[i].date <= s[j].date
  }

  /** Places e before the first entry that is not earlier than it. */
  function Insert(e: Entry, s: seq<Entry>): seq<Entry> {
    if s == [] then [e]
    else if e.date <= s[0].date then [e] + s
    else [s[0]] + Insert(e, s[1..])
  }

  /** `.sort((a, b) => a.date - b.date)`, as an insertion sort. */
  function SortByDate(s: seq<Entry>): seq<Entry> {
    if s == [] then [] else Insert(s[0], SortByDate(s[1..]))
  }

  lemma {:induction false} InsertElements(e: Entry, s: seq<Entry>)
    ensures multiset(Insert(e, s)) == multiset(s) + multiset{e}
  {
    if s != [] && e.date > s[0].date {
      InsertElements(e, s[1..]);
      assert s == [s[0]] + s[1..];
    }
  }

  lemma {:induction false} InsertSorted(e: Entry, s: seq<Entry>)
    requires SortedByDate(s)
    ensures SortedByDate(Insert(e, s))
  {
    if s != [] && e.date > s[0].date {
      var t := Insert(e, s[1..]);
      InsertSorted(e, s[1..]);
      InsertElements(e, s[1..]);
      forall j | 0 <= j < |t| ensures s[0].date <= t[j].date {
        assert t[j] in multiset(t);
        if t[j] != e {
          assert t[j] in multiset(s[1..]);
          var i :| 0 <= i < |s[1..]| && s[1..][i] == t[j];
          assert s[i + 1] == t[j];
        }
      }
      var r := [s[0]] + t;
      assert r == Insert(e, s);
      forall i, j | 0 <= i < j < |r| ensures r[i].date <= r[j].date {
        if i > 0 { assert r[i] == t[i - 1] && r[j] == t[j - 1]; }
        else { assert r[j] == t[j - 1]; }
      }
    }
  }

  /** The sort orders by date and keeps the entries. */
  lemma {:induction false} SortSorted(s: seq<Entry>)
    ensures SortedByDate(SortByDate(s)) && multiset(SortByDate(s)) == multiset(s)
  {
    if s != [] {
      SortSorted(s[1..]);
      InsertSorted(s[0], SortByDate(s[1..]));
      InsertElements(s[0], SortByDate(s[1..]));
      assert s == [s[0]] + s[1..];
    }
  }

  lemma SortKeeps(s: seq<Entry>)
    ensures SortedByDate(SortByDate(s))
    ensures forall x :: x in SortByDate(s) <==> x in s
    ensures (SortByDate(s) == []) == (s == [])
  {
    SortSorted(s);
    forall x ensures x in SortByDate(s) <==> x in s {
      assert x in SortByDate(s) <==> x in multiset(SortByDate(s));
      assert x in s <==> x in multiset(s);
    }
    if s != [] {
      assert s[0] in s;
    }
  }

  /** `.find(p => p.date > now)`. */
  function FindAfter(s: seq<Entry>, now: int): (r: Option<Entry>)
    ensures r.None? <==> forall i :: 0 <= i < |s| ==> s[i].date <= now
    ensures r.Some? ==> r.value in s && r.value.date > now
  {
    if s == [] then None
    else if s[0].date > now then Some(s[0])
    else
      var r := FindAfter(s[1..], now);
      assert forall i :: 1 <= i < |s| ==> s[i] == s[1..][i - 1];
      r
  }

  /** `find` returns the entry at the first index whose date is after `now`. */
  lemma {:induction false} FindAfterIsFirst(s: seq<Entry>, now: int, i: int)
    requires 0 <= i < |s| && s[i].date > now
    requires forall j :: 0 <= j < i ==> s[j].date <= now
    ensures FindAfter(s, now) == Some(s[i])
  {
    if i > 0 {
      FindAfterIsFirst(s[1..], now, i - 1);
    }
  }

  /** In a sorted list the first entry after `now` is the earliest one. */
  lemma {:induction false} FindAfterEarliest(s: seq<Entry>, now: int)
    requires SortedByDate(s) && FindAfter(s, now).Some?
    ensures forall e :: e in s && e.date > now ==> FindAfter(s, now).value.date <= e.date
  {
    if s[0].date <= now {
      FindAfterEarliest(s[1..], now);
      forall e | e in s && e.date > now ensures FindAfter(s, now).value.date <= e.date {
        assert e in s[1..] by {
          var i :| 0 <= i < |s| && s[i] == e;
          assert i != 0;
          assert s[1..][i - 1] == e;
        }
      }
    } else {
      forall e | e in s && e.date > now ensures s[0].date <= e.date {
        var i :| 0 <= i < |s| && s[i] == e;
      }
    }
  }

  /** The entry a stable sort by date followed by `find` picks: of the
      entries after `now` with the earliest date, the first in list order. */
  function EarliestAfter(s: seq<Entry>, now: int): Option<Entry> {
    if s == [] then None
    else
      var r := EarliestAfter(s[1..], now);
      if s[0].date > now && (r.None? || s[0].date <= r.value.date) then Some(s[0]) else r
  }

  /** Entry i is after `now`, no entry after `now` is earlier, and every
      entry before it that is after `now` is strictly later. */
  predicate FirstEarliestAfter(s: seq<Entry>, now: int, i: int)
    requires 0 <= i < |s|
  {
    s[i].date > now &&
    (forall j :: 0 <= j < |s| && s[j].date > now ==> s[i].date <= s[j].date) &&
    (forall j :: 0 <= j < i && s[j].date > now ==> s[i].date < s[j].date)
  }

  /** `EarliestAfter` is none exactly when nothing is after `now`, and
      otherwise the first of the earliest entries after `now`. */
  lemma {:induction false} EarliestAfterIsFirstEarliest(s: seq<Entry>, now: int)
    ensures EarliestAfter(s, now).None? <==> forall j :: 0 <= j < |s| ==> s[j].date <= now
    ensures EarliestAfter(s, now).Some? ==>
      exists i :: 0 <= i < |s| && s[i] == EarliestAfter(s, now).value && FirstEarliestAfter(s, now, i)
  {
    if s != [] {
      var t := s[1..];
      var r := EarliestAfter(t, now);
      EarliestAfterIsFirstEarliest(t, now);
      assert forall j :: 1 <= j < |s| ==> s[j] == t[j - 1];
      if s[0].date > now && (r.None? || s[0].date <= r.value.date) {
        forall j | 0 <= j < |s| && s[j].date > now ensures s[0].date <= s[j].date {
          if j > 0 {
            assert t[j - 1].date > now;
            var k :| 0 <= k < |t| && t[k] == r.value && FirstEarliestAfter(t, now, k);
          }
        }
        assert FirstEarliestAfter(s, now, 0);
      } else if r.Some? {
        var k :| 0 <= k < |t| && t[k] == r.value && FirstEarliestAfter(t, now, k);
        assert s[k + 1] == r.value;
        forall j | 0 <= j < |s| && s[j].date > now ensures s[k + 1].date <= s[j].date {
          if j > 0 { assert t[j - 1].date > now; }
        }
        forall j | 0 <= j < k + 1 && s[j].date > now ensures s[k + 1].date < s[j].date {
          if j > 0 { assert t[j - 1].date > now; }
        }
        assert FirstEarliestAfter(s, now, k + 1);
      }
    }
  }

  /** `find` on a sorted list after one insertion: the inserted entry when
      it is after `now` and not later than what `find` gave before. */
  lemma {:induction false} FindAfterInsert(e: Entry, t: seq<Entry>, now: int)
    requires SortedByDate(t)
    ensures var f := FindAfter(t, now);
      FindAfter(Insert(e, t), now) ==
        if e.date > now && (f.None? || e.date <= f.value.date) then Some(e) else f
  {
    if t != [] {
      if e.date <= t[0].date {
        assert ([e] + t)[1..] == t;
        var f := FindAfter(t, now);
        if f.Some? {
          var i :| 0 <= i < |t| && t[i] == f.value;
          assert t[0].date <= t[i].date;
        }
      } else {
        assert SortedByDate(t[1..]) by {
          forall i, j | 0 <= i < j < |t[1..]| ensures t[1..][i].date <= t[1..][j].date {
            assert t[1..][i] == t[i + 1] && t[1..][j] == t[j + 1];
          }
        }
        FindAfterInsert(e, t[1..], now);
        assert ([t[0]] + Insert(e, t[1..]))[1..] == Insert(e, t[1..]);
      }
    }
  }

  /** Sorting by date and then finding the first entry after `now` picks
      `EarliestAfter`: the insertion sort keeps ties in list order. */
  lemma {:induction false} SortThenFind(s: seq<Entry>, now: int)
    ensures FindAfter(SortByDate(s), now) == EarliestAfter(s, now)
  {
    if s != [] {
      SortThenFind(s[1..], now);
      SortSorted(s[1..]);
      FindAfterInsert(s[0], SortByDate(s[1..]), now);
    }
  }

  /** Filtering out the entries at or before the epoch changes nothing
      for a search after a non-negative instant. */
  lemma {:induction false} PositiveEarliest(s: seq<Entry>, now: int)
    ensures EarliestAfter(Positive(s), now) == EarliestAfter(s, if now < 0 then 0 else now)
  {
    if s != [] {
      PositiveEarliest(s[1..], now);
      if s[0].date > 0 {
        assert ([s[0]] + Positive(s[1..]))[1..] == Positive(s[1..]);
      }
    }
  }

  /** With some time ahead, the next prayer is the earliest one ahead, and
      among prayers at that same instant the first in record order. */
  lemma NextEntryFirstEarliest(times: PerPrayer<string>, dayStart: int, now: int)
    requires exists x :: x in Positive(Entries(times, dayStart)) && x.date > now
    ensures NextEntry(times, dayStart, now) == EarliestAfter(Entries(times, dayStart), if now < 0 then 0 else now)
  {
    var x :| x in Positive(Entries(times, dayStart)) && x.date > now;
    FilterSortFind(Entries(times, dayStart), now, x);
  }

  /** The filter, the sort and `find` together pick `EarliestAfter`. */
  lemma FilterSortFind(s: seq<Entry>, now: int, x: Entry)
    requires x in Positive(s) && x.date > now
    ensures FindAfter(SortByDate(Positive(s)), now).Some?
    ensures FindAfter(SortByDate(Positive(s)), now) == EarliestAfter(s, if now < 0 then 0 else now)
  {
    var sorted := SortByDate(Positive(s));
    SortKeeps(Positive(s));
    var i :| 0 <= i < |sorted| && sorted[i] == x;
    SortThenFind(Positive(s), now);
    PositiveEarliest(s, now);
  }

  datatype NextDisplay = NextDisplay(name: string, countdown: string)

  /** `HH:MM` of a remaining time: whole hours, then the minutes of the
      last partial hour plus one. */
  function RemainingText(diff: int): string {
    FormatHHMM(diff / 3600000, JsRem(diff, 3600000) / 60000 + 1)
  }

  /** The dated entry the next-prayer `useMemo` settles on: the first
      entry after now in date order, or else the earliest entry re-read on
      the next day. */
  function NextEntry(times: PerPrayer<string>, dayStart: int, now: int): Option<Entry> {
    var sorted := SortByDate(Positive(Entries(times, dayStart)));
    if sorted == [] then None
    else
      var found := FindAfter(sorted, now);
      if found.Some? then found
      else
        var first := sorted[0];
        var time := Get(times, first.name);
        var h, m := NumberPart(time, 0), NumberPart(time, 1);
        if h.NaN? || m.NaN? then None else Some(Entry(first.name, dayStart + DayMs + h.i * 3600000 + m.i * 60000))
  }

  /** The next-prayer `useMemo`: the Arabic name and `HH:MM` to go. */
  function NextPrayerDisplay(times: PerPrayer<string>, dayStart: int, now: int): NextDisplay {
    match NextEntry(times, dayStart, now)
    case None => NextDisplay("...", "...")
    case Some(n) => NextDisplay(ArabicName(n.name), RemainingText(n.date - now))
  }

  /** The entry a stored time yields is dated on `dayStart`'s day exactly
      when it parses. */
  lemma EntryParses(k: PrayerKey, time: string, dayStart: int)
    requires EntryOf(k, time, dayStart).date != 0
    ensures NumberPart(time, 0).Int? && NumberPart(time, 1).Int?
    ensures EntryOf(k, time, dayStart).name == k
    ensures EntryOf(k, time, dayStart).date == dayStart + NumberPart(time, 0).i * 3600000 + NumberPart(time, 1).i * 60000
  {
  }

  lemma EntriesNames(times: PerPrayer<string>, dayStart: int, e: Entry)
    requires e in Entries(times, dayStart)
    ensures e == EntryOf(e.name, Get(times, e.name), dayStart)
  {
  }

  /** No stored time gives a positive date: the display is '...'. */
  lemma NextEntryNone(times: PerPrayer<string>, dayStart: int, now: int)
    requires Positive(Entries(times, dayStart)) == []
    ensures NextEntry(times, dayStart, now).None?
    ensures NextPrayerDisplay(times, dayStart, now) == NextDisplay("...", "...")
  {
    SortKeeps(Positive(Entries(times, dayStart)));
  }

  /** Some stored time lies after now: the next prayer is the earliest such. */
  lemma NextEntryFound(times: PerPrayer<string>, dayStart: int, now: int, x: Entry)
    requires x in Positive(Entries(times, dayStart)) && x.date > now
    ensures var r := NextEntry(times, dayStart, now);
      var valid := Positive(Entries(times, dayStart));
      r.Some? && r.value in valid && r.value.date > now &&
      forall y :: y in valid && y.date > now ==> r.value.date <= y.date
  {
    var valid := Positive(Entries(times, dayStart));
    var sorted := SortByDate(valid);
    SortKeeps(valid);
    var i :| 0 <= i < |sorted| && sorted[i] == x;
    assert FindAfter(sorted, now).Some?;
    FindAfterEarliest(sorted, now);
  }

  /** Every stored time has passed: the next prayer is the earliest one,
      a day later. */
  lemma NextEntryWraps(times: PerPrayer<string>, dayStart: int, now: int)
    requires Positive(Entries(times, dayStart)) != []
    requires forall y :: y in Positive(Entries(times, dayStart)) ==> y.date <= now
    ensures var r := NextEntry(times, dayStart, now);
      var valid := Positive(Entries(times, dayStart));
      r.Some? && Entry(r.value.name, r.value.date - DayMs) in valid &&
      forall y :: y in valid ==> r.value.date - DayMs <= y.date
  {
    var valid := Positive(Entries(times, dayStart));
    SortedHeadEarliest(valid, now);
    var first := SortByDate(valid)[0];
    assert first in Positive(Entries(times, dayStart));
    EntriesNames(times, dayStart, first);
    EntryParses(first.name, Get(times, first.name), dayStart);
  }

  /** When nothing is after now, `find` fails on the sorted list, whose
      head is an earliest entry. */
  lemma SortedHeadEarliest(valid: seq<Entry>, now: int)
    requires valid != []
    requires forall y :: y in valid ==> y.date <= now
    ensures var sorted := SortByDate(valid);
      sorted != [] && FindAfter(sorted, now).None? && sorted[0] in valid &&
      forall y :: y in valid ==> sorted[0].date <= y.date
  {
    var sorted := SortByDate(valid);
    SortKeeps(valid);
    forall i | 0 <= i < |sorted| ensures sorted[i].date <= now {
      assert sorted[i] in sorted;
    }
    assert sorted[0] in sorted;
    forall y | y in valid ensures sorted[0].date <= y.date {
      var i :| 0 <= i < |sorted| && sorted[i] == y;
      if i > 0 { assert sorted[0].date <= sorted[i].date; }
    }
  }

  /** The displayed minute is between 1 and 60: a remainder of under one
      minute shows 1, and one just under an hour shows 60 beside the
      whole hours. */
  lemma RemainingTextParts(diff: int)
    requires diff > 0
    ensures var h, m := diff / 3600000, JsRem(diff, 3600000) / 60000 + 1;
      h >= 0 && 1 <= m <= 60 && h * 60 + m - 1 == diff / 60000
      && RemainingText(diff) == FormatHHMM(h, m)
  {
  }

  // ---------------------------------------------------------------------
  // The iqama countdown text
  // ---------------------------------------------------------------------

  /** `countdownToIqama`: none without a countdown or once it has run out,
      otherwise `MM:SS` of the remaining time. */
  function IqamaText(ac: Option<Countdown>, now: int): (r: Option<string>)
    ensures r.Some? <==> ac.Some? && ac.value.endTime - now > 0
    ensures r.Some? && ac.value.endTime - now < 100 * 60000 ==>
              IsHHMM(r.value) && Mins(r.value) < 60 && Hours(r.value) * 60 + Mins(r.value) == (ac.value.endTime - now) / 1000
  {
    if ac.None? then None
    else
      var diff := ac.value.endTime - now;
      if diff <= 0 then None
      else
        MoazinTime.IqamaTextParts(diff);
        Some(FormatHHMM(diff / 60000, JsRem(diff, 60000) / 1000))
  }
}
