// The two pieces of logic of `PrayerTimesService` in src/lib/prayerTimes.ts:
// `validatePrayerTimes`, a check of the six fields of a fetched record, and
// `getNextPrayerTime`, which dates every listed time on the current day,
// moves the ones already passed to the next day in place and picks the
// earliest. Dates are integer milliseconds (`Adhan.Instant`); `dayStart` is
// the local midnight of the current time, which the host timezone decides.

module PrayerService {
  import opened JsText
  import Adhan

  // ---------------------------------------------------------------------
  // validatePrayerTimes
  // ---------------------------------------------------------------------

  /** A property value of the record: a string, or anything else
      (`undefined`, `null`, a number, an object). */
  datatype JsValue = Str(s: string) | Other

  const RequiredFields: seq<string> := ["Fajr", "Sunrise", "Dhuhr", "Asr", "Maghrib", "Isha"]

  /** `time && typeof time === 'string' && /^\d{2}:\d{2}$/.test(time)` for
      `time = times[field]`; a missing property is `undefined`. */
  predicate FieldValid(times: map<string, JsValue>, field: string) {
    field in times && times[field].Str? && IsHHMM(times[field].s)
  }

  /** `fields.every(...)`. */
  function Every(times: map<string, JsValue>, fields: seq<string>): (r: bool)
    ensures r <==> forall n :: 0 <= n < |fields| ==> FieldValid(times, fields[n])
  {
    if fields == [] then true
    else
      var rest := Every(times, fields[1..]);
      assert forall n :: 1 <= n < |fields| ==> fields[n] == fields[1..][n - 1];
      FieldValid(times, fields[0]) && rest
  }

  function ValidatePrayerTimes(times: map<string, JsValue>): (r: bool)
    ensures r <==> forall f :: f in RequiredFields ==> FieldValid(times, f)
  {
    var r := Every(times, RequiredFields);
    assert forall f :: f in RequiredFields ==> exists n :: 0 <= n < |RequiredFields| && RequiredFields[n] == f;
    r
  }

  /** The pattern looks at the shape only: "99:99" passes, and so does a
      record with extra fields, while a time with seconds does not. */
  lemma ValidationIsShapeOnly(times: map<string, JsValue>)
    requires forall f :: f in RequiredFields ==> f in times && times[f] == Str("99:99")
    ensures ValidatePrayerTimes(times)
    ensures !ValidatePrayerTimes(times["Asr" := Str("15:30:00")])
  {
    var t := times["Asr" := Str("15:30:00")];
    assert !FieldValid(t, "Asr");
  }

  /** Every field of a validated record parses, with `parseInt`, to the
      two-digit hour and minute it spells. */
  lemma ValidatedFieldsParse(times: map<string, JsValue>, f: string)
    requires ValidatePrayerTimes(times) && f in RequiredFields
    ensures f in times && times[f].Str?
    ensures DateOf(times[f].s, 0) == Adhan.At(Hours(times[f].s) * 3600000 + Mins(times[f].s) * 60000)
  {
    ClockStringDate(times[f].s, 0);
  }

  // ---------------------------------------------------------------------
  // getNextPrayerTime: the candidates
  // ---------------------------------------------------------------------

  /** An element of `base`: a name and the stored time; the empty string
      stands for every falsy value (`undefined`, `null`, ""). */
  datatype BaseEntry = BaseEntry(name: string, time: string)

  /** An element of `prayerDates`. */
  datatype Candidate = Candidate(name: string, time: Adhan.Instant)

  /** `parseInt` of part k of `String(time).split(':')`; a missing part is
      `undefined`, and `parseInt(undefined)` is NaN. */
  function Part(time: string, k: nat): Num {
    var parts := Split(time, ':');
    if k < |parts| then ParseInt(parts[k]) else NaN
  }

  /** `new Date(currentTime)` after `setHours(hours, minutes, 0, 0)`: the
      day's midnight plus the hours and minutes, which may be out of range
      or negative; an Invalid Date once either is NaN. */
  function DateOf(time: string, dayStart: int): Adhan.Instant {
    var h, m := Part(time, 0), Part(time, 1);
    if h.NaN? || m.NaN? then Adhan.Invalid
    else Adhan.At(dayStart + h.i * 3600000 + m.i * 60000)
  }

  lemma ClockStringDate(time: string, dayStart: int)
    requires IsHHMM(time)
    ensures DateOf(time, dayStart) == Adhan.At(dayStart + Hours(time) * 3600000 + Mins(time) * 60000)
  {
    HHMMParts(time);
    ParseIntDigits(time[..2]);
    ParseIntDigits(time[3..]);
  }

  function CandidateOf(e: BaseEntry, dayStart: int): Candidate {
    Candidate(e.name, DateOf(e.time, dayStart))
  }

  /** `base.filter(p => !!p.time).map(...)`. */
  function Candidates(base: seq<BaseEntry>, dayStart: int): (r: seq<Candidate>)
    ensures |r| <= |base|
  {
    if base == [] then []
    else
      var rest := Candidates(base[1..], dayStart);
      if base[0].time == "" then rest else [CandidateOf(base[0], dayStart)] + rest
  }

  /** The candidates are exactly the dated entries with a truthy time. */
  lemma {:induction false} CandidatesAreTruthyEntries(base: seq<BaseEntry>, dayStart: int)
    ensures forall c :: c in Candidates(base, dayStart) ==>
      exists e :: e in base && e.time != "" && c == CandidateOf(e, dayStart)
    ensures forall e :: e in base && e.time != "" ==> CandidateOf(e, dayStart) in Candidates(base, dayStart)
    ensures Candidates(base, dayStart) == [] <==> forall e :: e in base ==> e.time == ""
  {
    if base != [] {
      var rest := Candidates(base[1..], dayStart);
      CandidatesAreTruthyEntries(base[1..], dayStart);
      forall c | c in Candidates(base, dayStart)
        ensures exists e :: e in base && e.time != "" && c == CandidateOf(e, dayStart)
      {
        if c in rest {
          var e :| e in base[1..] && e.time != "" && c == CandidateOf(e, dayStart);
          assert e in base;
        } else {
          assert base[0] in base && c == CandidateOf(base[0], dayStart);
        }
      }
      forall e | e in base && e.time != ""
        ensures CandidateOf(e, dayStart) in Candidates(base, dayStart)
      {
        if e != base[0] {
          assert e in base[1..];
        }
      }
      assert base[0] in base;
    }
  }

  // ---------------------------------------------------------------------
  // getNextPrayerTime: moving passed times to the next day
  // ---------------------------------------------------------------------

  /** `if (p.time <= currentTime) p.time.setDate(p.time.getDate() + 1)`: an
      Invalid Date compares false and stays invalid. */
  function RollOne(c: Candidate, current: int): Candidate {
    if c.time.At? && c.time.ms <= current then c.(time := Adhan.At(c.time.ms + DayMs)) else c
  }

  function RollAll(s: seq<Candidate>, current: int): (r: seq<Candidate>)
    ensures |r| == |s|
    ensures forall n :: 0 <= n < |s| ==> r[n] == RollOne(s[n], current)
  {
    seq(|s|, n requires 0 <= n < |s| => RollOne(s[n], current))
  }

  /** A valid date less than a day before now ends up strictly after now;
      names and invalid dates are untouched, and a date after now is not
      moved. */
  lemma RollOneFacts(c: Candidate, current: int)
    ensures RollOne(c, current).name == c.name
    ensures RollOne(c, current).time.At? == c.time.At?
    ensures c.time.At? && c.time.ms > current - DayMs ==> RollOne(c, current).time.ms > current
    ensures c.time.At? && c.time.ms > current ==> RollOne(c, current) == c
  {
  }

  /** `prayerDates.forEach(...)`, which changes the `Date` objects in place. */
  method RollForward(prayerDates: array<Candidate>, current: int)
    modifies prayerDates
    ensures prayerDates[..] == RollAll(old(prayerDates[..]), current)
  {
    for i := 0 to prayerDates.Length
      invariant forall j :: 0 <= j < i ==> prayerDates[j] == RollOne(old(prayerDates[j]), current)
      invariant forall j :: i <= j < prayerDates.Length ==> prayerDates[j] == old(prayerDates[j])
    {
      prayerDates[i] := RollOne(prayerDates[i], current);
    }
  }

  // ---------------------------------------------------------------------
  // getNextPrayerTime: the earliest candidate
  // ---------------------------------------------------------------------

  /** `a < b` on dates: false when either is invalid. */
  predicate Before(a: Adhan.Instant, b: Adhan.Instant) { Adhan.Later(b, a) }

  /** The position `next` holds after the loop has looked at the first n
      candidates. */
  function Scan(s: seq<Candidate>, n: nat): (k: nat)
    requires 0 < n <= |s|
    ensures k < n
  {
    if n == 1 then 0
    else
      var k := Scan(s, n - 1);
      if Before(s[n - 1].time, s[k].time) then n - 1 else k
  }

  function Earliest(s: seq<Candidate>): (k: nat)
    requires s != []
    ensures k < |s|
  {
    Scan(s, |s|)
  }

  /** `let next = prayerDates[0]; for (...) if (prayerDates[i].time <
      next.time) next = prayerDates[i]`, as the position of `next`. */
  method ChooseEarliest(prayerDates: array<Candidate>) returns (next: nat)
    requires prayerDates.Length > 0
    ensures next == Earliest(prayerDates[..])
  {
    next := 0;
    for i := 1 to prayerDates.Length
      invariant 0 < i <= prayerDates.Length
      invariant next == Scan(prayerDates[..], i)
    {
      if Before(prayerDates[i].time, prayerDates[next].time) {
        next := i;
      }
    }
  }

  /** With a valid first date the choice is a minimum over the valid dates,
      and the first of several equal minima, since the comparison is
      strict. */
  lemma {:induction false} ScanIsFirstMinimum(s: seq<Candidate>, n: nat)
    requires 0 < n <= |s| && s[0].time.At?
    ensures s[Scan(s, n)].time.At?
    ensures forall j :: 0 <= j < n && s[j].time.At? ==> s[Scan(s, n)].time.ms <= s[j].time.ms
    ensures forall j :: 0 <= j < Scan(s, n) && s[j].time.At? ==> s[Scan(s, n)].time.ms < s[j].time.ms
  {
    if n > 1 {
      ScanIsFirstMinimum(s, n - 1);
    }
  }

  /** An invalid first date is never replaced, because every comparison
      with it is false: the later valid dates are never chosen. */
  lemma {:induction false} ScanKeepsInvalidHead(s: seq<Candidate>, n: nat)
    requires 0 < n <= |s| && !s[0].time.At?
    ensures Scan(s, n) == 0
  {
    if n > 1 {
      ScanKeepsInvalidHead(s, n - 1);
    }
  }

  // ---------------------------------------------------------------------
  // getNextPrayerTime
  // ---------------------------------------------------------------------

  /** `null` for a falsy `prayerTimes`, a TypeError when no entry has a time
      (`next` is `undefined`), otherwise the chosen entry. */
  datatype Outcome = NoTimes | TypeError | Next(name: string, time: Adhan.Instant, remaining: Num)

  /** `Math.floor((next.time - currentTime) / 60000)`; NaN for an Invalid
      Date. */
  function Remaining(t: Adhan.Instant, current: int): (r: Num)
    ensures r.Int? <==> t.At?
    ensures t.At? ==> r.i * 60000 <= t.ms - current < r.i * 60000 + 60000
  {
    if t.At? then Int(FloorDiv(t.ms - current, 60000)) else NaN
  }

  /** The value `getNextPrayerTime` computes. `prayerTimes` is the `base`
      list built from the record, or None for a falsy record. */
  function NextPrayerTime(prayerTimes: Option<seq<BaseEntry>>, current: int, dayStart: int): Outcome {
    match prayerTimes
    case None => NoTimes
    case Some(base) =>
      var dates := RollAll(Candidates(base, dayStart), current);
      if dates == [] then TypeError
      else
        var next := dates[Earliest(dates)];
        Next(next.name, next.time, Remaining(next.time, current))
  }

  method GetNextPrayerTime(prayerTimes: Option<seq<BaseEntry>>, current: int, dayStart: int) returns (r: Outcome)
    ensures r == NextPrayerTime(prayerTimes, current, dayStart)
  {
    if prayerTimes.None? {
      return NoTimes;
    }
    var candidates := Candidates(prayerTimes.value, dayStart);
    var prayerDates := new Candidate[|candidates|](i requires 0 <= i < |candidates| => candidates[i]);
    assert prayerDates[..] == candidates;
    RollForward(prayerDates, current);
    if prayerDates.Length == 0 {
      return TypeError;
    }
    var k := ChooseEarliest(prayerDates);
    var next := prayerDates[k];
    r := Next(next.name, next.time, Remaining(next.time, current));
  }

  /** A missing record gives null, and a list without any time fails. */
  lemma NoTimesCases(base: seq<BaseEntry>, current: int, dayStart: int)
    ensures NextPrayerTime(None, current, dayStart) == NoTimes
    ensures (NextPrayerTime(Some(base), current, dayStart) == TypeError) <==> forall e :: e in base ==> e.time == ""
  {
    CandidatesAreTruthyEntries(base, dayStart);
  }

  /** The answer is the first listed of the earliest rolled dates, as long
      as the first listed time parses. */
  lemma NextIsFirstEarliest(base: seq<BaseEntry>, current: int, dayStart: int)
    requires Candidates(base, dayStart) != [] && Candidates(base, dayStart)[0].time.At?
    ensures var dates := RollAll(Candidates(base, dayStart), current);
      var r := NextPrayerTime(Some(base), current, dayStart);
      r.Next? && r.time.At? &&
      (forall c :: c in dates && c.time.At? ==> r.time.ms <= c.time.ms) &&
      exists k :: 0 <= k < |dates| && dates[k] == Candidate(r.name, r.time) &&
        forall j :: 0 <= j < k && dates[j].time.At? ==> r.time.ms < dates[j].time.ms
  {
    var s := Candidates(base, dayStart);
    var dates := RollAll(s, current);
    RollOneFacts(s[0], current);
    ScanIsFirstMinimum(dates, |dates|);
  }

  /** When the first listed time does not parse, the answer is that entry,
      with an Invalid Date and NaN minutes, whatever the others hold. */
  lemma InvalidFirstHidesOthers(base: seq<BaseEntry>, current: int, dayStart: int)
    requires Candidates(base, dayStart) != [] && !Candidates(base, dayStart)[0].time.At?
    ensures NextPrayerTime(Some(base), current, dayStart) == Next(Candidates(base, dayStart)[0].name, Adhan.Invalid, NaN)
  {
    var s := Candidates(base, dayStart);
    var dates := RollAll(s, current);
    RollOneFacts(s[0], current);
    ScanKeepsInvalidHead(dates, |dates|);
  }

  /** When every time that is set is a clock string and now lies on the
      day that starts at `dayStart`, every candidate ends up after now, so
      the answer lies ahead and its minute count is not negative. */
  lemma NextIsAhead(base: seq<BaseEntry>, current: int, dayStart: int)
    requires dayStart <= current < dayStart + DayMs
    requires forall e :: e in base && e.time != "" ==> IsHHMM(e.time)
    requires exists e :: e in base && e.time != ""
    ensures var r := NextPrayerTime(Some(base), current, dayStart);
      r.Next? && r.time.At? && r.time.ms > current && r.remaining.Int? && r.remaining.i >= 0
  {
    var s := Candidates(base, dayStart);
    CandidatesAreTruthyEntries(base, dayStart);
    forall c | c in s
      ensures c.time.At? && c.time.ms >= dayStart
    {
      var e :| e in base && e.time != "" && c == CandidateOf(e, dayStart);
      ClockStringDate(e.time, dayStart);
    }
    var dates := RollAll(s, current);
    forall n | 0 <= n < |dates|
      ensures dates[n].time.At? && dates[n].time.ms > current
    {
      assert s[n] in s;
      RollOneFacts(s[n], current);
    }
    ScanIsFirstMinimum(dates, |dates|);
    var r := NextPrayerTime(Some(base), current, dayStart);
    assert r.time == dates[Earliest(dates)].time;
  }
}
