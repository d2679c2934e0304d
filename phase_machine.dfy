// The prayer-phase state machine of src/components/AlMoazinClock.tsx:
// idle -> adhan -> iqamaCountdown -> phoneImage -> azkar -> idle.
// React state, refs and effects become one record of fields. A timer the
// component sets becomes a deadline field, and its firing is an explicit
// event that carries the current time in ms; a timer fires only once its
// deadline has passed. The cleanup an effect runs when the phase it
// depends on changes (clearing its timers, resetting the adhan flag) is
// applied on every phase change. Audio completion and failure are events.

module PhaseMachine {
  import opened JsText
  import opened ClockSettings

  datatype Phase = Idle | AdhanPhase | IqamaCountdown | PhoneImage | Azkar

  /** The azkar `setInterval`: its next firing and its period, in ms. */
  datatype Ticker = Ticker(next: int, interval: int)

  datatype ClockState = ClockState(
    phase: Phase,
    activePrayer: Option<PrayerKey>,
    iqamaEnd: Option<int>,          // iqamaEndTime
    azkarIndex: int,                // currentAzkarIndex
    adhanPlaying: bool,             // isAdhanPlayingRef
    transitioned: bool,             // the adhan effect's local hasTransitioned
    transitionAt: Option<int>,      // phaseTimeoutRef: the scheduled startIqamaAfterAdhan
    fallbackAt: Option<int>,        // the adhan effect's fallback timeout
    listening: bool,                // the audio 'ended' and 'error' listeners are attached
    phoneAt: Option<int>,           // the phone-image effect's timeout
    azkarTimer: Option<Ticker>,     // azkarIntervalRef
    resetAt: Option<int>)           // the 2000 ms timeout that ends the azkar

  const InitialState: ClockState :=
    ClockState(Idle, None, None, 0, false, false, None, None, false, None, None, None)

  /** `setTimeout(f, delay)`: a delay that is not positive fires at once. */
  function Deadline(now: int, delay: int): (t: int)
    ensures t >= now && (delay > 0 ==> t == now + delay)
  {
    if delay > 0 then now + delay else now
  }

  /** A deadline that exists and has passed. */
  predicate Due(deadline: Option<int>, now: int) {
    deadline.Some? && now >= deadline.value
  }

  /** `azkarDuration > 0 ? azkarDuration / azkarAfterPrayer.length : 15000`. */
  function AzkarInterval(s: Settings): (r: real)
    ensures r > 0.0
    ensures AzkarDuration(s) > 0 ==> r * (AzkarCount as real) == AzkarDuration(s) as real
    ensures AzkarDuration(s) <= 0 ==> r == 15000.0
  {
    if AzkarDuration(s) > 0 then AzkarDuration(s) as real / AzkarCount as real else 15000.0
  }

  /** The period the azkar interval actually runs with: `setInterval`
      converts its delay to a whole number of milliseconds, truncating
      `AzkarInterval`. */
  function AzkarPeriod(s: Settings): (p: int)
    ensures p > 0
    ensures p as real <= AzkarInterval(s) < (p + 1) as real
  {
    if AzkarDuration(s) > 0 then
      var d := AzkarDuration(s);
      TruncatedShare(d, AzkarCount);
      d / AzkarCount
    else 15000
  }

  /** The five-minute default runs the azkar every 27272 ms. */
  lemma DefaultAzkarPeriod(s: Settings)
    requires s.azkarDurationMinutes == 5 && s.azkarDurationSeconds == 0
    ensures AzkarPeriod(s) == 27272
  {
  }

  /** Integer division of a positive count is the real quotient truncated;
      a positive multiple of 1000 ms split 11 ways is at least 90 ms. */
  lemma TruncatedShare(d: int, n: int)
    requires d > 0 && n == AzkarCount && d % 1000 == 0
    ensures d / n > 0
    ensures (d / n) as real <= d as real / n as real < (d / n + 1) as real
  {
    var q, r := d / n, d % n;
    assert d == n * q + r && 0 <= r < n;
    assert d >= 1000;
    assert d as real / n as real == q as real + r as real / n as real;
  }

  // ---------------------------------------------------------------------
  // The invariant the transitions keep
  // ---------------------------------------------------------------------

  predicate Valid(c: ClockState) {
    && (c.phase == Idle ==> c.activePrayer.None?)
    && (c.phase == AdhanPhase ==> c.activePrayer.Some? && !c.transitioned && c.fallbackAt.Some?)
    && (c.adhanPlaying <==> c.phase == AdhanPhase)
    && (c.transitionAt.Some? || c.listening ==> c.phase == AdhanPhase)
    && (c.fallbackAt.Some? ==> c.phase == AdhanPhase)
    && (c.iqamaEnd.Some? <==> c.phase == IqamaCountdown)
    && (c.phoneAt.Some? <==> c.phase == PhoneImage)
    && (c.azkarTimer.Some? ==> c.phase == Azkar && c.azkarTimer.value.interval > 0)
    && 0 <= c.azkarIndex < AzkarCount
  }

  lemma InitialValid()
    ensures Valid(InitialState) && InitialState.phase == Idle
  {
  }

  // ---------------------------------------------------------------------
  // The component's operations
  // ---------------------------------------------------------------------

  /** The effect cleanups that run when the phase leaves its current value:
      the adhan effect clears both adhan timers, silences the audio and
      resets the adhan flag; the phone-image effect clears its timeout. */
  function Leave(c: ClockState): ClockState {
    match c.phase
    case AdhanPhase => c.(adhanPlaying := false, transitionAt := None, fallbackAt := None, listening := false)
    case PhoneImage => c.(phoneAt := None)
    case _ => c
  }

  /** `setCurrentPhase(p)`; the cleanups run only if the phase changes. */
  function ChangePhase(c: ClockState, p: Phase): ClockState {
    if c.phase == p then c else Leave(c).(phase := p)
  }

  /** `startAzkar`: phase azkar, index 0, a fresh interval. */
  function StartAzkar(s: Settings, c: ClockState, now: int): ClockState {
    var i := AzkarPeriod(s);
    ChangePhase(c, Azkar).(azkarIndex := 0, azkarTimer := Some(Ticker(now + i, i)))
  }

  /** Phase phoneImage, then the phone-image effect: a timeout for a
      positive duration, otherwise `startAzkar` at once. */
  function EnterPhoneImage(s: Settings, c: ClockState, now: int): ClockState {
    var d := PhoneImageDuration(s);
    var c1 := ChangePhase(c, PhoneImage);
    if d > 0 then c1.(phoneAt := Some(now + d)) else StartAzkar(s, c1, now)
  }

  /** `startIqamaCountdown(prayer)`: a wait that is not positive goes
      straight to the phone image, otherwise the countdown ends `wait`
      minutes from now. */
  function StartIqamaCountdown(s: Settings, c: ClockState, k: PrayerKey, now: int): ClockState {
    var wait := IqamaWait(s, k);
    if wait <= 0 then EnterPhoneImage(s, c, now)
    else ChangePhase(c, IqamaCountdown).(iqamaEnd := Some(now + wait * 60000))
  }

  /** The adhan effect's `startIqamaAfterAdhan`: guarded by `hasTransitioned`. */
  function FinishAdhan(s: Settings, c: ClockState, now: int): ClockState {
    if c.transitioned || c.activePrayer.None? then c
    else
      var c1 := c.(transitioned := true, adhanPlaying := false, transitionAt := None);
      StartIqamaCountdown(s, c1, c.activePrayer.value, now)
  }

  /** `resetToIdle`. The pending 2000 ms reset timeout is not stored in a
      ref, so it is not cleared. */
  function ResetToIdle(c: ClockState): ClockState {
    ChangePhase(c, Idle).(activePrayer := None, iqamaEnd := None, azkarIndex := 0,
                          adhanPlaying := false, transitionAt := None, azkarTimer := None)
  }

  /** `setActivePrayer(k); setCurrentPhase('adhan')`, then the adhan effect:
      silent playback schedules the transition after the adhan duration,
      otherwise the audio listeners wait for the end; in both cases the
      fallback fires 10 seconds after the adhan duration. */
  function StartAdhan(s: Settings, c: ClockState, k: PrayerKey, now: int, audioReady: bool): ClockState {
    var c1 := ChangePhase(c, AdhanPhase).(activePrayer := Some(k));
    if c1.adhanPlaying then c1
    else
      var d := AdhanDuration(s);
      var silent := !audioReady || s.isMuted;
      c1.(adhanPlaying := true, transitioned := false,
          transitionAt := if silent then Some(Deadline(now, d)) else None,
          listening := !silent,
          fallbackAt := Some(Deadline(now, d + 10000)))
  }

  // ---------------------------------------------------------------------
  // Events
  // ---------------------------------------------------------------------

  datatype Event =
    | Poll(hours: int, minutes: int, seconds: int, audioReady: bool)  // checkPrayerTime
    | AudioEnded          // the audio's 'ended' event
    | AudioFailed         // the audio's 'error' event, or play() rejecting
    | TransitionTimer     // the phaseTimeoutRef timeout fires
    | FallbackTimer       // the adhan fallback timeout fires
    | ExpiryCheck         // the iqama-expiry effect on a clock tick
    | PhoneTimer          // the phone-image timeout fires
    | AzkarTimer          // the azkar interval fires
    | ResetTimer          // the 2000 ms reset timeout fires
    | Skip                // skipToNextPhase

  function Step(s: Settings, c: ClockState, e: Event, now: int): ClockState {
    match e
    case Poll(h, m, sec, audioReady) =>
      var k := MatchingPrayer(s.prayerTimes, FormatHHMM(h, m));
      if c.phase == Idle && k.Some? && sec <= 3 then StartAdhan(s, c, k.value, now, audioReady) else c
    case AudioEnded =>
      if c.listening then FinishAdhan(s, c.(listening := false), now) else c
    case AudioFailed =>
      if c.listening then c.(listening := false, transitionAt := Some(Deadline(now, AdhanDuration(s)))) else c
    case TransitionTimer =>
      if Due(c.transitionAt, now) then FinishAdhan(s, c.(transitionAt := None), now) else c
    case FallbackTimer =>
      if Due(c.fallbackAt, now) then FinishAdhan(s, c.(fallbackAt := None), now) else c
    case ExpiryCheck =>
      if c.phase == IqamaCountdown && Due(c.iqamaEnd, now) then EnterPhoneImage(s, c.(iqamaEnd := None), now) else c
    case PhoneTimer =>
      if Due(c.phoneAt, now) then StartAzkar(s, c.(phoneAt := None), now) else c
    case AzkarTimer =>
      if c.azkarTimer.Some? && now >= c.azkarTimer.value.next then
        var t := c.azkarTimer.value;
        if c.azkarIndex + 1 >= AzkarCount then c.(azkarTimer := None, resetAt := Some(now + 2000))
        else c.(azkarIndex := c.azkarIndex + 1, azkarTimer := Some(Ticker(t.next + t.interval, t.interval)))
      else c
    case ResetTimer =>
      if Due(c.resetAt, now) then ResetToIdle(c.(resetAt := None)) else c
    case Skip =>
      match c.phase
      case Idle => c
      case AdhanPhase => if c.activePrayer.Some? then StartIqamaCountdown(s, c, c.activePrayer.value, now) else c
      case IqamaCountdown => EnterPhoneImage(s, c.(iqamaEnd := None), now)
      case PhoneImage => StartAzkar(s, c, now)
      case Azkar => ResetToIdle(c)
  }

  // ---------------------------------------------------------------------
  // Properties
  // ---------------------------------------------------------------------

  /** Every event keeps the invariant. */
  lemma StepValid(s: Settings, c: ClockState, e: Event, now: int)
    requires Valid(c)
    ensures Valid(Step(s, c, e, now))
  {
    match e
    case Poll(h, m, sec, audioReady) => PollValid(s, c, h, m, sec, now, audioReady);
    case AudioEnded => AdhanEndValid(s, c, e, now);
    case AudioFailed => AdhanEndValid(s, c, e, now);
    case TransitionTimer => AdhanEndValid(s, c, e, now);
    case FallbackTimer => AdhanEndValid(s, c, e, now);
    case ExpiryCheck => LaterPhaseValid(s, c, e, now);
    case PhoneTimer => LaterPhaseValid(s, c, e, now);
    case AzkarTimer => LaterPhaseValid(s, c, e, now);
    case ResetTimer => LaterPhaseValid(s, c, e, now);
    case Skip => SkipValid(s, c, now);
  }

  lemma PollValid(s: Settings, c: ClockState, h: int, m: int, sec: int, now: int, audioReady: bool)
    requires Valid(c)
    ensures Valid(Step(s, c, Poll(h, m, sec, audioReady), now))
  {
  }

  lemma AdhanEndValid(s: Settings, c: ClockState, e: Event, now: int)
    requires Valid(c) && (e.AudioEnded? || e.AudioFailed? || e.TransitionTimer? || e.FallbackTimer?)
    ensures Valid(Step(s, c, e, now))
  {
    if c.phase == AdhanPhase {
      match e
      case AudioEnded => FinishAdhanValid(s, c.(listening := false), now);
      case AudioFailed =>
      case TransitionTimer => FinishAdhanValid(s, c.(transitionAt := None), now);
      case FallbackTimer => FinishAdhanValid(s, c.(fallbackAt := None), now);
    }
  }

  /** Ending an adhan, whichever timer or listener is already spent. */
  lemma FinishAdhanValid(s: Settings, c: ClockState, now: int)
    requires c.phase == AdhanPhase && c.activePrayer.Some? && !c.transitioned
    requires c.iqamaEnd.None? && c.phoneAt.None? && c.azkarTimer.None? && 0 <= c.azkarIndex < AzkarCount
    ensures Valid(FinishAdhan(s, c, now))
  {
  }

  lemma LaterPhaseValid(s: Settings, c: ClockState, e: Event, now: int)
    requires Valid(c) && (e.ExpiryCheck? || e.PhoneTimer? || e.AzkarTimer? || e.ResetTimer?)
    ensures Valid(Step(s, c, e, now))
  {
  }

  lemma SkipValid(s: Settings, c: ClockState, now: int)
    requires Valid(c)
    ensures Valid(Step(s, c, Skip, now))
  {
  }

  /** The trigger fires exactly in `idle`, within the first three seconds of
      a minute, when some stored time equals the zero-padded clock; it
      selects the first such prayer in record order, enters the adhan and
      arms the fallback. Otherwise nothing changes. */
  lemma PollTriggers(s: Settings, c: ClockState, h: int, m: int, sec: int, now: int, audioReady: bool)
    requires Valid(c)
    ensures var r := Step(s, c, Poll(h, m, sec, audioReady), now);
      var t := FormatHHMM(h, m);
      (r.phase == AdhanPhase && c.phase == Idle) <==>
        (c.phase == Idle && sec <= 3 && exists k :: Get(s.prayerTimes, k) == t)
    ensures var r := Step(s, c, Poll(h, m, sec, audioReady), now);
      var t := FormatHHMM(h, m);
      r.phase == AdhanPhase && c.phase == Idle ==>
        Get(s.prayerTimes, r.activePrayer.value) == t &&
        (forall j :: Rank(j) < Rank(r.activePrayer.value) ==> Get(s.prayerTimes, j) != t) &&
        r.fallbackAt == Some(Deadline(now, AdhanDuration(s) + 10000)) && !r.transitioned && r.adhanPlaying
    ensures var r := Step(s, c, Poll(h, m, sec, audioReady), now);
      !(r.phase == AdhanPhase && c.phase == Idle) ==> r == c
  {
  }

  /** Silent playback (no audio element, or muted) schedules the end of the
      adhan after its configured duration; otherwise the audio's end event
      is awaited. */
  lemma AdhanSchedule(s: Settings, c: ClockState, k: PrayerKey, now: int, audioReady: bool)
    requires Valid(c) && c.phase == Idle
    ensures var r := StartAdhan(s, c, k, now, audioReady);
      (!audioReady || s.isMuted ==> r.transitionAt == Some(Deadline(now, AdhanDuration(s))) && !r.listening) &&
      (audioReady && !s.isMuted ==> r.transitionAt.None? && r.listening)
  {
  }

  /** Leaving the adhan: a wait that is not positive goes to the phone
      image (or straight on to the azkar when that has no duration) with no
      end time; a positive wait starts the iqama countdown ending `wait`
      minutes later. Either way nothing of the adhan stays pending. */
  lemma FinishAdhanOutcome(s: Settings, c: ClockState, now: int)
    requires c.phase == AdhanPhase && c.activePrayer.Some? && !c.transitioned && c.iqamaEnd.None?
    ensures var r := FinishAdhan(s, c, now);
      var wait := IqamaWait(s, c.activePrayer.value);
      (wait > 0 ==> r.phase == IqamaCountdown && r.iqamaEnd == Some(now + wait * 60000)) &&
      (wait <= 0 && PhoneImageDuration(s) > 0 ==>
         r.phase == PhoneImage && r.iqamaEnd.None? && r.phoneAt == Some(now + PhoneImageDuration(s))) &&
      (wait <= 0 && PhoneImageDuration(s) <= 0 ==> r.phase == Azkar && r.iqamaEnd.None? && r.azkarIndex == 0)
    ensures var r := FinishAdhan(s, c, now);
      r.transitioned && !r.adhanPlaying && r.transitionAt.None? && r.fallbackAt.None? && !r.listening
  {
  }

  /** The events that end an adhan do nothing outside the adhan phase, and
      the guard makes `startIqamaAfterAdhan` a no-op once it has run: the
      adhan is left at most once per entry. */
  lemma AdhanEventsInertOutsideAdhan(s: Settings, c: ClockState, e: Event, now: int)
    requires Valid(c) && c.phase != AdhanPhase
    requires e.AudioEnded? || e.AudioFailed? || e.TransitionTimer? || e.FallbackTimer?
    ensures Step(s, c, e, now) == c
  {
  }

  lemma FinishAdhanOnce(s: Settings, c: ClockState, now: int, later: int)
    requires c.transitioned
    ensures FinishAdhan(s, c, later) == c
  {
  }

  /** The fallback forces the adhan to end once its deadline passes, even if
      the audio never finishes. */
  lemma FallbackEndsAdhan(s: Settings, c: ClockState, now: int)
    requires Valid(c) && c.phase == AdhanPhase && now >= c.fallbackAt.value
    ensures Step(s, c, FallbackTimer, now).phase != AdhanPhase
  {
    FinishAdhanOutcome(s, c.(fallbackAt := None), now);
  }

  /** The iqama countdown ends on the first check at or after its end time,
      however late, and not before. */
  lemma IqamaExpiry(s: Settings, c: ClockState, now: int)
    requires Valid(c) && c.phase == IqamaCountdown
    ensures var r := Step(s, c, ExpiryCheck, now);
      (now >= c.iqamaEnd.value ==> r.iqamaEnd.None? && r.phase == (if PhoneImageDuration(s) > 0 then PhoneImage else Azkar)) &&
      (now < c.iqamaEnd.value ==> r == c)
  {
  }

  /** The phone image gives way to the azkar when its timeout fires: index
      0 and an interval of one eleventh of the azkar duration, in whole
      milliseconds. */
  lemma PhoneImageToAzkar(s: Settings, c: ClockState, now: int)
    requires Valid(c) && c.phase == PhoneImage
    ensures var r := Step(s, c, PhoneTimer, now);
      (now >= c.phoneAt.value ==>
         r.phase == Azkar && r.azkarIndex == 0 && r.phoneAt.None? &&
         r.azkarTimer == Some(Ticker(now + AzkarPeriod(s), AzkarPeriod(s)))) &&
      (now < c.phoneAt.value ==> r == c)
  {
  }

  /** Each interval advances the azkar by one; at the last one the interval
      stops, the index stays, and a reset is scheduled 2000 ms later. */
  lemma AzkarAdvance(s: Settings, c: ClockState, now: int)
    requires Valid(c) && c.azkarTimer.Some? && now >= c.azkarTimer.value.next
    ensures var r := Step(s, c, AzkarTimer, now);
      (c.azkarIndex < AzkarCount - 1 ==> r.azkarIndex == c.azkarIndex + 1 && r.azkarTimer.Some?) &&
      (c.azkarIndex == AzkarCount - 1 ==>
         r.azkarIndex == c.azkarIndex && r.azkarTimer.None? && r.resetAt == Some(now + 2000))
    ensures Step(s, c, AzkarTimer, now).azkarIndex <= AzkarCount - 1
  {
  }

  /** Skipping advances exactly one phase, and does nothing when idle. */
  lemma SkipOneStep(s: Settings, c: ClockState, now: int)
    requires Valid(c)
    ensures var r := Step(s, c, Skip, now);
      (c.phase == Idle ==> r == c) &&
      (c.phase == AdhanPhase ==> r.phase in {IqamaCountdown, PhoneImage, Azkar} && !r.adhanPlaying && r.fallbackAt.None?) &&
      (c.phase == IqamaCountdown ==> r.phase in {PhoneImage, Azkar} && r.iqamaEnd.None?) &&
      (c.phase == PhoneImage ==> r.phase == Azkar && r.azkarIndex == 0) &&
      (c.phase == Azkar ==> r.phase == Idle)
  {
  }

  /** `resetToIdle` clears the phase, the prayer, the end time, the index,
      the adhan flag and both stored timers. */
  lemma ResetClears(c: ClockState)
    requires Valid(c)
    ensures var r := ResetToIdle(c);
      r.phase == Idle && r.activePrayer.None? && r.iqamaEnd.None? && r.azkarIndex == 0 &&
      !r.adhanPlaying && r.transitionAt.None? && r.azkarTimer.None? && r.fallbackAt.None? &&
      r.phoneAt.None? && !r.listening
  {
  }

  // ---------------------------------------------------------------------
  // The component
  // ---------------------------------------------------------------------

  class PrayerClock {
    const settings: Settings
    var phase: Phase
    var activePrayer: Option<PrayerKey>
    var iqamaEnd: Option<int>
    var azkarIndex: int
    var adhanPlaying: bool
    var transitioned: bool
    var transitionAt: Option<int>
    var fallbackAt: Option<int>
    var listening: bool
    var phoneAt: Option<int>
    var azkarTimer: Option<Ticker>
    var resetAt: Option<int>

    function State(): ClockState
      reads this
    {
      ClockState(phase, activePrayer, iqamaEnd, azkarIndex, adhanPlaying, transitioned,
                 transitionAt, fallbackAt, listening, phoneAt, azkarTimer, resetAt)
    }

    constructor (s: Settings)
      ensures settings == s && State() == InitialState && Valid(State())
    {
      settings := s;
      phase, activePrayer, iqamaEnd, azkarIndex := Idle, None, None, 0;
      adhanPlaying, transitioned, transitionAt, fallbackAt := false, false, None, None;
      listening, phoneAt, azkarTimer, resetAt := false, None, None, None;
    }

    method SetPhase(p: Phase)
      modifies this
      ensures State() == ChangePhase(old(State()), p)
    {
      if phase != p {
        if phase == AdhanPhase {
          adhanPlaying, transitionAt, fallbackAt, listening := false, None, None, false;
        } else if phase == PhoneImage {
          phoneAt := None;
        }
        phase := p;
      }
    }

    method StartAzkarNow(now: int)
      modifies this
      ensures State() == StartAzkar(settings, old(State()), now)
    {
      SetPhase(Azkar);
      azkarIndex := 0;
      var i := AzkarPeriod(settings);
      azkarTimer := Some(Ticker(now + i, i));
    }

    method ShowPhoneImage(now: int)
      modifies this
      ensures State() == EnterPhoneImage(settings, old(State()), now)
    {
      SetPhase(PhoneImage);
      var d := PhoneImageDuration(settings);
      if d > 0 {
        phoneAt := Some(now + d);
      } else {
        StartAzkarNow(now);
      }
    }

    method StartIqama(k: PrayerKey, now: int)
      modifies this
      ensures State() == StartIqamaCountdown(settings, old(State()), k, now)
    {
      var wait := IqamaWait(settings, k);
      if wait <= 0 {
        ShowPhoneImage(now);
      } else {
        SetPhase(IqamaCountdown);
        iqamaEnd := Some(now + wait * 60000);
      }
    }

    method StartIqamaAfterAdhan(now: int)
      modifies this
      ensures State() == FinishAdhan(settings, old(State()), now)
    {
      if transitioned || activePrayer.None? {
        return;
      }
      transitioned := true;
      adhanPlaying := false;
      transitionAt := None;
      StartIqama(activePrayer.value, now);
    }

    method Reset()
      modifies this
      ensures State() == ResetToIdle(old(State()))
    {
      SetPhase(Idle);
      activePrayer, iqamaEnd, azkarIndex := None, None, 0;
      adhanPlaying := false;
      transitionAt := None;
      azkarTimer := None;
    }

    /** `checkPrayerTime`, given the local clock's hours, minutes and seconds. */
    method CheckPrayerTime(h: int, m: int, sec: int, now: int, audioReady: bool)
      requires Valid(State())
      modifies this
      ensures State() == Step(settings, old(State()), Poll(h, m, sec, audioReady), now) && Valid(State())
    {
      PollValid(settings, State(), h, m, sec, now, audioReady);
      var k := MatchingPrayer(settings.prayerTimes, FormatHHMM(h, m));
      if phase == Idle && k.Some? && sec <= 3 {
        BeginAdhan(k.value, now, audioReady);
      }
    }

    /** The trigger's two setters, then the adhan effect. */
    method BeginAdhan(k: PrayerKey, now: int, audioReady: bool)
      modifies this
      ensures State() == StartAdhan(settings, old(State()), k, now, audioReady)
    {
      SetPhase(AdhanPhase);
      activePrayer := Some(k);
      if !adhanPlaying {
        var d := AdhanDuration(settings);
        var silent := !audioReady || settings.isMuted;
        adhanPlaying, transitioned := true, false;
        transitionAt := if silent then Some(Deadline(now, d)) else None;
        listening := !silent;
        fallbackAt := Some(Deadline(now, d + 10000));
      }
    }

    method OnAudioEnded(now: int)
      requires Valid(State())
      modifies this
      ensures State() == Step(settings, old(State()), AudioEnded, now) && Valid(State())
    {
      AdhanEndValid(settings, State(), AudioEnded, now);
      if listening {
        listening := false;
        StartIqamaAfterAdhan(now);
      }
    }

    method OnAudioFailed(now: int)
      requires Valid(State())
      modifies this
      ensures State() == Step(settings, old(State()), AudioFailed, now) && Valid(State())
    {
      AdhanEndValid(settings, State(), AudioFailed, now);
      if listening {
        listening := false;
        transitionAt := Some(Deadline(now, AdhanDuration(settings)));
      }
    }

    method OnTransitionTimer(now: int)
      requires Valid(State())
      modifies this
      ensures State() == Step(settings, old(State()), TransitionTimer, now) && Valid(State())
    {
      AdhanEndValid(settings, State(), TransitionTimer, now);
      if Due(transitionAt, now) {
        transitionAt := None;
        StartIqamaAfterAdhan(now);
      }
    }

    method OnFallbackTimer(now: int)
      requires Valid(State())
      modifies this
      ensures State() == Step(settings, old(State()), FallbackTimer, now) && Valid(State())
    {
      AdhanEndValid(settings, State(), FallbackTimer, now);
      if Due(fallbackAt, now) {
        fallbackAt := None;
        StartIqamaAfterAdhan(now);
      }
    }

    /** The iqama-expiry effect, run on a clock tick. */
    method CheckExpiry(now: int)
      requires Valid(State())
      modifies this
      ensures State() == Step(settings, old(State()), ExpiryCheck, now) && Valid(State())
    {
      LaterPhaseValid(settings, State(), ExpiryCheck, now);
      if phase == IqamaCountdown && Due(iqamaEnd, now) {
        iqamaEnd := None;
        ShowPhoneImage(now);
      }
    }

    method OnPhoneTimer(now: int)
      requires Valid(State())
      modifies this
      ensures State() == Step(settings, old(State()), PhoneTimer, now) && Valid(State())
    {
      LaterPhaseValid(settings, State(), PhoneTimer, now);
      if Due(phoneAt, now) {
        phoneAt := None;
        StartAzkarNow(now);
      }
    }

    method OnAzkarTimer(now: int)
      requires Valid(State())
      modifies this
      ensures State() == Step(settings, old(State()), AzkarTimer, now) && Valid(State())
    {
      LaterPhaseValid(settings, State(), AzkarTimer, now);
      if azkarTimer.Some? && now >= azkarTimer.value.next {
        var t := azkarTimer.value;
        if azkarIndex + 1 >= AzkarCount {
          azkarTimer := None;
          resetAt := Some(now + 2000);
        } else {
          azkarIndex := azkarIndex + 1;
          azkarTimer := Some(Ticker(t.next + t.interval, t.interval));
        }
      }
    }

    method OnResetTimer(now: int)
      requires Valid(State())
      modifies this
      ensures State() == Step(settings, old(State()), ResetTimer, now) && Valid(State())
    {
      LaterPhaseValid(settings, State(), ResetTimer, now);
      if Due(resetAt, now) {
        resetAt := None;
        Reset();
      }
    }

    /** `skipToNextPhase`. */
    method SkipPhase(now: int)
      requires Valid(State())
      modifies this
      ensures State() == Step(settings, old(State()), Skip, now) && Valid(State())
    {
      SkipValid(settings, State(), now);
      if phase == AdhanPhase {
        if activePrayer.Some? { StartIqama(activePrayer.value, now); }
      } else if phase == IqamaCountdown {
        iqamaEnd := None;
        ShowPhoneImage(now);
      } else if phase == PhoneImage {
        StartAzkarNow(now);
      } else if phase == Azkar {
        Reset();
      }
    }
  }
}
