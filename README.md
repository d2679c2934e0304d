# Al-Moazin mosque clock: a Dafny model

The Al-Moazin clock is a web application that shows a mosque's five daily
prayer times. When a prayer time comes it plays the call to prayer (the
adhan). It then counts down to the iqama, shows a "phones off" image and
cycles through the remembrances said after the prayer (azkar). This project
models its core logic:

- the prayer-time astronomy helpers and the `PrayerTimes` constructor of the
  embedded adhan library;
- the phase machine of the main clock component;
- the time-string arithmetic used to shift stored times by the user's
  offsets;
- the settings panel's edit handlers;
- the date utilities;
- the next-prayer selection of the two utility versions, of the prayer-time
  service and of the "exact" clock component;
- the mapping from an Arabic country and city to the prayer-time service's
  request parameters.

| module | file | source |
|---|---|---|
| `JsText` | js_text.dfy | the JavaScript primitives the code relies on: `Number`, `parseInt`, `split`, `trim`, `padStart`, the truncating `%`, NaN comparisons |
| `Adhan` | adhan.dfy | src/lib/adhan-js.ts |
| `ClockSettings` | clock_settings.dfy | the settings record and prayer keys of src/components/AlMoazinClock.tsx |
| `PhaseMachine` | phase_machine.dfy | the phase effects and handlers of src/components/AlMoazinClock.tsx |
| `MoazinTime` | moazin_time.dfy | the time helpers and the countdown memo of src/components/AlMoazinClock.tsx |
| `SettingsPanel` | settings_panel.dfy | src/components/SettingsPanel.tsx |
| `DateUtils` | date_utils.dfy | src/utils/dateUtils.ts |
| `NextPrayer` | next_prayer.dfy | src/utils/prayerTimes.ts and src/utils/prayerTimes-new.ts |
| `PrayerService` | prayer_service.dfy | the validation and next-prayer functions of src/lib/prayerTimes.ts |
| `Locations` | locations.dfy | src/lib/locations.ts |
| `ExactClock` | exact_clock.dfy | src/components/ExactMosqueClock.tsx |

Conventions:

- JavaScript numbers are modelled as `Num`: either `NaN` or an unbounded
  integer. A comparison with `NaN` is false, as in JavaScript.
- A JavaScript `Date` is modelled as an `Instant`: `Invalid`, or a millisecond
  count `At(ms)`. The count is unbounded: JavaScript turns a time value beyond
  ±8.64e15 ms into an Invalid Date, and the model does not (see "## Left out").
- The adhan library's floating-point quantities are modelled as exact reals,
  with a separate `RNaN`.
- The three stateful components are Dafny classes: the main clock
  (`PhaseMachine.PrayerClock`), the exact clock (`ExactClock.ExactMosqueClock`)
  and the settings panel (`SettingsPanel.SettingsPanelState`). Each of their
  methods is proved to move the state exactly as a pure step function does.
  The properties are stated as lemmas about those functions.
- The host clock, the audio element's events and the timers become
  parameters and events. Examples are `now`, `clockNow`, `audioReady`,
  `AudioEnded` and `FallbackTimer`.

Where the code and its documentation disagree, the model follows the code:

- The high-latitude fallback is applied only for the Moonsighting Committee
  method with a latitude of at least 55 degrees. The test is on the signed
  latitude, so the southern hemisphere never qualifies.
- The Moonsighting Committee's seasonal twilight table is used as written,
  including its last piece, which leaves the range of its knots late in the
  year (see Findings). The corrected table is defined and proved beside it
  but feeds no prayer time.
- Numeric strings such as "99:99" pass the time-format checks.
- A country with no mapping is returned without a timezone, although the
  declared return type requires one.

## Model

| member | source | states |
|---|---|---|
| JsText.JsRem | src/components/AlMoazinClock.tsx:182 | `%` is the remainder of the quotient truncated toward zero: the dividend is the divisor times that quotient plus the result, which lies strictly within the divisor and takes the dividend's sign; it agrees with the Euclidean remainder for a non-negative dividend |
| JsText.JsRemNegate | src/components/AlMoazinClock.tsx:182 | `%` is odd in the dividend, and for a negative dividend that is not a multiple it is the Euclidean remainder minus the divisor |
| JsText.FloorDiv | src/components/AlMoazinClock.tsx:183 | `Math.floor(a / b)` is the quotient q with q·b ≤ a < q·b + b |
| JsText.TrimStartRemovesSpace | src/lib/locations.ts:77 | `trimStart` removes exactly a prefix of white space and leaves a string that starts with a non-space character (or is empty) |
| JsText.TrimEndRemovesSpace | src/lib/locations.ts:77 | `trimEnd` removes exactly a suffix of white space and leaves a string that ends with a non-space character (or is empty) |
| JsText.TrimOfUnpadded | src/lib/locations.ts:77 | a string with no white space at either end is its own trim |
| JsText.NatToStringValue | src/components/AlMoazinClock.tsx:186 | `String(n)` is a string of decimal digits that denotes n |
| JsText.Pad2Digits | src/components/AlMoazinClock.tsx:186 | `padStart(2, '0')` of a number is a string of digits denoting that number, of length two below 100 |
| JsText.Pad2OfTwoDigits | src/components/AlMoazinClock.tsx:473 | padding the value of a two-digit string gives back that string |
| JsText.ToNumberDigits | src/components/AlMoazinClock.tsx:178 | `Number` of a non-empty digit string is its decimal value |
| JsText.ParseIntDigits | src/components/AlMoazinClock.tsx:1287-1288 | `parseInt(s, 10)` of a non-empty digit string is its decimal value |
| JsText.DigitPrefix | src/components/AlMoazinClock.tsx:1287-1288 | the part `parseInt` reads is the longest prefix made of digits |
| JsText.ParseIntStopsAtNonDigit | src/components/AlMoazinClock.tsx:1287-1288 | `parseInt(s, 10)` skips leading white space, takes a sign and stops at the first non-digit: "1.5" gives 1, "0x1A" gives 0, " -7:30" gives −7 |
| JsText.Split | src/components/SettingsPanel.tsx:49-50 | `split(':')` gives at least one piece, a single one exactly when the string has no colon; no piece holds a colon, and joining the pieces with colons gives back the string |
| JsText.SplitTwo | src/components/SettingsPanel.tsx:49-50 | splitting `a + ":" + b` on the colon gives back a and b when neither holds a colon |
| JsText.MinutesOfHHMM | src/components/SettingsPanel.tsx:49-53 | an `HH:MM` string denotes hours·60 + minutes under `split(':').map(Number)` |
| JsText.HHMMIsFormatted | src/components/AlMoazinClock.tsx:473 | formatting the two parts of an `HH:MM` string gives back that string |
| JsText.FormatHHMMParts | src/components/AlMoazinClock.tsx:186 | formatting hours and minutes below 100 gives an `HH:MM` string whose parts are those numbers |
| JsText.FormatMinuteOfDay | src/components/AlMoazinClock.tsx:183-186 | formatting a minute of the day gives a time of day that denotes that minute |
| JsText.SameClockMinutes | src/components/AlMoazinClock.tsx:186 | two times of day that denote the same minute are the same string |
| JsText.TimeOfDayRange | src/components/AlMoazinClock.tsx:183-185 | a valid time of day denotes a minute in [0, 1440) whose quotient and remainder by 60 are its parts |
| Adhan.Trunc | src/lib/adhan-js.ts:1371-1373 | the millisecond value of `new Date(x)` truncates toward zero |
| Adhan.Round | src/lib/adhan-js.ts:1267 | `Math.round` is within half a unit of its argument |
| Adhan.AddHours | src/lib/adhan-js.ts:1367-1377 | adding hours gives a valid date exactly when the date and the hours are valid, and that date lies less than 1 ms from the date plus h·3600000 ms (the fraction is truncated), never earlier for non-negative hours |
| Adhan.AddWholeHours | src/lib/adhan-js.ts:1367-1377 | a whole number of hours is the same shift as sixty times as many minutes |
| Adhan.AddMinutes | src/lib/adhan-js.ts:1371-1373 | the result is valid exactly when the date is; its offset is stated by the lemma below |
| Adhan.AddMinutesCompose | src/lib/adhan-js.ts:1371-1373 | shifting by j and then k minutes is one shift by j + k; a zero shift is the identity and a shift by −k undoes one by k; a valid date moves later exactly for positive k |
| Adhan.Normalize | src/lib/adhan-js.ts:1352-1355 | the value is reduced into [0, max) by a whole number of periods; a zero period gives NaN |
| Adhan.UnwindAngle | src/lib/adhan-js.ts:1325-1327 | an angle is reduced into [0, 360) by a whole number of turns |
| Adhan.DaysInYear | src/lib/adhan-js.ts:1304 | a year has 365 or 366 days, by the Gregorian leap rule at 1321-1323 |
| Adhan.DaysSinceSolstice | src/lib/adhan-js.ts:1296-1319 | for a day of the year, the count lies in [0, days of the year): the day plus 10 in the north, the day minus 172 (173 in a leap year) in the south, wrapped by one year |
| Adhan.J2000 | src/lib/adhan-js.ts:1102-1132 | noon of 1 January 2000 is Julian day 2451545, Julian century 0 |
| Adhan.FebruaryLength | src/lib/adhan-js.ts:1102-1122 | the Julian day count from 1 February to 1 March is 29 days in a leap year (divisible by 4 and not by 100, or by 400) and 28 otherwise |
| Adhan.FebruaryDays | src/lib/adhan-js.ts:1102-1122 | the integer day numbers of 1 March and 1 February differ by 29 in a leap year and 28 otherwise |
| Adhan.JulianDayHours | src/lib/adhan-js.ts:1102-1122 | the hours add hours/24 to the Julian day |
| Adhan.JulianDayNextDay | src/lib/adhan-js.ts:1102-1122 | the next calendar day is one Julian day later |
| Adhan.InterpolateMissesY3 | src/lib/adhan-js.ts:1337-1343 | the code as written does not pass through the third tabulated point, for example (0, 1, 2) at n = 1 gives 3 |
| Adhan.InterpolateMeeusThroughPoints | src/lib/adhan-js.ts:1337-1343 | the corrected interpolation passes through all three tabulated points at n = −1, 0, 1 |
| Adhan.SeasonAdjustmentAsWrittenOvershoots | src/lib/adhan-js.ts:1255-1265 | the table as written leaves the range of its knots: with the morning constants at latitude 55 it gives under 85 minutes on day 364, below every knot, and jumps by more than 19 minutes to a on the next day |
| Adhan.SeasonAdjustmentKnots | src/lib/adhan-js.ts:1255-1291 | the corrected seasonal curve (see Findings) takes a, b, c, d, c, b at days 0, 91, 137, 183, 229 and 275, and a again after a last piece of 91 days, 92 in a leap year |
| Adhan.SeasonAdjustmentBetweenKnots | src/lib/adhan-js.ts:1255-1291 | on every day of the year the corrected curve lies between the values of the knots on either side of that day |
| Adhan.SeasonAdjustmentAsWrittenKnots | src/lib/adhan-js.ts:1255-1265 | the table as written takes a, b, c, d at days 0, 91, 137 and 183, and reaches a again on day 274 (275 in a leap year) |
| Adhan.SeasonAdjustmentAsWrittenBetweenKnots | src/lib/adhan-js.ts:1255-1265 | up to day 274 the table as written lies between the knots on either side of the day |
| Adhan.SeasonAdjustmentAsWrittenRange | src/lib/adhan-js.ts:1255-1265 | on every day of the year the table as written stays within any range holding its four knots and the value 2a − d its last piece reaches at the end of the year |
| Adhan.SeasonAdjustedMorningTwilight | src/lib/adhan-js.ts:1244-1268 | the morning bound, computed from the table as written, is valid exactly when sunrise is; its distance from sunrise is stated by the two lemmas below |
| Adhan.MorningTwilightKnots | src/lib/adhan-js.ts:1244-1268 | on days 0, 91, 137 and 183 of the solstice count the morning bound lies exactly the rounded knot value, 75 + 28.65/55, 19.44/55, 32.74/55 or 48.1/55 minutes per degree of latitude, before sunrise |
| Adhan.MorningTwilightRange | src/lib/adhan-js.ts:1244-1268 | on every day of the year the morning bound lies between 75 minutes and the largest knot before sunrise |
| Adhan.SeasonAdjustedEveningTwilight | src/lib/adhan-js.ts:1270-1294 | the evening bound, computed from the table as written, is valid exactly when sunset is; its distance from sunset is stated by the two lemmas below |
| Adhan.EveningTwilightKnots | src/lib/adhan-js.ts:1270-1294 | on days 0, 91, 137 and 183 of the solstice count the evening bound lies exactly the rounded knot value, 75 + 25.6/55, 2.05/55, −9.21/55 or 6.14/55 minutes per degree of latitude, after sunset |
| Adhan.EveningTwilightRange | src/lib/adhan-js.ts:1270-1294 | on every day of the year the evening bound lies after sunset by at least the smallest knot and at most 75 + 45.06/55 minutes per degree, the value the last piece reaches at the year's end |
| Adhan.EquatorAdjustment | src/lib/adhan-js.ts:1244-1294 | at the equator both seasonal adjustments are 75 minutes all year |
| Adhan.NewCalculationParameters | src/lib/adhan-js.ts:207-239 | the given angles and name are kept, and every omitted option takes its default: Isha interval 0, Shafi madhab, middle of the night, no adjustments |
| Adhan.MethodParameters | src/lib/adhan-js.ts:727-880 | each method of the catalog carries its own name and the defaults. Umm al-Qura and Qatar use a 90-minute Isha interval with a zero Isha angle. Every method except Other has a positive Fajr angle |
| Adhan.MethodNamesDistinct | src/lib/adhan-js.ts:727-880 | the method names are pairwise distinct, and only the Moonsighting Committee method is recognised as Moonsighting |
| Adhan.AsrShadowFactor | src/lib/adhan-js.ts:513-516 | Asr is the afternoon time of the madhab's shadow factor |
| Adhan.NoEarlierThan | src/lib/adhan-js.ts:572-574 | the fallback takes the later of two valid dates, and replaces an Invalid Date by the safe bound |
| Adhan.NoLaterThan | src/lib/adhan-js.ts:619-621 | the fallback takes the earlier of two valid dates, and replaces an Invalid Date by the safe bound |
| Adhan.AdjustmentsAppliedOnce | src/lib/adhan-js.ts:624-652 | each final time is its unadjusted time moved once by the summed adjustment, and the unadjusted times do not depend on the adjustments |
| Adhan.NewPrayerTimes | src/lib/adhan-js.ts:495-660 | the constructor's step-by-step computation produces exactly the specified prayer times |
| Adhan.FajrWithFallback | src/lib/adhan-js.ts:534-574 | the Fajr computation, including the Moonsighting branch and the safe-bound fallback, yields the candidate raised to the safe bound |
| Adhan.IshaWithFallback | src/lib/adhan-js.ts:576-622 | the Isha computation yields Maghrib plus the interval when one is set, otherwise the candidate lowered to the safe bound |
| Adhan.SafeBounds | src/lib/adhan-js.ts:553-574 | with a valid safe bound, the final Fajr is never earlier than it; without a fixed interval, Isha is never later than its bound (both shifted by the adjustments). An Invalid candidate is replaced by its bound |
| Adhan.NoSafeBoundOutsideMoonsighting | src/lib/adhan-js.ts:562-563 | outside the Moonsighting method the bound built from the undefined portion is invalid and leaves Fajr and Isha as computed |
| Adhan.MoonsightingCandidatesCoincide | src/lib/adhan-js.ts:540-551 | at high latitude under Moonsighting, both Fajr and Isha are placed a seventh of the night from sunset |
| Adhan.IshaIntervalAfterMaghrib | src/lib/adhan-js.ts:576-579 | a fixed interval puts Isha exactly that many minutes after Maghrib |
| Adhan.FixedIntervalMethods | src/lib/adhan-js.ts:778-785 | Umm al-Qura and Qatar put Isha exactly 90 minutes after Maghrib |
| Adhan.TimeForPrayer | src/lib/adhan-js.ts:662-678 | every prayer other than none has a time, and none has none |
| Adhan.CurrentPrayer | src/lib/adhan-js.ts:680-697 | for ordered times the current prayer is none exactly before Fajr and Isha exactly from Isha on; any prayer returned has begun, and unless it is Isha the next prayer in the day has not, so it is the latest prayer begun; an Invalid Date gives none |
| Adhan.NextPrayer | src/lib/adhan-js.ts:699-716 | for ordered times the next prayer is none exactly from Isha on and Fajr exactly before Fajr; any prayer returned is still ahead, and unless it is Fajr the prayer before it has begun, so it is the first prayer ahead; an Invalid Date gives Fajr |
| Adhan.NextFollowsCurrent | src/lib/adhan-js.ts:680-716 | the next prayer is always the successor of the current one |
| ClockSettings.PrayerOrderComplete | src/components/AlMoazinClock.tsx:14 | the prayer order lists every prayer key |
| ClockSettings.Rank | src/components/AlMoazinClock.tsx:14 | each key has a position in the prayer order |
| ClockSettings.Set | src/components/SettingsPanel.tsx:124 | the spread `{...r, [k]: v}` sets entry k to v and leaves every other entry as it was |
| ClockSettings.MatchingPrayer | src/components/AlMoazinClock.tsx:477-480 | `Object.keys(prayerTimes).find` gives none exactly when no stored time equals the clock string, otherwise a matching prayer with no earlier match in record order |
| PhaseMachine.Deadline | src/components/AlMoazinClock.tsx:583-586 | a `setTimeout` deadline is never in the past and lies `delay` later for a positive delay |
| PhaseMachine.AzkarInterval | src/components/AlMoazinClock.tsx:409 | the azkar interval is positive and divides the azkar duration into one slot per remembrance, or is 15 s when no duration is set |
| PhaseMachine.AzkarPeriod | src/components/AlMoazinClock.tsx:409-413 | the period `setInterval` runs with is positive and is the azkar interval truncated to whole milliseconds (27272 ms for the 5-minute default) |
| PhaseMachine.DefaultAzkarPeriod | src/components/AlMoazinClock.tsx:409-413 | with the five-minute duration the azkar interval runs every 27272 ms |
| PhaseMachine.TruncatedShare | src/components/AlMoazinClock.tsx:409-413 | a positive duration in whole seconds split over the 11 remembrances gives a period of at least 90 ms, and integer division is the real quotient truncated |
| PhaseMachine.InitialValid | src/components/AlMoazinClock.tsx:207-214 | the clock starts idle in a consistent state |
| PhaseMachine.StepValid | src/components/AlMoazinClock.tsx:395-684 | every event keeps the clock's state consistent: each phase holds exactly the timers and fields it needs |
| PhaseMachine.PollTriggers | src/components/AlMoazinClock.tsx:461-502 | the adhan starts exactly when the clock is idle, at seconds 0 to 3 of a minute (`currentSeconds <= 3`), and some stored time equals the padded clock string. It starts for the first such prayer and arms the fallback; otherwise nothing changes |
| PhaseMachine.AdhanSchedule | src/components/AlMoazinClock.tsx:589-636 | silent playback schedules the end of the adhan after its duration; audible playback waits for the audio's end event |
| PhaseMachine.FinishAdhanOutcome | src/components/AlMoazinClock.tsx:560-581 | leaving the adhan starts the iqama countdown for a positive wait, otherwise goes on to the phone image or the azkar, and leaves nothing of the adhan pending |
| PhaseMachine.AdhanEventsInertOutsideAdhan | src/components/AlMoazinClock.tsx:551 | audio and adhan timer events do nothing outside the adhan phase |
| PhaseMachine.FinishAdhanOnce | src/components/AlMoazinClock.tsx:561-565 | the transition after the adhan happens at most once |
| PhaseMachine.FallbackEndsAdhan | src/components/AlMoazinClock.tsx:642-648 | the fallback timeout always ends the adhan phase |
| PhaseMachine.IqamaExpiry | src/components/AlMoazinClock.tsx:665-670 | the iqama countdown ends on the first check at or after its end time and not before |
| PhaseMachine.PhoneImageToAzkar | src/components/AlMoazinClock.tsx:673-684 | the phone image gives way to the azkar at index 0 when its timeout fires, the first tick one truncated azkar period later and the rest at that period |
| PhaseMachine.AzkarAdvance | src/components/AlMoazinClock.tsx:413-423 | each azkar tick advances the index by one; at the last one the interval stops and a reset follows 2000 ms later; the index never passes the last one |
| PhaseMachine.SkipOneStep | src/components/AlMoazinClock.tsx:445-456 | skipping advances exactly one phase and does nothing when idle |
| PhaseMachine.ResetClears | src/components/AlMoazinClock.tsx:426-443 | the reset returns to idle and clears the prayer, end time, index, adhan flag and every stored timer |
| PhaseMachine.PrayerClock.constructor | src/components/AlMoazinClock.tsx:200-214 | the component starts in the initial idle state |
| PhaseMachine.PrayerClock.SetPhase | src/components/AlMoazinClock.tsx:505-514 | changing the phase runs the previous phase's effect cleanup |
| PhaseMachine.PrayerClock.StartAzkarNow | src/components/AlMoazinClock.tsx:405-424 | `startAzkar` moves the state as the azkar step function does |
| PhaseMachine.PrayerClock.ShowPhoneImage | src/components/AlMoazinClock.tsx:673-684 | entering the phone image moves the state as its step function does |
| PhaseMachine.PrayerClock.StartIqama | src/components/AlMoazinClock.tsx:395-403 | `startIqamaCountdown` moves the state as its step function does |
| PhaseMachine.PrayerClock.StartIqamaAfterAdhan | src/components/AlMoazinClock.tsx:560-581 | `startIqamaAfterAdhan` moves the state as the end-of-adhan step does |
| PhaseMachine.PrayerClock.Reset | src/components/AlMoazinClock.tsx:426-443 | `resetToIdle` moves the state as the reset function does |
| PhaseMachine.PrayerClock.CheckPrayerTime | src/components/AlMoazinClock.tsx:461-502 | the polling check moves the state as the Poll step does and keeps it consistent |
| PhaseMachine.PrayerClock.BeginAdhan | src/components/AlMoazinClock.tsx:505-648 | the adhan effect sets up playback, listeners and timers as the adhan start function does |
| PhaseMachine.PrayerClock.OnAudioEnded | src/components/AlMoazinClock.tsx:606-611 | the audio end event moves the state as its step does and keeps it consistent |
| PhaseMachine.PrayerClock.OnAudioFailed | src/components/AlMoazinClock.tsx:613-636 | the audio error event moves the state as its step does and keeps it consistent |
| PhaseMachine.PrayerClock.OnTransitionTimer | src/components/AlMoazinClock.tsx:583-598 | the silent-playback timer moves the state as its step does and keeps it consistent |
| PhaseMachine.PrayerClock.OnFallbackTimer | src/components/AlMoazinClock.tsx:642-648 | the fallback timer moves the state as its step does and keeps it consistent |
| PhaseMachine.PrayerClock.CheckExpiry | src/components/AlMoazinClock.tsx:665-670 | the iqama expiry check moves the state as its step does and keeps it consistent |
| PhaseMachine.PrayerClock.OnPhoneTimer | src/components/AlMoazinClock.tsx:673-684 | the phone-image timeout moves the state as its step does and keeps it consistent |
| PhaseMachine.PrayerClock.OnAzkarTimer | src/components/AlMoazinClock.tsx:413-423 | the azkar interval tick moves the state as its step does and keeps it consistent |
| PhaseMachine.PrayerClock.OnResetTimer | src/components/AlMoazinClock.tsx:418 | the delayed reset moves the state as its step does and keeps it consistent |
| PhaseMachine.PrayerClock.SkipPhase | src/components/AlMoazinClock.tsx:445-456 | the skip button moves the state as its step does and keeps it consistent |
| MoazinTime.WrapToDay | src/components/AlMoazinClock.tsx:182 | `((x % 1440) + 1440) % 1440` is the Euclidean remainder of x by 1440, for negative x as well |
| MoazinTime.ApplyOffsetUnparsable | src/components/AlMoazinClock.tsx:177-179 | a time without a colon or with a part that is not a number is returned unchanged |
| MoazinTime.ApplyOffsetParsed | src/components/AlMoazinClock.tsx:181-186 | a parsed time becomes a padded time of day denoting its minute count plus the offset, wrapped into the day |
| MoazinTime.ApplyOffsetOfTimeOfDay | src/components/AlMoazinClock.tsx:176-187 | shifting a time of day gives the time of day of its minute plus the offset, modulo a day |
| MoazinTime.ShiftTo | src/components/AlMoazinClock.tsx:176-187 | shifting by any offset congruent to the difference reaches the target time exactly |
| MoazinTime.ApplyZeroOffset | src/components/AlMoazinClock.tsx:176-187 | a zero offset leaves a time of day unchanged |
| MoazinTime.ApplyOffsetRoundTrip | src/components/AlMoazinClock.tsx:176-187 | shifting by k and then by −k gives back the original time of day |
| MoazinTime.ShiftBack | src/components/AlMoazinClock.tsx:176-187 | shifting a result back by −k recovers the time it was computed from |
| MoazinTime.CalculateOffset | src/components/AlMoazinClock.tsx:840-854 | the offset is 0 when either time has no colon, and a number exactly when both times parse |
| MoazinTime.OffsetOfTimesOfDay | src/components/AlMoazinClock.tsx:840-854 | between two times of day the offset is their minute difference, without wrapping |
| MoazinTime.OffsetRestoresModified | src/components/AlMoazinClock.tsx:840-854 | applying the computed offset to the original time gives back the modified time |
| MoazinTime.OffsetToItself | src/components/AlMoazinClock.tsx:840-854 | a time's offset to itself is 0 |
| MoazinTime.ToMinutes | src/components/AlMoazinClock.tsx:1284-1291 | `toMinutes` is null without a colon and a number exactly when both parts start with digits |
| MoazinTime.ToMinutesOfHHMM | src/components/AlMoazinClock.tsx:1284-1291 | an `HH:MM` string gives its minute of the day |
| MoazinTime.FirstAfter | src/components/AlMoazinClock.tsx:1297-1301 | the search finds nothing exactly when no listed prayer lies after the current minute, otherwise a listed prayer that does, the first in list order |
| MoazinTime.FirstAfterInOrder | src/components/AlMoazinClock.tsx:1297-1301 | over the prayer order, the search finds nothing exactly when no prayer is later, otherwise the earliest-ranked later prayer |
| MoazinTime.NextPrayerCountdown | src/components/AlMoazinClock.tsx:1282-1332 | there is no upcoming prayer exactly when Fajr does not parse and no prayer is later. Otherwise the countdown is the seconds until the chosen prayer today, or until tomorrow's Fajr |
| MoazinTime.CountdownAtMostADay | src/components/AlMoazinClock.tsx:1282-1332 | with valid stored times there is always an upcoming prayer at least one second and at most a day away |
| MoazinTime.ClockParts | src/components/AlMoazinClock.tsx:1312-1314 | a non-negative second count splits into hours, minutes below 60 and seconds below 60 that add back up to it |
| MoazinTime.Header | src/components/AlMoazinClock.tsx:1307-1331 | without an upcoming prayer the header shows the placeholders, otherwise the prayer's Arabic name |
| MoazinTime.CountdownToIqama | src/components/AlMoazinClock.tsx:1339-1351 | there is iqama text exactly when there is an end time; it is 00:00 once the end has passed, and otherwise the remaining minutes and seconds |
| MoazinTime.IqamaTextParts | src/components/AlMoazinClock.tsx:1339-1351 | the iqama text's minutes and seconds add back up to the remaining whole seconds |
| SettingsPanel.TimeDifference | src/components/SettingsPanel.tsx:47-58 | the difference is 0 when either time does not parse; otherwise it is congruent to the minute difference modulo a day |
| SettingsPanel.TimeDifferenceRange | src/components/SettingsPanel.tsx:53-57 | a raw difference within a day and a half is wrapped into [−720, 720] |
| SettingsPanel.TimesOfDayDifference | src/components/SettingsPanel.tsx:47-58 | between two times of day the difference lies in [−720, 720] and is congruent to their minute difference: the raw difference when it is within [−720, 720] (so +720 stays +720 and −720 stays −720), otherwise that difference moved by one day toward zero |
| SettingsPanel.TimeDifferenceSelf | src/components/SettingsPanel.tsx:47-58 | a time's difference to itself is 0 |
| SettingsPanel.TimeDifferenceAntisymmetric | src/components/SettingsPanel.tsx:47-58 | swapping the arguments negates the difference, for all strings |
| SettingsPanel.DifferenceRestoresEdit | src/components/SettingsPanel.tsx:112-128 | applying the stored offset to the original time gives back the time the user typed |
| SettingsPanel.PrayerTimeChangeOnlyEdited | src/components/SettingsPanel.tsx:112-128 | editing one prayer's time changes only that prayer's time and offset and nothing else of the settings |
| SettingsPanel.PrayerTimeChangeReproducible | src/components/SettingsPanel.tsx:112-128 | with a known original the stored offset reproduces the edited time from the original |
| SettingsPanel.IqamaCountdownChangeOnlyEdited | src/components/SettingsPanel.tsx:130-137 | editing one iqama wait sets that wait to the parsed value and changes nothing else |
| SettingsPanel.ShuruqTimeChangeOffset | src/components/SettingsPanel.tsx:299-308 | editing the sunrise time stores it and, with a known original, its offset |
| SettingsPanel.TimeEditsKeepLocation | src/components/SettingsPanel.tsx:191-200 | editing a prayer time, an iqama countdown or the Shuruq time never changes whether the next save counts as a location change and refetches |
| SettingsPanel.SettingsPanelState.constructor | src/components/SettingsPanel.tsx:61-64 | the panel starts closed, with the committed settings and no stored originals |
| SettingsPanel.SettingsPanelState.Open | src/components/SettingsPanel.tsx:66-86 | opening copies the settings and reads the stored originals: none when missing or malformed, otherwise the record's times |
| SettingsPanel.SettingsPanelState.OnPrayerTimeChange | src/components/SettingsPanel.tsx:112-128 | the handler updates only the local settings, as the prayer-time edit function does |
| SettingsPanel.SettingsPanelState.OnIqamaCountdownChange | src/components/SettingsPanel.tsx:130-137 | the handler updates only the local settings, as the iqama-wait edit function does |
| SettingsPanel.SettingsPanelState.OnShuruqTimeChange | src/components/SettingsPanel.tsx:299-308 | the handler updates only the local settings, as the sunrise edit function does |
| SettingsPanel.SettingsPanelState.SaveAndClose | src/components/SettingsPanel.tsx:191-200 | saving commits the local settings, closes the panel, and asks for a refetch exactly when the location changed |
| DateUtils.IsValidTimeFormat | src/utils/dateUtils.ts:31-33 | a time is valid exactly when it is two digits, a colon and two digits |
| DateUtils.ValidFormatAcceptsOutOfRange | src/utils/dateUtils.ts:31-33 | the format check accepts "99:99" and rejects a one-digit hour or a trailing space |
| DateUtils.TwelveHourOfTimeOfDay | src/utils/dateUtils.ts:34-39 | a time of day becomes its hour on the 12-hour dial (12 for 0 and 12), the minutes and the Arabic AM/PM letter |
| DateUtils.MatchTwelveHourComplete | src/utils/dateUtils.ts:41 | the pattern accepts every one- or two-digit hour, two-digit minutes, spaces and a period letter |
| DateUtils.ConvertTo24HourShaped | src/utils/dateUtils.ts:40-51 | a matched 12-hour time becomes the padded 24-hour hour and the same minutes |
| DateUtils.ConvertTo24HourUnmatched | src/utils/dateUtils.ts:42 | a string the pattern rejects is returned unchanged |
| DateUtils.MidnightHour | src/utils/dateUtils.ts:45-46 | 12 AM becomes hour 00 |
| DateUtils.Hours24OfHour12 | src/utils/dateUtils.ts:44-49 | the 24-hour conversion inverts the 12-hour dial and period for every hour of the day |
| DateUtils.TwentyFourOfTwelve | src/utils/dateUtils.ts:40-51 | converting a 12-hour rendering back gives the padded 24-hour hour |
| DateUtils.TwelveHourRoundTrip | src/utils/dateUtils.ts:34-51 | converting a time of day to 12-hour form and back gives the original |
| DateUtils.TimeDifferenceInMinutes | src/utils/dateUtils.ts:52-58 | the difference is NaN exactly when either time does not parse |
| DateUtils.DifferenceAntisymmetric | src/utils/dateUtils.ts:52-58 | swapping the times negates the difference |
| DateUtils.DifferenceOfTimesOfDay | src/utils/dateUtils.ts:52-58 | between two times of day the difference is their minute difference, strictly within a day |
| DateUtils.BetweenIsCircularWindow | src/utils/dateUtils.ts:59-72 | for times of day, the current time is between start and end exactly when it lies in the circular window from start to end, wrapping past midnight |
| DateUtils.EndsAreInside | src/utils/dateUtils.ts:59-72 | both ends of a window are inside it |
| DateUtils.UnparsableStart | src/utils/dateUtils.ts:59-72 | with an unparsable start only the end comparison remains, since NaN compares false |
| DateUtils.EmptyCurrentUsesClock | src/utils/dateUtils.ts:60 | an empty or missing current time is replaced by the clock's time |
| NextPrayer.Position | src/utils/prayerTimes.ts:1 | each prayer key has its position in the daily order |
| NextPrayer.ArabicNameLookup | src/utils/prayerTimes.ts:38-48 | a known prayer name maps to its Arabic name and any other string to itself |
| NextPrayer.ArabicNameOfKey | src/utils/prayerTimes-new.ts:44-54 | each key's name maps to that key's Arabic name |
| NextPrayer.KeyNamesDistinct | src/utils/prayerTimes.ts:1 | different prayers have different names |
| NextPrayer.EntriesOf | src/utils/prayerTimes.ts:14-21 | the mapped list holds one entry per key, in order, with that key's time |
| NextPrayer.FirstLater | src/utils/prayerTimes.ts:24 | `find` stops at the first entry whose minutes are later than now, and no earlier entry is later |
| NextPrayer.NextIsFirstLater | src/utils/prayerTimes.ts:9-36 | the next prayer is the first in daily order whose time is later than now, with its time and Arabic name |
| NextPrayer.NextFallsBackToFajr | src/utils/prayerTimes.ts:27-29 | when no prayer is later, the next prayer is Fajr |
| NextPrayer.NextNeverNull | src/utils/prayerTimes.ts:9-36 | there is always a next prayer: one of the six daily keys of `PRAYER_ORDER`, sunrise included, with its stored time |
| NextPrayer.CurrentMinuteIsNotNext | src/utils/prayerTimes.ts:24 | a prayer whose time is the current minute is not chosen, unless the choice falls back to Fajr |
| NextPrayer.GetNextPrayerByLoop | src/utils/prayerTimes-new.ts:9-42 | the loop version returns the same prayer as the `find` version |
| PrayerService.ValidatePrayerTimes | src/lib/prayerTimes.ts:50-56 | a record is valid exactly when each of the six required fields is a string of two digits, a colon and two digits |
| PrayerService.ValidationIsShapeOnly | src/lib/prayerTimes.ts:50-56 | the check accepts "99:99" and rejects a time with seconds |
| PrayerService.ValidatedFieldsParse | src/lib/prayerTimes.ts:50-56 | every field of a validated record parses to the hour and minute it spells |
| PrayerService.ClockStringDate | src/lib/prayerTimes.ts:296-300 | `setHours` with a clock string's parts gives that time on the day |
| PrayerService.CandidatesAreTruthyEntries | src/lib/prayerTimes.ts:293-302 | the candidates are exactly the entries with a truthy time, each given its date on the day |
| PrayerService.RollOneFacts | src/lib/prayerTimes.ts:305-309 | rolling a date keeps its name and validity, moves a past date less than a day old past now, and leaves a future date alone |
| PrayerService.RollForward | src/lib/prayerTimes.ts:305-309 | the in-place loop rolls every date as the rolling function does |
| PrayerService.ChooseEarliest | src/lib/prayerTimes.ts:312-315 | the loop picks the position the strict-minimum scan specifies |
| PrayerService.ScanIsFirstMinimum | src/lib/prayerTimes.ts:312-315 | with a valid first date the scan picks a minimum over the valid dates, the first of equal minima |
| PrayerService.ScanKeepsInvalidHead | src/lib/prayerTimes.ts:312-315 | an invalid first date is never replaced, since every comparison with it is false |
| PrayerService.GetNextPrayerTime | src/lib/prayerTimes.ts:278-321 | the method returns the specified outcome |
| PrayerService.NoTimesCases | src/lib/prayerTimes.ts:278-321 | a missing record gives null, and the result is a TypeError exactly when no entry has a time |
| PrayerService.NextIsFirstEarliest | src/lib/prayerTimes.ts:305-321 | the answer is the first listed of the earliest rolled dates when the first time parses |
| PrayerService.InvalidFirstHidesOthers | src/lib/prayerTimes.ts:312-318 | when the first time does not parse, the answer is that entry with NaN minutes, whatever the others hold |
| PrayerService.NextIsAhead | src/lib/prayerTimes.ts:293-321 | with clock-string times on today's date, the answer lies after now with a non-negative minute count |
| Locations.JordanMapping | src/lib/locations.ts:82-98 | Jordan maps to method 23 and Amman's zone, with the city's English name or Amman |
| Locations.SaudiMapping | src/lib/locations.ts:101-117 | Saudi Arabia maps to method 4 and Riyadh's zone, with the city's English name or Riyadh |
| Locations.EgyptMapping | src/lib/locations.ts:120-133 | Egypt maps to method 5 and Cairo's zone, with the city's English name or Cairo |
| Locations.OtherCountryPassesThrough | src/lib/locations.ts:136 | any other country returns both names as given, untrimmed, with no method and no timezone |
| Locations.TimeZoneIffMapped | src/lib/locations.ts:70-137 | the result has a timezone exactly when the trimmed country is one of the three mapped ones |
| Locations.TrimIdempotent | src/lib/locations.ts:77 | trimming twice is trimming once |
| Locations.MappedIgnoresPadding | src/lib/locations.ts:77-79 | for a mapped country, white space around either name changes nothing |
| Locations.DropdownCitiesMapping | src/lib/locations.ts:29-32 | every Jordanian and Saudi dropdown city has its own mapping; three of Egypt's six fall back to Cairo |
| Locations.ZonePerCountry | src/lib/locations.ts:84-124 | every mapped city carries its country's timezone |
| ExactClock.TriggerConditions | src/components/ExactMosqueClock.tsx:145-181 | the countdown starts exactly when a sound is set, the clock is not muted, it runs on the client, a stored time matches and no countdown is active; otherwise nothing changes |
| ExactClock.DefaultsNeverTrigger | src/components/ExactMosqueClock.tsx:145-181 | with the default empty sound nothing ever triggers |
| ExactClock.DimTimeoutClears | src/components/ExactMosqueClock.tsx:175-178 | the dimming timeout undims the screen and ends the countdown |
| ExactClock.ExpireClears | src/components/ExactMosqueClock.tsx:184-190 | a countdown past its end is cleared and undims the screen; otherwise nothing changes |
| ExactClock.ExactMosqueClock.constructor | src/components/ExactMosqueClock.tsx:101-102 | the component starts with no countdown and an undimmed screen |
| ExactClock.ExactMosqueClock.CheckTrigger | src/components/ExactMosqueClock.tsx:145-181 | the trigger effect moves the state as the trigger function does |
| ExactClock.ExactMosqueClock.OnDimTimeout | src/components/ExactMosqueClock.tsx:175-178 | the dimming timeout moves the state as its function does |
| ExactClock.ExactMosqueClock.CheckExpiry | src/components/ExactMosqueClock.tsx:184-190 | the expiry effect moves the state as its function does |
| ExactClock.Entries | src/components/ExactMosqueClock.tsx:319-325 | one entry per prayer; which entry sits where is stated by the lemma below |
| ExactClock.EntriesInRecordOrder | src/components/ExactMosqueClock.tsx:319-325 | entry n is prayer n of the record order (fajr, dhuhr, asr, maghrib, isha), dated from its stored time on the day, or at the zero date when the time does not parse |
| ExactClock.EntryParses | src/components/ExactMosqueClock.tsx:319-325 | an entry with a non-zero date comes from a parsed time and is that time on the day |
| ExactClock.Positive | src/components/ExactMosqueClock.tsx:326 | the filter keeps exactly the entries with a positive date |
| ExactClock.InsertElements | src/components/ExactMosqueClock.tsx:327 | inserting adds exactly the one entry |
| ExactClock.SortSorted | src/components/ExactMosqueClock.tsx:327 | the sort orders by date and is a permutation |
| ExactClock.FindAfter | src/components/ExactMosqueClock.tsx:333 | `find` gives none exactly when no date is after now, otherwise an entry after now; FindAfterIsFirst pins which one |
| ExactClock.FindAfterIsFirst | src/components/ExactMosqueClock.tsx:333 | `find` returns the entry at the first index whose date is after now |
| ExactClock.EarliestAfterIsFirstEarliest | src/components/ExactMosqueClock.tsx:326-333 | the reference choice is none exactly when nothing is after now, otherwise an entry after now that no entry after now precedes in date, and every entry listed before it that is after now is strictly later |
| ExactClock.FindAfterInsert | src/components/ExactMosqueClock.tsx:327-333 | on a sorted list, inserting an entry makes `find` return it exactly when it is after now and not later than the previous answer, since it goes before entries of equal date |
| ExactClock.SortThenFind | src/components/ExactMosqueClock.tsx:327-333 | the stable sort by date followed by `find` picks the first of the earliest entries after now, in list order |
| ExactClock.PositiveEarliest | src/components/ExactMosqueClock.tsx:326-333 | dropping the entries at or before the epoch does not change that choice for a non-negative instant |
| ExactClock.FilterSortFind | src/components/ExactMosqueClock.tsx:326-333 | with an entry ahead, filter, sort and `find` succeed and pick the first of the earliest entries after now |
| ExactClock.NextEntryFirstEarliest | src/components/ExactMosqueClock.tsx:319-333 | with some time ahead, the next prayer is the earliest ahead, and on a tie the first in record order (fajr, dhuhr, asr, maghrib, isha) |
| ExactClock.FindAfterEarliest | src/components/ExactMosqueClock.tsx:333 | on a sorted list the found entry is the earliest after now |
| ExactClock.NextEntryNone | src/components/ExactMosqueClock.tsx:329-331 | with no valid time the display shows the placeholders |
| ExactClock.NextEntryFound | src/components/ExactMosqueClock.tsx:333 | when some valid time is still ahead, the next prayer is the earliest one ahead |
| ExactClock.NextEntryWraps | src/components/ExactMosqueClock.tsx:335-344 | when every time has passed, the next prayer is the earliest one, a day later |
| ExactClock.RemainingTextParts | src/components/ExactMosqueClock.tsx:350-356 | the remaining text shows whole hours and a minute between 1 and 60, with h·60 + m − 1 equal to the whole remaining minutes (floor plus one, so exactly 1 minute shows 00:02) |
| ExactClock.IqamaText | src/components/ExactMosqueClock.tsx:366-376 | there is iqama text exactly while a countdown has time left, and it shows the remaining minutes and seconds |

## Left out

- The ephemeris of the adhan library (solar coordinates, trigonometry, the hour-angle search) is not modelled. Transit, sunrise, sunset and the hour-angle and afternoon times are inputs, because they are floating-point trigonometry.
- Days are modelled without daylight-saving time or timezones. Adding a day (`setDate(getDate() + 1)`) adds 86 400 000 ms. The day's midnight and the day of the year are parameters, because local-time getters depend on the host.
- The high-latitude night portion outside the Moonsighting method is an input, because the code indexes an object with itself and gets `undefined`.
- Floating-point rounding is not modelled: reals are exact.
- JsText.ToNumber: `Number` is modelled on optionally signed decimal integers only (after trimming; an empty string is 0). A decimal point, an exponent, the `0x`/`0b`/`0o` prefixes and `Infinity` give NaN here, whereas JavaScript reads them as numbers. `parseInt(s, 10)` (JsText.ParseInt) is modelled in full: it skips leading white space, takes an optional sign and reads the leading decimal digits, so `parseInt("1.5", 10)` is 1 and `parseInt("0x1A", 10)` is 0.
- PhaseMachine.AzkarPeriod: the conversion of a timer delay to a 32-bit `long` wraps at 2^31 ms; azkar durations that long (over 270 days) are not modelled.
- Audio playback, the `paused` and `src` handling of the audio element, and the autoplay retries are not modelled. The model sees only their end and error events.
- The 250 ms polling loop and its `isChecking` guard are modelled as one `Poll` event per check.
- PhaseMachine.ResetToIdle: does not clear the 2000 ms reset timeout scheduled after the last remembrance, because the source keeps no reference to it. A reset followed by that timeout resets again; the model keeps it pending in the same way.
- Network requests, `localStorage`, the service's fetch and cache functions and the prayer-time flow are not modelled, because they are I/O. Storage contents enter as parameters (`StoredTimes`).
- JSON parsing of the stored originals is not modelled; it appears only as the three outcomes missing, malformed and present.
- The rendering (JSX), the weather widget, the dimming overlay and the random hadith picked at src/components/ExactMosqueClock.tsx:172 are not modelled.
- The merge-conflict markers at src/components/AlMoazinClock.tsx:189-197 are not modelled; the model follows the version that compiles.
- The base array of src/lib/prayerTimes.ts is corrupted at line 286. The model takes the base entries as supplied; an empty time stands for a falsy one. A truthy time that is not a string is not modelled: the source would pass it through `String(...)` and build an Invalid Date candidate from it (src/lib/prayerTimes.ts:294-300).
- Looking up a prototype property such as "constructor" in `getArabicName` is not modelled, because the model's maps hold no inherited keys.
- A missing key in a times record is not modelled, because the records are total. In the source, `split` on `undefined` throws.
- Passing `null` to `validatePrayerTimes` throws in the source; in the model the record is always a map.
- `(s || '')` for an undefined country or city is not modelled, because strings are never undefined.
- Only the three mapped countries of `resolveLocationMapping` are modelled. The dropdown lists of the other countries carry no logic.
- `convertTo12Hour` throws on a string without a colon. ConvertTo12Hour returns None there.
- PhaseMachine.PrayerClock.OnAudioFailed: acts on one failure. In the source a rejected `play()` (src/components/AlMoazinClock.tsx:628-635) and the `error` event (613-619) can both call `scheduleTransition`, and the second call moves the deadline once more; the model does not capture that second move.
- PhaseMachine.Leave: the effect cleanup (src/components/AlMoazinClock.tsx:650-661) leaves the `ended` and `error` listeners (lines 621-622) on the shared audio element (line 219). The model drops them (`listening` becomes false). So it does not capture a stale handler of a skipped adhan firing on the next adhan's `ended` event, where it would run the old prayer's `startIqamaAfterAdhan` with the old wait (line 573).
- PhaseMachine.PrayerClock: its settings are a constant for the clock's lifetime. Edits while the clock runs are not modelled: the phone-image effect restarting on a changed duration (dependencies at line 684), the callbacks rebuilt from the current settings (lines 403 and 424), and the adhan effect keeping the settings it started with (lines 546 and 573, dependencies at line 662).
- Adhan.Trunc, Adhan.AddHours, PrayerService.DateOf, ExactClock.EntryOf: a date stays valid at any size, whereas JavaScript makes a time value beyond ±8.64e15 ms (about 275 000 years from 1970) an Invalid Date. No clock time comes near that bound.
- ClockSettings.ArabicName: returns the proper Arabic prayer names. The `prayerNames` literal at src/components/AlMoazinClock.tsx:14-20 is double-encoded UTF-8, so the source displays mangled strings.

## Findings

| source | as written | input that shows it | evidently intended | confidence | as-written member | corrected member |
|---|---|---|---|---|---|---|
| src/lib/adhan-js.ts:1337-1343 | `interpolate` uses c = a + b, with a = y2 − y1 and b = y3 − y2 | y1 = 0, y2 = 1, y3 = 2 at n = 1 gives 3 | c = b − a (Meeus), so that n = 1 gives y3 = 2 | not executed | Adhan.InterpolateMissesY3 | Adhan.InterpolateMeeusThroughPoints |
| src/lib/adhan-js.ts:1255-1265, src/lib/adhan-js.ts:1281-1291 | after day 183 one last piece `d + (a − d)/(91 or 92)·(dYY − 183)` runs to the end of the year, past a | the morning constants at latitude 55 (a = 103.65, b = 94.44, c = 107.74, d = 123.1) on day 364 of a common year give under 85 minutes, below every knot, then more than 19 minutes more on the next day | the curve runs back d, c, b, a in pieces starting at days 183, 229 and 275, staying within its knots | medium, not executed | Adhan.SeasonAdjustmentAsWrittenOvershoots | Adhan.SeasonAdjustmentBetweenKnots |
