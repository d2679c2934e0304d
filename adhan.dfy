// The decision layer of the prayer-time engine in src/lib/adhan-js.ts.
// The solar ephemeris (transit, sunrise, sunset, hour angles, the Asr
// shadow time) is not modelled: its outputs enter as inputs, each either a
// real number of hours or NaN. Instants are integer milliseconds, or
// `Invalid` for a JS Date whose time value is NaN.

module Adhan {
  import JsText

  // ---------------------------------------------------------------------
  // Numbers and instants
  // ---------------------------------------------------------------------

  /** A JS number that is NaN or a finite real. */
  datatype RealNum = RNaN | R(v: real)

  function RAdd(a: RealNum, b: RealNum): RealNum {
    if a.R? && b.R? then R(a.v + b.v) else RNaN
  }

  function RSub(a: RealNum, b: RealNum): RealNum {
    if a.R? && b.R? then R(a.v - b.v) else RNaN
  }

  function RMul(a: RealNum, b: RealNum): RealNum {
    if a.R? && b.R? then R(a.v * b.v) else RNaN
  }

  /** The time value of a JS Date: NaN (an Invalid Date) or integer ms. */
  datatype Instant = Invalid | At(ms: int)

  /** Truncation toward zero, as `new Date(x)` applies to its time value. */
  function Trunc(x: real): (i: int)
    ensures x >= 0.0 ==> i as real <= x < i as real + 1.0
    ensures x < 0.0 ==> i as real - 1.0 < x <= i as real
  {
    if x >= 0.0 then x.Floor else -((-x).Floor)
  }

  /** `Math.round`: the nearest integer, halves rounded up. */
  function Round(x: real): (i: int)
    ensures x - 0.5 < i as real <= x + 0.5
  {
    (x + 0.5).Floor
  }

  /** `dateByAddingHours` (through minutes and seconds): `new Date(t + h * 3600000)`. */
  function AddHours(d: Instant, h: RealNum): (r: Instant)
    ensures r.At? <==> d.At? && h.R?
    ensures r.At? ==> -1.0 < r.ms as real - (d.ms as real + h.v * 3600000.0) < 1.0
    ensures r.At? && h.v >= 0.0 ==> r.ms >= d.ms
  {
    if d.At? && h.R? then At(Trunc(d.ms as real + h.v * 3600000.0)) else Invalid
  }

  /** `new Date(t.getTime() + k * 60000)` for a whole number of minutes k. */
  function AddMinutes(d: Instant, k: int): (r: Instant)
    ensures r.At? <==> d.At?
    ensures r.At? ==> r.ms == d.ms + k * 60000
  {
    if d.At? then At(d.ms + k * 60000) else Invalid
  }

  /** A whole number of hours is the same shift as sixty times as many minutes. */
  lemma AddWholeHours(d: Instant, k: int)
    ensures AddHours(d, R(k as real)) == AddMinutes(d, 60 * k)
  {
  }

  /** Shifting by j and then by k minutes is one shift by j + k; a zero shift
      changes nothing, so a shift by k is undone by a shift by -k. */
  lemma {:induction false} AddMinutesCompose(d: Instant, j: int, k: int)
    ensures AddMinutes(AddMinutes(d, j), k) == AddMinutes(d, j + k)
    ensures AddMinutes(d, 0) == d
    ensures AddMinutes(AddMinutes(d, k), -k) == d
    ensures d.At? ==> (Later(AddMinutes(d, k), d) <==> k > 0)
  {
    if d.At? {
      assert d.ms + j * 60000 + k * 60000 == d.ms + (j + k) * 60000;
    }
  }

  /** `a > b` on Dates: false when either is Invalid. */
  predicate Later(a: Instant, b: Instant) { a.At? && b.At? && a.ms > b.ms }

  /** `a >= b` on Dates: false when either is Invalid. */
  predicate NotBefore(a: Instant, b: Instant) { a.At? && b.At? && a.ms >= b.ms }

  // ---------------------------------------------------------------------
  // Astronomical helpers
  // ---------------------------------------------------------------------

  /** `normalize(value, max)`: value reduced into [0, max); NaN when max is 0. */
  function Normalize(value: real, max: real): (r: RealNum)
    ensures max == 0.0 <==> r.RNaN?
    ensures max > 0.0 ==> r.R? && 0.0 <= r.v < max
    ensures max != 0.0 ==> ((value - r.v) / max).Floor as real == (value - r.v) / max
  {
    if max == 0.0 then RNaN
    else
      var q := (value / max).Floor;
      var v := value - max * q as real;
      if max > 0.0 then
        FloorRemainder(value, max, q as real);
        WholeQuotient(value, max, v, q);
        R(v)
      else if v < 0.0 then
        OneMultipleLess(max, q as real);
        WholeQuotient(value, max, v + max, q - 1);
        R(v + max)
      else
        WholeQuotient(value, max, v, q);
        R(v)
  }

  /** A remainder w that leaves a whole multiple k of max. */
  lemma WholeQuotient(value: real, max: real, w: real, k: int)
    requires max != 0.0 && value - w == max * k as real
    ensures ((value - w) / max).Floor as real == (value - w) / max
  {
    DivCancel(value - w, max, k as real);
  }

  lemma OneMultipleLess(max: real, q: real)
    ensures max * q - max == max * (q - 1.0)
  {
  }

  lemma DivCancel(x: real, m: real, q: real)
    requires m != 0.0 && x == m * q
    ensures x / m == q
  {
  }

  lemma FloorRemainder(value: real, max: real, q: real)
    requires max > 0.0 && q <= value / max < q + 1.0
    ensures 0.0 <= value - max * q < max
  {
    DivShift(value, max, q);
    DivBounds(value - max * q, max);
  }

  lemma DivShift(value: real, m: real, q: real)
    requires m > 0.0
    ensures (value - m * q) / m == value / m - q
  {
  }

  lemma DivBounds(y: real, m: real)
    requires m > 0.0 && 0.0 <= y / m < 1.0
    ensures 0.0 <= y < m
  {
    assert y == (y / m) * m;
    MulMonotone(0.0, y / m, m);
    MulMonotone(y / m, 1.0, m);
  }

  lemma MulMonotone(a: real, b: real, k: real)
    requires k > 0.0 && a <= b
    ensures a * k <= b * k
    ensures a < b ==> a * k < b * k
  {
  }

  /** `unwindAngle`: an angle in degrees reduced into [0, 360). */
  function UnwindAngle(angle: real): (r: real)
    ensures 0.0 <= r < 360.0
    ensures ((angle - r) / 360.0).Floor as real == (angle - r) / 360.0
  {
    Normalize(angle, 360.0).v
  }

  /** `isLeapYear`; `%` only meets `=== 0` here, so its sign rule does not matter. */
  predicate IsLeapYear(year: int) {
    (year % 4 == 0 && year % 100 != 0) || year % 400 == 0
  }

  function DaysInYear(year: int): (n: int)
    ensures n == 365 || n == 366
  {
    if IsLeapYear(year) then 366 else 365
  }

  /** `daysSinceSolstice`: days since the last winter solstice of the observer's hemisphere. */
  function DaysSinceSolstice(dayOfYear: int, year: int, latitude: real): (r: int)
    ensures 1 <= dayOfYear <= DaysInYear(year) ==> 0 <= r < DaysInYear(year)
    ensures 1 <= dayOfYear <= DaysInYear(year) && latitude >= 0.0 ==>
      r == (dayOfYear + 10) % DaysInYear(year)
    ensures 1 <= dayOfYear <= DaysInYear(year) && latitude < 0.0 ==>
      r == (dayOfYear - (if IsLeapYear(year) then 173 else 172)) % DaysInYear(year)
  {
    var southernOffset := if IsLeapYear(year) then 173 else 172;
    var daysInYear := DaysInYear(year);
    if latitude >= 0.0 then
      var d := dayOfYear + 10;
      WrapOnce(d, daysInYear);
      if d >= daysInYear then d - daysInYear else d
    else
      var d := dayOfYear - southernOffset;
      WrapOnce(d, daysInYear);
      if d < 0 then d + daysInYear else d
  }

  /** One subtraction or addition of n brings x into [0, n) when it is
      less than one period out of it. */
  lemma WrapOnce(x: int, n: int)
    ensures n > 0 && n <= x < 2 * n ==> x - n == x % n
    ensures n > 0 && -n <= x < 0 ==> x + n == x % n
    ensures n > 0 && 0 <= x < n ==> x == x % n
  {
    if n > 0 && n <= x < 2 * n {
      assert x == n * 1 + (x - n);
    } else if n > 0 && -n <= x < 0 {
      assert x == n * (-1) + (x + n);
    }
  }

  /** `julianDayOfYear`, the Gregorian-calendar Julian Day (Meeus, chapter 7).
      `Math.floor(365.25 * y)` and `Math.floor(30.6001 * m)` are written as
      integer divisions, which are exact for whole y and m. */
  function JulianDayOfYear(year: int, month: int, day: int, hours: real): real {
    var y := if month <= 2 then year - 1 else year;
    var m := if month <= 2 then month + 12 else month;
    var a := y / 100;
    var b := 2 - a + a / 4;
    var days := (36525 * (y + 4716)) / 100 + (306001 * (m + 1)) / 10000 + day + b;
    days as real - 1524.5 + hours / 24.0
  }

  /** `julianCentury`: Julian centuries since J2000.0. */
  function JulianCentury(jd: real): real {
    (jd - 2451545.0) / 36525.0
  }

  lemma J2000()
    ensures JulianDayOfYear(2000, 1, 1, 12.0) == 2451545.0
    ensures JulianCentury(JulianDayOfYear(2000, 1, 1, 12.0)) == 0.0
  {
  }

  /** `Math.floor(365.25 * y)`, as integer arithmetic: 365 days per year
      and one more every fourth year. */
  lemma {:induction false} YearDays(y: int)
    ensures (36525 * y) / 100 == 365 * y + y / 4
  {
    var k, m := y / 4, y % 4;
    assert y == 4 * k + m && 0 <= m < 4;
    assert 36525 * y == 100 * (365 * y + k) + 25 * m;
  }

  /** The century correction `B` drops by one across the first day of a
      century year that is not a multiple of 400, and stays put otherwise. */
  lemma {:induction false} CenturyStep(year: int)
    ensures var A, A' := year / 100, (year - 1) / 100;
      (2 - A + A / 4) - (2 - A' + A' / 4) == (if year % 100 == 0 && year % 400 != 0 then -1 else 0)
  {
    var q, r := year / 400, year % 400;
    assert year == 400 * q + r && 0 <= r < 400;
    var A, A' := year / 100, (year - 1) / 100;
    assert A == 4 * q + r / 100;
    if r == 0 {
      assert A' == 4 * q - 1;
    } else {
      assert A' == 4 * q + (r - 1) / 100;
    }
  }

  /** The Julian day count agrees with the Gregorian leap rule: February has
      29 days in a leap year and 28 otherwise, in every year. */
  lemma {:induction false} FebruaryLength(year: int)
    ensures JulianDayOfYear(year, 3, 1, 0.0) - JulianDayOfYear(year, 2, 1, 0.0) ==
            if IsLeapYear(year) then 29.0 else 28.0
  {
    var march := (36525 * (year + 4716)) / 100 + (306001 * 4) / 10000 + 1 + (2 - year / 100 + (year / 100) / 4);
    var feb := (36525 * (year - 1 + 4716)) / 100 + (306001 * 15) / 10000 + 1 + (2 - (year - 1) / 100 + ((year - 1) / 100) / 4);
    assert march - feb == (if IsLeapYear(year) then 29 else 28) by {
      FebruaryDays(year);
    }
    assert JulianDayOfYear(year, 3, 1, 0.0) == march as real - 1524.5;
    assert JulianDayOfYear(year, 2, 1, 0.0) == feb as real - 1524.5;
  }

  lemma {:induction false} FebruaryDays(year: int)
    ensures ((36525 * (year + 4716)) / 100 + (306001 * 4) / 10000 + 1 + (2 - year / 100 + (year / 100) / 4))
          - ((36525 * (year - 1 + 4716)) / 100 + (306001 * 15) / 10000 + 1 + (2 - (year - 1) / 100 + ((year - 1) / 100) / 4))
         == (if IsLeapYear(year) then 29 else 28)
  {
    YearDays(year + 4716);
    YearDays(year - 1 + 4716);
    LeapDayStep(year);
    CenturyStep(year);
    LeapRule(year);
  }

  lemma {:induction false} LeapDayStep(year: int)
    ensures (year + 4716) / 4 - (year - 1 + 4716) / 4 == (if year % 4 == 0 then 1 else 0)
  {
    var k, m := year / 4, year % 4;
    assert year + 4716 == 4 * (k + 1179) + m;
    if m == 0 { assert year - 1 + 4716 == 4 * (k + 1178) + 3; }
    else { assert year - 1 + 4716 == 4 * (k + 1179) + (m - 1); }
  }

  lemma {:induction false} LeapRule(year: int)
    ensures IsLeapYear(year) == (year % 4 == 0 && !(year % 100 == 0 && year % 400 != 0))
  {
    if year % 400 == 0 { CenturyOfQuadricentennial(year); }
    if year % 100 == 0 { QuadrennialOfCentury(year); }
  }

  lemma CenturyOfQuadricentennial(year: int)
    requires year % 400 == 0
    ensures year % 100 == 0
  {
    assert year == 100 * (4 * (year / 400));
  }

  lemma QuadrennialOfCentury(year: int)
    requires year % 100 == 0
    ensures year % 4 == 0
  {
    assert year == 4 * (25 * (year / 100));
  }

  /** The hours enter as a fraction of a day. */
  lemma JulianDayHours(year: int, month: int, day: int, hours: real)
    ensures JulianDayOfYear(year, month, day, hours) == JulianDayOfYear(year, month, day, 0.0) + hours / 24.0
  {
  }

  /** The next day of the same month is one Julian Day later. */
  lemma JulianDayNextDay(year: int, month: int, day: int, hours: real)
    ensures JulianDayOfYear(year, month, day + 1, hours) == JulianDayOfYear(year, month, day, hours) + 1.0
  {
  }

  /** `interpolate(y2, y1, y3, n)` as it is written, with c = a + b. */
  function Interpolate(y2: real, y1: real, y3: real, n: real): (r: real)
    ensures n == 0.0 ==> r == y2
  {
    var a := y2 - y1;
    var b := y3 - y2;
    var c := a + b;
    y2 + (n / 2.0) * (a + b + n * c)
  }

  /** As written, the value at n = 1 is not y3 whenever y1 != y2. */
  lemma InterpolateMissesY3(y1: real, y2: real, y3: real)
    ensures Interpolate(y2, y1, y3, 1.0) == y3 + (y2 - y1)
    ensures Interpolate(1.0, 0.0, 2.0, 1.0) == 3.0
  {
  }

  /** The three-point interpolation of Meeus (formula 3.3), with c = b - a. */
  function InterpolateMeeus(y2: real, y1: real, y3: real, n: real): real {
    var a := y2 - y1;
    var b := y3 - y2;
    var c := b - a;
    y2 + (n / 2.0) * (a + b + n * c)
  }

  /** The corrected interpolation passes through all three tabulated points. */
  lemma InterpolateMeeusThroughPoints(y1: real, y2: real, y3: real)
    ensures InterpolateMeeus(y2, y1, y3, -1.0) == y1
    ensures InterpolateMeeus(y2, y1, y3, 0.0) == y2
    ensures InterpolateMeeus(y2, y1, y3, 1.0) == y3
  {
  }

  // ---------------------------------------------------------------------
  // Season-adjusted twilight (the Moonsighting Committee's safe bounds)
  // ---------------------------------------------------------------------

  /** One straight piece of the twilight tables: from p at t = 0 with the
      slope that reaches q at t = len. */
  function Piece(p: real, q: real, len: real, t: real): real
    requires len != 0.0
  {
    p + (q - p) / len * t
  }

  /** The piecewise-linear table of `seasonAdjustedMorningTwilight` and
      `seasonAdjustedEveningTwilight` as written, in minutes: a, b, c, d at
      days 0, 91, 137 and 183, then one straight piece with the slope that
      would reach a again 91 (leap year 92) days after day 183. That piece
      goes on past a until the end of the year. */
  function SeasonAdjustmentAsWritten(a: real, b: real, c: real, d: real, dyy: int, leap: bool): real {
    if dyy < 91 then Piece(a, b, 91.0, dyy as real)
    else if dyy < 137 then Piece(b, c, 46.0, (dyy - 91) as real)
    else if dyy < 183 then Piece(c, d, 46.0, (dyy - 137) as real)
    else Piece(d, a, if leap then 92.0 else 91.0, (dyy - 183) as real)
  }

  /** As written, the table leaves the range of its own knots. With the
      morning constants at latitude 55 (a = 103.65, b = 94.44, c = 107.74,
      d = 123.1), on the last day of a common year it gives under 85
      minutes, below every knot, and it jumps up by more than 19 minutes
      to a on the next day. */
  lemma SeasonAdjustmentAsWrittenOvershoots()
    ensures SeasonAdjustmentAsWritten(0.0, 0.0, 0.0, 91.0, 364, false) == -90.0
    ensures SeasonAdjustmentAsWritten(103.65, 94.44, 107.74, 123.1, 364, false) < 85.0
    ensures SeasonAdjustmentAsWritten(103.65, 94.44, 107.74, 123.1, 0, false) -
            SeasonAdjustmentAsWritten(103.65, 94.44, 107.74, 123.1, 364, false) > 19.0
  {
  }

  /** The table the twilight functions evidently intend: after day 183 it
      runs back from d through c and b to a, mirroring the first half of the
      year, so it stays within its knots and returns to a as the year wraps.
      The last piece keeps the source's leap-year length. */
  function SeasonAdjustment(a: real, b: real, c: real, d: real, dyy: int, leap: bool): real {
    if dyy < 91 then Piece(a, b, 91.0, dyy as real)
    else if dyy < 137 then Piece(b, c, 46.0, (dyy - 91) as real)
    else if dyy < 183 then Piece(c, d, 46.0, (dyy - 137) as real)
    else if dyy < 229 then Piece(d, c, 46.0, (dyy - 183) as real)
    else if dyy < 275 then Piece(c, b, 46.0, (dyy - 229) as real)
    else Piece(b, a, if leap then 92.0 else 91.0, (dyy - 275) as real)
  }

  /** The corrected table takes a, b, c, d, c, b at days 0, 91, 137, 183,
      229 and 275, and would reach a again one full last piece later. */
  lemma SeasonAdjustmentKnots(a: real, b: real, c: real, d: real, leap: bool)
    ensures SeasonAdjustment(a, b, c, d, 0, leap) == a
    ensures SeasonAdjustment(a, b, c, d, 91, leap) == b
    ensures SeasonAdjustment(a, b, c, d, 137, leap) == c
    ensures SeasonAdjustment(a, b, c, d, 183, leap) == d
    ensures SeasonAdjustment(a, b, c, d, 229, leap) == c
    ensures SeasonAdjustment(a, b, c, d, 275, leap) == b
    ensures SeasonAdjustment(a, b, c, d, if leap then 367 else 366, leap) == a
  {
  }

  predicate Between(x: real, p: real, q: real) {
    (p <= x <= q) || (q <= x <= p)
  }

  lemma MulLe(k: real, x: real, y: real)
    requires k >= 0.0 && x <= y
    ensures k * x <= k * y
  {
  }

  /** A point of a straight piece lies between the piece's end values. */
  lemma PieceBetween(p: real, q: real, len: real, t: real)
    requires len > 0.0 && 0.0 <= t <= len
    ensures Between(Piece(p, q, len, t), p, q)
  {
    var f := t / len;
    assert 0.0 <= f <= 1.0;
    assert (q - p) / len * t == (q - p) * f;
    if p <= q {
      MulLe(q - p, f, 1.0);
      MulLe(q - p, 0.0, f);
    } else {
      MulLe(p - q, f, 1.0);
      MulLe(p - q, 0.0, f);
    }
  }

  /** On every day of a year the corrected table lies between the values of
      the knots on either side of that day, so never outside the range of
      a, b, c and d. */
  lemma SeasonAdjustmentBetweenKnots(a: real, b: real, c: real, d: real, dyy: int, leap: bool)
    requires 0 <= dyy < 366
    ensures var v := SeasonAdjustment(a, b, c, d, dyy, leap);
      (dyy < 91 ==> Between(v, a, b)) &&
      (91 <= dyy < 137 ==> Between(v, b, c)) &&
      (137 <= dyy < 229 ==> Between(v, c, d)) &&
      (229 <= dyy < 275 ==> Between(v, c, b)) &&
      (275 <= dyy ==> Between(v, a, b))
  {
    if dyy < 91 { PieceBetween(a, b, 91.0, dyy as real); }
    else if dyy < 137 { PieceBetween(b, c, 46.0, (dyy - 91) as real); }
    else if dyy < 183 { PieceBetween(c, d, 46.0, (dyy - 137) as real); }
    else if dyy < 229 { PieceBetween(d, c, 46.0, (dyy - 183) as real); }
    else if dyy < 275 { PieceBetween(c, b, 46.0, (dyy - 229) as real); }
    else { PieceBetween(b, a, if leap then 92.0 else 91.0, (dyy - 275) as real); }
  }

  /** The table as written takes a, b, c, d at days 0, 91, 137 and 183,
      and a again one full last piece after day 183. */
  lemma SeasonAdjustmentAsWrittenKnots(a: real, b: real, c: real, d: real, leap: bool)
    ensures SeasonAdjustmentAsWritten(a, b, c, d, 0, leap) == a
    ensures SeasonAdjustmentAsWritten(a, b, c, d, 91, leap) == b
    ensures SeasonAdjustmentAsWritten(a, b, c, d, 137, leap) == c
    ensures SeasonAdjustmentAsWritten(a, b, c, d, 183, leap) == d
    ensures SeasonAdjustmentAsWritten(a, b, c, d, if leap then 275 else 274, leap) == a
  {
  }

  /** Up to day 274 the table as written lies between the knots on either
      side of the day. */
  lemma SeasonAdjustmentAsWrittenBetweenKnots(a: real, b: real, c: real, d: real, dyy: int, leap: bool)
    requires 0 <= dyy <= 274
    ensures var v := SeasonAdjustmentAsWritten(a, b, c, d, dyy, leap);
      (dyy < 91 ==> Between(v, a, b)) &&
      (91 <= dyy < 137 ==> Between(v, b, c)) &&
      (137 <= dyy < 183 ==> Between(v, c, d)) &&
      (183 <= dyy ==> Between(v, d, a))
  {
    if dyy < 91 { PieceBetween(a, b, 91.0, dyy as real); }
    else if dyy < 137 { PieceBetween(b, c, 46.0, (dyy - 91) as real); }
    else if dyy < 183 { PieceBetween(c, d, 46.0, (dyy - 137) as real); }
    else { PieceBetween(d, a, if leap then 92.0 else 91.0, (dyy - 183) as real); }
  }

  /** A straight piece followed for up to twice its length stays between its
      start p and the point 2q - p it would reach at twice the length. */
  lemma PieceExtended(p: real, q: real, len: real, t: real)
    requires len > 0.0 && 0.0 <= t <= 2.0 * len
    ensures Between(Piece(p, q, len, t), p, 2.0 * q - p)
  {
    var f := t / len;
    assert 0.0 <= f <= 2.0;
    assert (q - p) / len * t == (q - p) * f;
    if p <= q {
      MulLe(q - p, f, 2.0);
      MulLe(q - p, 0.0, f);
    } else {
      MulLe(p - q, f, 2.0);
      MulLe(p - q, 0.0, f);
    }
  }

  /** On every day of the year the table as written stays within any range
      that holds its four knots and the point 2a - d where its last piece
      ends on day 365. */
  lemma SeasonAdjustmentAsWrittenRange(a: real, b: real, c: real, d: real, dyy: int, leap: bool, lo: real, hi: real)
    requires 0 <= dyy < 366
    requires lo <= a <= hi && lo <= b <= hi && lo <= c <= hi && lo <= d <= hi && lo <= 2.0 * a - d <= hi
    ensures lo <= SeasonAdjustmentAsWritten(a, b, c, d, dyy, leap) <= hi
  {
    if dyy < 183 {
      SeasonAdjustmentAsWrittenBetweenKnots(a, b, c, d, dyy, leap);
    } else {
      PieceExtended(d, a, if leap then 92.0 else 91.0, (dyy - 183) as real);
    }
  }

  function Abs(x: real): real { if x < 0.0 then -x else x }

  function MorningAdjustment(latitude: real, dayOfYear: int, year: int): real {
    var l := Abs(latitude);
    SeasonAdjustmentAsWritten(75.0 + 28.65 / 55.0 * l, 75.0 + 19.44 / 55.0 * l,
                     75.0 + 32.74 / 55.0 * l, 75.0 + 48.1 / 55.0 * l,
                     DaysSinceSolstice(dayOfYear, year, latitude), IsLeapYear(year))
  }

  function EveningAdjustment(latitude: real, dayOfYear: int, year: int): real {
    var l := Abs(latitude);
    SeasonAdjustmentAsWritten(75.0 + 25.6 / 55.0 * l, 75.0 + 2.05 / 55.0 * l,
                     75.0 - 9.21 / 55.0 * l, 75.0 + 6.14 / 55.0 * l,
                     DaysSinceSolstice(dayOfYear, year, latitude), IsLeapYear(year))
  }

  /** `seasonAdjustedMorningTwilight`: the adjustment in minutes, rounded to
      whole ms, before sunrise. */
  function SeasonAdjustedMorningTwilight(latitude: real, dayOfYear: int, year: int, sunrise: Instant): (r: Instant)
    ensures r.At? <==> sunrise.At?
  {
    if sunrise.At? then At(sunrise.ms - Round(MorningAdjustment(latitude, dayOfYear, year) * 60000.0))
    else Invalid
  }

  /** `seasonAdjustedEveningTwilight`: the adjustment in minutes, rounded to
      whole ms, after sunset. */
  function SeasonAdjustedEveningTwilight(latitude: real, dayOfYear: int, year: int, sunset: Instant): (r: Instant)
    ensures r.At? <==> sunset.At?
  {
    if sunset.At? then At(sunset.ms + Round(EveningAdjustment(latitude, dayOfYear, year) * 60000.0))
    else Invalid
  }

  /** Round does not decrease. */
  lemma RoundMonotone(x: real, y: real)
    requires x <= y
    ensures Round(x) <= Round(y)
  {
  }

  /** On the knot days of the solstice count the morning bound lies exactly
      the rounded knot value before sunrise. */
  lemma MorningTwilightKnots(latitude: real, dayOfYear: int, year: int, sunrise: Instant)
    requires sunrise.At?
    ensures var r := SeasonAdjustedMorningTwilight(latitude, dayOfYear, year, sunrise);
      var l, dyy := Abs(latitude), DaysSinceSolstice(dayOfYear, year, latitude);
      r.At? &&
      (dyy == 0 ==> sunrise.ms - r.ms == Round((75.0 + 28.65 / 55.0 * l) * 60000.0)) &&
      (dyy == 91 ==> sunrise.ms - r.ms == Round((75.0 + 19.44 / 55.0 * l) * 60000.0)) &&
      (dyy == 137 ==> sunrise.ms - r.ms == Round((75.0 + 32.74 / 55.0 * l) * 60000.0)) &&
      (dyy == 183 ==> sunrise.ms - r.ms == Round((75.0 + 48.1 / 55.0 * l) * 60000.0))
  {
    var l := Abs(latitude);
    SeasonAdjustmentAsWrittenKnots(75.0 + 28.65 / 55.0 * l, 75.0 + 19.44 / 55.0 * l,
                                   75.0 + 32.74 / 55.0 * l, 75.0 + 48.1 / 55.0 * l, IsLeapYear(year));
  }

  /** On every day of the year the morning bound lies at least 75 minutes
      and at most the largest knot, 75 + 48.1/55 minutes per degree of
      latitude, before sunrise. */
  lemma MorningTwilightRange(latitude: real, dayOfYear: int, year: int, sunrise: Instant)
    requires sunrise.At? && 1 <= dayOfYear <= DaysInYear(year)
    ensures var r := SeasonAdjustedMorningTwilight(latitude, dayOfYear, year, sunrise);
      r.At? && 4500000 <= sunrise.ms - r.ms <= Round((75.0 + 48.1 / 55.0 * Abs(latitude)) * 60000.0)
  {
    var l := Abs(latitude);
    var hi := 75.0 + 48.1 / 55.0 * l;
    var dyy := DaysSinceSolstice(dayOfYear, year, latitude);
    SeasonAdjustmentAsWrittenRange(75.0 + 28.65 / 55.0 * l, 75.0 + 19.44 / 55.0 * l,
                                   75.0 + 32.74 / 55.0 * l, hi, dyy, IsLeapYear(year), 75.0, hi);
    var v := MorningAdjustment(latitude, dayOfYear, year);
    assert 75.0 <= v <= hi;
    RoundMonotone(v * 60000.0, hi * 60000.0);
  }

  /** On the knot days of the solstice count the evening bound lies exactly
      the rounded knot value after sunset. */
  lemma EveningTwilightKnots(latitude: real, dayOfYear: int, year: int, sunset: Instant)
    requires sunset.At?
    ensures var r := SeasonAdjustedEveningTwilight(latitude, dayOfYear, year, sunset);
      var l, dyy := Abs(latitude), DaysSinceSolstice(dayOfYear, year, latitude);
      r.At? &&
      (dyy == 0 ==> r.ms - sunset.ms == Round((75.0 + 25.6 / 55.0 * l) * 60000.0)) &&
      (dyy == 91 ==> r.ms - sunset.ms == Round((75.0 + 2.05 / 55.0 * l) * 60000.0)) &&
      (dyy == 137 ==> r.ms - sunset.ms == Round((75.0 - 9.21 / 55.0 * l) * 60000.0)) &&
      (dyy == 183 ==> r.ms - sunset.ms == Round((75.0 + 6.14 / 55.0 * l) * 60000.0))
  {
    var l := Abs(latitude);
    SeasonAdjustmentAsWrittenKnots(75.0 + 25.6 / 55.0 * l, 75.0 + 2.05 / 55.0 * l,
                                   75.0 - 9.21 / 55.0 * l, 75.0 + 6.14 / 55.0 * l, IsLeapYear(year));
  }

  /** On every day of the year the evening bound lies after sunset by at
      least the smallest knot, 75 - 9.21/55 minutes per degree of latitude,
      and at most 75 + 45.06/55 minutes per degree: the value 2a - d the
      last piece reaches at the end of the year. */
  lemma EveningTwilightRange(latitude: real, dayOfYear: int, year: int, sunset: Instant)
    requires sunset.At? && 1 <= dayOfYear <= DaysInYear(year)
    ensures var r := SeasonAdjustedEveningTwilight(latitude, dayOfYear, year, sunset);
      var l := Abs(latitude);
      r.At? && Round((75.0 - 9.21 / 55.0 * l) * 60000.0) <= r.ms - sunset.ms <= Round((75.0 + 45.06 / 55.0 * l) * 60000.0)
  {
    var l := Abs(latitude);
    var lo, hi := 75.0 - 9.21 / 55.0 * l, 75.0 + 45.06 / 55.0 * l;
    var dyy := DaysSinceSolstice(dayOfYear, year, latitude);
    SeasonAdjustmentAsWrittenRange(75.0 + 25.6 / 55.0 * l, 75.0 + 2.05 / 55.0 * l,
                                   lo, 75.0 + 6.14 / 55.0 * l, dyy, IsLeapYear(year), lo, hi);
    var v := EveningAdjustment(latitude, dayOfYear, year);
    assert lo <= v <= hi;
    RoundMonotone(lo * 60000.0, v * 60000.0);
    RoundMonotone(v * 60000.0, hi * 60000.0);
  }

  /** At the equator all four knots are 75, so both adjustments are 75
      minutes on every day of the year. */
  lemma EquatorAdjustment(dayOfYear: int, year: int)
    ensures MorningAdjustment(0.0, dayOfYear, year) == 75.0
    ensures EveningAdjustment(0.0, dayOfYear, year) == 75.0
  {
  }

  // ---------------------------------------------------------------------
  // Calculation parameters and the method catalog
  // ---------------------------------------------------------------------

  datatype Madhab = Shafi | Hanafi

  datatype HighLatitudeRule = MiddleOfTheNight | SeventhOfTheNight | TwilightAngle

  /** Whole minutes added to each prayer. */
  datatype PrayerAdjustments = PrayerAdjustments(fajr: int, sunrise: int, dhuhr: int, asr: int, maghrib: int, isha: int)

  const NoAdjustments := PrayerAdjustments(0, 0, 0, 0, 0, 0)

  datatype CalculationParameters = CalculationParameters(
    fajrAngle: real,
    ishaAngle: real,
    methodName: JsText.Option<string>,
    ishaInterval: int,
    madhab: Madhab,
    highLatitudeRule: HighLatitudeRule,
    adjustments: PrayerAdjustments,
    methodAdjustments: PrayerAdjustments)

  /** The `CalculationParameters` constructor: an omitted (or zero) interval is
      0, the madhab defaults to Shafi, the rule to MiddleOfTheNight, both
      adjustment records to all zeros. */
  function NewCalculationParameters(
    fajrAngle: real, ishaAngle: real, methodName: JsText.Option<string>,
    ishaInterval: JsText.Option<int>, madhab: JsText.Option<Madhab>,
    highLatitudeRule: JsText.Option<HighLatitudeRule>,
    adjustments: JsText.Option<PrayerAdjustments>,
    methodAdjustments: JsText.Option<PrayerAdjustments>): (p: CalculationParameters)
    ensures p.fajrAngle == fajrAngle && p.ishaAngle == ishaAngle && p.methodName == methodName
    ensures ishaInterval.None? ==> p.ishaInterval == 0
    ensures ishaInterval.Some? ==> p.ishaInterval == ishaInterval.value
    ensures madhab.None? ==> p.madhab == Shafi
    ensures madhab.Some? ==> p.madhab == madhab.value
    ensures highLatitudeRule.None? ==> p.highLatitudeRule == MiddleOfTheNight
    ensures highLatitudeRule.Some? ==> p.highLatitudeRule == highLatitudeRule.value
    ensures adjustments.None? ==> p.adjustments == NoAdjustments
    ensures adjustments.Some? ==> p.adjustments == adjustments.value
    ensures methodAdjustments.None? ==> p.methodAdjustments == NoAdjustments
    ensures methodAdjustments.Some? ==> p.methodAdjustments == methodAdjustments.value
  {
    CalculationParameters(
      fajrAngle, ishaAngle, methodName,
      if ishaInterval.Some? then ishaInterval.value else 0,
      if madhab.Some? then madhab.value else Shafi,
      if highLatitudeRule.Some? then highLatitudeRule.value else MiddleOfTheNight,
      if adjustments.Some? then adjustments.value else NoAdjustments,
      if methodAdjustments.Some? then methodAdjustments.value else NoAdjustments)
  }

  datatype Method =
    | MuslimWorldLeague | Egyptian | Karachi | UmmAlQura | Dubai
    | MoonsightingCommittee | NorthAmerica | Kuwait | Qatar | Singapore | Other

  /** The name each catalog entry stores in `method`. */
  function MethodName(m: Method): string {
    match m
    case MuslimWorldLeague => "MuslimWorldLeague"
    case Egyptian => "Egyptian"
    case Karachi => "Karachi"
    case UmmAlQura => "UmmAlQura"
    case Dubai => "Dubai"
    case MoonsightingCommittee => "MoonsightingCommittee"
    case NorthAmerica => "NorthAmerica"
    case Kuwait => "Kuwait"
    case Qatar => "Qatar"
    case Singapore => "Singapore"
    case Other => "Other"
  }

  /** The one-minute Dhuhr, Asr, Maghrib and Isha adjustment most methods carry. */
  const OneMinuteAfterNoon := PrayerAdjustments(0, 0, 1, 1, 1, 1)

  /** The `CalculationMethod` catalog. Only Umm al-Qura and Qatar use a fixed
      Isha interval (90 minutes, Isha angle 0); every entry keeps the
      constructor's defaults for the madhab, the rule and the user adjustments. */
  function MethodParameters(m: Method): (p: CalculationParameters)
    ensures p.methodName == JsText.Some(MethodName(m))
    ensures p.madhab == Shafi && p.highLatitudeRule == MiddleOfTheNight
    ensures p.adjustments == NoAdjustments
    ensures p.ishaInterval > 0 <==> m == UmmAlQura || m == Qatar
    ensures p.ishaInterval > 0 ==> p.ishaInterval == 90 && p.ishaAngle == 0.0
    ensures p.ishaInterval > 0 ==> p.methodAdjustments == NoAdjustments
    ensures m != Other <==> p.fajrAngle > 0.0
    ensures p.ishaInterval == 0 && m != Other ==> p.ishaAngle > 0.0
  {
    match m
    case MuslimWorldLeague =>
      NewCalculationParameters(18.0, 17.0, JsText.Some("MuslimWorldLeague"), JsText.None, JsText.None, JsText.None, JsText.None, JsText.Some(OneMinuteAfterNoon))
    case Egyptian =>
      NewCalculationParameters(19.5, 17.5, JsText.Some("Egyptian"), JsText.None, JsText.None, JsText.None, JsText.None, JsText.Some(OneMinuteAfterNoon))
    case Karachi =>
      NewCalculationParameters(18.0, 18.0, JsText.Some("Karachi"), JsText.None, JsText.None, JsText.None, JsText.None, JsText.Some(OneMinuteAfterNoon))
    case UmmAlQura =>
      NewCalculationParameters(18.5, 0.0, JsText.Some("UmmAlQura"), JsText.Some(90), JsText.None, JsText.None, JsText.None, JsText.None)
    case Dubai =>
      NewCalculationParameters(18.2, 18.2, JsText.Some("Dubai"), JsText.None, JsText.None, JsText.None, JsText.None, JsText.Some(PrayerAdjustments(0, -1, 1, 1, 1, 0)))
    case MoonsightingCommittee =>
      NewCalculationParameters(18.0, 18.0, JsText.Some("MoonsightingCommittee"), JsText.None, JsText.None, JsText.None, JsText.None, JsText.Some(PrayerAdjustments(0, 0, 5, 5, 3, 0)))
    case NorthAmerica =>
      NewCalculationParameters(15.0, 15.0, JsText.Some("NorthAmerica"), JsText.None, JsText.None, JsText.None, JsText.None, JsText.Some(OneMinuteAfterNoon))
    case Kuwait =>
      NewCalculationParameters(18.0, 17.5, JsText.Some("Kuwait"), JsText.None, JsText.None, JsText.None, JsText.None, JsText.None)
    case Qatar =>
      NewCalculationParameters(18.0, 0.0, JsText.Some("Qatar"), JsText.Some(90), JsText.None, JsText.None, JsText.None, JsText.None)
    case Singapore =>
      NewCalculationParameters(20.0, 18.0, JsText.Some("Singapore"), JsText.None, JsText.None, JsText.None, JsText.None, JsText.Some(OneMinuteAfterNoon))
    case Other =>
      NewCalculationParameters(0.0, 0.0, JsText.Some("Other"), JsText.None, JsText.None, JsText.None, JsText.None, JsText.None)
  }

  /** The stored names tell the methods apart, so the Moonsighting special
      cases (tested on the name) apply to exactly one catalog entry. */
  lemma MethodNamesDistinct(m1: Method, m2: Method)
    ensures MethodName(m1) == MethodName(m2) <==> m1 == m2
    ensures IsMoonsighting(MethodParameters(m1)) <==> m1 == MoonsightingCommittee
  {
  }

  // ---------------------------------------------------------------------
  // Assembling the six instants
  // ---------------------------------------------------------------------

  /** The ephemeris outputs the constructor reads, in hours after the UTC
      midnight of the date; `afternoon(k)` is the Asr time for shadow factor
      k and `hourAngle(angle, afterTransit)` the time the sun reaches the
      given altitude. */
  datatype SolarDay = SolarDay(
    transit: RealNum,
    sunrise: RealNum,
    sunset: RealNum,
    afternoon: real -> RealNum,
    hourAngle: (real, bool) -> RealNum)

  /** Everything the `PrayerTimes` constructor depends on. `portion` is the
      value the high-latitude rule lookup yields; the code indexes the rule's
      string by itself, which is `undefined`, so `portion` is `RNaN` there. */
  datatype Inputs = Inputs(
    latitude: real,
    midnight: Instant,
    dayOfYear: int,
    year: int,
    params: CalculationParameters,
    today: SolarDay,
    tomorrowSunrise: RealNum,
    portion: RealNum)

  datatype PrayerTimes = PrayerTimes(fajr: Instant, sunrise: Instant, dhuhr: Instant, asr: Instant, maghrib: Instant, isha: Instant)

  /** The Asr shadow factor of the madhab: 2 for Hanafi, 1 otherwise. */
  function ShadowFactor(madhab: Madhab): real {
    if madhab == Hanafi then 2.0 else 1.0
  }

  predicate IsMoonsighting(p: CalculationParameters) {
    p.methodName == JsText.Some("MoonsightingCommittee")
  }

  /** The Moonsighting Committee special case: the method's name and a signed latitude of at least 55. */
  predicate MoonsightingHighLatitude(inp: Inputs) {
    IsMoonsighting(inp.params) && inp.latitude >= 55.0
  }

  /** `tomorrowSunrise - sunset`, a difference of the two hour values. */
  function Night(inp: Inputs): RealNum {
    RSub(inp.tomorrowSunrise, inp.today.sunset)
  }

  /** `sunset + night / 7`, the Moonsighting candidate for both Fajr and Isha. */
  function SeventhAfterSunset(inp: Inputs): Instant {
    AddHours(inp.midnight, RAdd(inp.today.sunset, RMul(Night(inp), R(1.0 / 7.0))))
  }

  function SunriseTime(inp: Inputs): Instant { AddHours(inp.midnight, inp.today.sunrise) }

  function MaghribTime(inp: Inputs): Instant { AddHours(inp.midnight, inp.today.sunset) }

  function FajrCandidate(inp: Inputs): Instant {
    if MoonsightingHighLatitude(inp) then SeventhAfterSunset(inp)
    else AddHours(inp.midnight, inp.today.hourAngle(-inp.params.fajrAngle, false))
  }

  function IshaCandidate(inp: Inputs): Instant {
    if MoonsightingHighLatitude(inp) then SeventhAfterSunset(inp)
    else AddHours(inp.midnight, inp.today.hourAngle(-inp.params.ishaAngle, true))
  }

  function SafeFajr(inp: Inputs): Instant {
    if IsMoonsighting(inp.params) then
      SeasonAdjustedMorningTwilight(inp.latitude, inp.dayOfYear, inp.year, SunriseTime(inp))
    else AddHours(inp.midnight, RAdd(inp.today.sunset, RMul(inp.portion, Night(inp))))
  }

  function SafeIsha(inp: Inputs): Instant {
    if IsMoonsighting(inp.params) then
      SeasonAdjustedEveningTwilight(inp.latitude, inp.dayOfYear, inp.year, MaghribTime(inp))
    else AddHours(inp.midnight, RSub(inp.today.sunset, RMul(inp.portion, Night(inp))))
  }

  /** The Fajr fallback: an Invalid time, or one earlier than the safe bound,
      is replaced by the bound. */
  function NoEarlierThan(t: Instant, safe: Instant): (r: Instant)
    ensures t.Invalid? ==> r == safe
    ensures safe.Invalid? ==> r == t
    ensures t.At? && safe.At? ==> r.At? && r.ms >= safe.ms && r.ms >= t.ms && (r == t || r == safe)
  {
    if t.Invalid? || Later(safe, t) then safe else t
  }

  /** The Isha fallback: an Invalid time, or one later than the safe bound,
      is replaced by the bound. */
  function NoLaterThan(t: Instant, safe: Instant): (r: Instant)
    ensures t.Invalid? ==> r == safe
    ensures safe.Invalid? ==> r == t
    ensures t.At? && safe.At? ==> r.At? && r.ms <= safe.ms && r.ms <= t.ms && (r == t || r == safe)
  {
    if t.Invalid? || Later(t, safe) then safe else t
  }

  /** The six instants before the minute adjustments. */
  function Provisional(inp: Inputs): PrayerTimes
  {
    var maghrib := MaghribTime(inp);
    PrayerTimes(
      NoEarlierThan(FajrCandidate(inp), SafeFajr(inp)),
      SunriseTime(inp),
      AddHours(inp.midnight, inp.today.transit),
      AddHours(inp.midnight, inp.today.afternoon(ShadowFactor(inp.params.madhab))),
      maghrib,
      if inp.params.ishaInterval > 0 then AddMinutes(maghrib, inp.params.ishaInterval)
      else NoLaterThan(IshaCandidate(inp), SafeIsha(inp)))
  }

  /** The per-prayer sum of the user's and the method's adjustments. */
  function TotalAdjustments(p: CalculationParameters): PrayerAdjustments
  {
    var a, m := p.adjustments, p.methodAdjustments;
    PrayerAdjustments(a.fajr + m.fajr, a.sunrise + m.sunrise, a.dhuhr + m.dhuhr,
                      a.asr + m.asr, a.maghrib + m.maghrib, a.isha + m.isha)
  }

  function Adjust(pt: PrayerTimes, t: PrayerAdjustments): PrayerTimes {
    PrayerTimes(AddMinutes(pt.fajr, t.fajr), AddMinutes(pt.sunrise, t.sunrise),
                AddMinutes(pt.dhuhr, t.dhuhr), AddMinutes(pt.asr, t.asr),
                AddMinutes(pt.maghrib, t.maghrib), AddMinutes(pt.isha, t.isha))
  }

  /** What the `PrayerTimes` constructor produces. */
  function Times(inp: Inputs): PrayerTimes {
    Adjust(Provisional(inp), TotalAdjustments(inp.params))
  }

  /** The constructor, step by step as the source reassigns its locals. */
  method NewPrayerTimes(inp: Inputs) returns (pt: PrayerTimes)
    ensures pt == Times(inp)
  {
    var asrJuristic := inp.today.afternoon(if inp.params.madhab == Hanafi then 2.0 else 1.0);
    var dhuhrTime := AddHours(inp.midnight, inp.today.transit);
    var sunriseTime := AddHours(inp.midnight, inp.today.sunrise);
    var maghribTime := AddHours(inp.midnight, inp.today.sunset);
    var asrTime := AddHours(inp.midnight, asrJuristic);
    var night := RSub(inp.tomorrowSunrise, inp.today.sunset);
    var fajrTime := FajrWithFallback(inp, sunriseTime, night);
    var ishaTime := IshaWithFallback(inp, maghribTime, night);
    assert asrTime == Provisional(inp).asr;

    var adj, madj := inp.params.adjustments, inp.params.methodAdjustments;
    dhuhrTime := AddMinutes(dhuhrTime, adj.dhuhr + madj.dhuhr);
    fajrTime := AddMinutes(fajrTime, adj.fajr + madj.fajr);
    sunriseTime := AddMinutes(sunriseTime, adj.sunrise + madj.sunrise);
    asrTime := AddMinutes(asrTime, adj.asr + madj.asr);
    maghribTime := AddMinutes(maghribTime, adj.maghrib + madj.maghrib);
    ishaTime := AddMinutes(ishaTime, adj.isha + madj.isha);
    pt := PrayerTimes(fajrTime, sunriseTime, dhuhrTime, asrTime, maghribTime, ishaTime);
  }

  /** The Fajr steps of the constructor: the candidate, then the safe bound. */
  method FajrWithFallback(inp: Inputs, sunriseTime: Instant, night: RealNum) returns (fajrTime: Instant)
    requires sunriseTime == SunriseTime(inp) && night == Night(inp)
    ensures fajrTime == NoEarlierThan(FajrCandidate(inp), SafeFajr(inp))
  {
    fajrTime := AddHours(inp.midnight, inp.today.hourAngle(-inp.params.fajrAngle, false));
    if inp.params.methodName == JsText.Some("MoonsightingCommittee") && inp.latitude >= 55.0 {
      fajrTime := AddHours(inp.midnight, RAdd(inp.today.sunset, RMul(night, R(1.0 / 7.0))));
    }
    var safeFajr;
    if inp.params.methodName == JsText.Some("MoonsightingCommittee") {
      safeFajr := SeasonAdjustedMorningTwilight(inp.latitude, inp.dayOfYear, inp.year, sunriseTime);
    } else {
      safeFajr := AddHours(inp.midnight, RAdd(inp.today.sunset, RMul(inp.portion, night)));
    }
    assert fajrTime == FajrCandidate(inp) && safeFajr == SafeFajr(inp);
    if fajrTime.Invalid? || Later(safeFajr, fajrTime) {
      fajrTime := safeFajr;
    }
  }

  /** The Isha steps of the constructor: a fixed interval after Maghrib, or the
      candidate and then the safe bound. */
  method IshaWithFallback(inp: Inputs, maghribTime: Instant, night: RealNum) returns (ishaTime: Instant)
    requires maghribTime == MaghribTime(inp) && night == Night(inp)
    ensures inp.params.ishaInterval > 0 ==> ishaTime == AddMinutes(maghribTime, inp.params.ishaInterval)
    ensures inp.params.ishaInterval <= 0 ==> ishaTime == NoLaterThan(IshaCandidate(inp), SafeIsha(inp))
  {
    if inp.params.ishaInterval > 0 {
      ishaTime := AddMinutes(maghribTime, inp.params.ishaInterval);
    } else {
      ishaTime := AddHours(inp.midnight, inp.today.hourAngle(-inp.params.ishaAngle, true));
      if inp.params.methodName == JsText.Some("MoonsightingCommittee") && inp.latitude >= 55.0 {
        ishaTime := AddHours(inp.midnight, RAdd(inp.today.sunset, RMul(night, R(1.0 / 7.0))));
      }
      var safeIsha;
      if inp.params.methodName == JsText.Some("MoonsightingCommittee") {
        safeIsha := SeasonAdjustedEveningTwilight(inp.latitude, inp.dayOfYear, inp.year, maghribTime);
      } else {
        safeIsha := AddHours(inp.midnight, RSub(inp.today.sunset, RMul(inp.portion, night)));
      }
      assert ishaTime == IshaCandidate(inp) && safeIsha == SafeIsha(inp);
      if ishaTime.Invalid? || Later(ishaTime, safeIsha) {
        ishaTime := safeIsha;
      }
    }
  }

  /** Each output is its unadjusted instant moved by the summed adjustment of
      that prayer, once: the unadjusted instants do not depend on either
      adjustment record. */
  lemma AdjustmentsAppliedOnce(inp: Inputs)
    ensures var base := inp.(params := inp.params.(adjustments := NoAdjustments, methodAdjustments := NoAdjustments));
      var t, b, s := Times(inp), Times(base), TotalAdjustments(inp.params);
      t.fajr == AddMinutes(b.fajr, s.fajr) && t.sunrise == AddMinutes(b.sunrise, s.sunrise) &&
      t.dhuhr == AddMinutes(b.dhuhr, s.dhuhr) && t.asr == AddMinutes(b.asr, s.asr) &&
      t.maghrib == AddMinutes(b.maghrib, s.maghrib) && t.isha == AddMinutes(b.isha, s.isha)
  {
    var base := inp.(params := inp.params.(adjustments := NoAdjustments, methodAdjustments := NoAdjustments));
    assert FajrCandidate(base) == FajrCandidate(inp) && SafeFajr(base) == SafeFajr(inp);
    assert IshaCandidate(base) == IshaCandidate(inp) && SafeIsha(base) == SafeIsha(inp);
    assert Provisional(base) == Provisional(inp);
    var b := Times(base);
    assert b == Adjust(Provisional(inp), NoAdjustments);
    assert b == Provisional(inp);
  }

  /** After the fallback Fajr is never earlier than a valid safe bound, and
      Isha (without a fixed interval) never later; an Invalid Fajr or Isha
      is replaced by its bound. All of this holds before the adjustments, so
      the final times keep it shifted by the adjustment minutes. */
  lemma SafeBounds(inp: Inputs)
    ensures SafeFajr(inp).At? ==>
      Times(inp).fajr.At? && Times(inp).fajr.ms >= SafeFajr(inp).ms + TotalAdjustments(inp.params).fajr * 60000
    ensures FajrCandidate(inp).Invalid? ==> Times(inp).fajr == AddMinutes(SafeFajr(inp), TotalAdjustments(inp.params).fajr)
    ensures inp.params.ishaInterval <= 0 && SafeIsha(inp).At? ==>
      Times(inp).isha.At? && Times(inp).isha.ms <= SafeIsha(inp).ms + TotalAdjustments(inp.params).isha * 60000
    ensures inp.params.ishaInterval <= 0 && IshaCandidate(inp).Invalid? ==>
      Times(inp).isha == AddMinutes(SafeIsha(inp), TotalAdjustments(inp.params).isha)
  {
  }

  /** Outside the Moonsighting method the bound is built from the `undefined`
      portion, so it is Invalid and the fallback never changes anything. */
  lemma NoSafeBoundOutsideMoonsighting(inp: Inputs)
    requires !IsMoonsighting(inp.params) && inp.portion.RNaN?
    ensures Provisional(inp).fajr == FajrCandidate(inp)
    ensures inp.params.ishaInterval <= 0 ==> Provisional(inp).isha == IshaCandidate(inp)
  {
  }

  /** With the Moonsighting method above latitude 55, as written, Fajr and Isha
      start from the same candidate `sunset + night / 7`. */
  lemma MoonsightingCandidatesCoincide(inp: Inputs)
    requires MoonsightingHighLatitude(inp)
    ensures FajrCandidate(inp) == IshaCandidate(inp) == SeventhAfterSunset(inp)
  {
  }

  /** The Hanafi madhab asks for a shadow twice the object's length, every other for once. */
  lemma AsrShadowFactor(inp: Inputs)
    ensures inp.params.madhab == Hanafi ==> Provisional(inp).asr == AddHours(inp.midnight, inp.today.afternoon(2.0))
    ensures inp.params.madhab == Shafi ==> Provisional(inp).asr == AddHours(inp.midnight, inp.today.afternoon(1.0))
  {
  }

  /** A fixed interval puts Isha that many minutes after Maghrib, before the
      adjustments. */
  lemma IshaIntervalAfterMaghrib(inp: Inputs)
    requires inp.params.ishaInterval > 0 && MaghribTime(inp).At?
    ensures Provisional(inp).isha.At? &&
      Provisional(inp).isha.ms - Provisional(inp).maghrib.ms == inp.params.ishaInterval * 60000
  {
  }

  /** Umm al-Qura and Qatar, with the catalog's (zero) adjustments, put Isha
      exactly 90 minutes after Maghrib. */
  lemma FixedIntervalMethods(inp: Inputs, m: Method)
    requires m == UmmAlQura || m == Qatar
    requires inp.params == MethodParameters(m) && MaghribTime(inp).At?
    ensures Times(inp).maghrib.At? && Times(inp).isha.At?
    ensures Times(inp).isha.ms - Times(inp).maghrib.ms == 5400000
  {
    IshaIntervalAfterMaghrib(inp);
  }

  // ---------------------------------------------------------------------
  // Queries
  // ---------------------------------------------------------------------

  /** `Prayer.None` is `NoPrayer` here. */
  datatype Prayer = Fajr | Sunrise | Dhuhr | Asr | Maghrib | Isha | NoPrayer

  /** `timeForPrayer`: the instant of a prayer, null only for `Prayer.None`. */
  function TimeForPrayer(pt: PrayerTimes, p: Prayer): (r: JsText.Option<Instant>)
    ensures r.None? <==> p == NoPrayer
  {
    match p
    case Fajr => JsText.Some(pt.fajr)
    case Sunrise => JsText.Some(pt.sunrise)
    case Dhuhr => JsText.Some(pt.dhuhr)
    case Asr => JsText.Some(pt.asr)
    case Maghrib => JsText.Some(pt.maghrib)
    case Isha => JsText.Some(pt.isha)
    case NoPrayer => JsText.None
  }

  /** All six instants valid and in the order of the day. */
  predicate Ordered(pt: PrayerTimes) {
    pt.fajr.At? && pt.sunrise.At? && pt.dhuhr.At? && pt.asr.At? && pt.maghrib.At? && pt.isha.At? &&
    pt.fajr.ms <= pt.sunrise.ms <= pt.dhuhr.ms <= pt.asr.ms <= pt.maghrib.ms <= pt.isha.ms
  }

  /** The prayer after p in the day, `NoPrayer` after Isha and Fajr after `NoPrayer`. */
  function Successor(p: Prayer): Prayer {
    match p
    case NoPrayer => Fajr
    case Fajr => Sunrise
    case Sunrise => Dhuhr
    case Dhuhr => Asr
    case Asr => Maghrib
    case Maghrib => Isha
    case Isha => NoPrayer
  }

  /** `currentPrayer`: the latest prayer whose time is not after d. */
  function CurrentPrayer(pt: PrayerTimes, d: Instant): (p: Prayer)
    ensures d.Invalid? ==> p == NoPrayer
    ensures Ordered(pt) && d.At? ==> (p == NoPrayer <==> d.ms < pt.fajr.ms)
    ensures Ordered(pt) && d.At? ==> (p == Isha <==> d.ms >= pt.isha.ms)
    ensures p != NoPrayer ==> NotBefore(d, TimeForPrayer(pt, p).value)
    ensures Ordered(pt) && d.At? && p != NoPrayer && p != Isha ==> d.ms < TimeForPrayer(pt, Successor(p)).value.ms
  {
    if NotBefore(d, pt.isha) then Isha
    else if NotBefore(d, pt.maghrib) then Maghrib
    else if NotBefore(d, pt.asr) then Asr
    else if NotBefore(d, pt.dhuhr) then Dhuhr
    else if NotBefore(d, pt.sunrise) then Sunrise
    else if NotBefore(d, pt.fajr) then Fajr
    else NoPrayer
  }

  /** `nextPrayer`: the first prayer whose time is after d. */
  function NextPrayer(pt: PrayerTimes, d: Instant): (p: Prayer)
    ensures d.Invalid? ==> p == Fajr
    ensures Ordered(pt) && d.At? ==> (p == NoPrayer <==> d.ms >= pt.isha.ms)
    ensures Ordered(pt) && d.At? ==> (p == Fajr <==> d.ms < pt.fajr.ms)
    ensures Ordered(pt) && d.At? && p != NoPrayer ==> d.ms < TimeForPrayer(pt, p).value.ms
    ensures Ordered(pt) && d.At? && p != Fajr ==>
      exists q :: q != NoPrayer && Successor(q) == p && d.ms >= TimeForPrayer(pt, q).value.ms
  {
    if NotBefore(d, pt.isha) then
      assert TimeForPrayer(pt, Isha).value == pt.isha; NoPrayer
    else if NotBefore(d, pt.maghrib) then
      assert TimeForPrayer(pt, Maghrib).value == pt.maghrib; Isha
    else if NotBefore(d, pt.asr) then
      assert TimeForPrayer(pt, Asr).value == pt.asr; Maghrib
    else if NotBefore(d, pt.dhuhr) then
      assert TimeForPrayer(pt, Dhuhr).value == pt.dhuhr; Asr
    else if NotBefore(d, pt.sunrise) then
      assert TimeForPrayer(pt, Sunrise).value == pt.sunrise; Dhuhr
    else if NotBefore(d, pt.fajr) then
      assert TimeForPrayer(pt, Fajr).value == pt.fajr; Sunrise
    else Fajr
  }

  /** The two classifications are one step apart at every instant. */
  lemma NextFollowsCurrent(pt: PrayerTimes, d: Instant)
    ensures NextPrayer(pt, d) == Successor(CurrentPrayer(pt, d))
  {
  }
}
