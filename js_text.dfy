/** JavaScript string and number primitives that the clock code relies on:
    `Number(...)`, `parseInt(...)`, `String.prototype.split(':')`, `trim`,
    `padStart(2, '0')`, the truncating `%` operator and the way `NaN`
    propagates through arithmetic and comparisons.

    Numbers are modelled on the integer subset: a `Num` is either `NaN` or an
    unbounded integer. */
module JsText {

  datatype Option<T> = None | Some(value: T)

  /** A JavaScript number restricted to integers, or NaN. */
  datatype Num = NaN | Int(i: int)
  {
    predicate IsNaN() { NaN? }
  }

  // ---------------------------------------------------------------------
  // Arithmetic with NaN propagation (`undefined` in arithmetic is NaN too)
  // ---------------------------------------------------------------------

  function Add(a: Num, b: Num): Num {
    if a.Int? && b.Int? then Int(a.i + b.i) else NaN
  }

  function Sub(a: Num, b: Num): Num {
    if a.Int? && b.Int? then Int(a.i - b.i) else NaN
  }

  function Scale(a: Num, k: int): Num {
    if a.Int? then Int(a.i * k) else NaN
  }

  /** `a > b`: false whenever either side is NaN. */
  predicate Gt(a: Num, b: Num) { a.Int? && b.Int? && a.i > b.i }

  /** `a >= b`: false whenever either side is NaN. */
  predicate Ge(a: Num, b: Num) { a.Int? && b.Int? && a.i >= b.i }

  /** JavaScript's `%` on integers: the remainder takes the sign of the
      dividend (truncating division), unlike Dafny's Euclidean `%`. */
  function JsRem(a: int, b: int): (r: int)
    requires b > 0
    ensures -b < r < b
    ensures a >= 0 ==> r == a % b
    ensures a < 0 ==> r <= 0
    ensures a == b * TruncDiv(a, b) + r
  {
    if a >= 0 then a % b
    else
      assert -a == b * ((-a) / b) + (-a) % b;
      -((-a) % b)
  }

  /** A multiple of b strictly within b of zero is zero. */
  lemma SmallMultiple(b: int, k: int)
    requires b > 0 && -b < b * k < b
    ensures k == 0
  {
  }

  /** The Euclidean remainder is the only one in [0, b). */
  lemma ModUnique(a: int, b: int, q: int, r: int)
    requires b > 0 && 0 <= r < b && a == b * q + r
    ensures a % b == r
  {
    var q0, r0 := a / b, a % b;
    assert b * q0 + r0 == b * q + r;
    assert b * (q - q0) == r0 - r;
    SmallMultiple(b, q - q0);
  }

  /** Unlike Dafny's `%`, JavaScript's is odd in the dividend. */
  lemma JsRemNegate(a: int, b: int)
    requires b > 0
    ensures JsRem(-a, b) == -JsRem(a, b)
    ensures a < 0 && a % b != 0 ==> JsRem(a, b) == a % b - b
  {
    if a < 0 {
      var n := -a;
      var q, m := n / b, n % b;
      assert JsRem(a, b) == -m && JsRem(n, b) == m;
      assert n == b * q + m;
      if m != 0 {
        assert a == b * (-q - 1) + (b - m);
        ModUnique(a, b, -q - 1, b - m);
      } else {
        assert a == b * (-q);
        ModUnique(a, b, -q, 0);
      }
    } else if a > 0 {
      assert JsRem(-a, b) == -(a % b) && JsRem(a, b) == a % b;
    }
  }

  /** `Math.trunc(a / b)`: the quotient rounded toward zero. */
  function TruncDiv(a: int, b: int): int
    requires b > 0
  {
    if a >= 0 then a / b else -((-a) / b)
  }

  /** `Math.floor(a / b)` for a positive divisor. */
  function FloorDiv(a: int, b: int): (q: int)
    requires b > 0
    ensures q * b <= a < q * b + b
  {
    a / b
  }

  /** The milliseconds of one day. Moving a `Date` to the same clock time on
      the next day (`setDate(getDate() + 1)`) adds exactly this; daylight
      saving transitions are not modelled. */
  const DayMs: int := 86400000

  // ---------------------------------------------------------------------
  // Characters
  // ---------------------------------------------------------------------

  predicate IsDigit(c: char) { '0' <= c <= '9' }

  function DigitValue(c: char): (d: nat)
    requires IsDigit(c)
    ensures d < 10
  {
    (c as int) - ('0' as int)
  }

  function DigitChar(d: nat): (c: char)
    requires d < 10
    ensures IsDigit(c) && DigitValue(c) == d
  {
    (('0' as int) + d) as char
  }

  /** The characters JavaScript's `trim` and the regular-expression class
      `\s` treat as white space (WhiteSpace and LineTerminator): tab to
      carriage return, the space, and a few characters from U+00A0 up. */
  predicate IsJsSpace(c: char) {
    if c <= ' ' then c == ' ' || '\t' <= c <= '\r' else '\U{00A0}' <= c && IsWideSpace(c)
  }

  predicate IsWideSpace(c: char) {
    c == '\U{00A0}' || c == '\U{1680}' || ('\U{2000}' <= c <= '\U{200A}') ||
    c == '\U{2028}' || c == '\U{2029}' || c == '\U{202F}' || c == '\U{205F}' ||
    c == '\U{3000}' || c == '\U{FEFF}'
  }

  predicate AllDigits(s: string) { forall i :: 0 <= i < |s| ==> IsDigit(s[i]) }

  predicate AllSpace(s: string) { forall i :: 0 <= i < |s| ==> IsJsSpace(s[i]) }

  // ---------------------------------------------------------------------
  // trim
  // ---------------------------------------------------------------------

  // The string functions below carry no quantified postconditions: their
  // properties are lemmas, so that a proof only pays for the facts it asks
  // for.

  /** `String.prototype.trimStart`. */
  function TrimStart(s: string): string {
    if s != [] && IsJsSpace(s[0]) then TrimStart(s[1..]) else s
  }

  /** `String.prototype.trimEnd`. */
  function TrimEnd(s: string): string {
    if s != [] && IsJsSpace(s[|s| - 1]) then TrimEnd(s[..|s| - 1]) else s
  }

  /** `String.prototype.trim`. */
  function Trim(s: string): string {
    TrimEnd(TrimStart(s))
  }

  /** trimStart removes a prefix made only of white space and stops at the
      first other character. */
  lemma {:induction false} TrimStartRemovesSpace(s: string)
    ensures |TrimStart(s)| <= |s| && TrimStart(s) == s[|s| - |TrimStart(s)|..]
    ensures AllSpace(s[..|s| - |TrimStart(s)|])
    ensures TrimStart(s) != [] ==> !IsJsSpace(TrimStart(s)[0])
  {
    if s != [] && IsJsSpace(s[0]) {
      TrimStartRemovesSpace(s[1..]);
      var r := TrimStart(s[1..]);
      assert s[..|s| - |r|] == [s[0]] + s[1..][..|s| - 1 - |r|];
    }
  }

  /** trimEnd removes a suffix made only of white space and stops at the
      last other character. */
  lemma {:induction false} TrimEndRemovesSpace(s: string)
    ensures |TrimEnd(s)| <= |s| && TrimEnd(s) == s[..|TrimEnd(s)|]
    ensures AllSpace(s[|TrimEnd(s)|..])
    ensures TrimEnd(s) != [] ==> !IsJsSpace(TrimEnd(s)[|TrimEnd(s)| - 1])
  {
    if s != [] && IsJsSpace(s[|s| - 1]) {
      TrimEndRemovesSpace(s[..|s| - 1]);
      var r := TrimEnd(s[..|s| - 1]);
      assert s[|r|..] == s[..|s| - 1][|r|..] + [s[|s| - 1]];
    }
  }

  /** A string that neither starts nor ends with white space is its own trim. */
  lemma TrimOfUnpadded(s: string)
    requires s != [] && !IsJsSpace(s[0]) && !IsJsSpace(s[|s| - 1])
    ensures Trim(s) == s
  {
  }

  // ---------------------------------------------------------------------
  // Decimal digit strings
  // ---------------------------------------------------------------------

  /** The value of a string of decimal digits, read left to right. */
  function DigitsValue(s: string): nat
    requires AllDigits(s)
  {
    if s == [] then 0 else DigitsValue(s[..|s| - 1]) * 10 + DigitValue(s[|s| - 1])
  }

  /** The shortest decimal spelling of a natural number (`String(n)`). */
  function NatToString(n: nat): (s: string)
    ensures 1 <= |s| && AllDigits(s)
  {
    if n < 10 then [DigitChar(n)] else NatToString(n / 10) + [DigitChar(n % 10)]
  }

  /** `String(i)` for an integer. */
  function IntToString(i: int): string {
    if i < 0 then "-" + NatToString(-i) else NatToString(i)
  }

  /** `String(x)` for a number that may be NaN. */
  function NumToString(x: Num): string {
    if x.NaN? then "NaN" else IntToString(x.i)
  }

  /** `s.padStart(2, '0')`. */
  function PadStart2(s: string): string {
    if |s| >= 2 then s else if |s| == 1 then "0" + s else "00"
  }

  /** `String(i).padStart(2, '0')`. */
  function Pad2(i: int): string {
    PadStart2(IntToString(i))
  }

  /** No spelling of a number contains a colon. */
  lemma NoColonInNumber(x: Num)
    ensures ':' !in NumToString(x)
    ensures x.Int? ==> ':' !in IntToString(x.i) && ':' !in Pad2(x.i)
  {
    if x.Int? {
      var i := x.i;
      var n: nat := if i < 0 then -i else i;
      assert AllDigits(NatToString(n));
      assert ':' !in NatToString(n);
      assert ':' !in IntToString(i) by {
        if i < 0 {
          forall k | 0 <= k < |IntToString(i)| ensures IntToString(i)[k] != ':' {
            if k > 0 { assert IntToString(i)[k] == NatToString(n)[k - 1]; }
          }
        }
      }
      var t := IntToString(i);
      assert ':' !in Pad2(i) by {
        if |t| < 2 {
          forall k | 0 <= k < |Pad2(i)| ensures Pad2(i)[k] != ':' {
            if k > 0 { assert Pad2(i)[k] == t[k - (2 - |t|)]; }
          }
        }
      }
    }
  }

  lemma {:induction false} NatToStringValue(n: nat)
    ensures DigitsValue(NatToString(n)) == n
  {
    var s := NatToString(n);
    if n >= 10 {
      NatToStringValue(n / 10);
      assert s[..|s| - 1] == NatToString(n / 10);
    }
  }

  lemma {:induction false} LeadingZeroValue(s: string)
    requires AllDigits(s)
    ensures AllDigits("0" + s) && DigitsValue("0" + s) == DigitsValue(s)
  {
    var z := "0" + s;
    assert AllDigits(z) by {
      forall i | 0 <= i < |z| ensures IsDigit(z[i]) {
        if i > 0 { assert z[i] == s[i - 1]; }
      }
    }
    if s != [] {
      assert z[..|z| - 1] == "0" + s[..|s| - 1];
      LeadingZeroValue(s[..|s| - 1]);
    }
  }

  /** A zero-padded natural number reads back as itself. */
  lemma Pad2Digits(n: nat)
    ensures AllDigits(Pad2(n)) && DigitsValue(Pad2(n)) == n
    ensures n < 100 ==> |Pad2(n)| == 2
  {
    NatToStringValue(n);
    var t := NatToString(n);
    if |t| < 2 {
      LeadingZeroValue(t);
      assert Pad2(n) == "0" + t;
    }
    if n < 100 {
      if n >= 10 { assert NatToString(n / 10) == [DigitChar(n / 10)]; }
    }
  }

  /** Every two-digit string is the zero-padded spelling of its value. */
  lemma TwoDigitsValue(s: string)
    requires |s| == 2 && AllDigits(s)
    ensures DigitsValue(s) == DigitValue(s[0]) * 10 + DigitValue(s[1])
  {
    assert s[..1] == [s[0]] && s[..1][..0] == [];
    assert DigitsValue(s[..1]) == DigitsValue(s[..1][..0]) * 10 + DigitValue(s[0]);
    assert DigitsValue(s) == DigitsValue(s[..1]) * 10 + DigitValue(s[1]);
  }

  lemma DigitCharOfValue(c: char)
    requires IsDigit(c)
    ensures DigitChar(DigitValue(c)) == c
  {
  }

  /** Spelling and padding of a number below 100. */
  lemma Pad2Small(v: nat)
    requires v < 100
    ensures v < 10 ==> Pad2(v) == ['0', DigitChar(v)]
    ensures 10 <= v ==> Pad2(v) == [DigitChar(v / 10), DigitChar(v % 10)]
  {
    if 10 <= v {
      assert NatToString(v / 10) == [DigitChar(v / 10)];
    }
  }

  lemma SplitTens(a: nat, b: nat)
    requires a < 10 && b < 10
    ensures (a * 10 + b) / 10 == a && (a * 10 + b) % 10 == b
  {
  }

  lemma Pad2OfTwoDigits(s: string)
    requires |s| == 2 && AllDigits(s)
    ensures DigitsValue(s) < 100 && Pad2(DigitsValue(s)) == s
  {
    TwoDigitsValue(s);
    var a, b := DigitValue(s[0]), DigitValue(s[1]);
    var v := DigitsValue(s);
    Pad2Small(v);
    DigitCharOfValue(s[0]);
    DigitCharOfValue(s[1]);
    if a == 0 {
      assert v == b;
      assert s == ['0', s[1]];
    } else {
      SplitTens(a, b);
      assert s == [s[0], s[1]];
    }
  }

  // ---------------------------------------------------------------------
  // Number(...) and parseInt(...)
  // ---------------------------------------------------------------------

  /** `Number(s)` on the integer subset: the trimmed empty string is 0, an
      optionally signed run of decimal digits is its value, and everything
      else is NaN. */
  function ToNumber(s: string): Num {
    var t := Trim(s);
    if t == [] then Int(0)
    else if |t| > 1 && t[0] == '-' && AllDigits(t[1..]) then Int(-(DigitsValue(t[1..]) as int))
    else if |t| > 1 && t[0] == '+' && AllDigits(t[1..]) then Int(DigitsValue(t[1..]))
    else if AllDigits(t) then Int(DigitsValue(t))
    else NaN
  }

  lemma ToNumberDigits(s: string)
    requires s != [] && AllDigits(s)
    ensures ToNumber(s) == Int(DigitsValue(s))
  {
    assert !IsJsSpace(s[0]) && !IsJsSpace(s[|s| - 1]);
    assert TrimStart(s) == s;
    assert Trim(s) == s;
  }

  /** The longest prefix of decimal digits. */
  function DigitPrefix(s: string): (p: string)
    ensures AllDigits(p) && |p| <= |s| && p == s[..|p|]
    ensures |p| < |s| ==> !IsDigit(s[|p|])
  {
    if s != [] && IsDigit(s[0]) then [s[0]] + DigitPrefix(s[1..]) else []
  }

  /** `parseInt(s, 10)`: leading white space is skipped, an optional sign is
      read, then the longest run of digits; NaN when there is no digit. */
  function ParseInt(s: string): Num {
    var t := TrimStart(s);
    var neg := t != [] && t[0] == '-';
    var unsigned := if t != [] && (t[0] == '-' || t[0] == '+') then t[1..] else t;
    var digits := DigitPrefix(unsigned);
    if digits == [] then NaN
    else
      Int(if neg then -(DigitsValue(digits) as int) else DigitsValue(digits))
  }

  lemma DigitPrefixOfDigits(s: string)
    requires AllDigits(s)
    ensures DigitPrefix(s) == s
  {
    var p := DigitPrefix(s);
    if |p| < |s| { assert false; }
  }

  /** `parseInt(s, 10)` stops at the first character that is not a digit. */
  lemma ParseIntStopsAtNonDigit()
    ensures ParseInt("1.5") == Int(1)
    ensures ParseInt("0x1A") == Int(0)
    ensures ParseInt(" -7:30") == Int(-7)
  {
    assert TrimStart("1.5") == "1.5";
    assert "1.5"[1..] == ".5" && DigitPrefix(".5") == [];
    assert DigitPrefix("1.5") == "1";
    assert DigitsValue("1") == 1;
    assert " -7:30"[1..] == "-7:30" && TrimStart("-7:30") == "-7:30";
    assert TrimStart(" -7:30") == "-7:30";
    assert "-7:30"[1..] == "7:30" && "7:30"[1..] == ":30" && DigitPrefix(":30") == [];
    assert DigitPrefix("7:30") == "7";
    assert DigitsValue("7") == 7;
  }

  lemma ParseIntDigits(s: string)
    requires s != [] && AllDigits(s)
    ensures ParseInt(s) == Int(DigitsValue(s))
  {
    assert IsDigit(s[0]);
    assert TrimStart(s) == s;
    DigitPrefixOfDigits(s);
  }

  // ---------------------------------------------------------------------
  // split(':')
  // ---------------------------------------------------------------------

  function IndexOf(s: string, c: char): (i: nat)
    requires c in s
    ensures i < |s| && s[i] == c && c !in s[..i]
  {
    if s[0] == c then 0 else
      assert c in s[1..];
      var j := IndexOf(s[1..], c);
      assert s[..j + 1] == [s[0]] + s[1..][..j];
      j + 1
  }

  /** `parts.join(sep)`. */
  function Join(parts: seq<string>, sep: char): string
    requires |parts| >= 1
  {
    if |parts| == 1 then parts[0] else parts[0] + [sep] + Join(parts[1..], sep)
  }

  /** `s.split(sep)` for a one-character separator: the pieces between the
      separators, none of which holds one, and which join back into `s`. */
  function Split(s: string, sep: char): (parts: seq<string>)
    ensures |parts| >= 1
    ensures (|parts| == 1) == (sep !in s)
    ensures forall k :: 0 <= k < |parts| ==> sep !in parts[k]
    ensures Join(parts, sep) == s
    decreases |s|
  {
    if sep !in s then [s]
    else
      var i := IndexOf(s, sep);
      var rest := Split(s[i + 1..], sep);
      assert s == s[..i] + [sep] + s[i + 1..];
      assert ([s[..i]] + rest)[1..] == rest;
      [s[..i]] + rest
  }

  /** Splitting the concatenation of two colon-free parts around one colon
      gives back the two parts. */
  lemma SplitTwo(a: string, b: string)
    requires ':' !in a && ':' !in b
    ensures Split(a + ":" + b, ':') == [a, b]
  {
    var s := a + ":" + b;
    assert s[|a|] == ':';
    var i := IndexOf(s, ':');
    if i > |a| { assert false; }
    assert s[..i] == a;
    assert s[i + 1..] == b;
  }

  /** The value obtained for element `k` of `s.split(':').map(Number)` under
      array destructuring: a missing element is `undefined`, which behaves
      as NaN in arithmetic. */
  function NumberPart(s: string, k: nat): Num {
    var parts := Split(s, ':');
    if k < |parts| then ToNumber(parts[k]) else NaN
  }

  /** `const [h, m] = s.split(':').map(Number); h * 60 + m`. */
  function MinutesOf(s: string): Num {
    Add(Scale(NumberPart(s, 0), 60), NumberPart(s, 1))
  }

  /** A well-formed clock string: two digits, a colon, two digits. */
  predicate IsHHMM(s: string) {
    |s| == 5 && IsDigit(s[0]) && IsDigit(s[1]) && s[2] == ':' && IsDigit(s[3]) && IsDigit(s[4])
  }

  function Hours(s: string): nat requires IsHHMM(s) { DigitValue(s[0]) * 10 + DigitValue(s[1]) }

  function Mins(s: string): nat requires IsHHMM(s) { DigitValue(s[3]) * 10 + DigitValue(s[4]) }

  /** The colon-separated parts of a well-formed clock string. */
  lemma HHMMParts(s: string)
    requires IsHHMM(s)
    ensures Split(s, ':') == [s[..2], s[3..]]
    ensures AllDigits(s[..2]) && AllDigits(s[3..])
    ensures DigitsValue(s[..2]) == Hours(s) && DigitsValue(s[3..]) == Mins(s)
  {
    assert s == s[..2] + ":" + s[3..];
    assert ':' !in s[..2] by { assert s[..2] == [s[0], s[1]]; }
    assert ':' !in s[3..] by { assert s[3..] == [s[3], s[4]]; }
    SplitTwo(s[..2], s[3..]);
    TwoDigitsValue(s[..2]);
    TwoDigitsValue(s[3..]);
  }

  /** `MinutesOf` of a well-formed clock string is its minute of the day. */
  lemma {:induction false} MinutesOfHHMM(s: string)
    requires IsHHMM(s)
    ensures MinutesOf(s) == Int(Hours(s) * 60 + Mins(s))
  {
    HoursPart(s);
    MinutesPart(s);
    ClockArithmetic(Hours(s), Mins(s));
  }

  lemma ClockArithmetic(h: int, m: int)
    ensures Add(Scale(Int(h), 60), Int(m)) == Int(h * 60 + m)
  {
  }

  lemma {:induction false} HoursPart(s: string)
    requires IsHHMM(s)
    ensures NumberPart(s, 0) == Int(Hours(s))
  {
    HHMMParts(s);
    ToNumberDigits(s[..2]);
  }

  lemma {:induction false} MinutesPart(s: string)
    requires IsHHMM(s)
    ensures NumberPart(s, 1) == Int(Mins(s))
  {
    HHMMParts(s);
    ToNumberDigits(s[3..]);
  }

  /** The zero-padded "HH:MM" spelling of hours and minutes. */
  function FormatHHMM(h: int, m: int): string {
    Pad2(h) + ":" + Pad2(m)
  }

  lemma FormatHHMMParts(h: nat, m: nat)
    requires h < 100 && m < 100
    ensures IsHHMM(FormatHHMM(h, m))
    ensures Hours(FormatHHMM(h, m)) == h && Mins(FormatHHMM(h, m)) == m
  {
    Pad2Digits(h);
    Pad2Digits(m);
    var s := FormatHHMM(h, m);
    var a, b := Pad2(h), Pad2(m);
    assert s[..2] == a && s[3..] == b;
    TwoDigitsValue(a);
    TwoDigitsValue(b);
  }

  /** A well-formed clock string is the padded spelling of its own parts. */
  lemma HHMMIsFormatted(s: string)
    requires IsHHMM(s)
    ensures FormatHHMM(Hours(s), Mins(s)) == s
  {
    HHMMParts(s);
    Pad2OfTwoDigits(s[..2]);
    Pad2OfTwoDigits(s[3..]);
    assert s == s[..2] + ":" + s[3..];
  }

  // ---------------------------------------------------------------------
  // Times of day
  // ---------------------------------------------------------------------

  /** A well-formed time of day: "HH:MM" with HH < 24 and MM < 60. */
  predicate IsTimeOfDay(s: string) {
    IsHHMM(s) && Hours(s) < 24 && Mins(s) < 60
  }

  /** The minute of the day a clock string names. */
  function ClockMinutes(s: string): int
    requires IsHHMM(s)
  {
    Hours(s) * 60 + Mins(s)
  }

  lemma SplitMinute(h: int, m: int)
    requires 0 <= m < 60
    ensures (h * 60 + m) / 60 == h && (h * 60 + m) % 60 == m
  {
  }

  lemma TimeOfDayRange(s: string)
    requires IsTimeOfDay(s)
    ensures 0 <= ClockMinutes(s) < 1440
    ensures ClockMinutes(s) / 60 == Hours(s) && ClockMinutes(s) % 60 == Mins(s)
  {
    SplitMinute(Hours(s), Mins(s));
  }

  /** The spelling of a minute of the day is a time of day naming it. */
  lemma FormatMinuteOfDay(v: int)
    requires 0 <= v < 1440
    ensures IsTimeOfDay(FormatHHMM(v / 60, v % 60))
    ensures ClockMinutes(FormatHHMM(v / 60, v % 60)) == v
  {
    FormatHHMMParts(v / 60, v % 60);
  }

  /** A time of day is determined by the minute it names. */
  lemma {:induction false} SameClockMinutes(a: string, b: string)
    requires IsTimeOfDay(a) && IsTimeOfDay(b) && ClockMinutes(a) == ClockMinutes(b)
    ensures a == b
  {
    TimeOfDayRange(a);
    TimeOfDayRange(b);
    HHMMIsFormatted(a);
    HHMMIsFormatted(b);
  }

  /** The two colon-separated numbers of a time of day. */
  lemma {:induction false} TimeOfDayParts(s: string)
    requires IsTimeOfDay(s)
    ensures ':' in s && NumberPart(s, 0) == Int(Hours(s)) && NumberPart(s, 1) == Int(Mins(s))
  {
    assert s[2] == ':';
    HoursPart(s);
    MinutesPart(s);
  }
}
