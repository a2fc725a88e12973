/**
  RFC 3339 timestamps with a trimmed nanosecond fraction, before and after the
  epoch.
 */
module Timestamp {
  import opened CivilCalendar

  const BILLION: int := 1_000_000_000

  /** An instant in nanoseconds since the epoch, as whole seconds and a fraction that is never negative. */
  function Clock(instant: int): (int, int) {
    if instant >= 0 then (instant / BILLION, instant % BILLION) else
      var before := -instant;
      if before % BILLION == 0 then (-(before / BILLION), 0)
      else (-(before / BILLION) - 1, BILLION - before % BILLION)
  }

  lemma ClockIsExact(instant: int)
    ensures var (secs, nanos) := Clock(instant); secs * BILLION + nanos == instant && 0 <= nanos < BILLION
  {
  }

  datatype Fields = Fields(date: Date, hour: int, minute: int, second: int, nanos: int)

  /** The parts `rfc3339_nano` prints. */
  function FieldsOf(instant: int): Fields {
    var (secs, nanos) := Clock(instant);
    var ofDay := secs % 86400;
    Fields(CivilFromDays(secs / 86400), ofDay / 3600, ofDay % 3600 / 60, ofDay % 60, nanos)
  }

  lemma TimeOfDay(ofDay: int)
    requires 0 <= ofDay < 86400
    ensures 0 <= ofDay / 3600 < 24 && 0 <= ofDay % 3600 / 60 < 60
    ensures ofDay / 3600 * 3600 + ofDay % 3600 / 60 * 60 + ofDay % 60 == ofDay
  {
    var h, r := ofDay / 3600, ofDay % 3600;
    assert ofDay == h * 3600 + r;
    assert ofDay % 60 == r % 60;
  }

  /** The printed parts are a real date and time of day, and name exactly the instant, for every instant. */
  lemma FieldsNameTheInstant(instant: int)
    ensures var f := FieldsOf(instant);
            && IsDate(f.date) && 0 <= f.hour < 24 && 0 <= f.minute < 60 && 0 <= f.second < 60 && 0 <= f.nanos < BILLION
            && (DaysOf(f.date) * 86400 + f.hour * 3600 + f.minute * 60 + f.second) * BILLION + f.nanos == instant
  {
    ClockIsExact(instant);
    var secs := Clock(instant).0;
    CivilIsTheDate(secs / 86400);
    TimeOfDay(secs % 86400);
  }

  // ---- the fraction ----

  function Pow10(n: nat): nat { if n == 0 then 1 else 10 * Pow10(n - 1) }

  function Digit(n: nat): char
    requires n < 10
  {
    ['0', '1', '2', '3', '4', '5', '6', '7', '8', '9'][n]
  }

  function DigitValue(c: char): nat { if '0' <= c <= '9' then (c as int) - ('0' as int) else 0 }

  lemma DigitRoundTrip(n: nat)
    requires n < 10
    ensures DigitValue(Digit(n)) == n
  {
  }

  /** A number in `width` digits, zeros in front. */
  function Padded(n: nat, width: nat): (s: string)
    ensures |s| == width
  {
    if width == 0 then "" else Padded(n / 10, width - 1) + [Digit(n % 10)]
  }

  /** The value of a fraction's digits, as if it had `width` of them. */
  function Scaled(s: string, width: nat): nat
    requires |s| <= width
  {
    if s == "" then 0 else
      var n := |s| - 1;
      Scaled(s[..n], width) + DigitValue(s[n]) * Pow10(width - |s|)
  }

  function Stripped(s: string): (t: string)
    ensures |t| <= |s| && (t != "" ==> t[|t| - 1] != '0')
  {
    if s != "" && s[|s| - 1] == '0' then Stripped(s[..|s| - 1]) else s
  }

  lemma ShiftDigit(q: nat, r: nat, p: nat)
    ensures q * (10 * p) + r * p == (10 * q + r) * p
  {
    assert q * (10 * p) == (10 * q) * p;
  }

  lemma ScaledSnoc(s: string, c: char, width: nat)
    requires |s| + 1 <= width
    ensures Scaled(s + [c], width) == Scaled(s, width) + DigitValue(c) * Pow10(width - |s| - 1)
  {
    assert (s + [c])[..|s|] == s;
  }

  lemma {:induction false} PaddedScales(n: nat, width: nat, extra: nat)
    requires n < Pow10(width)
    ensures Scaled(Padded(n, width), width + extra) == n * Pow10(extra)
    decreases width
  {
    if width > 0 {
      var q, r := n / 10, n % 10;
      PaddedScales(q, width - 1, extra + 1);
      ScaledSnoc(Padded(q, width - 1), Digit(r), width + extra);
      DigitRoundTrip(r);
      ShiftDigit(q, r, Pow10(extra));
    }
  }

  lemma {:induction false} StrippedScales(s: string, width: nat)
    requires |s| <= width
    ensures Scaled(Stripped(s), width) == Scaled(s, width)
    decreases |s|
  {
    if s != "" && s[|s| - 1] == '0' { StrippedScales(s[..|s| - 1], width); }
  }

  /** The loop that drops trailing zeros; the fraction still names every nanosecond. */
  method Fraction(nanos: nat) returns (digits: string)
    requires nanos < Pow10(9)
    ensures digits == Stripped(Padded(nanos, 9)) && |digits| <= 9
    ensures Scaled(digits, 9) == nanos && (digits != "" ==> digits[|digits| - 1] != '0')
  {
    digits := Padded(nanos, 9);
    PaddedScales(nanos, 9, 0);
    StrippedScales(digits, 9);
    while digits != "" && digits[|digits| - 1] == '0'
      invariant |digits| <= 9 && Stripped(digits) == Stripped(Padded(nanos, 9))
      decreases |digits|
    {
      digits := digits[..|digits| - 1];
    }
  }
}
