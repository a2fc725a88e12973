/**
  The calendar arithmetic behind audit timestamps, against the proleptic
  Gregorian calendar as RFC 3339 states it (month lengths in section 5.7, leap
  years in Appendix C).
 */
module CivilCalendar {

  // ---- the calendar itself ----

  predicate IsLeap(y: int) { y % 4 == 0 && (y % 100 != 0 || y % 400 == 0) }

  function YearDays(y: int): nat { if IsLeap(y) then 366 else 365 }

  function MonthDays(y: int, m: int): nat
    requires 1 <= m <= 12
  {
    if m == 2 then (if IsLeap(y) then 29 else 28)
    else if m == 4 || m == 6 || m == 9 || m == 11 then 30
    else 31
  }

  datatype Date = Date(year: int, month: int, day: int)

  predicate IsDate(d: Date) { 1 <= d.month <= 12 && 1 <= d.day <= MonthDays(d.year, d.month) }

  /** Days from 1970-01-01 to the first day of the year, year by year. */
  function YearStart(y: int): int
    decreases if y >= 1970 then y - 1970 else 1970 - y
  {
    if y == 1970 then 0
    else if y > 1970 then YearStart(y - 1) + YearDays(y - 1)
    else YearStart(y + 1) - YearDays(y)
  }

  /** Days from the first day of the year to the first of the month, month by month. */
  function MonthStart(y: int, m: int): nat
    requires 1 <= m <= 12
    decreases m
  {
    if m == 1 then 0 else MonthStart(y, m - 1) + MonthDays(y, m - 1)
  }

  /** The day number of a date. */
  function DaysOf(d: Date): int
    requires IsDate(d)
  {
    YearStart(d.year) + MonthStart(d.year, d.month) + d.day - 1
  }

  function NextDay(d: Date): Date
    requires IsDate(d)
  {
    if d.day < MonthDays(d.year, d.month) then d.(day := d.day + 1)
    else if d.month < 12 then Date(d.year, d.month + 1, 1)
    else Date(d.year + 1, 1, 1)
  }

  // ---- the code ----

  /** Division that truncates toward zero, as the machine does it. */
  function Trunc(a: int, b: int): int
    requires b > 0
  {
    if a >= 0 then a / b else -((-a) / b)
  }

  function EraOf(z: int): int { Trunc(if z >= 0 then z else z - 146096, 146097) }
  function YearOfEra(doe: int): int { (doe - doe / 1460 + doe / 36524 - doe / 146096) / 365 }
  function DayOfYear(doe: int, yoe: int): int { doe - (365 * yoe + yoe / 4 - yoe / 100) }
  function MonthIndex(doy: int): int { (5 * doy + 2) / 153 }

  /** The date in a year that began in March. */
  function DateAt(year: int, doy: int): Date {
    var mp := MonthIndex(doy);
    var day := doy - (153 * mp + 2) / 5 + 1;
    var month := if mp < 10 then mp + 3 else mp - 9;
    Date(if month <= 2 then year + 1 else year, month, day)
  }

  function DateInEra(era: int, doe: int): Date {
    var yoe := YearOfEra(doe);
    DateAt(yoe + era * 400, DayOfYear(doe, yoe))
  }

  /** `civil_from_days` */
  function CivilFromDays(days: int): Date {
    var z := days + 719468;
    DateInEra(EraOf(z), z - EraOf(z) * 146097)
  }

  // ---- eras and years that begin in March ----

  /** Truncation after the shift is a floor, on both sides of zero. */
  lemma EraIsFloor(z: int)
    ensures EraOf(z) == z / 146097 && 0 <= z - EraOf(z) * 146097 < 146097
  {
  }

  /** A day of an era: centuries, four-year cycles, years and days; the long years close their cycle. */
  predicate Splits(doe: int, c: int, m: int, i: int, d: int) {
    && 0 <= c <= 3 && 0 <= m <= 24 && 0 <= i <= 3
    && (0 <= d <= 364 || (d == 365 && i == 3 && (m < 24 || c == 3)))
    && doe == 36524 * c + 1461 * m + 365 * i + d
  }

  lemma SplitDay(doe: int) returns (c: int, m: int, i: int, d: int)
    requires 0 <= doe < 146097
    ensures Splits(doe, c, m, i, d)
  {
    c := if doe / 36524 > 3 then 3 else doe / 36524;
    var r := doe - 36524 * c;
    m := if r / 1461 > 24 then 24 else r / 1461;
    var s := r - 1461 * m;
    i := if s / 365 > 3 then 3 else s / 365;
    d := s - 365 * i;
  }

  lemma DivIs(a: int, b: int, q: int)
    requires b > 0 && 0 <= a - q * b < b
    ensures a / b == q
  {
    var e := a / b - q;
    assert a - q * b == a % b + e * b;
    assert e >= 1 ==> e * b >= b;
    assert e <= -1 ==> e * b <= -b;
  }

  lemma CenturiesOf(doe: int, c: int, m: int, i: int, d: int)
    requires Splits(doe, c, m, i, d)
    ensures doe / 36524 - doe / 146096 == c
  {
    if doe == 146096 {
      assert c == 3;
    } else {
      DivIs(doe, 36524, c);
      DivIs(doe, 146096, 0);
    }
  }

  lemma CyclesOf(doe: int, c: int, m: int, i: int, d: int)
    requires Splits(doe, c, m, i, d)
    ensures doe / 1460 == 25 * c + m + if 24 * c + m + 365 * i + d >= 1460 then 1 else 0
  {
    DivIs(doe, 1460, 25 * c + m + if 24 * c + m + 365 * i + d >= 1460 then 1 else 0);
  }

  /** The year formula finds the year, and the rest is the day of that year. */
  lemma YearOfEraIs(doe: int, c: int, m: int, i: int, d: int, k: int)
    requires Splits(doe, c, m, i, d) && k == 100 * c + 4 * m + i
    ensures YearOfEra(doe) == k && DayOfYear(doe, k) == d
  {
    CenturiesOf(doe, c, m, i, d);
    CyclesOf(doe, c, m, i, d);
    DivIs(doe - doe / 1460 + c, 365, k);
    DivIs(k, 4, 25 * c + m);
    DivIs(k, 100, c);
  }

  /** First of March of a year. */
  function March(y: int): int { YearStart(y) + MonthStart(y, 3) }

  function FloorSum(y: int): int { 365 * y + y / 4 - y / 100 + y / 400 }

  lemma YearStep(y: int)
    ensures YearStart(y + 1) == YearStart(y) + YearDays(y)
  {
  }

  lemma MarchStep(y: int)
    ensures March(y + 1) == March(y) + YearDays(y + 1)
  {
    YearStep(y);
    assert MonthStart(y, 3) == 31 + MonthDays(y, 2);
    assert MonthStart(y + 1, 3) == 31 + MonthDays(y + 1, 2);
  }

  lemma QuotientStep(y: int, n: int)
    requires n > 0
    ensures (y + 1) / n == y / n + if (y + 1) % n == 0 then 1 else 0
  {
    if (y + 1) % n == 0 { DivIs(y, n, (y + 1) / n - 1); } else { DivIs(y, n, (y + 1) / n); }
  }

  lemma FloorSumStep(y: int)
    ensures FloorSum(y + 1) == FloorSum(y) + YearDays(y + 1)
  {
    QuotientStep(y, 4);
    QuotientStep(y, 100);
    QuotientStep(y, 400);
    HundredsAreFours(y + 1);
  }

  lemma HundredsAreFours(y: int)
    ensures y % 100 == 0 ==> y % 4 == 0
    ensures y % 400 == 0 ==> y % 100 == 0
  {
  }

  lemma {:induction false} MarchIsFloorSum(y: int)
    ensures March(y) == FloorSum(y) - 719468
    decreases if y >= 1970 then y - 1970 else 1970 - y
  {
    if y == 1970 {
      assert MonthStart(1970, 3) == 59;
    } else if y > 1970 {
      MarchIsFloorSum(y - 1);
      MarchStep(y - 1);
      FloorSumStep(y - 1);
    } else {
      MarchIsFloorSum(y + 1);
      MarchStep(y);
      FloorSumStep(y);
    }
  }

  lemma FloorSumOfEra(era: int, c: int, m: int, i: int)
    requires 0 <= c <= 3 && 0 <= m <= 24 && 0 <= i <= 3
    ensures FloorSum(400 * era + (100 * c + 4 * m + i)) == 146097 * era + 36524 * c + 1461 * m + 365 * i
  {
    var y := 400 * era + (100 * c + 4 * m + i);
    DivIs(y, 4, 100 * era + 25 * c + m);
    DivIs(y, 100, 4 * era + c);
    DivIs(y, 400, era);
  }

  // ---- months that begin in March ----

  /** Days from the first of March to the first of the month. */
  function MarchOffset(mp: int): int { (153 * mp + 2) / 5 }

  function MonthOf(mp: int): int { if mp < 10 then mp + 3 else mp - 9 }

  /** Length of a month of the year that began in March. */
  function MarchMonthDays(y: int, mp: int): nat
    requires 0 <= mp <= 11
  {
    MonthDays(if mp < 10 then y else y + 1, MonthOf(mp))
  }

  /** The month formula finds the month that holds the day. */
  lemma MonthIndexIs(doy: int)
    requires 0 <= doy <= 365
    ensures 0 <= MonthIndex(doy) <= 11
    ensures MarchOffset(MonthIndex(doy)) <= doy
    ensures MonthIndex(doy) < 11 ==> doy < MarchOffset(MonthIndex(doy) + 1)
  {
  }

  lemma MarchOffsetStep(y: int, mp: int)
    requires 0 <= mp <= 10
    ensures MarchOffset(mp + 1) == MarchOffset(mp) + MarchMonthDays(y, mp)
  {
    assert mp == 0 || mp == 1 || mp == 2 || mp == 3 || mp == 4 || mp == 5
        || mp == 6 || mp == 7 || mp == 8 || mp == 9 || mp == 10;
  }

  /** The first of a month, counted from the first of March. */
  lemma {:induction false} FirstOfMonth(y: int, mp: int)
    requires 0 <= mp <= 11
    ensures var year := if mp < 10 then y else y + 1;
            YearStart(year) + MonthStart(year, MonthOf(mp)) == March(y) + MarchOffset(mp)
    decreases mp
  {
    if mp > 0 {
      FirstOfMonth(y, mp - 1);
      MarchOffsetStep(y, mp - 1);
      if mp == 10 {
        YearStep(y);
        assert MonthStart(y, 12) + MonthDays(y, 12) == YearDays(y) by { WholeYear(y); }
      }
    }
  }

  lemma WholeYear(y: int)
    ensures MonthStart(y, 12) + 31 == YearDays(y)
  {
    assert MonthStart(y, 3) == 31 + MonthDays(y, 2);
    assert MonthStart(y, 6) == MonthStart(y, 3) + 92;
    assert MonthStart(y, 9) == MonthStart(y, 6) + 92;
    assert MonthStart(y, 12) == MonthStart(y, 9) + 91;
  }

  /** The date in the March year has the day number it should. */
  lemma DateAtIs(y: int, doy: int)
    requires 0 <= doy <= 364 || (doy == 365 && IsLeap(y + 1))
    ensures IsDate(DateAt(y, doy)) && DaysOf(DateAt(y, doy)) == March(y) + doy
  {
    MonthIndexIs(doy);
    var mp := MonthIndex(doy);
    FirstOfMonth(y, mp);
    if mp < 11 { MarchOffsetStep(y, mp); }
  }

  lemma LeapByParts(era: int, c: int, m: int)
    requires 0 <= c <= 3 && 0 <= m <= 24 && (m < 24 || c == 3)
    ensures IsLeap(400 * era + (100 * c + 4 * m + 3) + 1)
  {
    var y := 400 * era + (100 * c + 4 * m + 3) + 1;
    if m < 24 {
      DivIs(y, 100, 4 * era + c);
    }
  }

  lemma DayOfEraIs(era: int, doe: int, c: int, m: int, i: int, d: int)
    requires Splits(doe, c, m, i, d)
    ensures var y := 100 * c + 4 * m + i + era * 400;
            IsDate(DateAt(y, d)) && DaysOf(DateAt(y, d)) == 146097 * era + doe - 719468
  {
    var k := 100 * c + 4 * m + i;
    FloorSumOfEra(era, c, m, i);
    MarchIsFloorSum(400 * era + k);
    if d == 365 { LeapByParts(era, c, m); }
    DateAtIs(400 * era + k, d);
  }

  lemma DateInEraIs(era: int, doe: int)
    requires 0 <= doe < 146097
    ensures IsDate(DateInEra(era, doe)) && DaysOf(DateInEra(era, doe)) == 146097 * era + doe - 719468
  {
    var c, m, i, d := SplitDay(doe);
    YearOfEraIs(doe, c, m, i, d, 100 * c + 4 * m + i);
    DayOfEraIs(era, doe, c, m, i, d);
  }

  /** `civil_from_days` gives a real date, and that date has the day number it was given, for every day. */
  lemma CivilIsTheDate(days: int)
    ensures IsDate(CivilFromDays(days)) && DaysOf(CivilFromDays(days)) == days
  {
    var z := days + 719468;
    EraIsFloor(z);
    DateInEraIs(EraOf(z), z - EraOf(z) * 146097);
  }

  // ---- the inverse ----

  lemma {:induction false} YearStartGrows(y: int, y': int)
    requires y < y'
    ensures YearStart(y) + YearDays(y) <= YearStart(y')
    decreases y' - y
  {
    YearStep(y);
    if y + 1 < y' { YearStartGrows(y + 1, y'); }
  }

  lemma {:induction false} MonthStartGrows(y: int, m: int, m': int)
    requires 1 <= m < m' <= 12
    ensures MonthStart(y, m) + MonthDays(y, m) <= MonthStart(y, m')
    decreases m' - m
  {
    if m + 1 < m' { MonthStartGrows(y, m, m' - 1); }
  }

  lemma WithinYear(d: Date)
    requires IsDate(d)
    ensures YearStart(d.year) <= DaysOf(d) < YearStart(d.year) + YearDays(d.year)
  {
    WholeYear(d.year);
    if d.month < 12 { MonthStartGrows(d.year, d.month, 12); }
  }

  /** Two dates with one day number are the same date. */
  lemma DaysOfIsInjective(a: Date, b: Date)
    requires IsDate(a) && IsDate(b) && DaysOf(a) == DaysOf(b)
    ensures a == b
  {
    WithinYear(a);
    WithinYear(b);
    if a.year < b.year { YearStartGrows(a.year, b.year); }
    if b.year < a.year { YearStartGrows(b.year, a.year); }
    if a.month < b.month { MonthStartGrows(a.year, a.month, b.month); }
    if b.month < a.month { MonthStartGrows(a.year, b.month, a.month); }
  }

  lemma CivilAt(d: Date, days: int)
    requires IsDate(d) && DaysOf(d) == days
    ensures CivilFromDays(days) == d
  {
    CivilIsTheDate(days);
    DaysOfIsInjective(CivilFromDays(days), d);
  }

  /** Days-from-civil inverts it on every date. */
  lemma CivilInvertsDaysOf(d: Date)
    requires IsDate(d)
    ensures CivilFromDays(DaysOf(d)) == d
  {
    CivilAt(d, DaysOf(d));
  }

  lemma NextDayIsNext(d: Date)
    requires IsDate(d)
    ensures IsDate(NextDay(d)) && DaysOf(NextDay(d)) == DaysOf(d) + 1
  {
    if d.day == MonthDays(d.year, d.month) && d.month == 12 {
      WholeYear(d.year);
      YearStep(d.year);
    }
  }

  lemma CivilStartsAtTheEpoch()
    ensures CivilFromDays(0) == Date(1970, 1, 1)
  {
    CivilInvertsDaysOf(Date(1970, 1, 1));
  }

  lemma DayAfter(d: Date, days: int)
    requires IsDate(d) && DaysOf(d) == days
    ensures CivilFromDays(days + 1) == NextDay(d)
  {
    NextDayIsNext(d);
    CivilAt(NextDay(d), days + 1);
  }

  /** The calendar walks day by day, in both directions from the epoch. */
  lemma CivilWalksTheCalendar(days: int)
    ensures IsDate(CivilFromDays(days)) && CivilFromDays(days + 1) == NextDay(CivilFromDays(days))
  {
    CivilIsTheDate(days);
    DayAfter(CivilFromDays(days), days);
  }
}
