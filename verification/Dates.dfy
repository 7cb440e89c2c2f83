/** Civil dates as day numbers: the era formula counts days. */
module Dates {

  predicate IsLeapYear(year: int) {
    (year % 4 == 0 && year % 100 != 0) || year % 400 == 0
  }

  function MonthLength(year: int, month: int): nat
    requires 1 <= month <= 12
  {
    if month in {1, 3, 5, 7, 8, 10, 12} then 31
    else if month in {4, 6, 9, 11} then 30
    else if IsLeapYear(year) then 29
    else 28
  }

  predicate IsValidYmd(year: int, month: nat, day: nat) {
    1 <= month <= 12 && 1 <= day <= MonthLength(year, month)
  }

  /** Rust's integer division, which truncates towards zero. */
  function TruncDiv(a: int, b: int): int
    requires b > 0
  {
    if a >= 0 then a / b else -((-a) / b)
  }

  function DaysFromCivil(year: int, month: nat, day: nat): int {
    var adjusted := year - (if month <= 2 then 1 else 0);
    var era := if adjusted >= 0 then TruncDiv(adjusted, 400) else TruncDiv(adjusted - 399, 400);
    var yearOfEra := adjusted - era * 400;
    var dayOfYear := TruncDiv(153 * (month + (if month > 2 then -3 else 9)) + 2, 5) + day - 1;
    var dayOfEra := yearOfEra * 365 + TruncDiv(yearOfEra, 4) - TruncDiv(yearOfEra, 100) + dayOfYear;
    era * 146097 + dayOfEra - 719468
  }

  // ---- naive counting from 1970-01-01 ----

  function YearLength(year: int): nat {
    if IsLeapYear(year) then 366 else 365
  }

  function YearStart(year: int): int
    decreases if year >= 1970 then year - 1970 else 1970 - year
  {
    if year == 1970 then 0
    else if year > 1970 then YearStart(year - 1) + YearLength(year - 1)
    else YearStart(year + 1) - YearLength(year)
  }

  function MonthStart(year: int, month: int): nat
    requires 1 <= month <= 13
  {
    if month == 1 then 0 else MonthStart(year, month - 1) + MonthLength(year, month - 1)
  }

  function CountDays(year: int, month: nat, day: nat): int
    requires 1 <= month <= 12
  {
    YearStart(year) + MonthStart(year, month) + day - 1
  }

  // ---- the formula counts days ----

  /** Days before 1 March of year `a`, up to a constant. */
  function Marches(a: int): int {
    365 * a + a / 4 - a / 100 + a / 400
  }

  lemma {:induction false} EraIsFloor(a: int)
    ensures (if a >= 0 then TruncDiv(a, 400) else TruncDiv(a - 399, 400)) == a / 400
  {
  }

  lemma {:induction false} FormulaByMarches(year: int, month: nat, day: nat)
    requires 1 <= month <= 12
    ensures var a := year - (if month <= 2 then 1 else 0);
            DaysFromCivil(year, month, day) ==
            Marches(a) + (153 * (month + (if month > 2 then -3 else 9)) + 2) / 5 + day - 1 - 719468
  {
    var a := year - (if month <= 2 then 1 else 0);
    EraIsFloor(a);
    var e, y := a / 400, a % 400;
    assert a == 400 * e + y;
    assert a / 4 == 100 * e + y / 4;
    assert a / 100 == 4 * e + y / 100;
  }

  lemma {:induction false} MarchStep(a: int)
    ensures Marches(a) - Marches(a - 1) == 365 + (if IsLeapYear(a) then 1 else 0)
  {
    FourStep(a);
    HundredStep(a);
    FourHundredStep(a);
    LeapsNest(a);
  }

  lemma {:induction false} FourStep(a: int)
    ensures a / 4 - (a - 1) / 4 == if a % 4 == 0 then 1 else 0
  {
  }

  lemma {:induction false} HundredStep(a: int)
    ensures a / 100 - (a - 1) / 100 == if a % 100 == 0 then 1 else 0
  {
  }

  lemma {:induction false} FourHundredStep(a: int)
    ensures a / 400 - (a - 1) / 400 == if a % 400 == 0 then 1 else 0
  {
  }

  lemma {:induction false} LeapsNest(a: int)
    ensures a % 400 == 0 ==> a % 100 == 0
    ensures a % 100 == 0 ==> a % 4 == 0
  {
  }

  lemma {:induction false} YearStartByMarches(year: int)
    ensures YearStart(year) == Marches(year - 1) + 306 - 719468
    decreases if year >= 1970 then year - 1970 else 1970 - year
  {
    if year > 1970 {
      YearStartByMarches(year - 1);
      MarchStep(year - 1);
    } else if year < 1970 {
      YearStartByMarches(year + 1);
      MarchStep(year);
    }
  }

  lemma {:induction false} MonthStartTable(year: int, month: int)
    requires 1 <= month <= 13
    ensures var leap := if IsLeapYear(year) then 1 else 0;
            MonthStart(year, month) ==
            [0, 31, 59 + leap, 90 + leap, 120 + leap, 151 + leap, 181 + leap, 212 + leap, 243 + leap,
             273 + leap, 304 + leap, 334 + leap, 365 + leap][month - 1]
  {
    if month > 1 {
      MonthStartTable(year, month - 1);
    }
  }

  /** For every year and every month and day, the era formula is the naive day count. */
  lemma {:induction false} FormulaCountsDays(year: int, month: nat, day: nat)
    requires 1 <= month <= 12
    ensures DaysFromCivil(year, month, day) == CountDays(year, month, day)
  {
    FormulaByMarches(year, month, day);
    YearStartByMarches(year);
    MonthStartTable(year, month);
    MarchStep(year);
  }

  // ---- consequences ----

  function NextDay(year: int, month: nat, day: nat): (int, nat, nat)
    requires IsValidYmd(year, month, day)
  {
    if day < MonthLength(year, month) then (year, month, day + 1)
    else if month < 12 then (year, month + 1, 1)
    else (year + 1, 1, 1)
  }

  /** Consecutive dates have consecutive numbers. */
  lemma {:induction false} ConsecutiveDays(year: int, month: nat, day: nat)
    requires IsValidYmd(year, month, day)
    ensures var (y, m, d) := NextDay(year, month, day);
            IsValidYmd(y, m, d) && DaysFromCivil(y, m, d) == DaysFromCivil(year, month, day) + 1
  {
    var (y, m, d) := NextDay(year, month, day);
    FormulaCountsDays(year, month, day);
    FormulaCountsDays(y, m, d);
    NaiveNextDay(year, month, day);
  }

  lemma {:induction false} NaiveNextDay(year: int, month: nat, day: nat)
    requires IsValidYmd(year, month, day)
    ensures var (y, m, d) := NextDay(year, month, day);
            IsValidYmd(y, m, d) && CountDays(y, m, d) == CountDays(year, month, day) + 1
  {
    if day == MonthLength(year, month) && month == 12 {
      MonthStartTable(year, 12);
      YearStartStep(year);
    }
  }

  lemma {:induction false} YearStartStep(year: int)
    ensures YearStart(year + 1) == YearStart(year) + YearLength(year)
  {
    YearStartByMarches(year);
    YearStartByMarches(year + 1);
    MarchStep(year);
  }

  predicate Earlier(y: int, m: nat, d: nat, y': int, m': nat, d': nat) {
    y < y' || (y == y' && m < m') || (y == y' && m == m' && d < d')
  }

  lemma {:induction false} YearsMonotone(y: int, y': int)
    requires y < y'
    ensures YearStart(y) + YearLength(y) <= YearStart(y')
    decreases y' - y
  {
    YearStartStep(y' - 1);
    if y < y' - 1 {
      YearsMonotone(y, y' - 1);
    }
  }

  lemma {:induction false} MonthsMonotone(year: int, m: int, m': int)
    requires 1 <= m < m' <= 13
    ensures MonthStart(year, m) + MonthLength(year, m) <= MonthStart(year, m')
    decreases m' - m
  {
    if m < m' - 1 {
      MonthsMonotone(year, m, m' - 1);
    }
  }

  lemma {:induction false} EarlierIsLess(y: int, m: nat, d: nat, y': int, m': nat, d': nat)
    requires IsValidYmd(y, m, d) && IsValidYmd(y', m', d') && Earlier(y, m, d, y', m', d')
    ensures DaysFromCivil(y, m, d) < DaysFromCivil(y', m', d')
  {
    FormulaCountsDays(y, m, d);
    FormulaCountsDays(y', m', d');
    if y < y' {
      YearsMonotone(y, y');
      MonthsMonotone(y, m, 13);
      MonthStartTable(y, 13);
    } else if m < m' {
      MonthsMonotone(y, m, m');
    }
  }

  /** The numbering preserves and reflects the calendar order; in particular it is injective. */
  lemma {:induction false} OrderPreserved(y: int, m: nat, d: nat, y': int, m': nat, d': nat)
    requires IsValidYmd(y, m, d) && IsValidYmd(y', m', d')
    ensures DaysFromCivil(y, m, d) < DaysFromCivil(y', m', d') <==> Earlier(y, m, d, y', m', d')
    ensures DaysFromCivil(y, m, d) == DaysFromCivil(y', m', d') <==> (y, m, d) == (y', m', d')
  {
    if Earlier(y, m, d, y', m', d') {
      EarlierIsLess(y, m, d, y', m', d');
    } else if (y, m, d) != (y', m', d') {
      EarlierIsLess(y', m', d', y, m, d);
    }
  }

  function DayBefore(year: int, month: nat, day: nat): (int, nat, nat)
    requires IsValidYmd(year, month, day)
  {
    if day > 1 then (year, month, day - 1)
    else if month > 1 then (year, month - 1, MonthLength(year, month - 1))
    else (year - 1, 12, 31)
  }

  lemma {:induction false} DayBeforeNext(year: int, month: nat, day: nat)
    requires IsValidYmd(year, month, day)
    ensures var (y, m, d) := DayBefore(year, month, day);
            IsValidYmd(y, m, d) && NextDay(y, m, d) == (year, month, day)
  {
  }

  /** Every number is that of a valid date, and, the numbering being injective, of one only. */
  lemma {:induction false} EveryDayHasDate(n: int) returns (year: int, month: nat, day: nat)
    ensures IsValidYmd(year, month, day) && DaysFromCivil(year, month, day) == n
    decreases if n >= 0 then n else -n
  {
    if n == 0 {
      year, month, day := 1970, 1, 1;
    } else if n > 0 {
      var y, m, d := EveryDayHasDate(n - 1);
      ConsecutiveDays(y, m, d);
      var next := NextDay(y, m, d);
      year, month, day := next.0, next.1, next.2;
    } else {
      var y, m, d := EveryDayHasDate(n + 1);
      var before := DayBefore(y, m, d);
      DayBeforeNext(y, m, d);
      ConsecutiveDays(before.0, before.1, before.2);
      year, month, day := before.0, before.1, before.2;
    }
  }
}
