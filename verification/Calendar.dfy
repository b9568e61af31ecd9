/** The proleptic Gregorian calendar as a count of days: year and month lengths, and the
    nested-division inverse that recovers a date from a day number. */
module Calendar {
  import opened Words

  const DAYS_PER_YEAR := 365
  const DAYS_PER_4_YEARS := DAYS_PER_YEAR * 4 + 1
  const DAYS_PER_100_YEARS := DAYS_PER_4_YEARS * 25 - 1
  const DAYS_PER_400_YEARS := DAYS_PER_100_YEARS * 4 + 1

  // s_daysToMonth365 and s_daysToMonth366.
  const DAYS_TO_MONTH_365: seq<int> := [0, 31, 59, 90, 120, 151, 181, 212, 243, 273, 304, 334, 365]
  const DAYS_TO_MONTH_366: seq<int> := [0, 31, 60, 91, 121, 152, 182, 213, 244, 274, 305, 335, 366]

  // ---------------------------------------------------------------------
  // Reference definitions
  // ---------------------------------------------------------------------

  /** The Gregorian rule. */
  predicate Leap(year: int) { year % 4 == 0 && (year % 100 != 0 || year % 400 == 0) }

  function YearLength(year: int): nat { if Leap(year) then 366 else 365 }

  function MonthLength(year: int, month: int): nat {
    if month == 2 then (if Leap(year) then 29 else 28)
    else if month in {4, 6, 9, 11} then 30 else 31
  }

  /** Days before January 1 of the year, counted from year 1. */
  function YearStart(year: nat): nat
    requires year >= 1
  {
    if year == 1 then 0 else YearStart(year - 1) + YearLength(year - 1)
  }

  /** Days of the year before the month. */
  function MonthStart(year: int, month: nat): nat
    requires month >= 1
  {
    if month == 1 then 0 else MonthStart(year, month - 1) + MonthLength(year, month - 1)
  }

  datatype Date = Date(year: nat, month: nat, day: nat)

  predicate ValidDate(d: Date) {
    d.year >= 1 && 1 <= d.month <= 12 && 1 <= d.day <= MonthLength(d.year, d.month)
  }

  /** Days since January 1 of year 1. */
  function DayNumber(d: Date): nat
    requires ValidDate(d)
  {
    YearStart(d.year) + MonthStart(d.year, d.month) + d.day - 1
  }

  // ---------------------------------------------------------------------
  // The closed forms the code uses
  // ---------------------------------------------------------------------

  /** The leap-year test of the code: a multiple of 4 that is one of 16 or none of 25. */
  predicate IsLeapYear(year: int) {
    year % 4 == 0 && (year % 16 == 0 || TruncMod(year, 25) != 0)
  }

  function DaysToMonth(leap: bool): (r: seq<int>)
    ensures |r| == 13
  {
    if leap then DAYS_TO_MONTH_366 else DAYS_TO_MONTH_365
  }

  lemma IsLeapYearIsGregorian(year: int)
    ensures IsLeapYear(year) <==> Leap(year)
  {
    TruncModZero(year);
    Mod25And4(year);
  }

  lemma TruncModZero(x: int)
    ensures TruncMod(x, 25) == 0 <==> x % 25 == 0
  {
  }

  /** Divisible by 100 means by 4 and 25; by 400 means by 16 and 25. */
  lemma Mod25And4(y: int)
    ensures y % 100 == 0 <==> y % 4 == 0 && y % 25 == 0
    ensures y % 400 == 0 <==> y % 16 == 0 && y % 25 == 0
  {
    if y % 25 == 0 {
      var a := y / 25;
      assert y == 25 * a;
      assert y % 4 == a % 4 by { assert y == 4 * (6 * a) + a; DropMultiple4(6 * a, a); }
      assert y % 16 == (9 * a) % 16 by { assert y == 16 * a + 9 * a; DropMultiple16(a, 9 * a); }
      NineAndSixteen(a);
      HundredFourHundred(a);
    } else {
      NotMultiple(y);
    }
  }

  lemma DropMultiple4(h: int, x: int)
    ensures (4 * h + x) % 4 == x % 4
  {
  }

  lemma DropMultiple16(h: int, x: int)
    ensures (16 * h + x) % 16 == x % 16
  {
  }

  lemma NineAndSixteen(a: int)
    ensures (9 * a) % 16 == 0 <==> a % 16 == 0
  {
    var q, r := a / 16, a % 16;
    assert 9 * a == 16 * (9 * q) + 9 * r;
    DropMultiple16(9 * q, 9 * r);
  }

  lemma HundredFourHundred(a: int)
    ensures (25 * a) % 100 == 0 <==> a % 4 == 0
    ensures (25 * a) % 400 == 0 <==> a % 16 == 0
  {
    var q, r := a / 4, a % 4;
    assert 25 * a == 100 * q + 25 * r;
    var s, t := a / 16, a % 16;
    assert 25 * a == 400 * s + 25 * t;
  }

  lemma NotMultiple(y: int)
    requires y % 25 != 0
    ensures y % 100 != 0 && y % 400 != 0
  {
    if y % 100 == 0 {
      TimesTwentyFive(4 * (y / 100));
    }
    if y % 400 == 0 {
      TimesTwentyFive(16 * (y / 400));
    }
  }

  lemma TimesTwentyFive(q: int)
    ensures (25 * q) % 25 == 0
  {
  }

  /** Counting leap days by division agrees with adding up year lengths. */
  lemma {:induction false} YearStartFormula(year: nat)
    requires year >= 1
    ensures var y := year - 1; YearStart(year) == y * 365 + y / 4 - y / 100 + y / 400
  {
    if year > 1 {
      YearStartFormula(year - 1);
      LeapCountStep(year - 1);
    }
  }

  lemma LeapCountStep(y: nat)
    requires y >= 1
    ensures y / 4 - y / 100 + y / 400
            == (y - 1) / 4 - (y - 1) / 100 + (y - 1) / 400 + if Leap(y) then 1 else 0
  {
    QuotientStep4(y);
    QuotientStep100(y);
    QuotientStep400(y);
    Mod25And4(y);
    SixteenIsFour(y);
  }

  lemma SixteenIsFour(y: int)
    ensures y % 16 == 0 ==> y % 4 == 0
  {
  }

  lemma QuotientStep4(y: nat)
    requires y >= 1
    ensures y / 4 == (y - 1) / 4 + if y % 4 == 0 then 1 else 0
  {
  }

  lemma QuotientStep100(y: nat)
    requires y >= 1
    ensures y / 100 == (y - 1) / 100 + if y % 100 == 0 then 1 else 0
  {
  }

  lemma QuotientStep400(y: nat)
    requires y >= 1
    ensures y / 400 == (y - 1) / 400 + if y % 400 == 0 then 1 else 0
  {
  }

  /** The tables hold the running sums of the month lengths. */
  lemma {:induction false} TableIsMonthStart(year: int, month: nat)
    requires 1 <= month <= 13
    ensures DaysToMonth(Leap(year))[month - 1] == MonthStart(year, month)
    ensures month <= 12 ==> MonthLength(year, month)
                            == DaysToMonth(Leap(year))[month] - DaysToMonth(Leap(year))[month - 1]
  {
    if month > 1 {
      TableIsMonthStart(year, month - 1);
    }
  }

  // ---------------------------------------------------------------------
  // Uniqueness
  // ---------------------------------------------------------------------

  lemma {:induction false} YearStartsAscend(a: nat, b: nat)
    requires 1 <= a < b
    ensures YearStart(a) + YearLength(a) <= YearStart(b)
    decreases b
  {
    if a < b - 1 {
      YearStartsAscend(a, b - 1);
    }
  }

  lemma {:induction false} MonthStartsAscend(year: int, a: nat, b: nat)
    requires 1 <= a < b
    ensures MonthStart(year, a) + MonthLength(year, a) <= MonthStart(year, b)
    decreases b
  {
    if a < b - 1 {
      MonthStartsAscend(year, a, b - 1);
    }
  }

  lemma DayInsideYear(d: Date)
    requires ValidDate(d)
    ensures YearStart(d.year) <= DayNumber(d) < YearStart(d.year) + YearLength(d.year)
  {
    TableIsMonthStart(d.year, d.month);
    TableIsMonthStart(d.year, 13);
    MonthStartsAscend(d.year, d.month, 13);
  }

  /** No two valid dates have the same day number. */
  lemma DayNumberInjective(a: Date, b: Date)
    requires ValidDate(a) && ValidDate(b) && DayNumber(a) == DayNumber(b)
    ensures a == b
  {
    DayInsideYear(a);
    DayInsideYear(b);
    if a.year < b.year { YearStartsAscend(a.year, b.year); }
    if b.year < a.year { YearStartsAscend(b.year, a.year); }
    if a.month < b.month { MonthStartsAscend(a.year, a.month, b.month); }
    if b.month < a.month { MonthStartsAscend(a.year, b.month, a.month); }
  }

  // ---------------------------------------------------------------------
  // From a day number back to a date
  // ---------------------------------------------------------------------

  /** Whole 400, 100, 4 and 1 year periods before the day, and the day of its year. */
  datatype Periods = Periods(y400: nat, y100: nat, y4: nat, y1: nat, dayOfYear: nat)

  function PeriodsOf(n: nat): Periods {
    var y400 := n / DAYS_PER_400_YEARS;
    var n1 := n - y400 * DAYS_PER_400_YEARS;
    var y100 := if n1 / DAYS_PER_100_YEARS == 4 then 3 else n1 / DAYS_PER_100_YEARS;
    var n2 := n1 - y100 * DAYS_PER_100_YEARS;
    var y4 := n2 / DAYS_PER_4_YEARS;
    var n3 := n2 - y4 * DAYS_PER_4_YEARS;
    var y1 := if n3 / DAYS_PER_YEAR == 4 then 3 else n3 / DAYS_PER_YEAR;
    Periods(y400, y100, y4, y1, n3 - y1 * DAYS_PER_YEAR)
  }

  function YearOf(p: Periods): nat { p.y400 * 400 + p.y100 * 100 + p.y4 * 4 + p.y1 + 1 }

  predicate LeapIn(p: Periods) { p.y1 == 3 && (p.y4 != 24 || p.y100 == 3) }

  lemma PeriodBounds(n: nat)
    ensures var p := PeriodsOf(n);
            && p.y100 <= 3 && p.y4 <= 24 && p.y1 <= 3
            && p.dayOfYear < (if LeapIn(p) then 366 else 365)
            && n == p.y400 * DAYS_PER_400_YEARS + p.y100 * DAYS_PER_100_YEARS + p.y4 * DAYS_PER_4_YEARS
                    + p.y1 * DAYS_PER_YEAR + p.dayOfYear
  {
  }

  /** The periods name the right year: it starts where they say, and is a leap year when they say. */
  lemma YearOfPeriods(p: Periods)
    requires p.y100 <= 3 && p.y4 <= 24 && p.y1 <= 3
    ensures YearStart(YearOf(p)) == p.y400 * DAYS_PER_400_YEARS + p.y100 * DAYS_PER_100_YEARS
                                    + p.y4 * DAYS_PER_4_YEARS + p.y1 * DAYS_PER_YEAR
    ensures Leap(YearOf(p)) <==> LeapIn(p)
  {
    hide YearStart;
    var y := YearOf(p) - 1;
    YearStartFormula(YearOf(p));
    assert y / 4 == 100 * p.y400 + 25 * p.y100 + p.y4;
    assert y / 100 == 4 * p.y400 + p.y100;
    assert y / 400 == p.y400;
    LeapOfPeriods(p);
  }

  lemma LeapOfPeriods(p: Periods)
    requires p.y100 <= 3 && p.y4 <= 24 && p.y1 <= 3
    ensures Leap(YearOf(p)) <==> LeapIn(p)
  {
    LastOfPeriod(4, 100 * p.y400 + 25 * p.y100 + p.y4, p.y1 + 1);
    LastOfPeriod(100, 4 * p.y400 + p.y100, 4 * p.y4 + p.y1 + 1);
    LastOfPeriod(400, p.y400, 100 * p.y100 + 4 * p.y4 + p.y1 + 1);
  }

  /** Year b of period a, counted from 1, is a multiple of the period exactly when it is the last. */
  lemma LastOfPeriod(period: nat, a: nat, b: nat)
    requires period in {4, 100, 400} && 1 <= b <= period
    ensures (period * a + b) % period == 0 <==> b == period
  {
    if b == period {
      assert period * a + b == period * (a + 1);
    }
  }

  /** The month search from a guess that is never too large. */
  function FindMonth(leap: bool, n: nat, m: nat): (r: nat)
    requires n < (if leap then 366 else 365) && 1 <= m <= 12
    requires DaysToMonth(leap)[m - 1] <= n
    ensures m <= r <= 12 && DaysToMonth(leap)[r - 1] <= n < DaysToMonth(leap)[r]
    decreases 12 - m
  {
    if n >= DaysToMonth(leap)[m] then FindMonth(leap, n, m + 1) else m
  }

  lemma GuessIsLow(leap: bool, n: nat)
    requires n < (if leap then 366 else 365)
    ensures 1 <= n / 32 + 1 <= 12 && DaysToMonth(leap)[n / 32] <= n
  {
    assert DaysToMonth(leap)[n / 32] <= 32 * (n / 32);
  }

  function DateOf(n: nat): Date {
    PeriodBounds(n);
    var p := PeriodsOf(n);
    GuessIsLow(LeapIn(p), p.dayOfYear);
    var m := FindMonth(LeapIn(p), p.dayOfYear, p.dayOfYear / 32 + 1);
    Date(YearOf(p), m, p.dayOfYear - DaysToMonth(LeapIn(p))[m - 1] + 1)
  }

  /** Every day number names a valid date with that number. */
  lemma DateOfIsValid(n: nat)
    ensures ValidDate(DateOf(n)) && DayNumber(DateOf(n)) == n
  {
    hide PeriodsOf;
    var p := PeriodsOf(n);
    PeriodBounds(n);
    YearOfPeriods(p);
    TableIsMonthStart(YearOf(p), DateOf(n).month);
  }

  /** ... and every valid date is recovered from its day number. */
  lemma DateOfInverts(d: Date)
    requires ValidDate(d)
    ensures DateOf(DayNumber(d)) == d
  {
    hide DateOf;
    DateOfIsValid(DayNumber(d));
    DayNumberInjective(DateOf(DayNumber(d)), d);
  }

  // ---------------------------------------------------------------------
  // Known dates
  // ---------------------------------------------------------------------

  /** Months alternate between 31 and 30 days, July and August both having 31, and February lacks two
      days, or one in a leap year. */
  lemma MonthsAlternate(year: int, month: int)
    requires 1 <= month <= 12
    ensures MonthLength(year, month) == 30 + (month + month / 8) % 2
                                        - if month != 2 then 0 else if Leap(year) then 1 else 2
  {
  }

  /** Dates whose distance from January 1 of year 1 is well known: the Unix epoch, the leap day of
      2000, and the last day of year 9999. */
  lemma KnownDates()
    ensures ValidDate(Date(1970, 1, 1)) && DayNumber(Date(1970, 1, 1)) == 719_162
    ensures ValidDate(Date(2000, 2, 29)) && DayNumber(Date(2000, 2, 29)) == 730_178
    ensures ValidDate(Date(9999, 12, 31)) && DayNumber(Date(9999, 12, 31)) == 3_652_058
  {
    hide YearStart;
    YearStartFormula(1970);
    YearStartFormula(2000);
    YearStartFormula(9999);
    assert MonthStart(1970, 1) == 0 && MonthStart(2000, 2) == 31;
    TableIsMonthStart(9999, 12);
  }
}
