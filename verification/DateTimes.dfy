/** DateTime: 62 bits of 100 ns ticks and two kind bits in one unsigned word. Integer
    arithmetic wraps where C# wraps and division rounds toward zero. */
module DateTimes {
  import opened Words
  import opened Calendar

  const TICKS_PER_SECOND := 10_000_000
  const TICKS_PER_MINUTE := TICKS_PER_SECOND * 60
  const TICKS_PER_HOUR := TICKS_PER_MINUTE * 60
  const TICKS_PER_DAY := TICKS_PER_HOUR * 24
  const DAYS_TO_10000 := DAYS_PER_400_YEARS * 25 - 366
  const MAX_TICKS := DAYS_TO_10000 * TICKS_PER_DAY - 1

  // The low 62 bits and the two top bits.
  function Ticks(data: u64): nat { data % TWO_62 }

  function Kind(data: u64): u64 { data - data % TWO_62 }

  function Or2(a: nat, b: nat): nat
    requires a < 4 && b < 4
  {
    if a == b || b == 0 then a else if a == 0 then b else 3
  }

  /** A bitwise or with a word that has only the two top bits. */
  function WithKind(t: u64, kind: u64): u64 {
    t % TWO_62 + TWO_62 * Or2(t / TWO_62, kind / TWO_62)
  }

  function DaysInMonth(year: int, month: nat): int
    requires 1 <= month <= 12
  {
    DaysToMonth(IsLeapYear(year))[month] - DaysToMonth(IsLeapYear(year))[month - 1]
  }

  function DateToTicks(year: int, month: nat, day: int): i64
    requires 1 <= month <= 12
  {
    var y := Signed32(year - 1);
    var n := Signed32(y * 365 + TruncDiv(y, 4) - TruncDiv(y, 100) + TruncDiv(y, 400)
                      + DaysToMonth(IsLeapYear(year))[month - 1] + day - 1);
    Signed64(n * TICKS_PER_DAY)
  }

  function TimeToTicks(hour: i32, minute: i32, second: i32): i64 {
    Signed64((hour * 3600 + minute * 60 + second) * TICKS_PER_SECOND)
  }

  /** The constructor from a date and a time of day. */
  function Make(year: i32, month: nat, day: i32, hour: i32, minute: i32, second: i32): u64
    requires 1 <= month <= 12
  {
    Wrap64(DateToTicks(year, month, day) + TimeToTicks(hour, minute, second))
  }

  function DayOf(data: u64): nat { Ticks(data) / TICKS_PER_DAY }

  function TimeOfDay(data: u64): nat { Ticks(data) % TICKS_PER_DAY }

  function Hour(data: u64): nat { Ticks(data) / TICKS_PER_HOUR % 24 }

  function Minute(data: u64): nat { Ticks(data) / TICKS_PER_MINUTE % 60 }

  function Second(data: u64): nat { Ticks(data) / TICKS_PER_SECOND % 60 }

  // ---------------------------------------------------------------------
  // Reading the date
  // ---------------------------------------------------------------------

  lemma PositiveDivision(a: nat, b: int)
    requires b > 0
    ensures TruncDiv(a, b) == a / b
  {
  }

  /** The nested divisions with their last-period corrections, shared by GetDate and GetDatePart. */
  method SplitPeriods(dayNumber: nat) returns (y400: nat, y100: nat, y4: nat, y1: nat, n: nat)
    ensures Periods(y400, y100, y4, y1, n) == PeriodsOf(dayNumber)
  {
    n := dayNumber;
    y400 := n / DAYS_PER_400_YEARS;
    n := n - y400 * DAYS_PER_400_YEARS;
    y100 := n / DAYS_PER_100_YEARS;
    if y100 == 4 { y100 := 3; }
    n := n - y100 * DAYS_PER_100_YEARS;
    y4 := n / DAYS_PER_4_YEARS;
    n := n - y4 * DAYS_PER_4_YEARS;
    y1 := n / DAYS_PER_YEAR;
    if y1 == 4 { y1 := 3; }
    n := n - y1 * DAYS_PER_YEAR;
  }

  /** The fields of the date named by a day number, from its periods. */
  lemma DateFields(n: nat, p: Periods, m: nat)
    requires p == PeriodsOf(n) && 1 <= m <= 12
    requires p.dayOfYear < (if LeapIn(p) then 366 else 365)
    requires p.dayOfYear / 32 + 1 <= 12 && DaysToMonth(LeapIn(p))[p.dayOfYear / 32] <= p.dayOfYear
    requires m == FindMonth(LeapIn(p), p.dayOfYear, p.dayOfYear / 32 + 1)
    ensures DateOf(n) == Date(YearOf(p), m, p.dayOfYear - DaysToMonth(LeapIn(p))[m - 1] + 1)
  {
    hide PeriodsOf, DaysToMonth, FindMonth, YearOf;
  }

  /** GetDate. */
  method GetDate(data: u64) returns (year: nat, month: nat, day: nat)
    ensures Date(year, month, day) == DateOf(DayOf(data))
  {
    hide PeriodsOf, FindMonth, Ticks, DaysToMonth, DateOf;
    PeriodBounds(DayOf(data));
    var y400, y100, y4, y1, n := SplitPeriods(Ticks(data) / TICKS_PER_DAY);
    year := y400 * 400 + y100 * 100 + y4 * 4 + y1 + 1;
    var leapYear := y1 == 3 && (y4 != 24 || y100 == 3);
    month := SearchMonth(leapYear, n);
    DateFields(DayOf(data), PeriodsOf(DayOf(data)), month);
    day := n - DaysToMonth(leapYear)[month - 1] + 1;
  }

  /** The month search, from the guess up; it stops with m at most 12. */
  method SearchMonth(leapYear: bool, n: nat) returns (m: nat)
    requires n < (if leapYear then 366 else 365)
    ensures 1 <= m <= 12 && DaysToMonth(leapYear)[m - 1] <= n < DaysToMonth(leapYear)[m]
    ensures n / 32 + 1 <= 12 && DaysToMonth(leapYear)[n / 32] <= n && m == FindMonth(leapYear, n, n / 32 + 1)
  {
    hide DaysToMonth;
    GuessIsLow(leapYear, n);
    TableEnd(leapYear);
    var days := DaysToMonth(leapYear);
    m := n / 32 + 1;
    while n >= days[m]
      invariant n / 32 + 1 <= m <= 12 && days[m - 1] <= n
      invariant FindMonth(leapYear, n, m) == FindMonth(leapYear, n, n / 32 + 1)
      decreases 12 - m
    {
      m := m + 1;
    }
  }

  lemma TableEnd(leapYear: bool)
    ensures DaysToMonth(leapYear)[12] == if leapYear then 366 else 365
  {
  }

  datatype Part = YearPart | DayOfYearPart | MonthPart | DayPart

  function PartOf(n: nat, part: Part): nat {
    match part
    case YearPart => DateOf(n).year
    case DayOfYearPart => PeriodsOf(n).dayOfYear + 1
    case MonthPart => DateOf(n).month
    case DayPart => DateOf(n).day
  }

  /** The day of the year is the distance from the start of the date's year. */
  lemma DayOfYearMeaning(n: nat)
    ensures PartOf(n, DayOfYearPart) == n - YearStart(DateOf(n).year) + 1
  {
    hide PeriodsOf;
    PeriodBounds(n);
    YearOfPeriods(PeriodsOf(n));
  }

  /** The year, month and day parts of a day number are those of the one date that has it. */
  lemma PartsMakeDate(n: nat)
    ensures var d := Date(PartOf(n, YearPart), PartOf(n, MonthPart), PartOf(n, DayPart));
            ValidDate(d) && DayNumber(d) == n
  {
    hide PeriodsOf, FindMonth, DaysToMonth;
    DateOfIsValid(n);
  }

  lemma YearField(n: nat)
    ensures DateOf(n).year == YearOf(PeriodsOf(n))
  {
  }

  method GetDatePart(data: u64, part: Part) returns (r: nat)
    ensures r == PartOf(DayOf(data), part)
  {
    hide PeriodsOf, FindMonth, Ticks, DaysToMonth, DateOf;
    PeriodBounds(DayOf(data));
    var y400, y100, y4, y1, n := SplitPeriods(Ticks(data) / TICKS_PER_DAY);
    if part == YearPart {
      YearField(DayOf(data));
      return y400 * 400 + y100 * 100 + y4 * 4 + y1 + 1;
    }
    if part == DayOfYearPart {
      return n + 1;
    }
    var leapYear := y1 == 3 && (y4 != 24 || y100 == 3);
    var m := SearchMonth(leapYear, n);
    DateFields(DayOf(data), PeriodsOf(DayOf(data)), m);
    if part == MonthPart {
      return m;
    }
    return n - DaysToMonth(leapYear)[m - 1] + 1;
  }

  // ---------------------------------------------------------------------
  // Round trips
  // ---------------------------------------------------------------------

  predicate InRange(d: Date) { ValidDate(d) && d.year <= 9999 }

  lemma InRangeBound(d: Date)
    requires InRange(d)
    ensures DayNumber(d) < DAYS_TO_10000
  {
    hide YearStart, DayNumber;
    YearStartFormula(10000);
    DayBelow(d, 10000);
  }

  lemma MonthTableOf(d: Date)
    requires ValidDate(d)
    ensures DaysToMonth(IsLeapYear(d.year))[d.month - 1] == MonthStart(d.year, d.month)
    ensures DaysInMonth(d.year, d.month) == MonthLength(d.year, d.month)
  {
    IsLeapYearIsGregorian(d.year);
    TableIsMonthStart(d.year, d.month);
  }

  lemma SmallIsExact(y: nat, n: nat)
    requires y < 20000 && n < 7_500_000
    ensures Signed32(y) == y && Signed32(n) == n && Signed64(n * TICKS_PER_DAY) == n * TICKS_PER_DAY
  {
  }

  lemma DayBelow(d: Date, year: nat)
    requires ValidDate(d) && d.year < year
    ensures DayNumber(d) < YearStart(year)
  {
    hide YearStart, DayNumber;
    DayInsideYear(d);
    YearStartsAscend(d.year, year);
  }

  /** Up to year 20000 nothing wraps in the tick formula. */
  lemma DateToTicksExact(d: Date)
    requires ValidDate(d) && d.year < 20000
    ensures DateToTicks(d.year, d.month, d.day) == DayNumber(d) * TICKS_PER_DAY
  {
    hide Signed32, Signed64, TruncDiv, IsLeapYear, DaysToMonth, YearStart, MonthStart, MonthLength;
    var y := d.year - 1;
    DayBelow(d, 20000);
    YearStartFormula(20000);
    MonthTableOf(d);
    YearStartFormula(d.year);
    PositiveDivision(y, 4);
    PositiveDivision(y, 100);
    PositiveDivision(y, 400);
    SmallIsExact(y, DayNumber(d));
  }

  /** For every valid date up to year 9999 the tick formula is its day number in ticks: nothing wraps. */
  lemma DateToTicksIsDayNumber(d: Date)
    requires InRange(d)
    ensures DateToTicks(d.year, d.month, d.day) == DayNumber(d) * TICKS_PER_DAY <= MAX_TICKS
  {
    hide DateToTicks, DayNumber;
    InRangeBound(d);
    DateToTicksExact(d);
  }

  /** Ticks that carry a date and a time of day give both back. */
  lemma SplitTicks(n: nat, t: nat)
    requires t < TICKS_PER_DAY
    ensures (n * TICKS_PER_DAY + t) / TICKS_PER_DAY == n && (n * TICKS_PER_DAY + t) % TICKS_PER_DAY == t
  {
  }

  lemma TimeFields(n: nat, hour: nat, minute: nat, second: nat)
    requires hour < 24 && minute < 60 && second < 60
    ensures var t := n * TICKS_PER_DAY + (hour * 3600 + minute * 60 + second) * TICKS_PER_SECOND;
            && t / TICKS_PER_HOUR % 24 == hour && t / TICKS_PER_MINUTE % 60 == minute
            && t / TICKS_PER_SECOND % 60 == second
  {
    var t := n * TICKS_PER_DAY + (hour * 3600 + minute * 60 + second) * TICKS_PER_SECOND;
    Quotient(TICKS_PER_SECOND, n * 86400 + hour * 3600 + minute * 60 + second, 0);
    Quotient(TICKS_PER_MINUTE, n * 1440 + hour * 60 + minute, second * TICKS_PER_SECOND);
    Quotient(TICKS_PER_HOUR, n * 24 + hour, (minute * 60 + second) * TICKS_PER_SECOND);
    Remainder(24, n, hour);
    Remainder(60, n * 24 + hour, minute);
    Remainder(60, n * 1440 + hour * 60 + minute, second);
  }

  lemma Quotient(unit: nat, a: nat, r: nat)
    requires unit in {TICKS_PER_SECOND, TICKS_PER_MINUTE, TICKS_PER_HOUR} && r < unit
    ensures (a * unit + r) / unit == a
  {
  }

  lemma Remainder(m: nat, a: nat, r: nat)
    requires m in {24, 60} && r < m
    ensures (a * m + r) % m == r
  {
  }

  /** GetDate and the time getters invert the constructor, for every valid date up to
      year 9999 and every time of day. */
  lemma ConstructorRoundTrip(d: Date, hour: i32, minute: i32, second: i32)
    requires InRange(d) && d.month <= 12
    requires 0 <= hour < 24 && 0 <= minute < 60 && 0 <= second < 60
    ensures var data := Make(d.year, d.month, d.day, hour, minute, second);
            && DateOf(DayOf(data)) == d && Hour(data) == hour && Minute(data) == minute && Second(data) == second
            && Kind(data) == 0 && Ticks(data) <= MAX_TICKS
  {
    hide DateToTicks, DateOf, DayNumber, TimeToTicks;
    InRangeBound(d);
    DateToTicksIsDayNumber(d);
    var n := DayNumber(d);
    var time := TimeInDay(hour, minute, second);
    var data := Make(d.year, d.month, d.day, hour, minute, second);
    assert data == n * TICKS_PER_DAY + time <= MAX_TICKS;
    assert Ticks(data) == data && Kind(data) == 0;
    SplitTicks(n, time);
    DateOfInverts(d);
    TimeFields(n, hour, minute, second);
  }

  lemma TimeInDay(hour: i32, minute: i32, second: i32) returns (time: nat)
    requires 0 <= hour < 24 && 0 <= minute < 60 && 0 <= second < 60
    ensures time == (hour * 3600 + minute * 60 + second) * TICKS_PER_SECOND < TICKS_PER_DAY
    ensures TimeToTicks(hour, minute, second) == time
  {
    time := (hour * 3600 + minute * 60 + second) * TICKS_PER_SECOND;
  }

  /** The moments everybody knows in ticks: the Unix epoch and the last tick of year 9999. */
  lemma KnownMoments()
    ensures Make(1970, 1, 1, 0, 0, 0) == 621_355_968_000_000_000
    ensures Make(9999, 12, 31, 23, 59, 59) + 9_999_999 == 3_155_378_975_999_999_999 == MAX_TICKS
  {
    hide DateToTicks, TimeToTicks, DayNumber;
    KnownDates();
    DateToTicksIsDayNumber(Date(1970, 1, 1));
    DateToTicksIsDayNumber(Date(9999, 12, 31));
    var start := TimeInDay(0, 0, 0);
    var end := TimeInDay(23, 59, 59);
  }

  /** Rebuilding the ticks of the date of any moment rounds it down to midnight. */
  lemma DateRoundsDown(t: nat)
    requires t <= MAX_TICKS
    ensures var d := DateOf(t / TICKS_PER_DAY);
            InRange(d) && DateToTicks(d.year, d.month, d.day) == t - t % TICKS_PER_DAY
  {
    hide DateOf, DateToTicks;
    var n := t / TICKS_PER_DAY;
    DateOfIsValid(n);
    var d := DateOf(n);
    assert n < DAYS_TO_10000;
    DayInsideYear(d);
    YearStartFormula(10000);
    if d.year > 9999 {
      if d.year > 10000 { YearStartsAscend(10000, d.year); }
      assert false;
    }
    DateToTicksIsDayNumber(d);
  }

  // ---------------------------------------------------------------------
  // Adding months, years and ticks
  // ---------------------------------------------------------------------

  /** A moment from its date, time of day and kind bits. */
  function Pack(d: Date, time: nat, kind: u64): int
    requires ValidDate(d)
  {
    DayNumber(d) * TICKS_PER_DAY + time + kind
  }

  /** Year and month after moving i months from January of year y: both sign branches, in 32 bits. */
  function ShiftedMonth(y: int, i: i32): (int, nat) {
    if i >= 0 then (Signed32(y + TruncDiv(i, 12)), TruncMod(i, 12) + 1)
    else (Signed32(y + TruncDiv(Signed32(i - 11), 12)), 12 + TruncMod(i + 1, 12))
  }

  function MonthsAdded(data: u64, months: i32): u64 {
    var d := DateOf(DayOf(data));
    var (y, m) := ShiftedMonth(d.year, Signed32(d.month - 1 + months));
    var day := Min(d.day, DaysInMonth(y, m));
    WithKind(Wrap64(Signed64(DateToTicks(y, m, day) + TimeOfDay(data))), Kind(data))
  }

  lemma RemainderRange(i: int)
    ensures i >= 0 ==> 0 <= TruncMod(i, 12) < 12
    ensures i < 0 ==> -12 < TruncMod(i + 1, 12) <= 0
  {
  }

  /** AddMonths. */
  method AddMonths(data: u64, months: i32) returns (r: u64)
    ensures r == MonthsAdded(data, months)
  {
    hide DateToTicks, DaysInMonth, WithKind, TimeOfDay, DayOf, Kind, DateOf, Signed32, Signed64, Wrap64, TruncDiv;
    hide TruncMod;
    var y: int, m: nat, d: nat;
    y, m, d := GetDate(data);
    var i: int := Signed32(m - 1 + months);
    RemainderRange(i);
    if i >= 0 {
      m := TruncMod(i, 12) + 1;
      y := Signed32(y + TruncDiv(i, 12));
    } else {
      m := 12 + TruncMod(i + 1, 12);
      y := Signed32(y + TruncDiv(Signed32(i - 11), 12));
    }
    var days := DaysInMonth(y, m);
    var day: int := d;
    if day > days { day := days; }
    var time: int := TimeOfDay(data);
    return WithKind(Wrap64(Signed64(DateToTicks(y, m, day) + time)), Kind(data));
  }

  function YearsAdded(data: u64, value: i32): u64 { MonthsAdded(data, Signed32(value * 12)) }

  function TicksAdded(data: u64, value: i64): u64 { WithKind(Wrap64(Ticks(data) + value), Kind(data)) }

  /** AddTicks moves the ticks by the argument exactly while the sum stays in 62 bits, and
      then keeps the kind; outside, the sum spills into the kind bits. */
  lemma AddTicksLaw(data: u64, value: i64)
    ensures Ticks(TicksAdded(data, value)) == Ticks(data) + value <==> 0 <= Ticks(data) + value < TWO_62
    ensures 0 <= Ticks(data) + value < TWO_62 ==> Kind(TicksAdded(data, value)) == Kind(data)
  {
    KindBits(data);
    if 0 <= Ticks(data) + value < TWO_62 {
      WithKindLow(Ticks(data) + value, Kind(data));
    }
  }

  /** TryAddTicks: None exactly when the sum leaves the range of years 1 to 9999. */
  function TryAddTicks(data: u64, value: i64): (r: Option<u64>)
    ensures r.Some? <==> 0 <= Ticks(data) + value <= MAX_TICKS
    ensures r.Some? ==> Ticks(r.value) == Ticks(data) + value && Kind(r.value) == Kind(data)
  {
    AddTicksLaw(data, value);
    if value > MAX_TICKS - Ticks(data) || value < 0 - Ticks(data) then None else Some(TicksAdded(data, value))
  }

  lemma KindBits(data: u64)
    ensures Kind(data) % TWO_62 == 0 && data == Kind(data) + Ticks(data)
  {
  }

  /** Below 2^62, a bitwise or with the kind bits is addition, and both parts are read back. */
  lemma WithKindLow(t: nat, kind: u64)
    requires t < TWO_62 && kind % TWO_62 == 0
    ensures WithKind(t, kind) == t + kind
    ensures Ticks(WithKind(t, kind)) == t && Kind(WithKind(t, kind)) == kind
  {
    assert t / TWO_62 == 0 && t % TWO_62 == t;
  }

  /** Both sign branches are floor division of the month count. */
  lemma ShiftIsFloor(y: nat, i: i32)
    requires y < 20000 && 0 <= y + i / 12 < 20000
    ensures ShiftedMonth(y, i) == (y + i / 12, i % 12 + 1)
  {
    if i >= 0 {
      PositiveDivision(i, 12);
    } else {
      NegativeShift(i);
      assert i >= -240_000;
      assert Signed32(i - 11) == i - 11;
    }
  }

  lemma NegativeShift(i: int)
    requires i < 0
    ensures TruncDiv(i - 11, 12) == i / 12 && 12 + TruncMod(i + 1, 12) == i % 12 + 1
  {
    var q, r := i / 12, i % 12;
    var k := -q - 1;
    assert -(i - 11) == 12 * (k + 1) + (11 - r) && -(i + 1) == 12 * k + (11 - r);
    DivideExact(k + 1, 11 - r);
    DivideExact(k, 11 - r);
  }

  lemma DivideExact(k: int, r: nat)
    requires r < 12
    ensures (12 * k + r) / 12 == k
  {
  }

  const LAST_YEAR := 14614

  /** The 62 tick bits hold the moment. They end in the course of the last year. */
  predicate Representable(d: Date, time: nat) { ValidDate(d) && DayNumber(d) * TICKS_PER_DAY + time < TWO_62 }

  lemma LastYears()
    ensures YearStart(LAST_YEAR) == 5_337_288 && YearStart(LAST_YEAR + 1) == 5_337_653
  {
    YearStartFormula(LAST_YEAR);
    YearStartFormula(LAST_YEAR + 1);
  }

  lemma RepresentableYears(d: Date, time: nat)
    requires ValidDate(d) && time < TICKS_PER_DAY
    ensures d.year < LAST_YEAR ==> Representable(d, time)
    ensures Representable(d, time) ==> d.year <= LAST_YEAR
    ensures d.year <= LAST_YEAR ==> DayNumber(d) < 5_337_653
  {
    hide YearStart, DayNumber;
    LastYears();
    DayInsideYear(d);
    if d.year < LAST_YEAR { DayBelow(d, LAST_YEAR); }
    if d.year <= LAST_YEAR { DayBelow(d, LAST_YEAR + 1); }
    if d.year > LAST_YEAR + 1 { YearStartsAscend(LAST_YEAR + 1, d.year); }
  }

  /** Every DateTime, also with ticks beyond MaxTicks, reads as a year up to the last. */
  lemma YearBound(data: u64)
    ensures ValidDate(DateOf(DayOf(data))) && 1 <= DateOf(DayOf(data)).year <= LAST_YEAR
  {
    hide DateOf, DayNumber, Ticks;
    DateOfIsValid(DayOf(data));
    DayBound(data);
    RepresentableYears(DateOf(DayOf(data)), 0);
  }

  lemma DayBound(data: u64)
    ensures DayOf(data) * TICKS_PER_DAY < TWO_62
  {
  }

  lemma PackedBack(d: Date, time: nat, kind: u64)
    requires Representable(d, time) && time < TICKS_PER_DAY && kind % TWO_62 == 0
    ensures 0 <= Pack(d, time, kind) < TWO_64
    ensures var data := Pack(d, time, kind);
            DateOf(DayOf(data)) == d && TimeOfDay(data) == time && Kind(data) == kind
  {
    hide DateOf, DayNumber;
    var n := DayNumber(d);
    WithKindLow(n * TICKS_PER_DAY + time, kind);
    SplitTicks(n, time);
    DateOfInverts(d);
    assert kind <= 3 * TWO_62;
  }

  /** Where `months` months after a date lands. */
  function MonthTarget(d: Date, months: int): Date {
    var t := 12 * d.year + (d.month - 1) + months;
    if t < 12 then d else Date(t / 12, t % 12 + 1, Min(d.day, MonthLength(t / 12, t % 12 + 1)))
  }

  lemma TargetIsValid(d: Date, months: int)
    requires ValidDate(d) && 12 <= 12 * d.year + (d.month - 1) + months
    ensures ValidDate(MonthTarget(d, months))
    ensures MonthTarget(d, months).year == (12 * d.year + (d.month - 1) + months) / 12
  {
  }

  /** The ticks AddMonths computes before the kind bits are put back, while the 32-bit arithmetic is exact. */
  lemma MonthsAddedTicks(data: u64, months: i32)
    requires var d := DateOf(DayOf(data)); 12 <= 12 * d.year + (d.month - 1) + months < 240000
    ensures var d := DateOf(DayOf(data));
            var e := MonthTarget(d, months);
            && ValidDate(d) && ValidDate(e)
            && 0 <= DayNumber(e) * TICKS_PER_DAY + TimeOfDay(data) < TWO_63
            && MonthsAdded(data, months) == WithKind(DayNumber(e) * TICKS_PER_DAY + TimeOfDay(data), Kind(data))
  {
    hide DateOf, DateToTicks, DayNumber, WithKind, Ticks, Kind, ShiftedMonth, MonthLength, DaysInMonth, YearStart;
    hide Signed32, Signed64, Wrap64, MonthsAdded, DayOf, TimeOfDay;
    var d := DateOf(DayOf(data));
    YearBound(data);
    TargetIsValid(d, months);
    var e := MonthTarget(d, months);
    var i := d.month - 1 + months;
    FitsInt(i);
    TargetYear(d.year, i);
    ShiftIsFloor(d.year, i);
    FirstIsValid(e.year, e.month);
    MonthTableOf(Date(e.year, e.month, 1));
    DateToTicksExact(e);
    YearStartFormula(20000);
    DayBelow(e, 20000);
    TimeIsInDay(data);
    TicksStay(DayNumber(e), TimeOfDay(data));
    AddedTo(data, months, e.year, e.month, e.day, DayNumber(e) * TICKS_PER_DAY + TimeOfDay(data));
  }

  /** What AddMonths returns, from its intermediate results. */
  lemma AddedTo(data: u64, months: i32, y: int, m: nat, day: int, t: u64)
    requires var d := DateOf(DayOf(data));
             1 <= m <= 12 && ShiftedMonth(d.year, Signed32(d.month - 1 + months)) == (y, m)
    requires day == Min(DateOf(DayOf(data)).day, DaysInMonth(y, m))
    requires DateToTicks(y, m, day) + TimeOfDay(data) == t && Signed64(t) == t && Wrap64(t) == t
    ensures MonthsAdded(data, months) == WithKind(t, Kind(data))
  {
    hide DateOf, DateToTicks, WithKind, Ticks, Kind, ShiftedMonth, DaysInMonth, DayOf, TimeOfDay;
    hide Signed32, Signed64, Wrap64;
  }

  lemma FitsInt(i: int)
    requires -TWO_31 <= i < TWO_31
    ensures Signed32(i) == i
  {
  }

  /** AddMonths lands where it should while the tick bits hold the target; beyond them it wraps
      round to year 1. */
  lemma MonthsAddedDate(data: u64, months: i32)
    requires var d := DateOf(DayOf(data)); 12 <= 12 * d.year + (d.month - 1) + months < 12 * (LAST_YEAR + 1)
    ensures var d := DateOf(DayOf(data));
            var e := MonthTarget(d, months);
            && ValidDate(d) && ValidDate(e)
            && (Representable(e, TimeOfDay(data)) ==>
                  && MonthsAdded(data, months) == Pack(e, TimeOfDay(data), Kind(data))
                  && DateOf(DayOf(MonthsAdded(data, months))) == e)
            && (!Representable(e, TimeOfDay(data)) ==>
                  e.year == LAST_YEAR && DateOf(DayOf(MonthsAdded(data, months))).year == 1)
  {
    hide DateOf, DayNumber, WithKind, Ticks, Kind, MonthsAdded, MonthTarget, DayOf, TimeOfDay;
    var d := DateOf(DayOf(data));
    MonthsAddedTicks(data, months);
    var e := MonthTarget(d, months);
    TargetYearOf(d, months);
    TimeIsInDay(data);
    KindBits(data);
    RepresentableYears(e, TimeOfDay(data));
    if Representable(e, TimeOfDay(data)) {
      WithKindLow(DayNumber(e) * TICKS_PER_DAY + TimeOfDay(data), Kind(data));
      PackedBack(e, TimeOfDay(data), Kind(data));
    } else {
      WrapsToFirstYear(DayNumber(e), TimeOfDay(data), Kind(data));
    }
  }

  lemma TargetYearOf(d: Date, months: int)
    requires ValidDate(d) && 12 <= 12 * d.year + (d.month - 1) + months < 12 * (LAST_YEAR + 1)
    ensures 1 <= MonthTarget(d, months).year <= LAST_YEAR
  {
  }

  /** Ticks just past the 62 bits leave a day of year 1. */
  lemma WrapsToFirstYear(n: nat, time: nat, kind: u64)
    requires n < 5_337_653 && time < TICKS_PER_DAY && n * TICKS_PER_DAY + time >= TWO_62
    ensures n * TICKS_PER_DAY + time < TWO_64
    ensures DateOf(DayOf(WithKind(n * TICKS_PER_DAY + time, kind))).year == 1
  {
    hide DateOf, PeriodsOf;
    var t := n * TICKS_PER_DAY + time;
    assert t < 2 * TWO_62;
    WithKindTicks(t, kind);
    var day := (t - TWO_62) / TICKS_PER_DAY;
    assert day < 60;
    FirstYear(day);
  }

  lemma WithKindTicks(t: u64, kind: u64)
    requires TWO_62 <= t < 2 * TWO_62
    ensures Ticks(WithKind(t, kind)) == t - TWO_62
  {
  }

  lemma FirstYear(day: nat)
    requires day < 365
    ensures DateOf(day).year == 1
  {
    hide DateOf, DayNumber, YearStart;
    DateOfIsValid(day);
    YearStartFormula(2);
    DayInsideYear(DateOf(day));
    if DateOf(day).year > 2 { YearStartsAscend(2, DateOf(day).year); }
  }

  /** When AddMonths is right, for every moment and argument: 12 * year + month advances by exactly
      the argument if and only if the target is not before year 1 and the tick bits hold it. */
  lemma AddMonthsIff(data: u64, months: i32)
    ensures var d, r := DateOf(DayOf(data)), DateOf(DayOf(MonthsAdded(data, months)));
            var t := 12 * d.year + (d.month - 1) + months;
            12 * r.year + (r.month - 1) == t <==>
            t >= 12 && Representable(MonthTarget(d, months), TimeOfDay(data))
  {
    hide DateOf, DayNumber, MonthsAdded, MonthTarget, DayOf, TimeOfDay, Pack, Representable;
    var d, r := DateOf(DayOf(data)), DateOf(DayOf(MonthsAdded(data, months)));
    YearBound(data);
    YearBound(MonthsAdded(data, months));
    TimeIsInDay(data);
    if 12 <= 12 * d.year + (d.month - 1) + months {
      TargetIsValid(d, months);
      RepresentableYears(MonthTarget(d, months), TimeOfDay(data));
      if 12 * d.year + (d.month - 1) + months < 12 * (LAST_YEAR + 1) {
        MonthsAddedDate(data, months);
        TargetIndex(d, months);
      }
    }
  }

  lemma TargetIndex(d: Date, months: int)
    requires ValidDate(d) && 12 <= 12 * d.year + (d.month - 1) + months
    ensures var e := MonthTarget(d, months);
            12 * e.year + (e.month - 1) == 12 * d.year + (d.month - 1) + months
  {
    var t := 12 * d.year + (d.month - 1) + months;
    assert t == 12 * (t / 12) + t % 12;
  }

  /** AddMonths law: when the result is in years 1 to 9999, 12 * year + month advances by
      exactly the argument, the day is cut to the length of the new month, and time of day
      and kind bits stay. */
  lemma AddMonthsLaw(data: u64, months: i32)
    requires var d := DateOf(DayOf(data)); 12 <= 12 * d.year + (d.month - 1) + months < 120000
    ensures var d := DateOf(DayOf(data));
            && ValidDate(d) && InRange(MonthTarget(d, months))
            && MonthsAdded(data, months) == Pack(MonthTarget(d, months), TimeOfDay(data), Kind(data))
  {
    hide DateOf, MonthsAdded, DayOf, TimeOfDay, Kind, MonthTarget, Pack, Representable;
    var d := DateOf(DayOf(data));
    YearBound(data);
    TargetIsValid(d, months);
    TimeIsInDay(data);
    RepresentableYears(MonthTarget(d, months), TimeOfDay(data));
    MonthsAddedDate(data, months);
  }

  lemma FirstIsValid(year: nat, month: nat)
    requires year >= 1 && 1 <= month <= 12
    ensures ValidDate(Date(year, month, 1))
  {
  }

  lemma TargetYear(y: nat, i: int)
    requires 12 * y + i >= 0
    ensures (12 * y + i) / 12 == y + i / 12 && (12 * y + i) % 12 == i % 12
  {
  }

  lemma TicksStay(n: nat, time: nat)
    requires n < 7_500_000 && time < TICKS_PER_DAY
    ensures n * TICKS_PER_DAY + time < TWO_63
    ensures Signed64(n * TICKS_PER_DAY + time) == n * TICKS_PER_DAY + time
    ensures Wrap64(n * TICKS_PER_DAY + time) == n * TICKS_PER_DAY + time
  {
  }

  /** Up to day 28 no day is cut, so adding a and then b months is adding a + b. */
  lemma AddMonthsComposes(data: u64, a: i32, b: i32)
    requires -TWO_31 <= a + b < TWO_31
    requires var d := DateOf(DayOf(data));
             && d.day <= 28
             && 12 <= 12 * d.year + (d.month - 1) + a < 120000
             && 12 <= 12 * d.year + (d.month - 1) + a + b < 120000
    ensures MonthsAdded(MonthsAdded(data, a), b) == MonthsAdded(data, a + b)
  {
    hide DateOf, MonthsAdded, Pack, DayOf, TimeOfDay, Kind;
    var d := DateOf(DayOf(data));
    AddMonthsLaw(data, a);
    AddMonthsLaw(data, a + b);
    var e := MonthTarget(d, a);
    TimeIsInDay(data);
    KindBits(data);
    RepresentableYears(e, TimeOfDay(data));
    PackedBack(e, TimeOfDay(data), Kind(data));
    TargetYear(d.year, d.month - 1 + a);
    TargetAgain(d, a, b);
    AddMonthsLaw(MonthsAdded(data, a), b);
  }

  lemma TimeIsInDay(data: u64)
    ensures TimeOfDay(data) < TICKS_PER_DAY
  {
  }

  lemma TargetAgain(d: Date, a: int, b: int)
    requires ValidDate(d) && d.day <= 28
    requires 12 <= 12 * d.year + (d.month - 1) + a && 12 <= 12 * d.year + (d.month - 1) + a + b
    ensures var e := MonthTarget(d, a);
            && 12 * e.year + (e.month - 1) == 12 * d.year + (d.month - 1) + a
            && MonthTarget(e, b) == MonthTarget(d, a + b)
  {
    var t := 12 * d.year + (d.month - 1) + a;
    assert t == 12 * (t / 12) + t % 12;
  }

  /** The date whose year is moved by AddYears. */
  function YearTarget(d: Date, value: int): Date
    requires d.year + value >= 1
  {
    Date(d.year + value, d.month, Min(d.day, MonthLength(d.year + value, d.month)))
  }

  lemma YearIsTwelveMonths(d: Date, value: int)
    requires ValidDate(d) && d.year + value >= 1
    ensures 12 * d.year + (d.month - 1) + 12 * value == 12 * (d.year + value) + (d.month - 1)
    ensures MonthTarget(d, 12 * value) == YearTarget(d, value) && ValidDate(YearTarget(d, value))
  {
    TargetYear(d.year + value, d.month - 1);
  }

  /** AddYears: while the tick bits hold the target, which they do in every year before the last,
      the year moves by the argument, and February 29 becomes February 28 where the new year has none. */
  lemma AddYearsLaw(data: u64, value: i32)
    requires var d := DateOf(DayOf(data));
             && 1 <= d.year + value
             && (d.year + value < LAST_YEAR || Representable(YearTarget(d, value), TimeOfDay(data)))
    ensures var d := DateOf(DayOf(data));
            var e := YearTarget(d, value);
            && ValidDate(d) && ValidDate(e) && (e.year <= 9999 ==> InRange(e))
            && DateOf(DayOf(YearsAdded(data, value))) == e
            && YearsAdded(data, value) == Pack(e, TimeOfDay(data), Kind(data))
            && (e.day != d.day ==> d.month == 2 && d.day == 29 && e.day == 28)
  {
    hide DateOf, MonthsAdded, Pack, DayOf, TimeOfDay, Kind, MonthTarget, Representable, MonthLength;
    var d := DateOf(DayOf(data));
    YearBound(data);
    YearIsTwelveMonths(d, value);
    TimeIsInDay(data);
    RepresentableYears(YearTarget(d, value), TimeOfDay(data));
    TwelveTimes(value);
    MonthsAddedDate(data, 12 * value);
    CutDay(d, value);
  }

  lemma CutDay(d: Date, value: int)
    requires ValidDate(d) && d.year + value >= 1
    ensures var e := YearTarget(d, value); e.day != d.day ==> d.month == 2 && d.day == 29 && e.day == 28
  {
  }

  lemma TwelveTimes(value: i32)
    ensures Signed32(value * 12) == value * 12 <==> -TWO_31 <= value * 12 < TWO_31
  {
  }

  /** When AddYears is right, for every moment and argument, although twelve times the argument is
      computed in 32 bits: the year moves by the argument if and only if the target is not before
      year 1 and the tick bits hold it, which is so in every year before the last and in none after. */
  lemma AddYearsIff(data: u64, value: i32)
    ensures var d := DateOf(DayOf(data));
            DateOf(DayOf(YearsAdded(data, value))).year == d.year + value <==>
            1 <= d.year + value && Representable(YearTarget(d, value), TimeOfDay(data))
    ensures var d := DateOf(DayOf(data));
            && (1 <= d.year + value < LAST_YEAR ==> Representable(YearTarget(d, value), TimeOfDay(data)))
            && (d.year + value > LAST_YEAR ==> !Representable(YearTarget(d, value), TimeOfDay(data)))
  {
    hide DateOf, DayNumber, MonthsAdded, Pack, DayOf, TimeOfDay, Kind, MonthTarget, Representable, MonthLength;
    hide Signed32;
    var d := DateOf(DayOf(data));
    YearBound(data);
    YearBound(YearsAdded(data, value));
    if 1 <= d.year + value {
      YearIsTwelveMonths(d, value);
      TimeIsInDay(data);
      RepresentableYears(YearTarget(d, value), TimeOfDay(data));
      if d.year + value <= LAST_YEAR {
        TwelveTimes(value);
        MonthsAddedDate(data, 12 * value);
      }
    }
  }

  /** Where the product wraps, the date silently moves by something else: this argument moves the date 8 months. */
  lemma AddYearsWraps(data: u64)
    ensures YearsAdded(data, 357_913_942) == MonthsAdded(data, 8)
  {
    hide MonthsAdded;
    assert Signed32(357_913_942 * 12) == 8;
  }
}
