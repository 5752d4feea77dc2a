/** The build date: days since 1970-01-01 to a civil date of the proleptic Gregorian calendar
    (ISO 8601:2004, section 3.2.1). Integers are unbounded; Rust's truncating division is explicit. */
module CivilDate {

  datatype Date = Date(year: int, month: int, day: int)

  /** Rust's `/` for a positive divisor. */
  function TruncatingDivide(a: int, b: int): int
    requires b > 0
  {
    if a >= 0 then a / b else -((-a) / b)
  }

  // ---------------------------------------------------------------------------------------------
  // The algorithm
  // ---------------------------------------------------------------------------------------------

  /** The 400-year era of a day counted from 0000-03-01. */
  function Era(z: int): int {
    TruncatingDivide(if z >= 0 then z else z - 146096, 146097)
  }

  function YearOfEra(doe: int): int
    requires 0 <= doe
  {
    (doe - doe / 1460 + doe / 36524 - doe / 146096) / 365
  }

  function CivilFromDays(days: int): Date {
    CivilFromMarchDays(days + 719468)
  }

  /** The date of a day counted from 0000-03-01. */
  function CivilFromMarchDays(z: int): Date {
    EraBounds(z);
    CivilInEra(Era(z), z - Era(z) * 146097)
  }

  function CivilInEra(era: int, doe: int): Date
    requires 0 <= doe
  {
    DateInYearOfEra(era, YearOfEra(doe), doe)
  }

  function DateInYearOfEra(era: int, yoe: int, doe: int): Date {
    DateInMarchYear(yoe + era * 400, doe - (365 * yoe + yoe / 4 - yoe / 100))
  }

  /** Day `doy` of the year that starts in March of `y`. */
  function DateInMarchYear(y: int, doy: int): Date {
    var mp := TruncatingDivide(5 * doy + 2, 153);
    var d := doy - TruncatingDivide(153 * mp + 2, 5) + 1;
    var m := if mp < 10 then mp + 3 else mp - 9;
    Date(if m <= 2 then y + 1 else y, m, d)
  }

  // ---------------------------------------------------------------------------------------------
  // The calendar
  // ---------------------------------------------------------------------------------------------

  predicate IsLeap(year: int) {
    year % 4 == 0 && (year % 100 != 0 || year % 400 == 0)
  }

  function DaysInMonth(year: int, month: int): int {
    if month == 2 then (if IsLeap(year) then 29 else 28)
    else if month in {4, 6, 9, 11} then 30
    else 31
  }

  predicate Valid(date: Date) {
    1 <= date.month <= 12 && 1 <= date.day <= DaysInMonth(date.year, date.month)
  }

  /** The calendar day after `date`. */
  function NextDay(date: Date): Date {
    if date.day < DaysInMonth(date.year, date.month) then date.(day := date.day + 1)
    else if date.month < 12 then Date(date.year, date.month + 1, 1)
    else Date(date.year + 1, 1, 1)
  }

  function DaysInYear(year: int): int {
    if IsLeap(year) then 366 else 365
  }

  /** Days from 0001-01-01 to the first day of `year`, one year at a time in either direction. */
  function DaysBeforeYear(year: int): int
    decreases if year >= 1 then year else 2 - year
  {
    if year == 1 then 0
    else if year > 1 then DaysBeforeYear(year - 1) + DaysInYear(year - 1)
    else DaysBeforeYear(year + 1) - DaysInYear(year)
  }

  function DaysBeforeMonth(year: int, month: int): int
    decreases month
  {
    if month <= 1 then 0 else DaysBeforeMonth(year, month - 1) + DaysInMonth(year, month - 1)
  }

  /** Days from 1970-01-01, counted year by year and month by month. */
  function DayNumber(date: Date): int {
    DaysBeforeYear(date.year) + DaysBeforeMonth(date.year, date.month) + date.day - 1 - 719162
  }

  // ---------------------------------------------------------------------------------------------
  // The algorithm against the calendar
  // ---------------------------------------------------------------------------------------------

  lemma EraBounds(z: int)
    ensures 0 <= z - Era(z) * 146097 < 146097
  {
  }

  /** Days of the era before its year `yoe`, years starting in March. */
  function EraDaysBefore(yoe: int): int {
    365 * yoe + yoe / 4 - yoe / 100 + yoe / 400
  }

  /** Day `s` of four-year cycle `q` of century `c`: its year of the era. */
  lemma YearInCentury(c: int, q: int, s: int, j: int)
    requires 0 <= c <= 3 && 0 <= q <= 24 && 0 <= s <= 1460 && (q == 24 ==> s <= 1459)
    requires j == if s / 365 <= 3 then s / 365 else 3
    ensures YearOfEra(36524 * c + 1461 * q + s) == 100 * c + 4 * q + j
  {
    var doe := 36524 * c + 1461 * q + s;
    var t := (q + s + 24 * c) / 1460;
    assert 0 <= t <= 1;
    assert doe / 1460 == 25 * c + q + t by {
      assert doe == 1460 * (25 * c + q) + (q + s + 24 * c);
    }
    assert doe / 36524 == c by { assert 0 <= 1461 * q + s < 36524; }
    assert doe / 146096 == 0;
    assert doe - doe / 1460 + doe / 36524 - doe / 146096 == 365 * (100 * c + 4 * q) + (s - t);
    assert (s - t) / 365 == j;
  }

  lemma EraDaysOfYear(c: int, q: int, j: int)
    requires 0 <= c <= 3 && 0 <= q <= 24 && 0 <= j <= 3
    ensures var y := 100 * c + 4 * q + j;
            && EraDaysBefore(y) == 36524 * c + 1461 * q + 365 * j
            && EraDaysBefore(y + 1) == if j < 3 then EraDaysBefore(y) + 365
                                       else if q < 24 then 36524 * c + 1461 * (q + 1)
                                       else 36524 * (c + 1) + (if c == 3 then 1 else 0)
  {
    var y := 100 * c + 4 * q + j;
    assert y / 4 == 25 * c + q && y / 100 == c && y / 400 == 0;
    if j < 3 {
      assert (y + 1) / 4 == 25 * c + q && (y + 1) / 100 == c && (y + 1) / 400 == 0;
    } else if q < 24 {
      assert (y + 1) / 4 == 25 * c + q + 1 && (y + 1) / 100 == c && (y + 1) / 400 == 0;
    } else {
      assert (y + 1) / 4 == 25 * c + 25 && (y + 1) / 100 == c + 1;
    }
  }

  /** The position of a day within its era, except for the era's last day. */
  lemma CycleOfDay(doe: int)
    requires 0 <= doe < 146096
    ensures var c := doe / 36524;
            var r := doe - 36524 * c;
            && 0 <= c <= 3 && 0 <= r / 1461 <= 24 && 0 <= r % 1461 <= 1460
            && (r / 1461 == 24 ==> r % 1461 <= 1459)
            && doe == 36524 * c + 1461 * (r / 1461) + r % 1461
  {
  }

  lemma LastDayOfEra()
    ensures YearOfEra(146096) == 399
    ensures EraDaysBefore(399) <= 146096 < EraDaysBefore(400)
  {
  }

  lemma YearOfEraIsExact(doe: int, yoe: int)
    requires 0 <= doe < 146097 && yoe == YearOfEra(doe)
    ensures 0 <= yoe <= 399
    ensures EraDaysBefore(yoe) <= doe < EraDaysBefore(yoe + 1)
  {
    if doe == 146096 {
      LastDayOfEra();
    } else {
      CycleOfDay(doe);
      var r := doe - 36524 * (doe / 36524);
      YearOfCycleDay(doe / 36524, r / 1461, r % 1461);
    }
  }

  lemma YearOfCycleDay(c: int, q: int, s: int)
    requires 0 <= c <= 3 && 0 <= q <= 24 && 0 <= s <= 1460 && (q == 24 ==> s <= 1459)
    requires 36524 * c + 1461 * q + s < 146096
    ensures var doe := 36524 * c + 1461 * q + s;
            0 <= YearOfEra(doe) <= 399 && EraDaysBefore(YearOfEra(doe)) <= doe < EraDaysBefore(YearOfEra(doe) + 1)
  {
    var j := if s / 365 <= 3 then s / 365 else 3;
    YearInCentury(c, q, s, j);
    EraDaysOfYear(c, q, j);
  }

  /** Cumulative days of the months before March-based month `mp`. */
  lemma MonthOfYear(doy: int)
    requires 0 <= doy <= 365
    ensures var mp := (5 * doy + 2) / 153;
            0 <= mp <= 11 && (153 * mp + 2) / 5 <= doy && (mp < 11 ==> doy < (153 * (mp + 1) + 2) / 5)
  {
  }

  /** Days from 0000-03-01 to the first of March of `year`. */
  function DaysBeforeMarch(year: int): int {
    365 * year + year / 4 - year / 100 + year / 400
  }

  lemma DaysBeforeMarchInEra(era: int, yoe: int)
    requires 0 <= yoe <= 400
    ensures DaysBeforeMarch(yoe + 400 * era) == 146097 * era + EraDaysBefore(yoe)
  {
    var y := yoe + 400 * era;
    assert y / 4 == yoe / 4 + 100 * era && y / 100 == yoe / 100 + 4 * era && y / 400 == yoe / 400 + era;
  }

  function LeapDay(year: int): int {
    if IsLeap(year) then 1 else 0
  }

  function One(condition: bool): int {
    if condition then 1 else 0
  }

  lemma FloorSteps(y: int)
    ensures y / 4 - (y - 1) / 4 == One(y % 4 == 0)
    ensures y / 100 - (y - 1) / 100 == One(y % 100 == 0)
    ensures y / 400 - (y - 1) / 400 == One(y % 400 == 0)
  {
  }

  lemma MarchYearLength(year: int)
    ensures DaysBeforeMarch(year) == DaysBeforeMarch(year - 1) + 365 + LeapDay(year)
  {
    FloorSteps(year);
    LeapByDivision(year);
  }

  /** The closed form of the year count: January behind a March year. */
  lemma {:induction false} MarchAndJanuary(year: int)
    ensures DaysBeforeYear(year + 1) == DaysBeforeMarch(year)
    decreases if year >= 0 then year else -year
  {
    if year > 0 {
      MarchAndJanuary(year - 1);
      MarchYearLength(year);
    } else if year < 0 {
      MarchAndJanuary(year + 1);
      MarchYearLength(year + 1);
    }
  }

  lemma YearStep(year: int)
    ensures DaysBeforeYear(year + 1) == DaysBeforeYear(year) + 365 + LeapDay(year)
  {
  }

  lemma CycleMultiples(k: int)
    ensures 400 * k == 100 * (4 * k) && (400 * k) % 100 == 0 && (100 * k) % 4 == 0
  {
  }

  lemma CenturiesAreLeapCycles(year: int)
    ensures year % 400 == 0 ==> year % 100 == 0
    ensures year % 100 == 0 ==> year % 4 == 0
  {
    CycleMultiples(year / 400);
    CycleMultiples(year / 100);
  }

  lemma LeapByDivision(year: int)
    ensures LeapDay(year) == One(year % 4 == 0) - One(year % 100 == 0) + One(year % 400 == 0)
  {
    CenturiesAreLeapCycles(year);
  }

  /** The cumulative day table that the recursive count yields. */
  lemma MonthTable(year: int)
    ensures var l := LeapDay(year);
            && DaysBeforeMonth(year, 1) == 0 && DaysBeforeMonth(year, 2) == 31
            && DaysBeforeMonth(year, 3) == 59 + l && DaysBeforeMonth(year, 4) == 90 + l
            && DaysBeforeMonth(year, 5) == 120 + l && DaysBeforeMonth(year, 6) == 151 + l
            && DaysBeforeMonth(year, 7) == 181 + l && DaysBeforeMonth(year, 8) == 212 + l
            && DaysBeforeMonth(year, 9) == 243 + l && DaysBeforeMonth(year, 10) == 273 + l
            && DaysBeforeMonth(year, 11) == 304 + l && DaysBeforeMonth(year, 12) == 334 + l
            && DaysBeforeMonth(year, 13) == 365 + l
  {
    assert DaysBeforeMonth(year, 2) == 31;
    assert DaysBeforeMonth(year, 4) == DaysBeforeMonth(year, 3) + 31;
    assert DaysBeforeMonth(year, 6) == DaysBeforeMonth(year, 5) + 31;
    assert DaysBeforeMonth(year, 8) == DaysBeforeMonth(year, 7) + 31;
    assert DaysBeforeMonth(year, 10) == DaysBeforeMonth(year, 9) + 30;
    assert DaysBeforeMonth(year, 12) == DaysBeforeMonth(year, 11) + 30;
  }

  /** Month and day of a year day: valid, and at the right distance from the first of January. */
  lemma MonthAndDay(y: int, doy: int)
    requires 0 <= doy < 365 + LeapDay(y + 1)
    ensures var date := DateInMarchYear(y, doy);
            && Valid(date)
            && date.year == (if doy < 306 then y else y + 1)
            && DaysBeforeMonth(date.year, date.month) + date.day - 1
               == if doy < 306 then 59 + LeapDay(y) + doy else doy - 306
  {
    MonthOfYear(doy);
    MonthTable(y);
    MonthTable(y + 1);
  }

  lemma DateInMarchYearIsExact(y: int, doy: int)
    requires 0 <= doy < 365 + LeapDay(y + 1)
    ensures Valid(DateInMarchYear(y, doy))
    ensures DayNumber(DateInMarchYear(y, doy)) == DaysBeforeMarch(y) + doy - 719468
  {
    MonthAndDay(y, doy);
    MarchAndJanuary(y);
    YearStep(y);
  }

  // ---------------------------------------------------------------------------------------------
  // Main results
  // ---------------------------------------------------------------------------------------------

  /** A year of the era has as many days as its February decides. */
  lemma DayOfMarchYear(era: int, yoe: int, doe: int)
    requires 0 <= yoe <= 399
    requires EraDaysBefore(yoe) <= doe < EraDaysBefore(yoe + 1)
    ensures 0 <= doe - EraDaysBefore(yoe) < 365 + LeapDay(yoe + 400 * era + 1)
  {
    DaysBeforeMarchInEra(era, yoe);
    DaysBeforeMarchInEra(era, yoe + 1);
    var y := yoe + 400 * era;
    assert y + 1 == yoe + 1 + 400 * era;
    MarchYearLength(y + 1);
  }

  /** Every day, before or after the epoch, becomes a valid date whose day number is that day. */
  lemma CivilFromDaysIsExact(days: int)
    ensures Valid(CivilFromDays(days))
    ensures DayNumber(CivilFromDays(days)) == days
  {
    CivilFromMarchDaysIsExact(days + 719468);
  }

  lemma CivilFromMarchDaysIsExact(z: int)
    ensures Valid(CivilFromMarchDays(z)) && DayNumber(CivilFromMarchDays(z)) == z - 719468
  {
    EraBounds(z);
    CivilInEraIsExact(Era(z), z - Era(z) * 146097);
  }

  lemma CivilInEraIsExact(era: int, doe: int)
    requires 0 <= doe < 146097
    ensures Valid(CivilInEra(era, doe)) && DayNumber(CivilInEra(era, doe)) == era * 146097 + doe - 719468
  {
    YearOfEraIsExact(doe, YearOfEra(doe));
    DateInYearOfEraIsExact(era, YearOfEra(doe), doe);
  }

  lemma DateInYearOfEraIsExact(era: int, yoe: int, doe: int)
    requires 0 <= yoe <= 399
    requires EraDaysBefore(yoe) <= doe < EraDaysBefore(yoe + 1)
    ensures var date := DateInYearOfEra(era, yoe, doe);
            Valid(date) && DayNumber(date) == era * 146097 + doe - 719468
  {
    DaysBeforeMarchInEra(era, yoe);
    DayOfMarchYear(era, yoe, doe);
    DateInMarchYearIsExact(yoe + era * 400, doe - (365 * yoe + yoe / 4 - yoe / 100));
  }

  lemma {:induction false} YearsAreOrdered(a: int, b: int)
    requires a < b
    ensures DaysBeforeYear(a + 1) <= DaysBeforeYear(b)
    decreases b - a
  {
    if a + 1 < b {
      YearsAreOrdered(a, b - 1);
      YearStep(b - 1);
    }
  }

  lemma {:induction false} MonthsAreOrdered(year: int, a: int, b: int)
    requires 1 <= a < b
    ensures DaysBeforeMonth(year, a) + DaysInMonth(year, a) <= DaysBeforeMonth(year, b)
    decreases b - a
  {
    if a + 1 < b {
      MonthsAreOrdered(year, a, b - 1);
    }
  }

  predicate Before(a: Date, b: Date) {
    || a.year < b.year
    || (a.year == b.year && a.month < b.month)
    || (a.year == b.year && a.month == b.month && a.day < b.day)
  }

  /** The day number grows with the calendar order. */
  lemma DayNumberIsMonotone(a: Date, b: Date)
    requires Valid(a) && Valid(b) && Before(a, b)
    ensures DayNumber(a) < DayNumber(b)
  {
    MonthTable(a.year);
    MonthTable(b.year);
    if a.year < b.year {
      YearsAreOrdered(a.year, b.year);
      YearStep(a.year);
      MonthsAreOrdered(a.year, a.month, 13);
      MonthsStartAtZero(b.year, b.month);
    } else if a.month < b.month {
      MonthsAreOrdered(a.year, a.month, b.month);
    }
  }

  lemma {:induction false} MonthsStartAtZero(year: int, month: int)
    requires 1 <= month
    ensures DaysBeforeMonth(year, month) >= 0
    decreases month
  {
    if month > 1 { MonthsStartAtZero(year, month - 1); }
  }

  /** The conversion is onto the valid dates: each one is the image of its own day number. */
  lemma CivilFromDaysIsOnto(date: Date, days: int)
    requires Valid(date) && DayNumber(date) == days
    ensures CivilFromDays(days) == date
  {
    CivilFromDaysIsExact(days);
    SameNumberSameDate(CivilFromDays(days), date);
  }

  lemma SameNumberSameDate(a: Date, b: Date)
    requires Valid(a) && Valid(b) && DayNumber(a) == DayNumber(b)
    ensures a == b
  {
    if Before(a, b) {
      DayNumberIsMonotone(a, b);
    } else if Before(b, a) {
      DayNumberIsMonotone(b, a);
    }
  }

  lemma NextDayIsNextNumber(date: Date)
    requires Valid(date)
    ensures Valid(NextDay(date)) && DayNumber(NextDay(date)) == DayNumber(date) + 1
  {
    MonthTable(date.year);
    MonthTable(date.year + 1);
    YearStep(date.year);
  }

  lemma EpochIsDayZero()
    ensures CivilFromDays(0) == Date(1970, 1, 1)
  {
    MonthTable(1970);
    MarchAndJanuary(1969);
    assert DayNumber(Date(1970, 1, 1)) == 0;
    CivilFromDaysIsOnto(Date(1970, 1, 1), 0);
  }

  /** Consecutive days become consecutive calendar dates, in both directions from the epoch. */
  lemma CivilFromDaysSteps(days: int)
    ensures CivilFromDays(days + 1) == NextDay(CivilFromDays(days))
  {
    CivilFromDaysIsExact(days);
    NextDayIsNextNumber(CivilFromDays(days));
    CivilFromDaysIsOnto(NextDay(CivilFromDays(days)), days + 1);
  }
}
