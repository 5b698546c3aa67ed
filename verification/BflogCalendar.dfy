/** From a timestamp to a civil date and time eight hours east of Greenwich. */
module BflogCalendar {

  const TIMEZONE := 8
  const SECONDS_PER_DAY := 86400
  const FOUR_YEAR_DAY := 1461

  // ---------------------------------------------------------------- the Gregorian calendar

  predicate IsLeap(y: nat) {
    (y % 4 == 0 && y % 100 != 0) || y % 400 == 0
  }

  function YearLen(y: nat): nat { if IsLeap(y) then 366 else 365 }

  function MonthLen(y: nat, m: nat): nat {
    if m == 2 then (if IsLeap(y) then 29 else 28)
    else if m == 4 || m == 6 || m == 9 || m == 11 then 30 else 31
  }

  /** Days from 1970-01-01 to the first day of the year. */
  function DaysBeforeYear(y: nat): nat {
    if y <= 1970 then 0 else DaysBeforeYear(y - 1) + YearLen(y - 1)
  }

  /** Days from the first of January to the first day of the month. */
  function DaysBeforeMonth(y: nat, m: nat): nat {
    if m <= 1 then 0 else DaysBeforeMonth(y, m - 1) + MonthLen(y, m - 1)
  }

  predicate IsDate(y: nat, m: nat, d: nat) {
    1970 <= y && 1 <= m <= 12 && 1 <= d <= MonthLen(y, m)
  }

  /** Days since 1970-01-01. */
  function DayNumber(y: nat, m: nat, d: nat): nat
    requires 1 <= d
  {
    DaysBeforeYear(y) + DaysBeforeMonth(y, m) + d - 1
  }

  /** 1970-01-01 was a Thursday; Sunday is 0. */
  function Weekday(dayNumber: nat): nat { (dayNumber + 4) % 7 }

  lemma MonthsMakeYear(y: nat)
    ensures DaysBeforeMonth(y, 13) == YearLen(y)
  {
    MonthStarts(y);
  }

  lemma MonthStarts(y: nat)
    ensures DaysBeforeMonth(y, 1) == 0 && DaysBeforeMonth(y, 2) == 31
    ensures var l := if IsLeap(y) then 1 else 0;
            && DaysBeforeMonth(y, 3) == 59 + l && DaysBeforeMonth(y, 4) == 90 + l && DaysBeforeMonth(y, 5) == 120 + l
            && DaysBeforeMonth(y, 6) == 151 + l && DaysBeforeMonth(y, 7) == 181 + l && DaysBeforeMonth(y, 8) == 212 + l
            && DaysBeforeMonth(y, 9) == 243 + l && DaysBeforeMonth(y, 10) == 273 + l
            && DaysBeforeMonth(y, 11) == 304 + l && DaysBeforeMonth(y, 12) == 334 + l
            && DaysBeforeMonth(y, 13) == 365 + l
  {
    assert DaysBeforeMonth(y, 3) == DaysBeforeMonth(y, 2) + MonthLen(y, 2);
    assert DaysBeforeMonth(y, 5) == DaysBeforeMonth(y, 4) + MonthLen(y, 4);
    assert DaysBeforeMonth(y, 7) == DaysBeforeMonth(y, 6) + MonthLen(y, 6);
    assert DaysBeforeMonth(y, 9) == DaysBeforeMonth(y, 8) + MonthLen(y, 8);
    assert DaysBeforeMonth(y, 11) == DaysBeforeMonth(y, 10) + MonthLen(y, 10);
    assert DaysBeforeMonth(y, 13) == DaysBeforeMonth(y, 12) + MonthLen(y, 12);
  }

  /** Blocks of four years have 1461 days, until the one that holds 2100. */
  lemma {:induction false} BlockStart(b: nat)
    requires b <= 34
    ensures DaysBeforeYear(1970 + 4 * b) == FOUR_YEAR_DAY * b - (if b <= 32 then 0 else 1)
  {
    if b > 0 {
      BlockStart(b - 1);
      var y := 1970 + 4 * (b - 1);
      assert DaysBeforeYear(y + 4) == DaysBeforeYear(y + 2) + YearLen(y + 2) + YearLen(y + 3);
      assert DaysBeforeYear(y + 2) == DaysBeforeYear(y) + YearLen(y) + YearLen(y + 1);
      BlockLeaps(b - 1);
    }
  }

  lemma BlockLeaps(b: nat)
    requires b <= 33
    ensures var y := 1970 + 4 * b;
            YearLen(y) + YearLen(y + 1) + YearLen(y + 2) + YearLen(y + 3) == if b == 32 then 1460 else 1461
  {
    var y := 1970 + 4 * b;
    assert !IsLeap(y) && !IsLeap(y + 1) && !IsLeap(y + 3);
    assert IsLeap(y + 2) <==> b != 32;
  }

  lemma {:induction false} YearsGrow(y: nat, z: nat)
    requires 1970 <= y < z
    ensures DaysBeforeYear(y) + YearLen(y) <= DaysBeforeYear(z)
    decreases z
  {
    if y < z - 1 { YearsGrow(y, z - 1); }
  }

  lemma {:induction false} MonthsGrow(y: nat, m: nat, k: nat)
    requires 1 <= m < k
    ensures DaysBeforeMonth(y, m) + MonthLen(y, m) <= DaysBeforeMonth(y, k)
    decreases k
  {
    if m < k - 1 { MonthsGrow(y, m, k - 1); }
  }

  lemma DayInYear(y: nat, m: nat, d: nat)
    requires IsDate(y, m, d)
    ensures DaysBeforeMonth(y, m) + d <= YearLen(y)
  {
    MonthsGrow(y, m, 13);
    MonthsMakeYear(y);
  }

  /** A day number belongs to one date only. */
  lemma DateUnique(y: nat, m: nat, d: nat, y': nat, m': nat, d': nat)
    requires IsDate(y, m, d) && IsDate(y', m', d') && DayNumber(y, m, d) == DayNumber(y', m', d')
    ensures y == y' && m == m' && d == d'
  {
    DayInYear(y, m, d);
    DayInYear(y', m', d');
    if y < y' { YearsGrow(y, y'); } else if y' < y { YearsGrow(y', y); }
    if m < m' { MonthsGrow(y, m, m'); } else if m' < m { MonthsGrow(y, m', m); }
  }

  function Leaps(y: nat): int { y / 4 - y / 100 + y / 400 }

  lemma DivStep(y: int, k: int)
    requires k == 4 || k == 100 || k == 400
    ensures y / k - (y - 1) / k == if y % k == 0 then 1 else 0
  {
    if k == 4 { } else if k == 100 { } else { }
  }

  lemma LeapsStep(y: nat)
    requires y > 0
    ensures Leaps(y) - Leaps(y - 1) == if IsLeap(y) then 1 else 0
  {
    DivStep(y, 4);
    DivStep(y, 100);
    DivStep(y, 400);
    Divisors(y);
  }

  lemma Divisors(y: nat)
    ensures y % 400 == 0 ==> y % 100 == 0
    ensures y % 100 == 0 ==> y % 4 == 0
  {
    if y % 400 == 0 { assert y == 100 * (4 * (y / 400)); }
    if y % 100 == 0 { assert y == 4 * (25 * (y / 100)); }
  }

  lemma {:induction false} DaysBeforeYearClosed(y: nat)
    requires y >= 1970
    ensures DaysBeforeYear(y) == 365 * (y - 1970) + Leaps(y - 1) - 477
  {
    if y > 1970 {
      DaysBeforeYearClosed(y - 1);
      LeapsStep(y - 1);
    }
  }

  // ---------------------------------------------------------------- what the code computes

  /** check_leap_year() */
  function CheckLeapYear(year: nat): bool {
    if year % 4 != 0 then false
    else if year % 100 == 0 && year % 400 != 0 then false else true
  }

  /** The two nested tests are the Gregorian rule. */
  lemma CheckLeapYearIsLeap(year: nat)
    ensures CheckLeapYear(year) == IsLeap(year)
  {
    if year % 400 == 0 { assert year % 4 == 0; }
  }

  const MONTH_DAY: seq<nat> := [31, 28, 31, 30, 31, 30, 31, 31, 30, 31, 30, 31]
  const LEAP_MONTH_DAY: seq<nat> := [31, 29, 31, 30, 31, 30, 31, 31, 30, 31, 30, 31]

  /** The congruence behind the weekday formula. */
  function WeekdaySum(y: int, m: int, d: int): int {
    d + 2 * m + 3 * (m + 1) / 5 + y + y / 4 - y / 100 + y / 400 + 1
  }

  lemma SameResidue(a: int, b: int, k: int)
    requires a == b + 7 * k
    ensures a % 7 == b % 7
  {
  }

  /** January and February counted as months 13 and 14 of the year before, the formula gives the weekday of every
      date from 1970 on. */
  lemma WeekdayFormula(y: nat, m: nat, d: nat)
    requires IsDate(y, m, d)
    ensures var (y', m') := if m <= 2 then (y - 1, m + 12) else (y, m);
            WeekdaySum(y', m', d) % 7 == Weekday(DayNumber(y, m, d))
  {
    if m <= 2 { WeekdayOfWinter(y, m, d); } else { WeekdayOfRest(y, m, d); }
  }

  lemma WeekdayOfWinter(y: nat, m: nat, d: nat)
    requires IsDate(y, m, d) && m <= 2
    ensures WeekdaySum(y - 1, m + 12, d) % 7 == Weekday(DayNumber(y, m, d))
  {
    MonthStarts(y);
    DaysBeforeYearClosed(y);
    SameResidueOf(WeekdaySum(y - 1, m + 12, d), DayNumber(y, m, d) + 4, y);
  }

  lemma WeekdayOfRest(y: nat, m: nat, d: nat)
    requires IsDate(y, m, d) && 2 < m
    ensures WeekdaySum(y, m, d) % 7 == Weekday(DayNumber(y, m, d))
  {
    MonthStarts(y);
    DaysBeforeYearClosed(y);
    LeapsStep(y);
    SameResidueOf(WeekdaySum(y, m, d), DayNumber(y, m, d) + 4, y);
  }

  lemma SameResidueOf(a: int, b: int, y: int)
    requires (a - b + 364 * (y - 1970)) % 7 == 0
    ensures a % 7 == b % 7
  {
    SameResidue(a, b, (a - b + 364 * (y - 1970)) / 7 - 52 * (y - 1970));
  }

  class Tm {
    var year: nat
    var mon: nat
    var mday: nat
    var wday: nat
    var hour: nat
    var min: nat
    var sec: nat

    constructor ()
    {
    }

    /** The date and time are in range. */
    predicate Valid()
      reads this
    {
      IsDate(year, mon, mday) && hour < 24 && min < 60 && sec < 60
    }

    /** Seconds since 1970-01-01 00:00:00, in the time zone of the clock. */
    function Seconds(): int
      requires Valid()
      reads this
    {
      SECONDS_PER_DAY * DayNumber(year, mon, mday) + 3600 * hour + 60 * min + sec
    }
  }

  /** cal_weekday() */
  method CalWeekday(time: Tm)
    requires time.Valid()
    modifies time`wday
    ensures time.wday == Weekday(DayNumber(time.year, time.mon, time.mday))
  {
    var y, m, d := time.year, time.mon, time.mday;
    WeekdayFormula(y, m, d);
    if m == 1 || m == 2 {
      m := m + 12;
      y := y - 1;
    }
    var w := (d + 2 * m + 3 * (m + 1) / 5 + y + y / 4 - y / 100 + y / 400 + 1) % 7;
    time.wday := w;
  }

  /** The day count of the clock eight hours east. */
  function LocalDay(timestamp: nat): nat { (timestamp + TIMEZONE * 3600) / SECONDS_PER_DAY }

  /** The last day that falls in the place where blocks of 1461 days put it: 2102-01-01. */
  const LAST_EXACT_DAY := 48212

  /** bflog_unix2time(): the date and time that lie timestamp + 28800 seconds after 1970-01-01, as long as the day is
      not after 2102-01-01; from then on one day too early, as 2100 is not a leap year. */
  method Unix2Time(timestamp: nat, time: Tm)
    requires timestamp < 0x1_0000_0000
    modifies time
    ensures time.Valid()
    ensures time.Seconds() == timestamp + TIMEZONE * 3600
                              - (if LocalDay(timestamp) <= LAST_EXACT_DAY then 0 else SECONDS_PER_DAY)
    ensures time.wday == Weekday(DayNumber(time.year, time.mon, time.mday))
  {
    var total := timestamp / SECONDS_PER_DAY;
    var current := timestamp % SECONDS_PER_DAY;
    time.hour := current / 3600;
    time.min := (current % 3600) / 60;
    time.sec := (current % 3600) % 60;
    time.hour := time.hour + TIMEZONE;
    if time.hour > 23 {
      time.hour := time.hour - 24;
      total := total + 1;
    }
    assert SECONDS_PER_DAY * total + 3600 * time.hour + 60 * time.min + time.sec == timestamp + TIMEZONE * 3600;
    assert total == LocalDay(timestamp) <= 49711;
    CivilDate(total, time);
    time.wday := (time.mday + 2 * time.mon + 3 * (time.mon + 1) / 5
                  + time.year + time.year / 4 - time.year / 100 + time.year / 400) % 256;
    CalWeekday(time);
  }

  /** The part of bflog_unix2time() that turns the day count into year, month and day. */
  method CivilDate(total: nat, time: Tm)
    requires total <= 49711
    modifies time`year, time`mon, time`mday
    ensures IsDate(time.year, time.mon, time.mday)
    ensures DayNumber(time.year, time.mon, time.mday) == total - (if total <= LAST_EXACT_DAY then 0 else 1)
  {
    BlockStart(total / FOUR_YEAR_DAY);
    ghost var day := total - (if total <= LAST_EXACT_DAY then 0 else 1);
    time.year := 1970 + (total / FOUR_YEAR_DAY) * 4;
    var remain := total % FOUR_YEAR_DAY;
    assert DaysBeforeYear(time.year) + remain == day;
    CheckLeapYearIsLeap(time.year);
    var yearDays := if CheckLeapYear(time.year) then 366 else 365;
    while remain >= yearDays
      invariant time.year >= 1970 && yearDays == YearLen(time.year) && 0 <= remain
      invariant DaysBeforeYear(time.year) + remain == day
    {
      time.year := time.year + 1;
      remain := remain - yearDays;
      CheckLeapYearIsLeap(time.year);
      yearDays := if CheckLeapYear(time.year) then 366 else 365;
    }
    MonthOf(remain, time);
  }

  method MonthOf(dayOfYear: nat, time: Tm)
    requires time.year >= 1970 && dayOfYear < YearLen(time.year)
    modifies time`mon, time`mday
    ensures IsDate(time.year, time.mon, time.mday)
    ensures DaysBeforeMonth(time.year, time.mon) + time.mday - 1 == dayOfYear
  {
    CheckLeapYearIsLeap(time.year);
    MonthStarts(time.year);
    var p := if CheckLeapYear(time.year) then LEAP_MONTH_DAY else MONTH_DAY;
    assert forall m :: 0 <= m < 12 ==> p[m] == MonthLen(time.year, m + 1);
    var remain := dayOfYear + 1;
    time.mon := 0;
    while remain > p[time.mon]
      invariant time.mon < 12 && 1 <= remain
      invariant DaysBeforeMonth(time.year, time.mon + 1) + remain == dayOfYear + 1
      decreases 12 - time.mon
    {
      assert DaysBeforeMonth(time.year, time.mon + 2) == DaysBeforeMonth(time.year, time.mon + 1) + p[time.mon];
      remain := remain - p[time.mon];
      time.mon := time.mon + 1;
    }
    time.mon := time.mon + 1;
    time.mday := remain;
  }
}
