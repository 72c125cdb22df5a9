/** Instants and the day, month and year windows the services build with
    `new Date(y, m, d, h, min, s)`.

    An instant is an integer number of milliseconds on the server's local
    clock, counted from 1970-01-01 00:00:00.000 local time (time zones and
    daylight-saving shifts are not modelled). Months are numbered 0..11 as
    in JavaScript's `Date`. */
module Calendar {

  const SecondMs: int := 1000
  const DayMs: int := 86_400_000

  type Instant = int
  type Month0 = m: int | 0 <= m < 12

  /** Midnight of the day holding `t` (`new Date(y, m, d)`). */
  function StartOfDay(t: Instant): (r: Instant)
    ensures r <= t < r + DayMs
    ensures r % DayMs == 0
  {
    t - t % DayMs
  }

  /** 23:59:59.000 of the day holding `t` (`new Date(y, m, d, 23, 59, 59)`). */
  function EndOfDay(t: Instant): (r: Instant)
    ensures r == StartOfDay(t) + DayMs - SecondMs
  {
    StartOfDay(t) + DayMs - SecondMs
  }

  /** Two instants on the same local day have the same midnight. */
  lemma SameDay(t: Instant, u: Instant)
    requires StartOfDay(t) <= u < StartOfDay(t) + DayMs
    ensures StartOfDay(u) == StartOfDay(t)
  {
    var s := StartOfDay(t);
    assert s == (s / DayMs) * DayMs;
    assert u / DayMs == s / DayMs;
  }

  predicate IsLeap(y: int) {
    y % 4 == 0 && (y % 100 != 0 || y % 400 == 0)
  }

  /** Number of leap years among 1..x of the proleptic Gregorian calendar
      (negative for x < 0, by the same floor formula). */
  function Leaps(x: int): int {
    x / 4 - x / 100 + x / 400
  }

  /** Days from 1970-01-01 to January 1st of year `y`. */
  function YearDay(y: int): int {
    365 * (y - 1970) + Leaps(y - 1) - Leaps(1969)
  }

  /** Stepping `x` by one moves `x / d` exactly at multiples of `d`. */
  lemma DivStep(x: int, d: int)
    requires d == 4 || d == 100 || d == 400
    ensures x / d - (x - 1) / d == if x % d == 0 then 1 else 0
  {
    if d == 4 {
      assert x / 4 - (x - 1) / 4 == if x % 4 == 0 then 1 else 0;
    } else if d == 100 {
      assert x / 100 - (x - 1) / 100 == if x % 100 == 0 then 1 else 0;
    } else {
      assert x / 400 - (x - 1) / 400 == if x % 400 == 0 then 1 else 0;
    }
  }

  lemma MultipleOf100(y: int)
    ensures y % 100 == 0 ==> y % 4 == 0
    ensures y % 400 == 0 ==> y % 100 == 0
  {
    if y % 100 == 0 {
      var k := y / 100;
      assert y == 4 * (25 * k);
    }
    if y % 400 == 0 {
      var k := y / 400;
      assert y == 100 * (4 * k);
    }
  }

  /** A year has 366 days when it is a leap year and 365 otherwise. */
  lemma YearLength(y: int)
    ensures YearDay(y + 1) - YearDay(y) == if IsLeap(y) then 366 else 365
  {
    DivStep(y, 4);
    DivStep(y, 100);
    DivStep(y, 400);
    MultipleOf100(y);
    assert YearDay(y + 1) - YearDay(y) == 365 + Leaps(y) - Leaps(y - 1);
  }

  /** Days from January 1st to the first day of month `m`. */
  function MonthOffset(y: int, m: Month0): int {
    [0, 31, 59, 90, 120, 151, 181, 212, 243, 273, 304, 334][m]
      + (if m >= 2 && IsLeap(y) then 1 else 0)
  }

  function DaysInMonth(y: int, m: Month0): int {
    if m == 1 then (if IsLeap(y) then 29 else 28)
    else if m in {3, 5, 8, 10} then 30
    else 31
  }

  /** 00:00:00.000 of the first day of month `m` of year `y`. */
  function MonthStart(y: int, m: Month0): Instant {
    (YearDay(y) + MonthOffset(y, m)) * DayMs
  }

  /** The first instant of the month after `m` (`new Date(y, m + 1, 1)`). */
  function NextMonthStart(y: int, m: Month0): Instant {
    if m == 11 then MonthStart(y + 1, 0) else MonthStart(y, m + 1)
  }

  /** 23:59:59.000 of the last day of month `m` (`new Date(y, m + 1, 0, 23, 59, 59)`). */
  function MonthEnd(y: int, m: Month0): Instant {
    NextMonthStart(y, m) - SecondMs
  }

  /** `new Date(y, 0, 1)`. */
  function YearStart(y: int): Instant {
    MonthStart(y, 0)
  }

  /** `new Date(y, 11, 31, 23, 59, 59)`. */
  function YearEnd(y: int): Instant {
    MonthEnd(y, 11)
  }

  /** Every month spans exactly its number of days. */
  lemma MonthLength(y: int, m: Month0)
    ensures NextMonthStart(y, m) - MonthStart(y, m) == DaysInMonth(y, m) * DayMs
    ensures 28 * DayMs <= NextMonthStart(y, m) - MonthStart(y, m)
  {
    if m == 11 {
      YearLength(y);
    }
  }

  /** The month windows of one year follow each other in order and cover
      exactly the year window `[YearStart(y), YearEnd(y)]`. */
  lemma MonthsInsideYear(y: int, m: Month0)
    ensures YearStart(y) <= MonthStart(y, m) < MonthEnd(y, m) <= YearEnd(y)
    ensures m < 11 ==> MonthEnd(y, m) < MonthStart(y, m + 1)
  {
    MonthLength(y, m);
    YearLength(y);
  }
}
