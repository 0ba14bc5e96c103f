/** Proleptic Gregorian civil dates and the day arithmetic that the Date
    objects of ECMA-262 (section 21.4, "Date Objects") rely on.
    Day numbers count days from 1970-01-01, which is day 0. */
module CivilDate {

  /** A civil date. `month` is the 0-based month index that
      Date.prototype.getMonth returns; `day` is the 1-based day-of-month that
      Date.prototype.getDate returns. */
  datatype Date = Date(year: int, month: int, day: int)

  /** Milliseconds in one day (msPerDay in ECMA-262). */
  const MS_PER_DAY: int := 86400000

  /** 1970-01-01, day 0 of the time value scale. */
  const EPOCH: Date := Date(1970, 0, 1)

  predicate IsLeapYear(y: int) {
    y % 4 == 0 && (y % 100 != 0 || y % 400 == 0)
  }

  /** DaysInYear of ECMA-262. */
  function DaysInYear(y: int): (n: int)
    ensures 365 <= n <= 366
  {
    if y % 4 != 0 then 365
    else if y % 100 != 0 then 366
    else if y % 400 != 0 then 365
    else 366
  }

  function DaysInMonth(y: int, m: int): (n: int)
    requires 0 <= m < 12
    ensures 28 <= n <= 31
  {
    if m == 1 then (if IsLeapYear(y) then 29 else 28)
    else if m == 3 || m == 5 || m == 8 || m == 10 then 30
    else 31
  }

  /** The year is 366 days long exactly in a Gregorian leap year. */
  lemma LeapYearLength(y: int)
    ensures DaysInYear(y) == (if IsLeapYear(y) then 366 else 365)
  {
  }

  /** The twelve month lengths of a year add up to the year's length. */
  lemma MonthLengthsSum(y: int)
    ensures DaysInMonth(y, 0) + DaysInMonth(y, 1) + DaysInMonth(y, 2) + DaysInMonth(y, 3)
          + DaysInMonth(y, 4) + DaysInMonth(y, 5) + DaysInMonth(y, 6) + DaysInMonth(y, 7)
          + DaysInMonth(y, 8) + DaysInMonth(y, 9) + DaysInMonth(y, 10) + DaysInMonth(y, 11)
          == DaysInYear(y)
  {
    LeapYearLength(y);
  }

  /** Days of year `y` that come before month `m` (0 <= m <= 12). */
  function DaysBeforeMonth(y: int, m: int): int
    requires 0 <= m <= 12
  {
    [0, 31, 59, 90, 120, 151, 181, 212, 243, 273, 304, 334, 365][m]
      + (if m >= 2 && IsLeapYear(y) then 1 else 0)
  }

  lemma DaysBeforeMonthStep(y: int, m: int)
    requires 0 <= m < 12
    ensures DaysBeforeMonth(y, m + 1) == DaysBeforeMonth(y, m) + DaysInMonth(y, m)
    ensures DaysBeforeMonth(y, 12) == DaysInYear(y)
  {
  }

  lemma {:induction false} DaysBeforeMonthMonotone(y: int, a: int, b: int)
    requires 0 <= a <= b <= 12
    ensures DaysBeforeMonth(y, a) + (if a < b then DaysInMonth(y, a) else 0) <= DaysBeforeMonth(y, b)
    decreases b - a
  {
    if a < b {
      DaysBeforeMonthStep(y, a);
      if a + 1 < b {
        DaysBeforeMonthMonotone(y, a + 1, b);
      }
    }
  }

  /** The day number of January 1 of year `y`, counted year by year from
      1970. */
  function DayFromYear(y: int): int
    decreases if y < 1970 then 1970 - y else y - 1970
  {
    if y == 1970 then 0
    else if y > 1970 then DayFromYear(y - 1) + DaysInYear(y - 1)
    else DayFromYear(y + 1) - DaysInYear(y)
  }

  lemma DayFromYearStep(y: int)
    ensures DayFromYear(y + 1) == DayFromYear(y) + DaysInYear(y)
  {
  }

  /** DayFromYear as ECMA-262 writes it. Dafny's `/` rounds towards negative
      infinity for a positive divisor, which is the floor the standard writes. */
  function EcmaDayFromYear(y: int): int {
    365 * (y - 1970) + (y - 1969) / 4 - (y - 1901) / 100 + (y - 1601) / 400
  }

  lemma EcmaDayFromYearStep(y: int)
    ensures EcmaDayFromYear(y + 1) == EcmaDayFromYear(y) + DaysInYear(y)
  {
    QuadrennialStep(y);
    CenturyStep(y);
    QuadricentennialStep(y);
    DivisibilityChain(y);
    var step := EcmaDayFromYear(y + 1) - EcmaDayFromYear(y);
    assert step == 365 + (if y % 4 == 0 then 1 else 0) - (if y % 100 == 0 then 1 else 0)
                       + (if y % 400 == 0 then 1 else 0);
  }

  /** A multiple of 400 is a multiple of 100, and a multiple of 100 one of 4. */
  lemma DivisibilityChain(y: int)
    ensures y % 400 == 0 ==> y % 100 == 0
    ensures y % 100 == 0 ==> y % 4 == 0
  {
    if y % 400 == 0 {
      MultipleOf400(y / 400);
    }
    if y % 100 == 0 {
      MultipleOf100(y / 100);
    }
  }

  lemma MultipleOf400(k: int)
    ensures (400 * k) % 100 == 0
  {
    assert 400 * k == 100 * (4 * k);
  }

  lemma MultipleOf100(k: int)
    ensures (100 * k) % 4 == 0
  {
    assert 100 * k == 4 * (25 * k);
  }


  /** The count of years divisible by 4 since 1969 goes up at `y` exactly
      when `y` is one of them; likewise for 100 since 1901 and 400 since 1601. */
  lemma QuadrennialStep(y: int)
    ensures (y + 1 - 1969) / 4 == (y - 1969) / 4 + (if y % 4 == 0 then 1 else 0)
  {
  }

  lemma CenturyStep(y: int)
    ensures (y + 1 - 1901) / 100 == (y - 1901) / 100 + (if y % 100 == 0 then 1 else 0)
  {
  }

  lemma QuadricentennialStep(y: int)
    ensures (y + 1 - 1601) / 400 == (y - 1601) / 400 + (if y % 400 == 0 then 1 else 0)
  {
  }


  /** The year-by-year count agrees with the closed formula of ECMA-262. */
  lemma {:induction false} DayFromYearIsEcma(y: int)
    ensures DayFromYear(y) == EcmaDayFromYear(y)
    decreases if y < 1970 then 1970 - y else y - 1970
  {
    if y > 1970 {
      DayFromYearIsEcma(y - 1);
      EcmaDayFromYearStep(y - 1);
    } else if y < 1970 {
      DayFromYearIsEcma(y + 1);
      EcmaDayFromYearStep(y);
    }
  }

  lemma {:induction false} DayFromYearMonotone(x: int, y: int)
    requires x < y
    ensures DayFromYear(x) + DaysInYear(x) <= DayFromYear(y)
    decreases y - x
  {
    DayFromYearStep(x);
    if x + 1 < y {
      DayFromYearMonotone(x + 1, y);
    }
  }

  predicate ValidDate(c: Date) {
    0 <= c.month < 12 && 1 <= c.day <= DaysInMonth(c.year, c.month)
  }

  /** The day number of a date: Day(t) of ECMA-262 for the time value of its
      midnight. */
  function DayNumber(c: Date): (n: int)
    requires 0 <= c.month < 12
  {
    DayFromYear(c.year) + DaysBeforeMonth(c.year, c.month) + c.day - 1
  }

  /** A valid date lies inside its own year on the day number scale. */
  lemma DayNumberInYear(c: Date)
    requires ValidDate(c)
    ensures DayFromYear(c.year) <= DayNumber(c) < DayFromYear(c.year + 1)
    ensures DaysBeforeMonth(c.year, c.month) <= DayNumber(c) - DayFromYear(c.year) < DaysBeforeMonth(c.year, c.month + 1)
  {
    DaysBeforeMonthStep(c.year, c.month);
    DaysBeforeMonthMonotone(c.year, c.month + 1, 12);
    DayFromYearStep(c.year);
  }

  /** The date after `c`, found by rolling over the end of the month and the
      end of the year. */
  function NextDay(c: Date): (r: Date)
    requires ValidDate(c)
    ensures ValidDate(r)
    ensures c.day < DaysInMonth(c.year, c.month) ==> r == Date(c.year, c.month, c.day + 1)
    ensures c.day == DaysInMonth(c.year, c.month) ==> r.day == 1 && r.month != c.month
  {
    if c.day < DaysInMonth(c.year, c.month) then Date(c.year, c.month, c.day + 1)
    else if c.month < 11 then Date(c.year, c.month + 1, 1)
    else Date(c.year + 1, 0, 1)
  }

  /** NextDay is the date whose day number is one more. */
  lemma NextDayNumber(c: Date)
    requires ValidDate(c)
    ensures DayNumber(NextDay(c)) == DayNumber(c) + 1
  {
    DaysBeforeMonthStep(c.year, c.month);
    DayFromYearStep(c.year);
  }

  /** WeekDay of ECMA-262: 0 is Sunday, ..., 6 is Saturday; day 0 (1970-01-01)
      is a Thursday. */
  function WeekDay(c: Date): (w: int)
    requires 0 <= c.month < 12
    ensures 0 <= w < 7
  {
    (DayNumber(c) + 4) % 7
  }

  lemma WeekDayNext(c: Date)
    requires ValidDate(c)
    ensures WeekDay(NextDay(c)) == (WeekDay(c) + 1) % 7
  {
    var n, m := DayNumber(c) + 4, DayNumber(NextDay(c)) + 4;
    NextDayNumber(c);
    assert m == n + 1;
    ModSevenStep(n);
  }

  lemma ModSevenStep(n: int)
    ensures (n + 1) % 7 == (n % 7 + 1) % 7
  {
  }

  /** YearFromTime of ECMA-262, searched upwards from year `y`. */
  function YearUp(n: int, y: int): (r: int)
    requires DayFromYear(y) <= n
    ensures y <= r
    ensures DayFromYear(r) <= n < DayFromYear(r + 1)
    decreases n - DayFromYear(y)
  {
    DayFromYearStep(y);
    if n < DayFromYear(y + 1) then y else YearUp(n, y + 1)
  }

  /** YearFromTime of ECMA-262, searched downwards from year `y`. */
  function YearDown(n: int, y: int): (r: int)
    requires n < DayFromYear(y + 1)
    ensures r <= y
    ensures DayFromYear(r) <= n < DayFromYear(r + 1)
    decreases DayFromYear(y + 1) - n
  {
    DayFromYearStep(y);
    DayFromYearStep(y - 1);
    if DayFromYear(y) <= n then y else YearDown(n, y - 1)
  }

  /** The year that day number `n` falls in. */
  function YearFromDay(n: int): (r: int)
    ensures DayFromYear(r) <= n < DayFromYear(r + 1)
  {
    if n >= 0 then YearUp(n, 1970) else YearDown(n, 1969)
  }

  /** The one year whose day number range holds `n`. */
  lemma YearFromDayUnique(n: int, y: int)
    requires DayFromYear(y) <= n < DayFromYear(y + 1)
    ensures YearFromDay(n) == y
  {
    var r := YearFromDay(n);
    DayFromYearStep(r);
    DayFromYearStep(y);
    if r < y {
      DayFromYearMonotone(r, y);
    } else if y < r {
      DayFromYearMonotone(y, r);
    }
  }

  /** MonthFromTime of ECMA-262: the month that day `d` of year `y`
      (counted from 0) falls in, searched upwards from month `m`. */
  function MonthUp(y: int, d: int, m: int): (r: int)
    requires 0 <= m < 12
    requires DaysBeforeMonth(y, m) <= d < DaysInYear(y)
    ensures m <= r < 12
    ensures DaysBeforeMonth(y, r) <= d < DaysBeforeMonth(y, r + 1)
    decreases 12 - m
  {
    DaysBeforeMonthStep(y, m);
    if d < DaysBeforeMonth(y, m + 1) then m else MonthUp(y, d, m + 1)
  }

  lemma {:induction false} MonthUpUnique(y: int, d: int, m: int, target: int)
    requires 0 <= m <= target < 12
    requires DaysBeforeMonth(y, target) <= d < DaysBeforeMonth(y, target + 1)
    ensures DaysBeforeMonth(y, m) <= d < DaysInYear(y)
    ensures MonthUp(y, d, m) == target
    decreases target - m
  {
    DaysBeforeMonthMonotone(y, m, target);
    DaysBeforeMonthMonotone(y, target + 1, 12);
    DaysBeforeMonthStep(y, m);
    if m < target {
      DaysBeforeMonthMonotone(y, m + 1, target);
      MonthUpUnique(y, d, m + 1, target);
    }
  }

  /** The date of day `d` (counted from 0) of year `y`: MonthFromTime and
      DateFromTime of ECMA-262. */
  function DateInYear(y: int, d: int): (r: Date)
    requires 0 <= d < DaysInYear(y)
    ensures ValidDate(r) && r.year == y
    ensures DaysBeforeMonth(y, r.month) + r.day - 1 == d
  {
    DaysBeforeMonthStep(y, 0);
    var m := MonthUp(y, d, 0);
    DaysBeforeMonthStep(y, m);
    Date(y, m, d - DaysBeforeMonth(y, m) + 1)
  }

  /** Every valid date is the date of its own day of the year. */
  lemma DateInYearOf(c: Date)
    requires ValidDate(c)
    ensures 0 <= DaysBeforeMonth(c.year, c.month) + c.day - 1 < DaysInYear(c.year)
    ensures DateInYear(c.year, DaysBeforeMonth(c.year, c.month) + c.day - 1) == c
  {
    var d := DaysBeforeMonth(c.year, c.month) + c.day - 1;
    DaysBeforeMonthStep(c.year, c.month);
    DaysBeforeMonthMonotone(c.year, c.month + 1, 12);
    MonthUpUnique(c.year, d, 0, c.month);
  }

  /** The civil date of day number `n`: YearFromTime, MonthFromTime and
      DateFromTime of ECMA-262. */
  function CivilFromDay(n: int): (r: Date)
    ensures ValidDate(r)
    ensures DayNumber(r) == n
  {
    var y := YearFromDay(n);
    DayFromYearStep(y);
    DateInYear(y, n - DayFromYear(y))
  }

  /** Converting a valid date to its day number and back gives it back. */
  lemma CivilFromDayNumber(c: Date)
    requires ValidDate(c)
    ensures CivilFromDay(DayNumber(c)) == c
  {
    var n := DayNumber(c);
    DayNumberInYear(c);
    YearFromDayUnique(n, c.year);
    DateInYearOf(c);
  }

  /** Different valid dates have different day numbers. */
  lemma DayNumberInjective(a: Date, b: Date)
    requires ValidDate(a) && ValidDate(b)
    requires DayNumber(a) == DayNumber(b)
    ensures a == b
  {
    CivilFromDayNumber(a);
    CivilFromDayNumber(b);
  }

  /** The date that Date.prototype.setDate(dt) of ECMA-262 gives: keeps the
      year and the month of `c`, takes `dt` as a day of that month counted
      from 1 and lets any overflow or underflow roll into neighbouring months
      and years (MakeDay of ECMA-262). */
  function WithDate(c: Date, dt: int): (r: Date)
    requires ValidDate(c)
    ensures ValidDate(r)
    ensures DayNumber(r) == DayNumber(c) - c.day + dt
  {
    CivilFromDay(DayNumber(Date(c.year, c.month, 1)) + dt - 1)
  }

  /** WithDate moves the date by `dt - c.day` days and, for a `dt` inside the
      month, just replaces the day-of-month. */
  lemma SetDateMoves(c: Date, dt: int)
    requires ValidDate(c)
    ensures DayNumber(WithDate(c, dt)) == DayNumber(c) - c.day + dt
    ensures 1 <= dt <= DaysInMonth(c.year, c.month) ==> WithDate(c, dt) == Date(c.year, c.month, dt)
  {
    if 1 <= dt <= DaysInMonth(c.year, c.month) {
      DayNumberInjective(WithDate(c, dt), Date(c.year, c.month, dt));
    }
  }

  /** Setting the day-of-month to one past the current one, as
      `date.setDate(current + 1)` does, is the rollover of NextDay. */
  lemma SetDateNextDay(c: Date)
    requires ValidDate(c)
    ensures WithDate(c, c.day + 1) == NextDay(c)
  {
    SetDateMoves(c, c.day + 1);
    NextDayNumber(c);
    DayNumberInjective(WithDate(c, c.day + 1), NextDay(c));
  }

  /** The valid date one day number after `c` is NextDay(c). */
  lemma NextDayByNumber(c: Date, d: Date)
    requires ValidDate(c) && ValidDate(d) && DayNumber(d) == DayNumber(c) + 1
    ensures d == NextDay(c)
  {
    NextDayNumber(c);
    DayNumberInjective(d, NextDay(c));
  }

  /** A Date object, seen through its local-time getters: `date` is the civil
      date it currently denotes. Its time of day plays no part here. */
  class DateObject {
    var date: Date

    ghost predicate Valid()
      reads this
    {
      ValidDate(date)
    }

    constructor (c: Date)
      requires ValidDate(c)
      ensures Valid() && date == c
    {
      date := c;
    }

    /** Date.prototype.getMonth: the 0-based month index. */
    function GetMonth(): (m: int)
      reads this
      requires Valid()
      ensures 0 <= m < 12
    {
      date.month
    }

    /** Date.prototype.getDate: the 1-based day-of-month. */
    function GetDate(): (d: int)
      reads this
      requires Valid()
      ensures 1 <= d <= DaysInMonth(date.year, date.month)
    {
      date.day
    }

    /** Date.prototype.getDay: the weekday, 0 being Sunday. */
    function GetDay(): (w: int)
      reads this
      requires Valid()
      ensures 0 <= w < 7
    {
      WeekDay(date)
    }

    /** Date.prototype.setDate(dt): the object now denotes the valid date
        `dt - getDate()` days on from the old one, which DayNumberInjective
        makes the only candidate. */
    method SetDate(dt: int)
      requires Valid()
      modifies this
      ensures Valid()
      ensures DayNumber(date) == DayNumber(old(date)) - old(date).day + dt
    {
      SetDateMoves(date, dt);
      date := WithDate(date, dt);
    }
  }
}
