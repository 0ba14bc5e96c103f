/** What the calendar generator guarantees, stated about CalendarFrom: the
    value that GenerateFrom is proved to return. */
module CalendarProperties {
  import opened CivilDate
  import opened LocaleNames
  import opened Generator

  /** The sequences of `ss` one after the other. */
  function Concat<T>(ss: seq<seq<T>>): seq<T> {
    if ss == [] then [] else Concat(ss[..|ss| - 1]) + ss[|ss| - 1]
  }

  /** Every Day of a calendar, month after month. */
  function AllDays(cal: Calendar): seq<Day> {
    Concat(seq(|cal.months|, k requires 0 <= k < |cal.months| => cal.months[k].days))
  }

  /** Every cursor position a Day was taken from, month after month. */
  function AllDates(s: Date): seq<Date>
    requires ValidDate(s)
  {
    Concat(MonthDates(s))
  }

  /** The inner loop visits consecutive days of one month, starting at the
      cursor, to the end of that month. */
  lemma {:induction false} VisitedContiguous(i: int, c: Date)
    requires ValidDate(c)
    ensures c.month == i ==> |Visited(i, c)| == DaysInMonth(c.year, i) - c.day + 1
    ensures forall k :: 0 <= k < |Visited(i, c)| ==>
      Visited(i, c)[k] == Date(c.year, c.month, c.day + k) && DayNumber(Visited(i, c)[k]) == DayNumber(c) + k
    decreases DaysLeft(i, c)
  {
    if c.month == i {
      var n := NextDay(c);
      VisitedContiguous(i, n);
      if c.day < DaysInMonth(c.year, c.month) {
        assert n == Date(c.year, c.month, c.day + 1);
      } else {
        assert Visited(i, n) == [];
      }
      var v := Visited(i, c);
      assert v == [c] + Visited(i, n);
      forall k | 0 <= k < |v|
        ensures v[k] == Date(c.year, c.month, c.day + k) && DayNumber(v[k]) == DayNumber(c) + k
      {
        if k > 0 {
          assert v[k] == Visited(i, n)[k - 1];
        }
      }
    }
  }

  /** The cursor ends up as many days on as the inner loop pushed Days. */
  lemma {:induction false} CursorAfterNumber(i: int, c: Date)
    requires ValidDate(c)
    ensures DayNumber(CursorAfter(i, c)) == DayNumber(c) + |Visited(i, c)|
    decreases DaysLeft(i, c)
  {
    if c.month == i {
      NextDayNumber(c);
      CursorAfterNumber(i, NextDay(c));
    }
  }

  /** Month `i` of the result: named after the cursor's month when iteration
      `i` begins, and holding one Day per cursor position visited, each
      taken in month `i`, their dates rising by one from the cursor's
      day-of-month. */
  lemma MonthContents(year: int, s: Date, i: int)
    requires ValidDate(s) && 0 <= i < 12
    ensures |CalendarFrom(year, s).months| == 12
    ensures CalendarFrom(year, s).months[i].name == MonthName(CursorBefore(i, s).month)
    ensures |CalendarFrom(year, s).months[i].days| == |MonthDates(s)[i]|
    ensures forall k :: 0 <= k < |MonthDates(s)[i]| ==>
      && MonthDates(s)[i][k].month == i
      && CalendarFrom(year, s).months[i].days[k] == DayAt(MonthDates(s)[i][k])
      && CalendarFrom(year, s).months[i].days[k].date == CursorBefore(i, s).day + k
  {
    var c := CursorBefore(i, s);
    VisitedContiguous(i, c);
    assert Months(s)[i] == MonthAt(i, c);
    assert MonthDates(s)[i] == Visited(i, c);
  }

  /** When the cursor is not in month `i` as iteration `i` begins, that month
      comes out empty, named after the month the cursor is in, and the cursor
      does not move. */
  lemma OffStartMonth(year: int, s: Date, i: int)
    requires ValidDate(s) && 0 <= i < 12
    requires CursorBefore(i, s).month != i
    ensures CalendarFrom(year, s).months[i].days == []
    ensures CalendarFrom(year, s).months[i].name == MonthName(CursorBefore(i, s).month)
    ensures CursorBefore(i + 1, s) == CursorBefore(i, s)
  {
    MonthContents(year, s, i);
  }

  /** `v` holds valid dates with day numbers `n`, `n + 1`, `n + 2`, … */
  predicate Consecutive(v: seq<Date>, n: int) {
    forall j :: 0 <= j < |v| ==> ValidDate(v[j]) && DayNumber(v[j]) == n + j
  }

  lemma ConsecutiveAppend(a: seq<Date>, b: seq<Date>, n: int)
    requires Consecutive(a, n) && Consecutive(b, n + |a|)
    ensures Consecutive(a + b, n)
  {
    forall j | 0 <= j < |a + b| ensures ValidDate((a + b)[j]) && DayNumber((a + b)[j]) == n + j {
      if j < |a| { assert (a + b)[j] == a[j]; } else { assert (a + b)[j] == b[j - |a|]; }
    }
  }

  /** Runs of consecutive dates, each starting where the previous one ends,
      make one run of consecutive dates. */
  lemma {:induction false} ConcatConsecutive(ss: seq<seq<Date>>, starts: seq<int>)
    requires |starts| == |ss| + 1
    requires forall m :: 0 <= m < |ss| ==> Consecutive(ss[m], starts[m]) && starts[m + 1] == starts[m] + |ss[m]|
    ensures |Concat(ss)| == starts[|ss|] - starts[0]
    ensures Consecutive(Concat(ss), starts[0])
    decreases |ss|
  {
    if ss != [] {
      var n := |ss| - 1;
      ConcatConsecutive(ss[..n], starts[..n + 1]);
      ConsecutiveAppend(Concat(ss[..n]), ss[n], starts[0]);
    }
  }

  /** The dates of month `i` are consecutive from the cursor on, and the
      cursor moves on by as many days. */
  lemma MonthConsecutive(s: Date, i: nat)
    requires ValidDate(s) && i < 12
    ensures Consecutive(MonthDates(s)[i], DayNumber(CursorBefore(i, s)))
    ensures DayNumber(CursorBefore(i + 1, s)) == DayNumber(CursorBefore(i, s)) + |MonthDates(s)[i]|
  {
    var c := CursorBefore(i, s);
    assert MonthDates(s)[i] == Visited(i, c);
    VisitedContiguous(i, c);
    CursorAfterNumber(i, c);
  }

  /** All Days of the result come from consecutive dates: the `j`-th is `j`
      days after the start, and they end where the cursor stops. */
  lemma AllDatesConsecutive(s: Date)
    requires ValidDate(s)
    ensures |AllDates(s)| == DayNumber(CursorBefore(12, s)) - DayNumber(s)
    ensures forall j :: 0 <= j < |AllDates(s)| ==>
      ValidDate(AllDates(s)[j]) && DayNumber(AllDates(s)[j]) == DayNumber(s) + j
  {
    var starts := seq(13, k requires 0 <= k < 13 => DayNumber(CursorBefore(k, s)));
    forall m | 0 <= m < 12
      ensures Consecutive(MonthDates(s)[m], starts[m]) && starts[m + 1] == starts[m] + |MonthDates(s)[m]|
    {
      MonthConsecutive(s, m);
    }
    ConcatConsecutive(MonthDates(s), starts);
  }

  /** No calendar date is visited twice, whatever the start. */
  lemma NoDateTwice(s: Date, j1: int, j2: int)
    requires ValidDate(s)
    requires 0 <= j1 < |AllDates(s)| && 0 <= j2 < |AllDates(s)| && j1 != j2
    ensures AllDates(s)[j1] != AllDates(s)[j2]
  {
    AllDatesConsecutive(s);
  }

  predicate AllValid(v: seq<Date>) {
    forall k :: 0 <= k < |v| ==> ValidDate(v[k])
  }

  lemma AllValidAppend(a: seq<Date>, b: seq<Date>)
    requires AllValid(a) && AllValid(b)
    ensures AllValid(a + b)
  {
    forall k | 0 <= k < |a + b| ensures ValidDate((a + b)[k]) {
      if k < |a| { assert (a + b)[k] == a[k]; } else { assert (a + b)[k] == b[k - |a|]; }
    }
  }

  lemma DaysOfConcat(a: seq<Date>, b: seq<Date>)
    requires AllValid(a) && AllValid(b)
    ensures AllValid(a + b)
    ensures DaysOf(a + b) == DaysOf(a) + DaysOf(b)
  {
    AllValidAppend(a, b);
    var ab := a + b;
    var l, da, db := DaysOf(ab), DaysOf(a), DaysOf(b);
    var r := da + db;
    forall k | 0 <= k < |l| ensures l[k] == r[k] {
      if k < |a| {
        assert ab[k] == a[k] && r[k] == da[k];
      } else {
        assert ab[k] == b[k - |a|] && r[k] == db[k - |a|];
      }
    }
    assert l == r;
  }

  /** The Days of several runs of dates, back to back, are the Days of the
      runs back to back. */
  lemma {:induction false} ConcatDaysOf(ds: seq<seq<Day>>, ss: seq<seq<Date>>)
    requires |ds| == |ss|
    requires forall m :: 0 <= m < |ss| ==> AllValid(ss[m]) && ds[m] == DaysOf(ss[m])
    ensures AllValid(Concat(ss))
    ensures Concat(ds) == DaysOf(Concat(ss))
    decreases |ss|
  {
    if ss != [] {
      var n := |ss| - 1;
      ConcatDaysOf(ds[..n], ss[..n]);
      DaysOfConcat(Concat(ss[..n]), ss[n]);
    }
  }

  lemma MonthDaysOf(year: int, s: Date, m: int)
    requires ValidDate(s) && 0 <= m < 12
    ensures AllValid(MonthDates(s)[m])
    ensures CalendarFrom(year, s).months[m].days == DaysOf(MonthDates(s)[m])
  {
    var c := CursorBefore(m, s);
    assert MonthDates(s)[m] == Visited(m, c);
    assert Months(s)[m] == MonthAt(m, c);
  }

  /** The Days of the result, back to back, are the Days of the dates
      visited, in order. */
  lemma AllDaysOfDates(year: int, s: Date)
    requires ValidDate(s)
    ensures AllValid(AllDates(s))
    ensures AllDays(CalendarFrom(year, s)) == DaysOf(AllDates(s))
  {
    var cal := CalendarFrom(year, s);
    var ds := seq(|cal.months|, k requires 0 <= k < |cal.months| => cal.months[k].days);
    forall m | 0 <= m < 12 ensures AllValid(MonthDates(s)[m]) && ds[m] == DaysOf(MonthDates(s)[m]) {
      MonthDaysOf(year, s, m);
    }
    ConcatDaysOf(ds, MonthDates(s));
  }

  lemma WeekDayAfter(c: Date, d: Date, j: int)
    requires ValidDate(c) && ValidDate(d) && DayNumber(d) == DayNumber(c) + j
    ensures WeekDay(d) == (WeekDay(c) + j) % 7
  {
    var n := DayNumber(c) + 4;
    assert WeekDay(c) == n % 7;
    assert WeekDay(d) == (n + j) % 7;
    ModSevenShift(n, j);
  }

  lemma ModSevenShift(n: int, j: int)
    ensures (n + j) % 7 == (n % 7 + j) % 7
  {
  }

  /** The `j`-th Day of the result, counting across month boundaries, is
      named after the weekday of the date it was taken from, which is the
      weekday `j` days after the start's; so the short and long names of a
      Day always belong to the same weekday. */
  lemma WeekdayNaming(year: int, s: Date)
    requires ValidDate(s)
    ensures AllValid(AllDates(s)) && |AllDays(CalendarFrom(year, s))| == |AllDates(s)|
    ensures forall j :: 0 <= j < |AllDates(s)| ==>
      AllDays(CalendarFrom(year, s))[j].name == WeekdayNames(WeekDay(AllDates(s)[j]))
    ensures forall j :: 0 <= j < |AllDates(s)| ==> WeekDay(AllDates(s)[j]) == (WeekDay(s) + j) % 7
  {
    AllDatesConsecutive(s);
    AllDaysOfDates(year, s);
    var dates := AllDates(s);
    forall j | 0 <= j < |dates| ensures WeekDay(dates[j]) == (WeekDay(s) + j) % 7 {
      WeekDayAfter(s, dates[j], j);
    }
  }

  /** From each Day of the result to the next, across month boundaries
      too, the weekday moves on by one, modulo 7. */
  lemma WeekdayStep(s: Date, j: int)
    requires ValidDate(s)
    requires 1 <= j < |AllDates(s)|
    ensures AllValid(AllDates(s))
    ensures WeekDay(AllDates(s)[j]) == (WeekDay(AllDates(s)[j - 1]) + 1) % 7
  {
    WeekdayNaming(0, s);
    var dates := AllDates(s);
    var n := WeekDay(s) + j - 1;
    assert WeekDay(dates[j - 1]) == n % 7;
    assert WeekDay(dates[j]) == (n + 1) % 7;
    ModSevenStep(n);
  }

  /** From January 1 of year `y`, iteration `k` begins on the first of month
      `k`, and after all twelve the cursor is on January 1 of the next year. */
  lemma {:induction false} JanuaryCursors(y: int, k: nat)
    requires k <= 12
    ensures CursorBefore(k, Date(y, 0, 1)) == (if k < 12 then Date(y, k, 1) else Date(y + 1, 0, 1))
  {
    if k > 0 {
      JanuaryCursors(y, k - 1);
    }
  }

  /** From January 1 of year `y`, month `i` of the result is named after
      month `i`, has exactly as many Days as that month has, and numbers them
      1, 2, 3, … */
  lemma JanuaryMonth(y: int, i: int)
    requires 0 <= i < 12
    ensures |CalendarFrom(y, Date(y, 0, 1)).months| == 12
    ensures CalendarFrom(y, Date(y, 0, 1)).months[i].name == MonthName(i)
    ensures |CalendarFrom(y, Date(y, 0, 1)).months[i].days| == DaysInMonth(y, i)
    ensures forall k :: 0 <= k < DaysInMonth(y, i) ==> CalendarFrom(y, Date(y, 0, 1)).months[i].days[k].date == k + 1
  {
    JanuaryCursors(y, i);
    MonthContents(y, Date(y, 0, 1), i);
    VisitedContiguous(i, Date(y, i, 1));
  }

  /** February has 29 Days in a Gregorian leap year and 28 otherwise. */
  lemma February(y: int)
    ensures |CalendarFrom(y, Date(y, 0, 1)).months[1].days| == (if IsLeapYear(y) then 29 else 28)
  {
    JanuaryMonth(y, 1);
  }

  /** From January 1 the result has 366 Days in a leap year and 365
      otherwise. */
  lemma YearLength(y: int)
    ensures |AllDays(CalendarFrom(y, Date(y, 0, 1)))| == DaysInYear(y)
    ensures |AllDays(CalendarFrom(y, Date(y, 0, 1)))| == (if IsLeapYear(y) then 366 else 365)
  {
    var s := Date(y, 0, 1);
    AllDatesConsecutive(s);
    AllDaysOfDates(y, s);
    JanuaryCursors(y, 12);
    DayFromYearStep(y);
  }

  /** From January 1 of year `y`, the dates the Days come from are exactly
      the dates of year `y`, each exactly once: date `d` is the one at
      position DayNumber(d) - DayFromYear(y) and at no other. */
  lemma EveryDateOnce(y: int, d: Date)
    requires ValidDate(d) && d.year == y
    ensures 0 <= DayNumber(d) - DayFromYear(y) < |AllDates(Date(y, 0, 1))|
    ensures forall j :: 0 <= j < |AllDates(Date(y, 0, 1))| ==>
      (AllDates(Date(y, 0, 1))[j] == d <==> j == DayNumber(d) - DayFromYear(y))
  {
    var s := Date(y, 0, 1);
    AllDatesConsecutive(s);
    JanuaryCursors(y, 12);
    DayNumberInYear(d);
    var j0 := DayNumber(d) - DayFromYear(y);
    DayNumberInjective(AllDates(s)[j0], d);
  }

  /** From January 1 of year `y`, every date a Day comes from is in year `y`. */
  lemma AllDatesInYear(y: int, j: int)
    requires 0 <= j < |AllDates(Date(y, 0, 1))|
    ensures AllDates(Date(y, 0, 1))[j].year == y
  {
    var s := Date(y, 0, 1);
    AllDatesConsecutive(s);
    JanuaryCursors(y, 12);
    var d := AllDates(s)[j];
    assert DayNumber(d) == DayFromYear(y) + j;
    assert DayNumber(Date(y + 1, 0, 1)) == DayFromYear(y + 1);
    InYearByNumber(d, y);
  }

  /** A valid date whose day number lies within year `y` is a date of `y`. */
  lemma InYearByNumber(d: Date, y: int)
    requires ValidDate(d) && DayFromYear(y) <= DayNumber(d) < DayFromYear(y + 1)
    ensures d.year == y
  {
    DayNumberInYear(d);
    YearFromDayUnique(DayNumber(d), d.year);
    YearFromDayUnique(DayNumber(d), y);
  }
}
