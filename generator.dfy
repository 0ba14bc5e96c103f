/** The calendar generator `generateCalendar` of src/app.tsx and the value
    types it builds: a Calendar of Months of Days. */
module Generator {
  import opened CivilDate
  import opened LocaleNames

  /** The weekday names recorded with each day. */
  datatype DayName = DayName(short: string, long: string)

  /** One cell of the planner: the weekday names and the day-of-month. */
  datatype Day = Day(name: DayName, date: int)

  datatype Month = Month(name: string, days: seq<Day>)

  datatype Calendar = Calendar(year: int, months: seq<Month>)

  /** The short and long names of weekday `w` (0 is Sunday). */
  function WeekdayNames(w: int): DayName
    requires 0 <= w < 7
  {
    DayName(WeekdayShortName(w), WeekdayLongName(w))
  }

  /** The Day that the inner loop pushes while the cursor is at `c`. */
  function DayAt(c: Date): (d: Day)
    requires 0 <= c.month < 12
    ensures d.date == c.day
    ensures |d.name.long| >= 6 && d.name.short == d.name.long[..3]
  {
    Day(WeekdayNames(WeekDay(c)), c.day)
  }

  /** The Days pushed for the cursor positions `v`, in order. */
  function DaysOf(v: seq<Date>): (days: seq<Day>)
    requires forall k :: 0 <= k < |v| ==> ValidDate(v[k])
    ensures |days| == |v|
    ensures forall k :: 0 <= k < |v| ==> ValidDate(v[k]) && days[k] == DayAt(v[k])
  {
    if v == [] then []
    else
      assert ValidDate(v[|v| - 1]);
      DaysOf(v[..|v| - 1]) + [DayAt(v[|v| - 1])]
  }

  /** How many more times the inner loop of month index `i` runs from `c`. */
  function DaysLeft(i: int, c: Date): nat
    requires ValidDate(c)
  {
    if c.month == i then DaysInMonth(c.year, c.month) - c.day + 1 else 0
  }

  /** The cursor positions at which the inner loop of month index `i`
      pushes a Day, when it starts with the cursor at `c`: the rest of the
      cursor's month when that is month `i`, and nothing otherwise. */
  function Visited(i: int, c: Date): (v: seq<Date>)
    requires ValidDate(c)
    ensures (|v| > 0) == (c.month == i)
    ensures forall k :: 0 <= k < |v| ==> ValidDate(v[k]) && v[k].month == i
    decreases DaysLeft(i, c)
  {
    if c.month != i then [] else [c] + Visited(i, NextDay(c))
  }

  /** Where the inner loop of month index `i` leaves the cursor: unmoved when
      the cursor is not in month `i`, else on the first day after that month. */
  function CursorAfter(i: int, c: Date): (r: Date)
    requires ValidDate(c)
    ensures ValidDate(r) && r.month != i
    ensures c.month != i ==> r == c
    ensures c.month == i ==> r == NextDay(Date(c.year, i, DaysInMonth(c.year, i)))
    decreases DaysLeft(i, c)
  {
    if c.month != i then c else CursorAfter(i, NextDay(c))
  }

  /** The cursor when outer iteration `k` begins, for the start `s`. */
  function CursorBefore(k: nat, s: Date): (r: Date)
    requires ValidDate(s)
    ensures ValidDate(r)
  {
    if k == 0 then s else CursorAfter(k - 1, CursorBefore(k - 1, s))
  }

  /** The Month that outer iteration `i` pushes from cursor `c`: named after
      the cursor's month before any day is collected. */
  function MonthAt(i: int, c: Date): Month
    requires ValidDate(c)
  {
    Month(MonthName(c.month), DaysOf(Visited(i, c)))
  }

  /** For each of the 12 months of the result, the cursor positions its days
      were taken from. */
  function MonthDates(s: Date): (dates: seq<seq<Date>>)
    requires ValidDate(s)
    ensures |dates| == 12
  {
    seq(12, k requires 0 <= k < 12 => Visited(k, CursorBefore(k, s)))
  }

  function Months(s: Date): (months: seq<Month>)
    requires ValidDate(s)
    ensures |months| == 12
  {
    seq(12, k requires 0 <= k < 12 => MonthAt(k, CursorBefore(k, s)))
  }

  /** What `generateCalendar` returns once its cursor starts at `s`. */
  function CalendarFrom(year: int, s: Date): Calendar
    requires ValidDate(s)
  {
    Calendar(year, Months(s))
  }

  lemma DaysOfAppend(v: seq<Date>, c: Date)
    requires forall k :: 0 <= k < |v| ==> ValidDate(v[k])
    requires ValidDate(c)
    ensures DaysOf(v + [c]) == DaysOf(v) + [DayAt(c)]
  {
    assert (v + [c])[..|v|] == v;
  }

  /** One pass of the inner loop keeps what remains to be visited and where
      the loop will leave the cursor. */
  lemma InnerStep(i: int, first: Date, seen: seq<Date>, date: Date)
    requires ValidDate(first) && ValidDate(date) && date.month == i
    requires seen + Visited(i, date) == Visited(i, first)
    requires CursorAfter(i, date) == CursorAfter(i, first)
    ensures (seen + [date]) + Visited(i, NextDay(date)) == Visited(i, first)
    ensures CursorAfter(i, NextDay(date)) == CursorAfter(i, first)
  {
    assert Visited(i, date) == [date] + Visited(i, NextDay(date));
    assert seen + Visited(i, date) == (seen + [date]) + Visited(i, NextDay(date));
  }

  /** Outer iteration `i` appends the Month that Months gives and leaves
      the cursor where iteration `i + 1` begins. */
  lemma MonthStep(start: Date, i: nat, first: Date)
    requires ValidDate(start) && i < 12 && first == CursorBefore(i, start)
    ensures Months(start)[..i + 1] == Months(start)[..i] + [MonthAt(i, first)]
    ensures CursorAfter(i, first) == CursorBefore(i + 1, start)
  {
    MonthOf(start, i);
    PrefixStep(Months(start), i);
  }

  lemma MonthOf(start: Date, i: nat)
    requires ValidDate(start) && i < 12
    ensures Months(start)[i] == MonthAt(i, CursorBefore(i, start))
  {
  }

  lemma PrefixStep<T>(s: seq<T>, i: nat)
    requires i < |s|
    ensures s[..i + 1] == s[..i] + [s[i]]
  {
  }

  /** What the inner loop keeps: `seen` are the cursor positions visited so
      far, `days` the Days pushed for them, and the rest of month `i` starts
      at the cursor `date`. */
  ghost predicate Collecting(i: int, start: Date, seen: seq<Date>, date: Date, days: seq<Day>) {
    && ValidDate(start) && ValidDate(date)
    && (forall k :: 0 <= k < |seen| ==> ValidDate(seen[k]))
    && seen + Visited(i, date) == Visited(i, start)
    && days == DaysOf(seen)
    && CursorAfter(i, date) == CursorAfter(i, start)
  }

  /** One pass of the inner loop pushes the Day of the cursor, moves the
      cursor one day on, and brings the loop closer to its end. */
  lemma CollectingStep(i: int, start: Date, seen: seq<Date>, date: Date, days: seq<Day>, current: int, w: int)
    requires Collecting(i, start, seen, date, days) && date.month == i
    requires current == date.day && w == WeekDay(date)
    ensures Collecting(i, start, seen + [date], NextDay(date),
                       days + [Day(WeekdayNames(w), current)])
    ensures DaysLeft(i, NextDay(date)) < DaysLeft(i, date)
  {
    DaysOfAppend(seen, date);
    InnerStep(i, start, seen, date);
  }

  /** Once the cursor has left month `i`, the loop has pushed the Days of all
      the positions it visits and left the cursor where CursorAfter says. */
  lemma CollectingDone(i: int, start: Date, seen: seq<Date>, date: Date, days: seq<Day>)
    requires Collecting(i, start, seen, date, days) && date.month != i
    ensures days == DaysOf(Visited(i, start)) && date == CursorAfter(i, start)
  {
    assert seen + Visited(i, date) == seen;
  }

  /** The while loop of `generateCalendar` for month index `i`: while the
      cursor's month index is `i`, push the Day of the cursor and move the
      cursor on in place with `setDate(current + 1)`. */
  method CollectDays(i: int, date: DateObject) returns (days: seq<Day>)
    requires date.Valid()
    modifies date
    ensures date.Valid()
    ensures days == DaysOf(Visited(i, old(date.date)))
    ensures date.date == CursorAfter(i, old(date.date))
  {
    days := [];
    ghost var first := date.date;
    ghost var seen: seq<Date> := [];
    ghost var cursor := first;
    while date.GetMonth() == i
      invariant date.Valid() && date.date == cursor
      invariant Collecting(i, first, seen, cursor, days)
      decreases DaysLeft(i, cursor)
    {
      var current := date.GetDate();
      var w := date.GetDay();
      CollectingStep(i, first, seen, cursor, days, current, w);
      days := days + [Day(WeekdayNames(w), current)];
      seen := seen + [cursor];
      date.SetDate(current + 1);
      NextDayByNumber(cursor, date.date);
      cursor := NextDay(cursor);
    }
    CollectingDone(i, first, seen, cursor, days);
  }

  /** `generateCalendar` with its cursor starting at `start`: one Date object
      as the cursor and twelve outer iterations, iteration `i` taking its
      Month's name from the cursor before the while loop for month index `i`
      collects the Days. */
  method GenerateFrom(year: int, start: Date) returns (cal: Calendar)
    requires ValidDate(start)
    ensures cal == CalendarFrom(year, start)
    ensures cal.year == year && |cal.months| == 12
  {
    var date := new DateObject(start);
    var months: seq<Month> := [];
    for i := 0 to 12
      invariant date.Valid()
      invariant date.date == CursorBefore(i, start)
      invariant months == Months(start)[..i]
    {
      var monthName := MonthName(date.GetMonth());
      ghost var first := date.date;
      var days := CollectDays(i, date);
      MonthStep(start, i, first);
      months := months + [Month(monthName, days)];
    }
    cal := Calendar(year, months);
  }
}
