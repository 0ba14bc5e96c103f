/** The entry point `generateCalendar(year)` of src/app.tsx, as written and
    as evidently intended, and the concrete calendars that tell them apart. */
module App {
  import opened Wrappers
  import opened CivilDate
  import opened LocaleNames
  import opened Generator
  import opened CalendarProperties
  import opened NarrowDays

  /** The local date of `new Date(year)`: the number `year` is read as a time
      value in milliseconds since 1970-01-01T00:00Z, and the getters read it
      in local time, `offsetMs` being the host's fixed offset from UTC. For a
      positive divisor Dafny's `/` rounds down, as floor(t / msPerDay) does. */
  function StartCursor(year: int, offsetMs: int): (c: Date)
    ensures ValidDate(c)
    ensures DayNumber(c) == (year + offsetMs) / MS_PER_DAY
  {
    CivilFromDay((year + offsetMs) / MS_PER_DAY)
  }

  /** Whenever `year` plus the offset is under a day's worth of milliseconds,
      the cursor starts on 1970-01-01, whatever the year. */
  lemma AsWrittenStart(year: int, offsetMs: int)
    requires 0 <= year + offsetMs < MS_PER_DAY
    ensures StartCursor(year, offsetMs) == EPOCH
  {
    var n := (year + offsetMs) / MS_PER_DAY;
    assert n == 0;
    assert DayNumber(EPOCH) == 0;
    StartCursorAt(year, offsetMs, EPOCH);
  }

  /** The cursor starts on `c` exactly when `c` is the day of the time value. */
  lemma StartCursorAt(year: int, offsetMs: int, c: Date)
    requires ValidDate(c) && DayNumber(c) == (year + offsetMs) / MS_PER_DAY
    ensures StartCursor(year, offsetMs) == c
  {
    CivilFromDayNumber(c);
  }

  /** `generateCalendar(year)` as written: the cursor is `new Date(year)`.
      When `year` plus the host offset lies within one day after the epoch
      (a UTC host or one east of it, for every year near the present), the
      months are those of 1970. */
  method GenerateCalendar(year: int, offsetMs: int) returns (cal: Calendar)
    ensures cal == CalendarFrom(year, StartCursor(year, offsetMs))
    ensures cal.year == year && |cal.months| == 12
    ensures 0 <= year + offsetMs < MS_PER_DAY ==> cal.months == Months(EPOCH)
  {
    var start := StartCursor(year, offsetMs);
    if 0 <= year + offsetMs < MS_PER_DAY {
      AsWrittenStart(year, offsetMs);
    }
    cal := GenerateFrom(year, start);
  }

  /** `generateCalendar(year)` with the cursor on January 1 of `year`, as a
      fresh Date given `setFullYear(year, 0, 1)` puts it for every year
      (`new Date(year, 0, 1)` would not: it reads years 0 to 99 as 1900 to
      1999): twelve months named January to December, each
      with one Day per day of that month of `year`, numbered from 1, and
      DaysInYear(year) Days in all. */
  method GenerateCalendarFromJanuary(year: int) returns (cal: Calendar)
    ensures cal == CalendarFrom(year, Date(year, 0, 1))
    ensures cal.year == year && |cal.months| == 12
    ensures forall i :: 0 <= i < 12 ==>
      cal.months[i].name == MONTH_NAMES[i] && |cal.months[i].days| == DaysInMonth(year, i)
    ensures forall i, k :: 0 <= i < 12 && 0 <= k < |cal.months[i].days| ==>
      cal.months[i].days[k].date == k + 1
    ensures |AllDays(cal)| == DaysInYear(year)
  {
    cal := GenerateFrom(year, Date(year, 0, 1));
    forall i | 0 <= i < 12
      ensures cal.months[i].name == MONTH_NAMES[i] && |cal.months[i].days| == DaysInMonth(year, i)
      ensures forall k :: 0 <= k < |cal.months[i].days| ==> cal.months[i].days[k].date == k + 1
    {
      JanuaryMonth(year, i);
    }
    YearLength(year);
  }

  /** As written, with `year` plus the offset within one day after the
      epoch (a UTC host or one east of it), every year gets the
      Months of 1970: January 1 is a Thursday and February has 28 Days. */
  lemma AsWrittenYear1970(year: int, offsetMs: int)
    requires 0 <= year + offsetMs < MS_PER_DAY
    ensures CalendarFrom(year, StartCursor(year, offsetMs)).months[0].days != []
    ensures CalendarFrom(year, StartCursor(year, offsetMs)).months[0].days[0] == Day(DayName("Thu", "Thursday"), 1)
    ensures |CalendarFrom(year, StartCursor(year, offsetMs)).months[1].days| == 28
  {
    AsWrittenStart(year, offsetMs);
    MonthsIgnoreYear(year, 1970, EPOCH);
    FirstDay(1970);
    EpochThursday();
    EpochFebruary();
  }

  /** 1970 is not a leap year: its February has 28 Days. */
  lemma EpochFebruary()
    ensures |CalendarFrom(1970, EPOCH).months[1].days| == 28
  {
    February(1970);
  }

  /** 1970-01-01 is a Thursday. */
  lemma EpochThursday()
    ensures DayAt(EPOCH) == Day(DayName("Thu", "Thursday"), 1)
  {
    assert DayNumber(EPOCH) == 0;
  }

  /** The year field plays no part in the Months. */
  lemma MonthsIgnoreYear(y1: int, y2: int, s: Date)
    requires ValidDate(s)
    ensures CalendarFrom(y1, s).months == CalendarFrom(y2, s).months
  {
  }

  /** The discrepancy: for a leap year such as 2024, read in UTC, February
      as written has 28 Days, though from January 1 it has 29. */
  lemma AsWrittenLeapYear(year: int, offsetMs: int)
    requires IsLeapYear(year) && 0 <= year + offsetMs < MS_PER_DAY
    ensures |CalendarFrom(year, StartCursor(year, offsetMs)).months[1].days| == 28
    ensures |CalendarFrom(year, Date(year, 0, 1)).months[1].days| == 29
  {
    AsWrittenYear1970(year, offsetMs);
    February(year);
  }

  /** 2024 read in UTC is such an input: as written its February has 28
      Days (see February2024 for the 29 it should have). */
  lemma AsWritten2024()
    ensures |CalendarFrom(2024, StartCursor(2024, 0)).months[1].days| == 28
  {
    AsWrittenYear1970(2024, 0);
  }

  /** 2024 is a leap year, and from January 1, 2024 February has 29 Days. */
  lemma February2024()
    ensures IsLeapYear(2024)
    ensures |CalendarFrom(2024, Date(2024, 0, 1)).months[1].days| == 29
  {
    February(2024);
  }

  /** From January 1, 2024 the first Day is a Monday, where as written it is
      a Thursday. */
  lemma January2024()
    ensures CalendarFrom(2024, Date(2024, 0, 1)).months[0].days != []
    ensures CalendarFrom(2024, Date(2024, 0, 1)).months[0].days[0].name.short == "Mon"
  {
    JanuaryOpening(2024, 1);
  }

  /** From January 1 of `y`, the first Month is January and its first Day is
      the 1st, carrying the weekday `w` of day number DayFromYear(y) as the
      closed formula of ECMA-262 gives it. */
  lemma JanuaryOpening(y: int, w: int)
    requires 0 <= w < 7 && (EcmaDayFromYear(y) + 4) % 7 == w
    ensures CalendarFrom(y, Date(y, 0, 1)).months[0].name == "January"
    ensures CalendarFrom(y, Date(y, 0, 1)).months[0].days != []
    ensures CalendarFrom(y, Date(y, 0, 1)).months[0].days[0] == Day(WeekdayNames(w), 1)
  {
    JanuaryMonth(y, 0);
    FirstDay(y);
    DayFromYearIsEcma(y);
  }

  /** From January 1 of `y`, the first Day is January 1 itself. */
  lemma FirstDay(y: int)
    ensures CalendarFrom(y, Date(y, 0, 1)).months[0].days != []
    ensures CalendarFrom(y, Date(y, 0, 1)).months[0].days[0] == DayAt(Date(y, 0, 1))
  {
    var s := Date(y, 0, 1);
    MonthContents(y, s, 0);
    assert MonthDates(s)[0] == Visited(0, s);
    assert Visited(0, s)[0] == s;
  }

  /** A cursor that starts in month `m` passes the first `m` iterations
      without moving. */
  lemma {:induction false} LateStartCursors(s: Date, k: nat)
    requires ValidDate(s) && k <= s.month
    ensures CursorBefore(k, s) == s
  {
    if k > 0 {
      LateStartCursors(s, k - 1);
    }
  }

  /** A cursor that starts in month `m`: months 0 to m - 1 come out empty and
      all named after month `m`. */
  lemma LateStart(year: int, s: Date, i: int)
    requires ValidDate(s) && 0 <= i < s.month
    ensures CalendarFrom(year, s).months[i].days == []
    ensures CalendarFrom(year, s).months[i].name == MONTH_NAMES[s.month]
  {
    LateStartCursors(s, i);
    OffStartMonth(year, s, i);
  }

  /** A cursor that starts on December 31: months 0 to 10 come out empty and
      named December, and month 11, also December, holds that one Day. */
  lemma LastDayStart(year: int, s: Date)
    requires ValidDate(s) && s.month == 11 && s.day == 31
    ensures forall i :: 0 <= i < 11 ==>
      CalendarFrom(year, s).months[i].days == [] && CalendarFrom(year, s).months[i].name == "December"
    ensures CalendarFrom(year, s).months[11] == Month("December", [DayAt(s)])
  {
    forall i | 0 <= i < 11
      ensures CalendarFrom(year, s).months[i].days == [] && CalendarFrom(year, s).months[i].name == "December"
    {
      LateStart(year, s, i);
    }
    LateStartCursors(s, 11);
    var ms := Months(s);
    assert ms[11] == MonthAt(11, s);
    assert Visited(11, NextDay(s)) == [];
    assert Visited(11, s) == [s];
  }

  /** West of UTC (`year` plus the offset below zero by at most a day) the
      cursor starts on Wednesday 1969-12-31. */
  lemma WestOfUtcStart(year: int, offsetMs: int)
    requires -MS_PER_DAY <= year + offsetMs < 0
    ensures StartCursor(year, offsetMs) == Date(1969, 11, 31)
    ensures DayAt(StartCursor(year, offsetMs)) == Day(DayName("Wed", "Wednesday"), 31)
  {
    var n := (year + offsetMs) / MS_PER_DAY;
    assert n == -1;
    NewYearsEve1969();
    StartCursorAt(year, offsetMs, Date(1969, 11, 31));
  }

  /** West of UTC, as written, months 0 to 10 come out empty and named
      December, and month 11, also December, holds the single Day 31, a
      Wednesday. */
  lemma AsWrittenWestOfUtc(year: int, offsetMs: int)
    requires -MS_PER_DAY <= year + offsetMs < 0
    ensures forall i :: 0 <= i < 11 ==>
      CalendarFrom(year, StartCursor(year, offsetMs)).months[i].days == [] &&
      CalendarFrom(year, StartCursor(year, offsetMs)).months[i].name == "December"
    ensures CalendarFrom(year, StartCursor(year, offsetMs)).months[11] ==
      Month("December", [Day(DayName("Wed", "Wednesday"), 31)])
  {
    var s := StartCursor(year, offsetMs);
    WestOfUtcLastDay(year, offsetMs);
    LastDayStart(year, s);
  }

  /** The part of WestOfUtcStart the calendar depends on. */
  lemma WestOfUtcLastDay(year: int, offsetMs: int)
    requires -MS_PER_DAY <= year + offsetMs < 0
    ensures StartCursor(year, offsetMs).month == 11 && StartCursor(year, offsetMs).day == 31
    ensures DayAt(StartCursor(year, offsetMs)) == Day(DayName("Wed", "Wednesday"), 31)
  {
    WestOfUtcStart(year, offsetMs);
  }

  /** 1969-12-31, day -1, is a Wednesday. */
  lemma NewYearsEve1969()
    ensures ValidDate(Date(1969, 11, 31)) && DayNumber(Date(1969, 11, 31)) == -1
    ensures DayAt(Date(1969, 11, 31)) == Day(DayName("Wed", "Wednesday"), 31)
  {
    assert DayFromYear(1969) == -365;
  }

  /** From January 1, 2021 the first Month is January and its first Day is
      the 1st, a Friday. */
  lemma January2021()
    ensures CalendarFrom(2021, Date(2021, 0, 1)).months[0].name == "January"
    ensures CalendarFrom(2021, Date(2021, 0, 1)).months[0].days != []
    ensures CalendarFrom(2021, Date(2021, 0, 1)).months[0].days[0] == Day(DayName("Fri", "Friday"), 1)
  {
    JanuaryOpening(2021, 5);
  }

  /** That Friday is labelled "Fr". */
  lemma January2021Label()
    ensures Narrow(CalendarFrom(2021, Date(2021, 0, 1)).months[0].days[0].name.short) == Some("Fr")
  {
    January2021();
  }
}
