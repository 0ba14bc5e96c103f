/** The `narrowDays` table of src/app.tsx, which turns the short weekday name
    recorded with each Day into the two-letter label the planner shows. */
module NarrowDays {
  import opened Wrappers
  import opened CivilDate
  import opened LocaleNames
  import opened Generator
  import opened CalendarProperties

  const NARROW_DAYS: map<string, string> :=
    map["Sun" := "Su", "Mon" := "Mo", "Tue" := "Tu", "Wed" := "We",
        "Thu" := "Th", "Fri" := "Fr", "Sat" := "Sa"]

  /** `narrowDays[day.name.short as ShortDays]`: the label of a short name
      that is a key, and no label (`undefined`) for any other string. */
  function Narrow(short: string): (r: Option<string>)
    ensures r.Some? <==> short in NARROW_DAYS
    ensures r.Some? ==> |short| == 3 && |r.value| == 2 && r.value == short[..2]
  {
    if short in NARROW_DAYS then Some(NARROW_DAYS[short]) else None
  }

  /** The keys are exactly the seven short weekday names. */
  lemma NarrowKeys()
    ensures forall w :: 0 <= w < 7 ==> WeekdayShortName(w) in NARROW_DAYS
    ensures forall s :: s in NARROW_DAYS ==> s in WEEKDAY_SHORT_NAMES
  {
    forall w | 0 <= w < 7 ensures WeekdayShortName(w) in NARROW_DAYS {
      assert WeekdayShortName(w) == WEEKDAY_SHORT_NAMES[w];
    }
  }

  /** There are seven keys. */
  lemma NarrowCount()
    ensures |NARROW_DAYS| == 7
  {
    var first := {"Sun", "Mon", "Tue", "Wed"};
    var rest := {"Thu", "Fri", "Sat"};
    assert |first| == 4 && |rest| == 3;
    assert first * rest == {};
    assert NARROW_DAYS.Keys == first + rest;
  }

  /** No two weekdays share a label. */
  lemma NarrowDistinct(a: string, b: string)
    requires a in NARROW_DAYS && b in NARROW_DAYS && a != b
    ensures NARROW_DAYS[a] != NARROW_DAYS[b]
  {
  }

  /** The label of weekday `w` is the first two letters of its long name. */
  lemma NarrowOfWeekday(w: int)
    requires 0 <= w < 7
    ensures Narrow(WeekdayShortName(w)) == Some(WeekdayLongName(w)[..2])
  {
    var short, long := WeekdayShortName(w), WeekdayLongName(w);
    if w == 0 { assert short == "Sun" && long[..2] == "Su"; }
    else if w == 1 { assert short == "Mon" && long[..2] == "Mo"; }
    else if w == 2 { assert short == "Tue" && long[..2] == "Tu"; }
    else if w == 3 { assert short == "Wed" && long[..2] == "We"; }
    else if w == 4 { assert short == "Thu" && long[..2] == "Th"; }
    else if w == 5 { assert short == "Fri" && long[..2] == "Fr"; }
    else { assert short == "Sat" && long[..2] == "Sa"; }
  }

  /** Day `d` has a label: the first two letters of its long weekday name. */
  predicate Labelled(d: Day) {
    |d.name.long| >= 2 && Narrow(d.name.short) == Some(d.name.long[..2])
  }

  /** Every Day that the generator records, from any start, has a label, and
      it is the first two letters of the Day's long weekday name. */
  lemma EveryDayHasLabel(year: int, s: Date, i: int, k: int)
    requires ValidDate(s) && 0 <= i < 12
    requires 0 <= k < |CalendarFrom(year, s).months[i].days|
    ensures Labelled(CalendarFrom(year, s).months[i].days[k])
  {
    var days := CalendarFrom(year, s).months[i].days;
    MonthContents(year, s, i);
    var c := MonthDates(s)[i][k];
    assert days[k] == DayAt(c);
    DayAtHasLabel(c);
  }

  /** The Day recorded at cursor `c` has the label of its weekday. */
  lemma DayAtHasLabel(c: Date)
    requires 0 <= c.month < 12
    ensures Labelled(DayAt(c))
  {
    NarrowOfWeekday(WeekDay(c));
  }
}
