# kal: the yearly planner's calendar generator

`kal` renders a printable planner for one year: a section per month and a
cell per day, showing the day-of-month and a two-letter weekday label. All of
its logic sits in `src/app.tsx`. `generateCalendar(year)` builds a
`Calendar`: the `year` and twelve `Month`s, each holding a name and its `Day`s.
It keeps one `Date` object as a cursor and reads the month name from it. While
the cursor's month index is that of the current outer iteration, it pushes the
cursor's day-of-month with its short and long weekday names, and then moves the
cursor on with `setDate(getDate() + 1)`. The `narrowDays` table turns a short
weekday name into the label a cell shows.

This project models that code in Dafny and proves what it produces.

- `civil_date.dfy` (module `CivilDate`) holds the proleptic Gregorian civil
  dates and the day arithmetic of the Date objects of ECMA-262, section 21.4
  ("Date Objects"). Day numbers count from 1970-01-01 (day 0, a Thursday).
  The file defines `DayFromYear`, checked against the closed formula of the
  standard, and the conversions `CivilFromDay` and `DayNumber`, proved inverse
  to each other. `NextDay` is the rollover reference. The class `DateObject`
  is the cursor, updated in place: `GetMonth`, `GetDate`, `GetDay` and
  `SetDate` model the Date getters and `setDate`.
- `locale_names.dfy` (module `LocaleNames`) holds the English month and
  weekday names that `toLocaleString("default", …)` gives.
- `generator.dfy` (module `Generator`) holds the `Day`, `Month` and `Calendar`
  types. `CollectDays` is the `while` loop and `GenerateFrom` the `for` loop of
  `generateCalendar`; both are proved against the specification functions
  `Visited`, `CursorAfter`, `CursorBefore` and `Months`.
- `calendar_properties.dfy` (module `CalendarProperties`) holds what the
  generator guarantees from any starting cursor, and from January 1 of a year.
- `narrow_days.dfy` (module `NarrowDays`) holds the `narrowDays` table and its
  lookup.
- `app.dfy` (module `App`) holds the entry point as written, starting at
  `new Date(year)`, and as evidently intended, starting at January 1 of
  `year`. It also holds the concrete calendars that tell the two apart.

The code and its natural reading disagree in one place, and the model follows
the code. `new Date(year)` (src/app.tsx:24) treats `year` as a time value in
milliseconds since 1970-01-01T00:00Z, not as a calendar year. So the cursor
starts on 1970-01-01 (or on 1969-12-31 west of UTC) for every present-day year.
On a UTC host or east of it the Day values are then those of 1970, while the
`year` field says otherwise. West of UTC, Months 0 to 10 are empty and named
December, and Month 11 holds only Wednesday the 31st.
The generator is therefore modelled from an arbitrary starting cursor.
`GenerateCalendar` starts it where the code does. `GenerateCalendarFromJanuary`
starts it on January 1 of `year`, and the month-length and leap-year results
are proved for that start. A lookup of a name outside `narrowDays` gives
`undefined` in the code, which is modelled as `None`; the code raises no error.

## Model

| member | source | states |
|---|---|---|
| `CivilDate.NextDay` | src/app.tsx:40 | the day after a valid date is a valid date: the next day-of-month inside the month, otherwise day 1 of a different month |
| `CivilDate.NextDayNumber` | src/app.tsx:40 | NextDay advances the day number by exactly one, across month and year ends too |
| `CivilDate.WithDate` | src/app.tsx:40 | the date `setDate(dt)` yields (MakeDay with the cursor's year and month) is valid and lies `dt - getDate()` days from the old one |
| `CivilDate.SetDateMoves` | src/app.tsx:40 | `setDate(dt)` moves the date by `dt - getDate()` days; a `dt` inside the month only replaces the day-of-month |
| `CivilDate.SetDateNextDay` | src/app.tsx:40 | `setDate(getDate() + 1)`, with the rollover of MakeDay, is exactly NextDay |
| `CivilDate.NextDayByNumber` | src/app.tsx:40 | the only valid date one day number after `c` is NextDay(c) |
| `CivilDate.DayNumberInjective` | src/app.tsx:40 | two valid dates with the same day number are the same date |
| `CivilDate.CivilFromDay` | src/app.tsx:24 | every day number has a valid civil date, and that date's day number is the one given |
| `CivilDate.CivilFromDayNumber` | src/app.tsx:24 | converting a valid date to its day number and back gives the same date |
| `CivilDate.DayFromYearIsEcma` | src/app.tsx:24 | the year-by-year count of days agrees with the closed DayFromYear formula of ECMA-262 for every year |
| `CivilDate.EcmaDayFromYearStep` | src/app.tsx:24 | by the closed formula, consecutive New Year's days are 366 days apart in a leap year and 365 otherwise |
| `CivilDate.WeekDayNext` | src/app.tsx:34-40 | the weekday of the next day is one more, modulo 7 |
| `CivilDate.DayNumberInYear` | src/app.tsx:31 | a valid date's day number lies inside its own year and inside its own month's range of that year |
| `CivilDate.YearFromDayUnique` | src/app.tsx:24 | the year a day number falls in is the only year whose range holds it |
| `CivilDate.DateInYearOf` | src/app.tsx:31-32 | the month and day-of-month read back from a date's day of the year are that date's own |
| `CivilDate.DateObject.constructor` | src/app.tsx:24 | the one Date object the generator allocates starts on the given valid civil date |
| `CivilDate.DateObject.SetDate` | src/app.tsx:40 | the cursor object is updated in place to the valid date `dt - getDate()` days on |
| `CivilDate.DateObject.GetMonth` | src/app.tsx:31 | `getMonth` is a month index 0 to 11 |
| `CivilDate.DateObject.GetDate` | src/app.tsx:32 | `getDate` is a day of the cursor's month, 1 to its length |
| `CivilDate.DateObject.GetDay` | src/app.tsx:35-36 | the weekday the names are taken from is an index 0 (Sunday) to 6; WeekDayNext proves how it advances |
| `CivilDate.LeapYearLength` | src/app.tsx:27-44 | a year is 366 days long exactly when it is a Gregorian leap year, else 365 |
| `CivilDate.MonthLengthsSum` | src/app.tsx:27-44 | the twelve month lengths of a year add up to the year's length |
| `LocaleNames.MonthName` | src/app.tsx:29 | `toLocaleString` with `{ month: "long" }` gives a capitalised month name |
| `LocaleNames.MonthNamesDistinct` | src/app.tsx:29 | no two months share a name |
| `LocaleNames.WeekdayLongName` | src/app.tsx:36 | `toLocaleString` with `{ weekday: "long" }` gives a name ending in "day" |
| `LocaleNames.WeekdayNamesDistinct` | src/app.tsx:35-36 | no two weekdays share a long name, nor a short one |
| `LocaleNames.WeekdayShortName` | src/app.tsx:35-36 | the short weekday name is three letters, the start of the same weekday's long name |
| `Generator.DayAt` | src/app.tsx:33-39 | the pushed Day records the cursor's day-of-month, and its short name is the first three letters of its long name (that both name the date's weekday is `CalendarProperties.WeekdayNaming`) |
| `Generator.Visited` | src/app.tsx:31-41 | the inner loop pushes a Day exactly when the cursor starts in month `i`, and every position it visits lies in month `i` |
| `Generator.CursorAfter` | src/app.tsx:31-41 | the inner loop leaves the cursor outside month `i`: where it was if it was not in `i`, otherwise on the day after the end of month `i` |
| `Generator.CollectingStep` | src/app.tsx:32-40 | one pass of the inner loop keeps the loop invariant and strictly reduces the days left in the month, so the loop terminates |
| `Generator.CollectDays` | src/app.tsx:28-41 | the while loop returns the Days of exactly the visited positions, in order, and leaves the cursor where CursorAfter says |
| `Generator.GenerateFrom` | src/app.tsx:23-47 | from any start, the result is CalendarFrom: the given `year` and 12 Months, one pushed per outer iteration |
| `CalendarProperties.VisitedContiguous` | src/app.tsx:31-40 | the visited dates are consecutive days of one month, from the cursor to the end of that month |
| `CalendarProperties.CursorAfterNumber` | src/app.tsx:31-40 | the cursor moves forward by exactly as many days as Days were pushed |
| `CalendarProperties.MonthContents` | src/app.tsx:29-43 | Month `i` is named after the cursor's month when iteration `i` begins; each of its Days was taken in month `i`; its `date` values rise by one from the cursor's day-of-month |
| `CalendarProperties.OffStartMonth` | src/app.tsx:29-31 | if the cursor is not in month `i` when iteration `i` begins, Month `i` is empty and named after the cursor's actual month, and the cursor does not move |
| `CalendarProperties.AllDatesConsecutive` | src/app.tsx:27-44 | over the whole result, from any start, the `j`-th Day comes from the date `j` days after the start |
| `CalendarProperties.NoDateTwice` | src/app.tsx:31-40 | no calendar date is taken twice anywhere in the result, whatever the start |
| `CalendarProperties.AllDaysOfDates` | src/app.tsx:33-43 | all the Days of the result, month after month, are the Days of the visited dates in order |
| `CalendarProperties.WeekdayNaming` | src/app.tsx:34-37 | every Day carries the short and long names of one weekday: the weekday of its date, `j` days after the start's |
| `CalendarProperties.WeekdayStep` | src/app.tsx:34-40 | from each Day to the next, month boundaries included, the weekday index goes up by 1 modulo 7 |
| `CalendarProperties.JanuaryCursors` | src/app.tsx:27-44 | from January 1, iteration `k` begins on the first of month `k`, and the cursor ends on January 1 of the next year |
| `CalendarProperties.JanuaryMonth` | src/app.tsx:27-44 | from January 1 of `y`, Month `i` is named after month `i`, has DaysInMonth(y, i) Days, and numbers them 1, 2, 3, … |
| `CalendarProperties.February` | src/app.tsx:27-44 | from January 1 of `y`, February has 29 Days in a Gregorian leap year and 28 otherwise |
| `CalendarProperties.YearLength` | src/app.tsx:27-44 | from January 1 of `y`, the result holds 366 Days in a leap year and 365 otherwise |
| `CalendarProperties.EveryDateOnce` | src/app.tsx:27-44 | from January 1 of `y`, every date of year `y` is taken exactly once, at its own position |
| `CalendarProperties.AllDatesInYear` | src/app.tsx:27-44 | from January 1 of `y`, no Day comes from a date outside year `y` |
| `NarrowDays.Narrow` | src/app.tsx:86 | the lookup gives a label exactly for the table's keys: three-letter keys with two-letter labels, each the first two letters of its key; any other string gives none |
| `NarrowDays.NarrowKeys` | src/app.tsx:49-57 | the keys are exactly the seven short weekday names |
| `NarrowDays.NarrowCount` | src/app.tsx:49-57 | the table has seven keys |
| `NarrowDays.NarrowDistinct` | src/app.tsx:49-57 | no two keys share a label |
| `NarrowDays.NarrowOfWeekday` | src/app.tsx:49-57 | each weekday's label is the first two letters of its long name |
| `NarrowDays.EveryDayHasLabel` | src/app.tsx:86 | every Day the generator records, from any start, has a label, and it matches the Day's weekday |
| `App.StartCursor` | src/app.tsx:24 | `new Date(year)` denotes the valid civil date of day number floor((year + offset) / msPerDay) |
| `App.AsWrittenStart` | src/app.tsx:24 | when `year` plus the host offset is under one day of milliseconds, the cursor starts on 1970-01-01 whatever the year |
| `App.WestOfUtcStart` | src/app.tsx:24 | when `year` plus the offset is negative by at most a day, the cursor starts on Wednesday 1969-12-31 |
| `App.GenerateCalendar` | src/app.tsx:23-47 | as written, the result is CalendarFrom the cursor of `new Date(year)`: it keeps `year`, has 12 Months, and at most one day after the epoch (UTC or east) its Months are those of 1970 |
| `App.GenerateCalendarFromJanuary` | src/app.tsx:23-47 | started on January 1 of `year`: Months January to December, each with exactly its month's number of Days, numbered from 1, DaysInYear(year) Days in all |
| `App.AsWrittenYear1970` | src/app.tsx:24-44 | as written, at most one day after the epoch (UTC or east), the first Day is Thursday the 1st and February has 28 Days, whatever the year |
| `App.AsWrittenLeapYear` | src/app.tsx:24-44 | as written, a leap year at most one day after the epoch (UTC or east) gets a 28-Day February, where from January 1 it has 29 |
| `App.AsWritten2024` | src/app.tsx:24 | as written, `generateCalendar(2024)` read in UTC has a 28-Day February |
| `App.February2024` | src/app.tsx:27-44 | 2024 is a leap year, and from January 1, 2024 February has 29 Days |
| `App.January2024` | src/app.tsx:29-37 | from January 1, 2024 the first Day is a Monday |
| `App.JanuaryOpening` | src/app.tsx:29-37 | from January 1 of `y`, the first Month is January and its first Day is the 1st, named after the weekday the ECMA-262 formula gives |
| `App.LateStart` | src/app.tsx:29-31 | a cursor starting in month `m` leaves months 0 to m - 1 empty and named after month `m` |
| `App.LastDayStart` | src/app.tsx:29-43 | a cursor starting on December 31 gives eleven empty Months named December, then a December holding that one Day |
| `App.AsWrittenWestOfUtc` | src/app.tsx:24-44 | as written and west of UTC, Months 0 to 10 are empty and named December, and Month 11 holds only Wednesday the 31st |
| `App.January2021` | src/app.tsx:29-43 | from January 1, 2021 the first Month is January and its first Day is Friday the 1st |
| `App.January2021Label` | src/app.tsx:86 | that first Day of 2021 is labelled "Fr" |

## Findings

| source | as written | input that shows it | evidently intended | confidence | as-written member | corrected member |
|---|---|---|---|---|---|---|
| src/app.tsx:24 | `new Date(year)` reads `year` as milliseconds since the epoch, so on a UTC host or east of it the cursor starts on 1970-01-01 and every year gets 1970's days | `generateCalendar(2024)` on a UTC host: February has 28 Days and January 1 is a Thursday | the cursor starts on January 1 of `year`, as `setFullYear(year, 0, 1)` on a fresh Date puts it for every year (`new Date(year, 0, 1)` would for years outside 0 to 99 only, reading those as 1900 to 1999), giving 29 Days in February 2024 and a Monday January 1 | high; follows from the ECMA-262 Date constructor, not executed | `App.AsWritten2024` | `App.GenerateCalendarFromJanuary` |

## Left out

- The `App` component and its JSX (src/app.tsx:61-105) are presentation only: grid layout, CSS classes, React `key` strings and the uncontrolled `<input>` fields.
- `new Date().getFullYear()` (src/app.tsx:62) reads the host clock. The year is a parameter instead.
- Time values are modelled only down to the day. `new Date(year)` becomes the civil date of `floor((year + offsetMs) / msPerDay)` with one fixed host offset `offsetMs`. Time of day, daylight-saving changes and offsets that vary by date are not modelled.
- StartCursor: the time range limit of ECMA-262 (TimeClip, |t| > 8.64e15 ms) is not modelled. There `new Date(year)` is an Invalid Date, `getMonth()` is NaN, and every Month would be empty and named "Invalid Date". Non-integer `year` numbers are not modelled either; `year` is an integer.
- Locale lookup through `toLocaleString("default", …)` (src/app.tsx:29, 35, 36) is a foreign internationalisation facility. It is replaced by fixed English month and weekday names.
- Narrow: a JavaScript property lookup on the `narrowDays` object literal also finds inherited `Object.prototype` members (`"toString"`, `"constructor"`, …), which give functions rather than `undefined`. The model gives `None` for every string that is not one of the seven keys.
- Years are unbounded integers. The Date range of roughly ±275,000 years around 1970 is not enforced.
- The unused `Calendars` alias (src/app.tsx:21) and the CSS import (src/app.tsx:1) have no behaviour.
