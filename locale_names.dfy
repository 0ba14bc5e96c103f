/** The names that `toLocaleString("default", …)` gives for months and
    weekdays, fixed to the English defaults. */
module LocaleNames {

  const MONTH_NAMES: seq<string> :=
    ["January", "February", "March", "April", "May", "June", "July",
     "August", "September", "October", "November", "December"]

  /** Indexed by the WeekDay of ECMA-262: 0 is Sunday. */
  const WEEKDAY_LONG_NAMES: seq<string> :=
    ["Sunday", "Monday", "Tuesday", "Wednesday", "Thursday", "Friday", "Saturday"]

  const WEEKDAY_SHORT_NAMES: seq<string> := ["Sun", "Mon", "Tue", "Wed", "Thu", "Fri", "Sat"]

  /** `{ month: "long" }` for month index `m`: a capitalised word. */
  function MonthName(m: int): (s: string)
    requires 0 <= m < 12
    ensures |s| >= 3 && 'A' <= s[0] <= 'Z'
  {
    MONTH_NAMES[m]
  }

  /** No two months share a name. */
  lemma MonthNamesDistinct(a: int, b: int)
    requires 0 <= a < 12 && 0 <= b < 12 && a != b
    ensures MonthName(a) != MonthName(b)
  {
  }

  /** `{ weekday: "long" }` for weekday index `w`: a name ending in "day". */
  function WeekdayLongName(w: int): (s: string)
    requires 0 <= w < 7
    ensures |s| >= 6 && s[|s| - 3..] == "day"
  {
    WEEKDAY_LONG_NAMES[w]
  }

  /** No two weekdays share a long name, nor a short one. */
  lemma WeekdayNamesDistinct(a: int, b: int)
    requires 0 <= a < 7 && 0 <= b < 7 && a != b
    ensures WeekdayLongName(a) != WeekdayLongName(b)
    ensures WeekdayShortName(a) != WeekdayShortName(b)
  {
  }

  /** `{ weekday: "short" }` for weekday index `w`: the first three letters
      of the long name, and no other weekday's. */
  function WeekdayShortName(w: int): (s: string)
    requires 0 <= w < 7
    ensures |s| == 3 && s == WeekdayLongName(w)[..3]
  {
    WEEKDAY_SHORT_NAMES[w]
  }
}
