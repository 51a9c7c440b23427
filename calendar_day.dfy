/**
  Calendar arithmetic on integer instants. An instant is a count of milliseconds since
  1970-01-01T00:00; a calendar day is a count of whole days since that date (day 0), which
  stands for the local-date comparisons the pages make through `toDateString()` and
  `getDate()`/`getMonth()`/`getFullYear()`. Months are zero-based, as in `Date.getMonth()`.
 */
module CalendarDay {

  const MS_PER_SECOND: int := 1000
  const MS_PER_MINUTE: int := 60 * MS_PER_SECOND
  const MS_PER_HOUR: int := 60 * MS_PER_MINUTE
  const MS_PER_DAY: int := 24 * MS_PER_HOUR

  /** The calendar day an instant falls on. */
  function DayOf(instant: int): (d: int)
    ensures d * MS_PER_DAY <= instant < (d + 1) * MS_PER_DAY
  {
    instant / MS_PER_DAY
  }

  /** Later instants never fall on earlier days. */
  lemma DayOfMonotone(a: int, b: int)
    requires a <= b
    ensures DayOf(a) <= DayOf(b)
  {
  }

  /** Gregorian leap-year rule. */
  predicate IsLeapYear(year: int) {
    (year % 4 == 0 && year % 100 != 0) || year % 400 == 0
  }

  function DaysInYear(year: int): int {
    if IsLeapYear(year) then 366 else 365
  }

  /** Length of a month: the day-of-month of `new Date(year, month + 1, 0)`. */
  function DaysInMonth(year: int, month: int): (n: int)
    requires 0 <= month < 12
    ensures 28 <= n <= 31
  {
    if month == 1 then (if IsLeapYear(year) then 29 else 28)
    else if month == 3 || month == 5 || month == 8 || month == 10 then 30
    else 31
  }

  /** Days in the months of `year` before `month`. */
  function DaysBeforeMonth(year: int, month: int): int
    requires 0 <= month <= 12
  {
    if month == 0 then 0 else DaysBeforeMonth(year, month - 1) + DaysInMonth(year, month - 1)
  }

  /** The calendar day of January 1 of `year`. */
  function YearStart(year: int): int
    decreases if year >= 1970 then year - 1970 else 1970 - year
  {
    if year == 1970 then 0
    else if year > 1970 then YearStart(year - 1) + DaysInYear(year - 1)
    else YearStart(year + 1) - DaysInYear(year)
  }

  /** The calendar day of the first of `month` in `year` (`new Date(year, month, 1)`). */
  function MonthStart(year: int, month: int): int
    requires 0 <= month < 12
  {
    YearStart(year) + DaysBeforeMonth(year, month)
  }

  /** The twelve months fill the year exactly. */
  lemma MonthsFillYear(year: int)
    ensures DaysBeforeMonth(year, 12) == DaysInYear(year)
  {
    var leap := if IsLeapYear(year) then 1 else 0;
    assert DaysBeforeMonth(year, 1) == 31;
    assert DaysBeforeMonth(year, 2) == 59 + leap;
    assert DaysBeforeMonth(year, 3) == 90 + leap;
    assert DaysBeforeMonth(year, 4) == 120 + leap;
    assert DaysBeforeMonth(year, 5) == 151 + leap;
    assert DaysBeforeMonth(year, 6) == 181 + leap;
    assert DaysBeforeMonth(year, 7) == 212 + leap;
    assert DaysBeforeMonth(year, 8) == 243 + leap;
    assert DaysBeforeMonth(year, 9) == 273 + leap;
    assert DaysBeforeMonth(year, 10) == 304 + leap;
    assert DaysBeforeMonth(year, 11) == 334 + leap;
  }

  /** Months tile the time line: each month ends the day before the next one starts. */
  lemma MonthsAdjacent(year: int, month: int)
    requires 0 <= month < 12
    ensures MonthStart(year, month) + DaysInMonth(year, month)
         == if month == 11 then YearStart(year + 1) else MonthStart(year, month + 1)
  {
    if month == 11 {
      MonthsFillYear(year);
      assert YearStart(year + 1) == YearStart(year) + DaysInYear(year);
    }
  }

  /**
    `new Date(year, month + 1, 0)`: day zero of the next month, the day before its first.
    It is the last day of `month`, so the month has `DaysInMonth` days.
   */
  function LastOfMonth(year: int, month: int): (d: int)
    requires 0 <= month < 12
    ensures d == MonthStart(year, month) + DaysInMonth(year, month) - 1
  {
    MonthsAdjacent(year, month);
    (if month == 11 then YearStart(year + 1) else MonthStart(year, month + 1)) - 1
  }

  /** The weekday of a calendar day, 0 = Sunday (`Date.getDay()`); day 0 was a Thursday. */
  function Weekday(day: int): (w: int)
    ensures 0 <= w < 7
  {
    (day + 4) % 7
  }
}
