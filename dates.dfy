/** Local calendar dates in the proleptic Gregorian calendar, as the date-fns
    functions used by the month view see them (no time of day, no time zone). */
module Dates {

  /** A calendar date: year, month 1..12 and day of the month. */
  datatype Date = Date(year: int, month: int, day: int)

  predicate IsLeapYear(y: int) {
    y % 4 == 0 && (y % 100 != 0 || y % 400 == 0)
  }

  function DaysInMonth(y: int, m: int): (n: int)
    requires 1 <= m <= 12
    ensures 28 <= n <= 31
    ensures n == 29 <==> m == 2 && IsLeapYear(y)
    ensures n == 28 <==> m == 2 && !IsLeapYear(y)
  {
    if m == 2 then (if IsLeapYear(y) then 29 else 28)
    else if m == 4 || m == 6 || m == 9 || m == 11 then 30
    else 31
  }

  predicate IsValid(d: Date) {
    1 <= d.month <= 12 && 1 <= d.day <= DaysInMonth(d.year, d.month)
  }

  function YearLength(y: int): int {
    if IsLeapYear(y) then 366 else 365
  }

  /** Number of days from 0001-01-01 to January 1st of year `y` (negative before year 1). */
  function DaysBeforeYear(y: int): int {
    365 * (y - 1) + LeapYearsBefore(y)
  }

  /** The leap years from year 1 up to, not including, year `y` (counted negatively
      before year 1); LeapYearsClosedForm gives it as `p / 4 - p / 100 + p / 400`
      with `p = y - 1`. */
  function LeapYearsBefore(y: int): int
    decreases if y >= 1 then y - 1 else 1 - y
  {
    if y == 1 then 0
    else if y > 1 then LeapYearsBefore(y - 1) + (if IsLeapYear(y - 1) then 1 else 0)
    else LeapYearsBefore(y + 1) - (if IsLeapYear(y) then 1 else 0)
  }

  /** Number of days from January 1st of year `y` to the first day of month `m`. */
  function DaysBeforeMonth(y: int, m: int): int
    requires 1 <= m <= 12
  {
    var common := [0, 31, 59, 90, 120, 151, 181, 212, 243, 273, 304, 334][m - 1];
    if IsLeapYear(y) && m > 2 then common + 1 else common
  }

  /** Days since 0001-01-01; consecutive calendar days have consecutive numbers. */
  function DayNumber(d: Date): int
    requires 1 <= d.month <= 12
  {
    DaysBeforeYear(d.year) + DaysBeforeMonth(d.year, d.month) + d.day - 1
  }

  /** Day of the week, 0 = Sunday .. 6 = Saturday (0001-01-01 was a Monday). */
  function Weekday(d: Date): int
    requires 1 <= d.month <= 12
  {
    (DayNumber(d) + 1) % 7
  }

  /** `a` comes strictly before `b` in the calendar. */
  predicate Before(a: Date, b: Date) {
    a.year < b.year
    || (a.year == b.year && a.month < b.month)
    || (a.year == b.year && a.month == b.month && a.day < b.day)
  }

  // ---------------------------------------------------------------------------
  // Facts about the year and month tables

  lemma DivStep4(y: int)
    ensures y / 4 - (y - 1) / 4 == if y % 4 == 0 then 1 else 0
  {
  }

  lemma DivStep100(y: int)
    ensures y / 100 - (y - 1) / 100 == if y % 100 == 0 then 1 else 0
  {
  }

  lemma DivStep400(y: int)
    ensures y / 400 - (y - 1) / 400 == if y % 400 == 0 then 1 else 0
  {
  }

  /** The closed form of the leap-year count grows by one exactly across a leap year. */
  lemma LeapFormulaStep(y: int)
    ensures (y / 4 - y / 100 + y / 400) - ((y - 1) / 4 - (y - 1) / 100 + (y - 1) / 400)
            == if IsLeapYear(y) then 1 else 0
  {
    DivStep4(y);
    DivStep100(y);
    DivStep400(y);
    if y % 400 == 0 {
      CenturyDivisible(y);
    }
    if y % 100 == 0 {
      QuadDivisible(y);
    }
  }

  lemma CenturyDivisible(y: int)
    requires y % 400 == 0
    ensures y % 100 == 0
  {
    assert y == 100 * (4 * (y / 400));
  }

  lemma QuadDivisible(y: int)
    requires y % 100 == 0
    ensures y % 4 == 0
  {
    assert y == 4 * (25 * (y / 100));
  }

  /** The leap years before `y` are `p / 4 - p / 100 + p / 400` with `p = y - 1`. */
  lemma {:induction false} LeapYearsClosedForm(y: int)
    ensures LeapYearsBefore(y) == (y - 1) / 4 - (y - 1) / 100 + (y - 1) / 400
    decreases if y >= 1 then y - 1 else 1 - y
  {
    if y > 1 {
      LeapYearsClosedForm(y - 1);
      LeapFormulaStep(y - 1);
    } else if y < 1 {
      LeapYearsClosedForm(y + 1);
      LeapFormulaStep(y);
    }
  }

  /** A year is as long as the gap between its January 1st and the next one. */
  lemma YearStep(y: int)
    ensures DaysBeforeYear(y + 1) == DaysBeforeYear(y) + YearLength(y)
  {
    if y >= 1 {
      assert LeapYearsBefore(y + 1) == LeapYearsBefore(y) + (if IsLeapYear(y) then 1 else 0);
    } else {
      assert LeapYearsBefore(y) == LeapYearsBefore(y + 1) - (if IsLeapYear(y) then 1 else 0);
    }
  }

  lemma MonthStep(y: int, m: int)
    requires 1 <= m < 12
    ensures DaysBeforeMonth(y, m + 1) == DaysBeforeMonth(y, m) + DaysInMonth(y, m)
  {
  }

  lemma DecemberEnd(y: int)
    ensures DaysBeforeMonth(y, 12) + DaysInMonth(y, 12) == YearLength(y)
  {
  }

  /** Every month ends inside its year. */
  lemma MonthFitsInYear(y: int, m: int)
    requires 1 <= m <= 12
    ensures DaysBeforeMonth(y, m) + DaysInMonth(y, m) <= YearLength(y)
  {
  }

  lemma {:induction false} MonthsIncrease(y: int, m1: int, m2: int)
    requires 1 <= m1 < m2 <= 12
    ensures DaysBeforeMonth(y, m1) + DaysInMonth(y, m1) <= DaysBeforeMonth(y, m2)
    decreases m2 - m1
  {
    MonthStep(y, m1);
    if m1 + 1 < m2 {
      MonthsIncrease(y, m1 + 1, m2);
    }
  }

  lemma {:induction false} YearsIncrease(y1: int, y2: int)
    requires y1 < y2
    ensures DaysBeforeYear(y1) + YearLength(y1) <= DaysBeforeYear(y2)
    decreases y2 - y1
  {
    YearStep(y1);
    if y1 + 1 < y2 {
      YearsIncrease(y1 + 1, y2);
    }
  }

  /** Day numbers follow calendar order. */
  lemma DayNumberMonotonic(a: Date, b: Date)
    requires IsValid(a) && IsValid(b)
    requires Before(a, b)
    ensures DayNumber(a) < DayNumber(b)
  {
    MonthFitsInYear(a.year, a.month);
    if a.year < b.year {
      YearsIncrease(a.year, b.year);
    } else if a.month < b.month {
      MonthsIncrease(a.year, a.month, b.month);
    }
  }

  /** Distinct valid dates have distinct day numbers. */
  lemma DayNumberInjective(a: Date, b: Date)
    requires IsValid(a) && IsValid(b)
    requires DayNumber(a) == DayNumber(b)
    ensures a == b
  {
    if Before(a, b) {
      DayNumberMonotonic(a, b);
    } else if Before(b, a) {
      DayNumberMonotonic(b, a);
    }
  }

  /** Within one month, day numbers differ as the days of the month do. */
  lemma SameMonthDayNumber(a: Date, b: Date)
    requires 1 <= a.month <= 12 && a.year == b.year && a.month == b.month
    ensures DayNumber(a) - DayNumber(b) == a.day - b.day
  {
  }

  /** Moving back by `x % 7` days lands on a multiple of seven. */
  lemma WeekdayShift(x: int, y: int, w: int)
    requires w == x % 7 && y == x - w
    ensures y % 7 == 0 && (y + 6) % 7 == 6
  {
  }

  // ---------------------------------------------------------------------------
  // Stepping through the calendar

  /** The following calendar day. */
  function NextDay(d: Date): (r: Date)
    requires IsValid(d)
    ensures IsValid(r) && DayNumber(r) == DayNumber(d) + 1
  {
    if d.day < DaysInMonth(d.year, d.month) then
      Date(d.year, d.month, d.day + 1)
    else if d.month < 12 then
      MonthStep(d.year, d.month);
      Date(d.year, d.month + 1, 1)
    else
      DecemberEnd(d.year);
      YearStep(d.year);
      Date(d.year + 1, 1, 1)
  }

  /** The preceding calendar day. */
  function PrevDay(d: Date): (r: Date)
    requires IsValid(d)
    ensures IsValid(r) && DayNumber(r) == DayNumber(d) - 1
  {
    if d.day > 1 then
      Date(d.year, d.month, d.day - 1)
    else if d.month > 1 then
      MonthStep(d.year, d.month - 1);
      Date(d.year, d.month - 1, DaysInMonth(d.year, d.month - 1))
    else
      DecemberEnd(d.year - 1);
      YearStep(d.year - 1);
      Date(d.year - 1, 12, 31)
  }

  /** The date `k` days later. */
  function DaysForward(d: Date, k: nat): (r: Date)
    requires IsValid(d)
    ensures IsValid(r) && DayNumber(r) == DayNumber(d) + k
    decreases k
  {
    if k == 0 then d else DaysForward(NextDay(d), k - 1)
  }

  /** The date `k` days earlier. */
  function DaysBack(d: Date, k: nat): (r: Date)
    requires IsValid(d)
    ensures IsValid(r) && DayNumber(r) == DayNumber(d) - k
    decreases k
  {
    if k == 0 then d else DaysBack(PrevDay(d), k - 1)
  }

  // ---------------------------------------------------------------------------
  // The date-fns operations used by the month view

  /** date-fns `startOfMonth`. */
  function StartOfMonth(d: Date): (r: Date)
    requires IsValid(d)
    ensures IsValid(r) && r.year == d.year && r.month == d.month
    ensures DayNumber(r) == DayNumber(d) - (d.day - 1)
  {
    Date(d.year, d.month, 1)
  }

  /** date-fns `endOfMonth`. */
  function EndOfMonth(d: Date): (r: Date)
    requires IsValid(d)
    ensures IsValid(r) && r.year == d.year && r.month == d.month
    ensures NextDay(r).month != d.month
    ensures DayNumber(r) == DayNumber(d) + (DaysInMonth(d.year, d.month) - d.day)
  {
    Date(d.year, d.month, DaysInMonth(d.year, d.month))
  }

  /** date-fns `startOfWeek` with its default week start, Sunday: the Sunday on or before `d`. */
  function StartOfWeek(d: Date): (r: Date)
    requires IsValid(d)
    ensures IsValid(r) && Weekday(r) == 0
    ensures DayNumber(r) == DayNumber(d) - Weekday(d)
  {
    var r := DaysBack(d, Weekday(d));
    WeekdayShift(DayNumber(d) + 1, DayNumber(r) + 1, Weekday(d));
    r
  }

  /** date-fns `endOfWeek` with the default week start: the Saturday on or after `d`. */
  function EndOfWeek(d: Date): (r: Date)
    requires IsValid(d)
    ensures IsValid(r) && Weekday(r) == 6
    ensures DayNumber(r) == DayNumber(d) + 6 - Weekday(d)
  {
    var r := DaysForward(d, 6 - Weekday(d));
    WeekdayShift(DayNumber(d) + 1, DayNumber(r) + 1 - 6, Weekday(d));
    r
  }

  /** date-fns `eachDayOfInterval`: every day from `start` to `end`, both included. */
  function EachDayOfInterval(start: Date, end: Date): (days: seq<Date>)
    requires IsValid(start) && IsValid(end)
    requires DayNumber(start) <= DayNumber(end)
    ensures |days| == DayNumber(end) - DayNumber(start) + 1
    ensures days[0] == start && days[|days| - 1] == end
    ensures forall i :: 0 <= i < |days| ==> IsValid(days[i]) && DayNumber(days[i]) == DayNumber(start) + i
    decreases DayNumber(end) - DayNumber(start)
  {
    if DayNumber(start) == DayNumber(end) then
      DayNumberInjective(start, end);
      [start]
    else [start] + EachDayOfInterval(NextDay(start), end)
  }

  /** date-fns `isSameMonth`: on valid dates, the two lie in one month exactly
      when their month indices agree. */
  function IsSameMonth(a: Date, b: Date): (r: bool)
    ensures IsValid(a) && IsValid(b) ==> (r <==> MonthIndex(a) == MonthIndex(b))
  {
    a.year == b.year && a.month == b.month
  }

  /** Months counted from year 0: `year * 12 + (month - 1)`. */
  function MonthIndex(d: Date): int {
    d.year * 12 + d.month - 1
  }

  /** date-fns `addMonths`: the same day `k` months later (earlier for negative `k`),
      clamped to the last day of a shorter target month. */
  function AddMonths(d: Date, k: int): (r: Date)
    requires IsValid(d)
    ensures IsValid(r)
    ensures MonthIndex(r) == MonthIndex(d) + k
    ensures r.day == d.day || (r.day < d.day && r.day == DaysInMonth(r.year, r.month))
  {
    var i := MonthIndex(d) + k;
    var y, m := i / 12, i % 12 + 1;
    var last := DaysInMonth(y, m);
    Date(y, m, if d.day <= last then d.day else last)
  }

  /** Going forward and then back by the same number of months returns to the
      starting month, and to the same day whenever that day exists on the way. */
  lemma AddMonthsRoundTrip(d: Date, k: int)
    requires IsValid(d)
    requires d.day <= 28
    ensures AddMonths(AddMonths(d, k), -k) == d
  {
    var r := AddMonths(AddMonths(d, k), -k);
    assert MonthIndex(r) == MonthIndex(d);
    assert r.year == d.year by {
      assert r.year * 12 + r.month - 1 == d.year * 12 + d.month - 1;
    }
  }

  /** Two fixed points of the weekday numbering: 1 March 2024 was a Friday and
      1 January 1970 a Thursday. */
  lemma WeekdayAnchors()
    ensures Weekday(Date(2024, 3, 1)) == 5
    ensures Weekday(Date(1970, 1, 1)) == 4
  {
    LeapYearsClosedForm(2024);
    assert LeapYearsBefore(2024) == 490;
    LeapYearsClosedForm(1970);
    assert LeapYearsBefore(1970) == 477;
    assert DayNumber(Date(2024, 3, 1)) == 738945;
    assert DayNumber(Date(1970, 1, 1)) == 719162;
  }
}
