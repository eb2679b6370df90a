/** The pure part of the month view (App.jsx): the grid of days shown for the
    reference date, the events binned onto each day, the events of the
    reference month and the month summary line. */
module MonthView {
  import opened Wrappers
  import opened Dates
  import opened DateFormat
  import opened Events

  /** The days of the month view: from the Sunday on or before the first of the
      reference month to the Saturday on or after its last day, one day at a time
      (GridShape proves the days consecutive). */
  function CalendarDays(ref: Date): (days: seq<Date>)
    requires IsValid(ref)
    ensures |days| >= 1
    ensures days[0] == StartOfWeek(StartOfMonth(ref)) && days[|days| - 1] == EndOfWeek(EndOfMonth(ref))
    ensures |days| == DayNumber(days[|days| - 1]) - DayNumber(days[0]) + 1
  {
    var monthStart := StartOfMonth(ref);
    var monthEnd := EndOfMonth(ref);
    var calendarStart := StartOfWeek(monthStart);
    var calendarEnd := EndOfWeek(monthEnd);
    WeeksAroundMonthOrdered(monthStart, monthEnd);
    EachDayOfInterval(calendarStart, calendarEnd)
  }

  lemma WeeksAroundMonthOrdered(monthStart: Date, monthEnd: Date)
    requires IsValid(monthStart) && IsValid(monthEnd) && DayNumber(monthStart) <= DayNumber(monthEnd)
    ensures DayNumber(StartOfWeek(monthStart)) <= DayNumber(EndOfWeek(monthEnd))
  {
  }

  function IsOnDay(d: Date): Event -> bool {
    (e: Event) => ParseDate(e.date) == Some(d)
  }

  /** The events of one day: `events.filter(event => isSameDay(parseISO(event.date), day))`. */
  function DayEvents(events: seq<Event>, d: Date): (r: seq<Event>)
    ensures forall e :: e in r <==> e in events && ParseDate(e.date) == Some(d)
  {
    Filter(events, IsOnDay(d))
  }

  function IsInMonth(ref: Date): Event -> bool {
    (e: Event) => ParseDate(e.date).Some? && IsSameMonth(ParseDate(e.date).value, ref)
  }

  /** The events of the reference month: `events.filter(event => isSameMonth(parseISO(event.date), currentDate))`. */
  function MonthEvents(events: seq<Event>, ref: Date): (r: seq<Event>)
    ensures forall e :: e in r <==> e in events && ParseDate(e.date).Some?
                                    && IsSameMonth(ParseDate(e.date).value, ref)
  {
    Filter(events, IsInMonth(ref))
  }

  /** The summary line under the header: the month's event count in digits, then
      " events this month", or " event this month" for exactly one. */
  function MonthSummary(events: seq<Event>, ref: Date): (s: string)
    ensures var n := |MonthEvents(events, ref)|;
      var digits := |Decimal(n)|;
      && digits < |s| && AllDigits(s[..digits]) && DigitsValue(s[..digits]) == n
      && (s[digits..] == " events this month" <==> n != 1)
      && (s[digits..] == " event this month" <==> n == 1)
  {
    var n := |MonthEvents(events, ref)|;
    var d := Decimal(n);
    var tail := if n != 1 then " events this month" else " event this month";
    var s := d + tail;
    assert s[..|d|] == d && s[|d|..] == tail;
    assert |" events this month"| != |" event this month"|;
    s
  }

  // ---------------------------------------------------------------------------
  // Shape of the grid

  /** The grid is whole weeks, Sunday to Saturday, four to six of them, of
      consecutive and therefore distinct days. */
  lemma GridShape(ref: Date)
    requires IsValid(ref)
    ensures var days := CalendarDays(ref);
      && |days| % 7 == 0 && 28 <= |days| <= 42
      && Weekday(days[0]) == 0 && Weekday(days[|days| - 1]) == 6
      && (forall i :: 0 <= i < |days| - 1 ==> days[i + 1] == NextDay(days[i]))
      && (forall i, j :: 0 <= i < j < |days| ==> days[i] != days[j])
  {
    GridCount(ref);
    GridConsecutive(ref);
  }

  lemma GridCount(ref: Date)
    requires IsValid(ref)
    ensures var days := CalendarDays(ref); |days| % 7 == 0 && 28 <= |days| <= 42
  {
    GridSpan(ref);
    MonthEndWeekday(ref);
    WeekArith(|CalendarDays(ref)|, Weekday(StartOfMonth(ref)), DaysInMonth(ref.year, ref.month),
              Weekday(EndOfMonth(ref)));
  }

  /** The grid's length: the leading days, the month and the trailing days. */
  lemma GridSpan(ref: Date)
    requires IsValid(ref)
    ensures |CalendarDays(ref)| == Weekday(StartOfMonth(ref)) + DaysInMonth(ref.year, ref.month)
                                   + 6 - Weekday(EndOfMonth(ref))
  {
  }

  /** The weekday of a month's last day follows from that of its first day. */
  lemma MonthEndWeekday(ref: Date)
    requires IsValid(ref)
    ensures Weekday(EndOfMonth(ref)) == (Weekday(StartOfMonth(ref)) + DaysInMonth(ref.year, ref.month) - 1) % 7
  {
    ModShift(DayNumber(StartOfMonth(ref)) + 1, DaysInMonth(ref.year, ref.month) - 1);
  }

  lemma ModShift(x: int, k: int)
    ensures (x + k) % 7 == (x % 7 + k) % 7
  {
    var q := x / 7;
    assert x == 7 * q + x % 7;
    assert x + k == 7 * q + (x % 7 + k);
  }

  /** Leading days, a month of 28 to 31 days and trailing days make four to six weeks. */
  lemma WeekArith(n: int, lead: int, len: int, trail: int)
    requires 0 <= lead < 7 && 28 <= len <= 31
    requires trail == (lead + len - 1) % 7
    requires n == lead + len + 6 - trail
    ensures n % 7 == 0 && 28 <= n <= 42
  {
  }

  lemma GridConsecutive(ref: Date)
    requires IsValid(ref)
    ensures var days := CalendarDays(ref);
      forall i :: 0 <= i < |days| - 1 ==> days[i + 1] == NextDay(days[i])
  {
    var days := CalendarDays(ref);
    forall i | 0 <= i < |days| - 1
      ensures days[i + 1] == NextDay(days[i])
    {
      DayNumberInjective(days[i + 1], NextDay(days[i]));
    }
  }

  /** Exactly the valid dates between the grid's first and last day are in the grid. */
  lemma GridIsInterval(ref: Date, d: Date)
    requires IsValid(ref) && IsValid(d)
    ensures var days := CalendarDays(ref);
      d in days <==> DayNumber(days[0]) <= DayNumber(d) <= DayNumber(days[|days| - 1])
  {
    var days := CalendarDays(ref);
    var i := DayNumber(d) - DayNumber(days[0]);
    if 0 <= i < |days| {
      DayNumberInjective(d, days[i]);
    }
  }

  /** Every day of the reference month is in the grid, as one contiguous run after
      the leading days of the previous month, and `isCurrentMonth` holds for exactly
      those cells. */
  lemma GridCoversMonth(ref: Date)
    requires IsValid(ref)
    ensures var days := CalendarDays(ref);
      var lead := Weekday(StartOfMonth(ref));
      var len := DaysInMonth(ref.year, ref.month);
      && lead + len <= |days|
      && (forall k :: 1 <= k <= len ==> days[lead + k - 1] == Date(ref.year, ref.month, k))
      && (forall i :: 0 <= i < |days| ==> (IsSameMonth(days[i], ref) <==> lead <= i < lead + len))
  {
    MonthRun(ref);
    MonthFlags(ref);
  }

  /** The `i`-th cell of the grid is `i` days after its first. */
  lemma GridDay(ref: Date, i: int)
    requires IsValid(ref) && 0 <= i < |CalendarDays(ref)|
    ensures var days := CalendarDays(ref);
      IsValid(days[i]) && DayNumber(days[i]) == DayNumber(StartOfMonth(ref)) - Weekday(StartOfMonth(ref)) + i
  {
  }

  /** The cell `lead + k - 1` holds day `k` of the month. */
  lemma MonthDayCell(ref: Date, k: int)
    requires IsValid(ref) && 1 <= k <= DaysInMonth(ref.year, ref.month)
    ensures var i := Weekday(StartOfMonth(ref)) + k - 1;
      i < |CalendarDays(ref)| && CalendarDays(ref)[i] == Date(ref.year, ref.month, k)
  {
    var i := Weekday(StartOfMonth(ref)) + k - 1;
    var d := Date(ref.year, ref.month, k);
    GridSpan(ref);
    GridDay(ref, i);
    SameMonthDayNumber(d, StartOfMonth(ref));
    DayNumberInjective(CalendarDays(ref)[i], d);
  }

  /** The month's days sit, in order, right after the leading days. */
  lemma MonthRun(ref: Date)
    requires IsValid(ref)
    ensures var days := CalendarDays(ref);
      var lead := Weekday(StartOfMonth(ref));
      var len := DaysInMonth(ref.year, ref.month);
      && lead + len <= |days|
      && (forall k :: 1 <= k <= len ==> days[lead + k - 1] == Date(ref.year, ref.month, k))
  {
    GridSpan(ref);
    forall k | 1 <= k <= DaysInMonth(ref.year, ref.month)
      ensures CalendarDays(ref)[Weekday(StartOfMonth(ref)) + k - 1] == Date(ref.year, ref.month, k)
    {
      MonthDayCell(ref, k);
    }
  }

  /** A cell is in the reference month exactly when it lies in the month's run. */
  lemma MonthFlagAt(ref: Date, i: int)
    requires IsValid(ref) && 0 <= i < |CalendarDays(ref)|
    ensures var lead := Weekday(StartOfMonth(ref));
      IsSameMonth(CalendarDays(ref)[i], ref) <==> lead <= i < lead + DaysInMonth(ref.year, ref.month)
  {
    var lead := Weekday(StartOfMonth(ref));
    if IsSameMonth(CalendarDays(ref)[i], ref) {
      SameMonthCellInRun(ref, i);
    }
    if lead <= i < lead + DaysInMonth(ref.year, ref.month) {
      MonthDayCell(ref, i - lead + 1);
    }
  }

  lemma SameMonthCellInRun(ref: Date, i: int)
    requires IsValid(ref) && 0 <= i < |CalendarDays(ref)| && IsSameMonth(CalendarDays(ref)[i], ref)
    ensures var lead := Weekday(StartOfMonth(ref));
      lead <= i < lead + DaysInMonth(ref.year, ref.month)
  {
    var d := CalendarDays(ref)[i];
    GridDay(ref, i);
    SameMonthDayNumber(d, StartOfMonth(ref));
  }

  /** `isSameMonth` holds for exactly the cells of the month's run. */
  lemma MonthFlags(ref: Date)
    requires IsValid(ref)
    ensures var days := CalendarDays(ref);
      var lead := Weekday(StartOfMonth(ref));
      var len := DaysInMonth(ref.year, ref.month);
      forall i :: 0 <= i < |days| ==> (IsSameMonth(days[i], ref) <==> lead <= i < lead + len)
  {
    forall i | 0 <= i < |CalendarDays(ref)|
      ensures IsSameMonth(CalendarDays(ref)[i], ref)
              <==> Weekday(StartOfMonth(ref)) <= i < Weekday(StartOfMonth(ref)) + DaysInMonth(ref.year, ref.month)
    {
      MonthFlagAt(ref, i);
    }
  }

  // ---------------------------------------------------------------------------
  // Events on the grid

  /** A day's list keeps the store's order. */
  lemma DayEventsKeepOrder(a: seq<Event>, b: seq<Event>, d: Date)
    ensures DayEvents(a + b, d) == DayEvents(a, d) + DayEvents(b, d)
  {
    FilterAppend(a, b, IsOnDay(d));
  }

  /** The month's list keeps the store's order. */
  lemma MonthEventsKeepOrder(a: seq<Event>, b: seq<Event>, ref: Date)
    ensures MonthEvents(a + b, ref) == MonthEvents(a, ref) + MonthEvents(b, ref)
  {
    FilterAppend(a, b, IsInMonth(ref));
  }

  /** An event appended to the store shows up at the end of its day's list. */
  lemma AddedEventOnItsDay(events: seq<Event>, e: Event, d: Date)
    requires ParseDate(e.date) == Some(d)
    ensures DayEvents(events + [e], d) == DayEvents(events, d) + [e]
  {
    DayEventsKeepOrder(events, [e], d);
    assert [e][1..] == [];
  }

  /** An event whose date is a grid day is in exactly one cell of the grid; any
      other event is in none. */
  lemma EventInOneCell(events: seq<Event>, ref: Date, e: Event)
    requires IsValid(ref) && e in events && ParseDate(e.date).Some?
    ensures var days := CalendarDays(ref);
      |set k | 0 <= k < |days| && e in DayEvents(events, days[k])|
        == if ParseDate(e.date).value in days then 1 else 0
  {
    var days := CalendarDays(ref);
    GridShape(ref);
    CellsOfEvent(events, days, e);
    PositionsOfDistinct(days, ParseDate(e.date).value);
  }

  /** The cells listing an event are the positions of its day. */
  lemma CellsOfEvent(events: seq<Event>, days: seq<Date>, e: Event)
    requires e in events && ParseDate(e.date).Some?
    ensures (set k | 0 <= k < |days| && e in DayEvents(events, days[k]))
         == (set k | 0 <= k < |days| && days[k] == ParseDate(e.date).value)
  {
  }

  /** In a sequence without repetitions a value occurs at one position or at none. */
  lemma PositionsOfDistinct(days: seq<Date>, d: Date)
    requires forall i, j :: 0 <= i < j < |days| ==> days[i] != days[j]
    ensures |set k | 0 <= k < |days| && days[k] == d| == if d in days then 1 else 0
  {
    var positions := set k | 0 <= k < |days| && days[k] == d;
    if d in days {
      var k0 :| 0 <= k0 < |days| && days[k0] == d;
      assert positions == {k0};
    } else {
      assert positions == {};
    }
  }

  /** Every event of the reference month is shown in a cell of that month. */
  lemma MonthEventInMonthCell(events: seq<Event>, ref: Date, e: Event)
    requires IsValid(ref) && e in MonthEvents(events, ref)
    ensures var days := CalendarDays(ref);
      exists k :: Weekday(StartOfMonth(ref)) <= k < Weekday(StartOfMonth(ref)) + DaysInMonth(ref.year, ref.month)
                  && e in DayEvents(events, days[k])
  {
    var days := CalendarDays(ref);
    var d := ParseDate(e.date).value;
    GridCoversMonth(ref);
    var k := Weekday(StartOfMonth(ref)) + d.day - 1;
    assert days[k] == d;
  }

  /** After moving the event `id` to the date written for day `d`, the events with
      that id are on day `d` and every other event stays on its day. */
  lemma MovedEventsChangeDay(events: seq<Event>, id: string, d: Date)
    requires IsValid(d) && 1 <= d.year <= 9999
    ensures var moved := MoveEvent(events, id, FormatDate(d));
      forall i :: 0 <= i < |events| ==>
        ParseDate(moved[i].date) == if events[i].id == id then Some(d) else ParseDate(events[i].date)
  {
    ParseFormatDate(d);
  }
}
