/** The calendar page's state and handlers (App.jsx): the reference month, the
    selected day, the event store, the two modal flags and the event being
    edited, each handler replacing some of them. */
module CalendarApp {
  import opened Wrappers
  import opened Dates
  import opened DateFormat
  import opened Events
  import opened MonthView

  /** The new store `handleSaveEvent` computes: the edited event's id replaced by the
      record when editing, the record appended otherwise. */
  function SaveEvent(events: seq<Event>, editing: Option<Event>, event: Event): (r: seq<Event>)
    ensures editing.None? ==> |r| == |events| + 1 && r[..|events|] == events && r[|events|] == event
    ensures editing.Some? ==>
      && |r| == |events|
      && forall i :: 0 <= i < |events| ==> r[i] == if events[i].id == editing.value.id then event else events[i]
  {
    match editing
    case None => events + [event]
    case Some(e) => ReplaceEvent(events, e.id, event)
  }

  /** What App.jsx passes to one `<Day>`: its date, `isCurrentMonth`, `isToday`,
      `isSelected` and its events. */
  datatype CellProps = CellProps(date: Date, isCurrentMonth: bool, isToday: bool, isSelected: bool,
                                 events: seq<Event>)

  class App {
    var currentDate: Date
    var selectedDate: Option<Date>
    var events: seq<Event>
    var showEventForm: bool
    var showEventList: bool
    var editingEvent: Option<Event>

    /** The dates held are real calendar dates. */
    predicate Valid()
      reads this
    {
      IsValid(currentDate) && (selectedDate.Some? ==> IsValid(selectedDate.value))
    }

    /** The initial state: today's month, nothing selected, an empty store, no modal open. */
    constructor(today: Date)
      requires IsValid(today)
      ensures Valid()
      ensures currentDate == today && selectedDate == None && events == []
      ensures !showEventForm && !showEventList && editingEvent == None
    {
      currentDate := today;
      selectedDate := None;
      events := [];
      showEventForm := false;
      showEventList := false;
      editingEvent := None;
    }

    // ---------------------------------------------------------------------------
    // What the page shows

    /** The props of each `<Day>` of the grid, in grid order. `today` is the clock's
        date when the page renders. */
    function Cells(today: Date): (cells: seq<CellProps>)
      requires Valid()
      reads this
      ensures var days := CalendarDays(currentDate);
        && |cells| == |days|
        && forall i :: 0 <= i < |days| ==>
             cells[i] == CellProps(days[i], IsSameMonth(days[i], currentDate), days[i] == today,
                                   selectedDate == Some(days[i]), DayEvents(events, days[i]))
    {
      var days := CalendarDays(currentDate);
      seq(|days|, i requires 0 <= i < |days| reads this =>
        CellProps(days[i], IsSameMonth(days[i], currentDate), days[i] == today,
                  selectedDate == Some(days[i]), DayEvents(events, days[i])))
    }

    /** The events the list modal shows: those of the selected day, when the modal is open. */
    function ListedEvents(): (r: Option<seq<Event>>)
      reads this
      ensures r.Some? <==> showEventList && selectedDate.Some?
      ensures r.Some? ==> forall e :: e in r.value <==> e in events && ParseDate(e.date) == selectedDate
    {
      if showEventList && selectedDate.Some? then Some(DayEvents(events, selectedDate.value)) else None
    }

    // ---------------------------------------------------------------------------
    // Handlers

    /** `prevMonth`: the same day one month back, clamped to the month's length. */
    method PrevMonth()
      requires Valid()
      modifies this
      ensures Valid() && currentDate == AddMonths(old(currentDate), -1)
      ensures selectedDate == old(selectedDate) && events == old(events) && editingEvent == old(editingEvent)
      ensures showEventForm == old(showEventForm) && showEventList == old(showEventList)
    {
      currentDate := AddMonths(currentDate, -1);
    }

    /** `nextMonth`: the same day one month on, clamped to the month's length. */
    method NextMonth()
      requires Valid()
      modifies this
      ensures Valid() && currentDate == AddMonths(old(currentDate), 1)
      ensures selectedDate == old(selectedDate) && events == old(events) && editingEvent == old(editingEvent)
      ensures showEventForm == old(showEventForm) && showEventList == old(showEventList)
    {
      currentDate := AddMonths(currentDate, 1);
    }

    /** `handleDayClick`: select the day and open its event list. */
    method HandleDayClick(date: Date)
      requires Valid() && IsValid(date)
      modifies this
      ensures Valid() && selectedDate == Some(date) && showEventList
      ensures currentDate == old(currentDate) && events == old(events) && editingEvent == old(editingEvent)
      ensures showEventForm == old(showEventForm)
    {
      selectedDate := Some(date);
      showEventList := true;
    }

    /** `handleAddEvent`: open the form for a new event. */
    method HandleAddEvent()
      requires Valid()
      modifies this
      ensures Valid() && editingEvent == None && showEventForm
      ensures currentDate == old(currentDate) && selectedDate == old(selectedDate) && events == old(events)
      ensures showEventList == old(showEventList)
    {
      editingEvent := None;
      showEventForm := true;
    }

    /** `handleEditEvent`: open the form on an existing event. */
    method HandleEditEvent(event: Event)
      requires Valid()
      modifies this
      ensures Valid() && editingEvent == Some(event) && showEventForm
      ensures currentDate == old(currentDate) && selectedDate == old(selectedDate) && events == old(events)
      ensures showEventList == old(showEventList)
    {
      editingEvent := Some(event);
      showEventForm := true;
    }

    /** `handleDeleteEvent`: drop every event with the id. */
    method HandleDeleteEvent(eventId: string)
      requires Valid()
      modifies this
      ensures Valid() && events == DeleteEvent(old(events), eventId)
      ensures currentDate == old(currentDate) && selectedDate == old(selectedDate)
      ensures editingEvent == old(editingEvent)
      ensures showEventForm == old(showEventForm) && showEventList == old(showEventList)
    {
      events := DeleteEvent(events, eventId);
    }

    /** `handleSaveEvent`: replace or append the record, then close the form. The
        event being edited is left as it was. */
    method HandleSaveEvent(event: Event)
      requires Valid()
      modifies this
      ensures Valid() && events == SaveEvent(old(events), old(editingEvent), event) && !showEventForm
      ensures currentDate == old(currentDate) && selectedDate == old(selectedDate)
      ensures editingEvent == old(editingEvent) && showEventList == old(showEventList)
    {
      events := SaveEvent(events, editingEvent, event);
      showEventForm := false;
    }

    /** `handleMoveEvent`: give every event with the id the new date. */
    method HandleMoveEvent(eventId: string, newDate: string)
      requires Valid()
      modifies this
      ensures Valid() && events == MoveEvent(old(events), eventId, newDate)
      ensures currentDate == old(currentDate) && selectedDate == old(selectedDate)
      ensures editingEvent == old(editingEvent)
      ensures showEventForm == old(showEventForm) && showEventList == old(showEventList)
    {
      events := MoveEvent(events, eventId, newDate);
    }

    /** The form's `onClose`. */
    method CloseEventForm()
      requires Valid()
      modifies this
      ensures Valid() && !showEventForm
      ensures currentDate == old(currentDate) && selectedDate == old(selectedDate) && events == old(events)
      ensures editingEvent == old(editingEvent) && showEventList == old(showEventList)
    {
      showEventForm := false;
    }

    /** The list's `onClose`. */
    method CloseEventList()
      requires Valid()
      modifies this
      ensures Valid() && !showEventList
      ensures currentDate == old(currentDate) && selectedDate == old(selectedDate) && events == old(events)
      ensures editingEvent == old(editingEvent) && showEventForm == old(showEventForm)
    {
      showEventList := false;
    }
  }

  // ---------------------------------------------------------------------------
  // Lemmas

  /** At most one cell is highlighted as selected and at most one as today; a
      selected or current day inside the grid is highlighted in exactly one cell. */
  lemma OneSelectedCell(app: App, today: Date)
    requires app.Valid()
    ensures var cells := app.Cells(today); var days := CalendarDays(app.currentDate);
      && (forall i, j :: 0 <= i < j < |cells| ==> !(cells[i].isSelected && cells[j].isSelected))
      && (forall i, j :: 0 <= i < j < |cells| ==> !(cells[i].isToday && cells[j].isToday))
      && (app.selectedDate.Some? && app.selectedDate.value in days ==> exists i :: 0 <= i < |cells| && cells[i].isSelected)
      && (today in days ==> exists i :: 0 <= i < |cells| && cells[i].isToday)
  {
    SelectionUnique(app, today);
    SelectionShown(app, today);
  }

  lemma SelectionUnique(app: App, today: Date)
    requires app.Valid()
    ensures var cells := app.Cells(today);
      && (forall i, j :: 0 <= i < j < |cells| ==> !(cells[i].isSelected && cells[j].isSelected))
      && (forall i, j :: 0 <= i < j < |cells| ==> !(cells[i].isToday && cells[j].isToday))
  {
    GridShape(app.currentDate);
  }

  lemma SelectionShown(app: App, today: Date)
    requires app.Valid()
    ensures var cells := app.Cells(today); var days := CalendarDays(app.currentDate);
      && (app.selectedDate.Some? && app.selectedDate.value in days ==> exists i :: 0 <= i < |cells| && cells[i].isSelected)
      && (today in days ==> exists i :: 0 <= i < |cells| && cells[i].isToday)
  {
    var cells := app.Cells(today);
    var days := CalendarDays(app.currentDate);
    if app.selectedDate.Some? && app.selectedDate.value in days {
      var k :| 0 <= k < |days| && days[k] == app.selectedDate.value;
      assert cells[k].isSelected;
    }
    if today in days {
      var k :| 0 <= k < |days| && days[k] == today;
      assert cells[k].isToday;
    }
  }

  /** Adding keeps every earlier event where it was and puts the new one last in its
      day's list. */
  lemma AddAppendsToDay(events: seq<Event>, event: Event, d: Date)
    requires ParseDate(event.date) == Some(d)
    ensures SaveEvent(events, None, event)[..|events|] == events
    ensures DayEvents(SaveEvent(events, None, event), d) == DayEvents(events, d) + [event]
  {
    AddedEventOnItsDay(events, event, d);
  }

  /** Saving an edit whose record keeps the edited id touches only the events with that id. */
  lemma EditTouchesOnlyId(events: seq<Event>, editing: Event, event: Event)
    requires event.id == editing.id
    ensures DeleteEvent(SaveEvent(events, Some(editing), event), editing.id) == DeleteEvent(events, editing.id)
  {
    ReplaceTouchesOnlyId(events, editing.id, event);
  }

  /** Saving an edit of an event no longer in the store changes nothing. */
  lemma EditOfRemovedEventIsNoOp(events: seq<Event>, editing: Event, event: Event)
    requires forall e :: e in events ==> e.id != editing.id
    ensures SaveEvent(events, Some(editing), event) == events
  {
    UnknownIdIsNoOp(events, editing.id, event, "");
  }

  /** A month back then a month on returns to the reference date when its day exists
      in every month. */
  lemma PrevThenNextMonth(d: Date)
    requires IsValid(d) && d.day <= 28
    ensures AddMonths(AddMonths(d, -1), 1) == d
    ensures AddMonths(AddMonths(d, 1), -1) == d
  {
    AddMonthsRoundTrip(d, -1);
    AddMonthsRoundTrip(d, 1);
  }

  /** The first example: saving a new record dated 15 March 2024 into an empty store
      makes it the only event of March 2024. */
  lemma StandupExample(id: string)
    ensures var standup := Event(id, FormatDate(Date(2024, 3, 15)), "Standup", "09:00", "09:15", Some(""), "bg-blue-100");
      MonthEvents(SaveEvent([], None, standup), Date(2024, 3, 1)) == [standup]
  {
    var standup := Event(id, FormatDate(Date(2024, 3, 15)), "Standup", "09:00", "09:15", Some(""), "bg-blue-100");
    ParseFormatDate(Date(2024, 3, 15));
    assert standup in MonthEvents([standup], Date(2024, 3, 1));
  }

  /** Moving the one event of another day onto a day that already holds two events
      leaves three events on that day and none on the other. */
  lemma MoveOntoBusyDay(a: Event, b: Event, c: Event, d: Date, other: Date)
    requires IsValid(d) && 1 <= d.year <= 9999 && other != d
    requires ParseDate(a.date) == Some(d) && ParseDate(b.date) == Some(d)
    requires ParseDate(c.date) == Some(other)
    requires c.id != a.id && c.id != b.id
    ensures var moved := MoveEvent([a, b, c], c.id, FormatDate(d));
      |DayEvents(moved, d)| == 3 && |DayEvents(moved, other)| == 0
  {
    var moved := MoveEvent([a, b, c], c.id, FormatDate(d));
    MovedAllOnDay(a, b, c, d);
    FilterUnchanged(moved, IsOnDay(d));
    FilterNone(moved, IsOnDay(other));
  }

  lemma MovedAllOnDay(a: Event, b: Event, c: Event, d: Date)
    requires IsValid(d) && 1 <= d.year <= 9999
    requires ParseDate(a.date) == Some(d) && ParseDate(b.date) == Some(d)
    ensures var moved := MoveEvent([a, b, c], c.id, FormatDate(d));
      |moved| == 3 && forall e :: e in moved ==> ParseDate(e.date) == Some(d)
  {
    var moved := MoveEvent([a, b, c], c.id, FormatDate(d));
    MovedEventsChangeDay([a, b, c], c.id, d);
    assert moved == [moved[0], moved[1], moved[2]];
  }

  /** The second example: two events on 15 March 2024 and one on the 16th; moving the
      latter to the 15th leaves three events on the 15th and none on the 16th. */
  lemma MoveExample(a: Event, b: Event, c: Event)
    requires ParseDate(a.date) == Some(Date(2024, 3, 15)) && ParseDate(b.date) == Some(Date(2024, 3, 15))
    requires ParseDate(c.date) == Some(Date(2024, 3, 16))
    requires c.id != a.id && c.id != b.id
    ensures var moved := MoveEvent([a, b, c], c.id, FormatDate(Date(2024, 3, 15)));
      |DayEvents(moved, Date(2024, 3, 15))| == 3 && |DayEvents(moved, Date(2024, 3, 16))| == 0
  {
    MoveOntoBusyDay(a, b, c, Date(2024, 3, 15), Date(2024, 3, 16));
  }
}
