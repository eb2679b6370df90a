/** One cell of the month grid (Day.jsx): the decision taken when an event is
    dropped on the cell, and what the cell shows of its events. */
module DayCell {
  import opened Wrappers
  import opened Dates
  import opened DateFormat
  import opened Events

  /** The payload a dragged event carries: its id and stored date. */
  datatype DragItem = DragItem(id: string, date: string)

  /** The call `onMoveEvent(eventId, newDate)`. */
  datatype MoveRequest = MoveRequest(eventId: string, newDate: string)

  /** The drop handler: a move to the cell's `yyyy-MM-dd` date, unless the dragged
      event's date already equals it. */
  function Drop(item: DragItem, cell: Date): (r: Option<MoveRequest>)
    requires IsValid(cell)
    ensures r.Some? <==> item.date != FormatDate(cell)
    ensures r.Some? ==> r.value == MoveRequest(item.id, FormatDate(cell))
  {
    var target := FormatDate(cell);
    if item.date != target then Some(MoveRequest(item.id, target)) else None
  }

  /** The store's reaction to an optional move request. */
  function ApplyDrop(events: seq<Event>, request: Option<MoveRequest>): (r: seq<Event>)
    ensures request.None? ==> r == events
    ensures |r| == |events|
    ensures request.Some? ==> forall i :: 0 <= i < |events| ==>
      r[i] == if events[i].id == request.value.eventId then events[i].(date := request.value.newDate) else events[i]
  {
    match request
    case None => events
    case Some(MoveRequest(id, newDate)) => MoveEvent(events, id, newDate)
  }

  /** What a cell shows: the events listed on wide screens, the "+N more" count
      and the count badge on narrow screens. */
  datatype CellView = CellView(shown: seq<Event>, more: Option<nat>, badge: Option<nat>)

  function View(events: seq<Event>): (v: CellView)
    ensures |v.shown| <= 1 && v.shown <= events
    ensures v.shown == [] <==> events == []
    ensures v.more.Some? <==> |events| > 1
    ensures v.more.Some? ==> v.more.value == |events| - 1
    ensures v.badge.Some? <==> |events| > 0
    ensures v.badge.Some? ==> v.badge.value == |events|
  {
    CellView(
      if |events| > 0 then events[..1] else events,
      if |events| > 1 then Some(|events| - 1) else None,
      if |events| > 0 then Some(|events|) else None)
  }

  /** The text of the overflow line: a plus sign, the count in digits, " more". */
  function MoreText(n: nat): (s: string)
    ensures |s| >= 7 && s[0] == '+' && s[|s| - 5..] == " more"
    ensures AllDigits(s[1..|s| - 5]) && DigitsValue(s[1..|s| - 5]) == n
  {
    var s := "+" + Decimal(n) + " more";
    assert s[1..|s| - 5] == Decimal(n);
    s
  }

  /** The day number in the corner: `format(date, 'd')`, the day without padding,
      so one digit for days 1 to 9 and never a leading zero. */
  function DayLabel(d: Date): (s: string)
    requires IsValid(d)
    ensures 1 <= |s| <= 2 && AllDigits(s) && DigitsValue(s) == d.day
    ensures |s| == 1 <==> d.day < 10
    ensures s[0] != '0'
  {
    DecimalLength(d.day, 2);
    Decimal(d.day)
  }

  // ---------------------------------------------------------------------------
  // Lemmas

  /** Between them the listed event and the overflow count account for every event. */
  lemma ViewAccountsForAll(events: seq<Event>)
    ensures var v := View(events); |v.shown| + v.more.GetOr(0) == |events|
    ensures var v := View(events); v.badge.GetOr(0) == |events|
  {
  }

  /** The overflow line names the events the cell does not list: its number plus the
      listed event is the whole count. */
  lemma OverflowLineCountsHidden(events: seq<Event>)
    requires |events| > 1
    ensures var v := View(events); var t := MoreText(v.more.value);
      DigitsValue(t[1..|t| - 5]) + |v.shown| == |events|
  {
  }

  /** Dropping an event on the cell it is already dated on changes nothing. */
  lemma DropOnOwnDay(events: seq<Event>, item: DragItem, cell: Date)
    requires IsValid(cell) && item.date == FormatDate(cell)
    ensures Drop(item, cell) == None
    ensures ApplyDrop(events, Drop(item, cell)) == events
  {
  }

  /** The skipped move would not have changed the store either, when the dragged
      event's stored date is the one every event with its id carries. */
  lemma SkippedMoveIsNoOp(events: seq<Event>, item: DragItem, cell: Date)
    requires IsValid(cell) && item.date == FormatDate(cell)
    requires forall e :: e in events && e.id == item.id ==> e.date == item.date
    ensures MoveEvent(events, item.id, FormatDate(cell)) == events
  {
    var moved := MoveEvent(events, item.id, FormatDate(cell));
    forall i | 0 <= i < |events|
      ensures moved[i] == events[i]
    {
      assert events[i] in events;
    }
  }

  /** After a drop on a cell of years 1 to 9999 the events with the dragged id are
      on that cell's day and every other event is untouched. The payload carries the
      dragged event's stored date, the one every event with that id has. */
  lemma DropMovesToCell(events: seq<Event>, item: DragItem, cell: Date)
    requires IsValid(cell) && 1 <= cell.year <= 9999
    requires forall e :: e in events && e.id == item.id ==> e.date == item.date
    ensures var after := ApplyDrop(events, Drop(item, cell));
      && |after| == |events|
      && forall i :: 0 <= i < |events| ==>
           && (events[i].id == item.id ==> ParseDate(after[i].date) == Some(cell))
           && (events[i].id != item.id ==> after[i] == events[i])
  {
    ParseFormatDate(cell);
    if item.date == FormatDate(cell) {
      forall i | 0 <= i < |events| && events[i].id == item.id
        ensures events[i].date == FormatDate(cell)
      {
        assert events[i] in events;
      }
    }
  }
}
