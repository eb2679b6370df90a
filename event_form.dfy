/** The add/edit form (EventForm.jsx): five field states, the effect that loads
    them from the event being edited or resets them, the colour palette, and
    the record `handleSubmit` builds. */
module EventFormModel {
  import opened Wrappers
  import opened Dates
  import opened DateFormat
  import opened Events

  datatype ColorOption = ColorOption(value: string, caption: string, textColor: string)

  /** `colorOptions`: the five colours the form offers, the first being the default. */
  const COLOR_OPTIONS: seq<ColorOption> := [
    ColorOption("bg-red-100", "Red", "text-red-800"),
    ColorOption("bg-blue-100", "Blue", "text-blue-800"),
    ColorOption("bg-green-100", "Green", "text-green-800"),
    ColorOption("bg-yellow-100", "Yellow", "text-yellow-800"),
    ColorOption("bg-purple-100", "Purple", "text-purple-800")
  ]

  predicate InPalette(color: string) {
    exists i :: 0 <= i < |COLOR_OPTIONS| && COLOR_OPTIONS[i].value == color
  }

  /** The values of the form's five inputs. */
  datatype Fields = Fields(name: string, startTime: string, endTime: string, description: string, color: string)

  /** The `useState` initialisers: `event?.field || ''`, and the first palette colour
      when there is no event or its colour is empty. */
  function InitialFields(event: Option<Event>): (f: Fields)
    ensures event.None? ==> f == Fields("", "", "", "", "bg-red-100")
    ensures event.Some? ==>
      && f.name == event.value.name && f.startTime == event.value.startTime
      && f.endTime == event.value.endTime && f.description == event.value.description.GetOr("")
      && f.color == (if event.value.color == "" then "bg-red-100" else event.value.color)
  {
    match event
    case None => Fields("", "", "", "", COLOR_OPTIONS[0].value)
    case Some(e) =>
      Fields(e.name, e.startTime, e.endTime, e.description.GetOr(""),
             if e.color != "" then e.color else COLOR_OPTIONS[0].value)
  }

  /** What the effect on `[event]` sets: the edited event's fields (a missing
      description as ''), or every field cleared and the first palette colour. */
  function LoadedFields(event: Option<Event>): (f: Fields)
    ensures event.None? ==> f == Fields("", "", "", "", "bg-red-100")
    ensures event.Some? ==> f == Fields(event.value.name, event.value.startTime, event.value.endTime,
                                        event.value.description.GetOr(""), event.value.color)
  {
    match event
    case None => Fields("", "", "", "", COLOR_OPTIONS[0].value)
    case Some(e) => Fields(e.name, e.startTime, e.endTime, e.description.GetOr(""), e.color)
  }

  /** The browser's `required` check: the name and both times must be non-empty
      before the form submits, so a freshly reset form cannot be submitted. */
  function Submittable(f: Fields): (r: bool)
    ensures r ==> f != LoadedFields(None) && f != InitialFields(None)
  {
    f.name != "" && f.startTime != "" && f.endTime != ""
  }

  /** `event?.id || Date.now().toString()`: the edited event's id unless it is empty,
      otherwise the clock reading written in decimal. */
  function RecordId(event: Option<Event>, now: nat): (id: string)
    ensures event.Some? && event.value.id != "" ==> id == event.value.id
    ensures (event.None? || event.value.id == "") ==> AllDigits(id) && DigitsValue(id) == now
  {
    if event.Some? && event.value.id != "" then event.value.id else Decimal(now)
  }

  /** The record passed to `onSave`, or None when the browser refuses to submit. */
  function Submission(date: Date, event: Option<Event>, f: Fields, now: nat): (r: Option<Event>)
    requires IsValid(date)
    ensures r.None? <==> !Submittable(f)
    ensures r.Some? ==> r.value == Event(RecordId(event, now), FormatDate(date), f.name, f.startTime,
                                         f.endTime, Some(f.description), f.color)
  {
    if !Submittable(f) then None
    else Some(Event(RecordId(event, now), FormatDate(date), f.name, f.startTime, f.endTime,
                    Some(f.description), f.color))
  }

  class EventForm {
    /** The day the form was opened for (the `date` prop). */
    const date: Date
    /** The event being edited (the `event` prop), None when adding. */
    var event: Option<Event>
    var name: string
    var startTime: string
    var endTime: string
    var description: string
    var color: string

    function Current(): Fields
      reads this
    {
      Fields(name, startTime, endTime, description, color)
    }

    /** A new form holds the `useState` initial values. */
    constructor(date: Date, event: Option<Event>)
      requires IsValid(date)
      ensures this.date == date && this.event == event
      ensures Current() == InitialFields(event)
      ensures event.None? ==> InPalette(color)
    {
      this.date := date;
      this.event := event;
      var f := InitialFields(event);
      ResetColorInPalette();
      name, startTime, endTime, description, color := f.name, f.startTime, f.endTime, f.description, f.color;
    }

    /** The effect: runs after mounting and whenever the `event` prop changes. */
    method LoadEvent(e: Option<Event>)
      modifies this
      ensures event == e && Current() == LoadedFields(e)
      ensures e.None? ==> InPalette(color)
    {
      event := e;
      var f := LoadedFields(e);
      ResetColorInPalette();
      name, startTime, endTime, description, color := f.name, f.startTime, f.endTime, f.description, f.color;
    }

    method SetName(v: string)
      modifies this
      ensures event == old(event) && Current() == old(Current()).(name := v)
    {
      name := v;
    }

    method SetStartTime(v: string)
      modifies this
      ensures event == old(event) && Current() == old(Current()).(startTime := v)
    {
      startTime := v;
    }

    method SetEndTime(v: string)
      modifies this
      ensures event == old(event) && Current() == old(Current()).(endTime := v)
    {
      endTime := v;
    }

    method SetDescription(v: string)
      modifies this
      ensures event == old(event) && Current() == old(Current()).(description := v)
    {
      description := v;
    }

    /** A click on the i-th palette button. */
    method ChooseColor(i: nat)
      requires i < |COLOR_OPTIONS|
      modifies this
      ensures event == old(event) && Current() == old(Current()).(color := COLOR_OPTIONS[i].value)
      ensures InPalette(color)
    {
      color := COLOR_OPTIONS[i].value;
    }

    /** `handleSubmit`: the record handed to `onSave`, None when a required field is empty. */
    method Submit(now: nat) returns (record: Option<Event>)
      requires IsValid(date)
      ensures record == Submission(date, event, Current(), now)
    {
      record := Submission(date, event, Current(), now);
    }
  }

  // ---------------------------------------------------------------------------
  // Lemmas

  /** The palette holds exactly the five background classes. */
  lemma PaletteValues(c: string)
    ensures InPalette(c) <==> c == "bg-red-100" || c == "bg-blue-100" || c == "bg-green-100"
                              || c == "bg-yellow-100" || c == "bg-purple-100"
  {
    if c == "bg-red-100" { assert COLOR_OPTIONS[0].value == c; }
    if c == "bg-blue-100" { assert COLOR_OPTIONS[1].value == c; }
    if c == "bg-green-100" { assert COLOR_OPTIONS[2].value == c; }
    if c == "bg-yellow-100" { assert COLOR_OPTIONS[3].value == c; }
    if c == "bg-purple-100" { assert COLOR_OPTIONS[4].value == c; }
  }

  /** Reset for a new event leaves a palette colour. */
  lemma ResetColorInPalette()
    ensures InPalette(LoadedFields(None).color) && InPalette(InitialFields(None).color)
  {
    assert COLOR_OPTIONS[0].value == "bg-red-100";
  }

  /** The initial values and the values the effect loads differ only in the colour of
      an event whose colour is empty, which the initialiser replaces by the default. */
  lemma InitialMatchesLoaded(event: Option<Event>)
    ensures InitialFields(event) == LoadedFields(event) <==> event.None? || event.value.color != ""
  {
    if event.Some? && event.value.color == "" {
      assert InitialFields(event).color == "bg-red-100" != "";
    }
  }

  /** Submitting an untouched form for an existing event saves it back with its own id
      and fields, only the date rewritten and the description made present. */
  lemma EditSubmitsSameRecord(date: Date, e: Event, now: nat)
    requires IsValid(date) && e.id != "" && e.name != "" && e.startTime != "" && e.endTime != ""
    ensures Submission(date, Some(e), LoadedFields(Some(e)), now)
      == Some(e.(date := FormatDate(date), description := Some(e.description.GetOr(""))))
  {
  }

  /** The saved date reads back as the form's day (years 1 to 9999). */
  lemma SubmittedDateReadsBack(date: Date, event: Option<Event>, f: Fields, now: nat)
    requires IsValid(date) && 1 <= date.year <= 9999 && Submittable(f)
    ensures ParseDate(Submission(date, event, f, now).value.date) == Some(date)
  {
    ParseFormatDate(date);
  }

  /** A record saved for a new event gets a clock-derived id, which is a digit string
      and so differs from every non-numeric id. */
  lemma NewRecordIdIsNumeric(date: Date, f: Fields, now: nat)
    requires IsValid(date) && Submittable(f)
    ensures AllDigits(Submission(date, None, f, now).value.id)
    ensures Submission(date, None, f, now).value.id != ""
  {
  }
}
