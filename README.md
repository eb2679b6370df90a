# dynamic-cal: a verified model of the month-view calendar

dynamic-cal is a React month-view calendar. It shows the reference month as a
grid of whole Sunday-to-Saturday weeks. It keeps an ordered list of event
records with seven string fields: `id`, `date` (`yyyy-MM-dd`), `name`,
`startTime`, `endTime`, `description` and `color`. It lets the user:

- add, edit and delete events, and drag an event to another day;
- export the reference month's events as JSON or CSV.

This project models the logic of the page:

- `dates.dfy` (module `Dates`): the proleptic Gregorian calendar and the
  date-fns operations the page calls. This covers month lengths, leap years,
  day numbers, weekdays with Sunday first, start and end of month and week,
  every day of an interval, `isSameMonth` and `addMonths`.
- `date_format.dfy` (module `DateFormat`): `format` with the patterns
  `yyyy-MM-dd` and `yyyy-MM`, and the reading of a stored date back. Writing
  and reading are proved inverse for years 1 to 9999.
- `events.dfy` (module `Events`): the event record and the list
  transformations the handlers apply: delete by `filter`, replace and move by
  `map`.
- `month_view.dfy` (module `MonthView`): the grid and its shape, the
  per-day and per-month filters, and the month summary line.
- `app.dfy` (module `CalendarApp`): the page state as a class `App`, with one
  method per handler. Each method states its whole new state.
- `event_form.dfy` (module `EventFormModel`): the form as a class
  `EventForm` holding the five field states, plus the effect that loads or
  resets them, the colour palette and the record `handleSubmit` builds.
- `day_cell.dfy` (module `DayCell`): the drop decision of a grid cell and
  what the cell shows of its events.
- `json_text.dfy` (module `JsonText`): the quoting `JSON.stringify` applies
  to a string, and the reading of a string literal as section 7 of RFC 8259
  defines it.
- `export.dfy` (module `Export`): the content, file name and media type the
  export button builds, and the reading of the CSV text back.
- `wrappers.dfy` (module `Wrappers`): `Option`.

The description is the one field the model lets be absent, and the reason is
the form's effect: when it loads an event it reads `event.description || ''`
(src/components/EventForm.jsx:25) but reads the name, the times and the colour
bare (src/components/EventForm.jsx:22-26). The form's initial values apply a
fallback to every field, `|| ''` or, for the colour, the first palette value
(src/components/EventForm.jsx:14-18), and each CSV cell applies `|| ''`
(src/components/ExportButton.jsx:29). The page itself never creates a record
with a missing field: the submit always writes the description, possibly as
`''` (src/components/EventForm.jsx:44). A record without a description comes
only from outside the page, through the stored list. So the model types the
description as `Option<string>`, which makes the effect's fallback visible,
and every other field as a string.

The clock becomes a parameter in three places:
- `new Date()` as the initial reference date is the `today` argument of the
  `App` constructor;
- `isToday(day)` compares each cell with the `today` argument of `App.Cells`,
  the clock's date when the page renders;
- `Date.now()` is the `now` argument of the form's submit.

Dates carry no time of day and no time zone.

## Model

| member | source | states |
|---|---|---|
| Dates.DaysInMonth | src/App.jsx:49 | month lengths are 28 to 31 days; 29 exactly for February of a leap year, 28 exactly for February otherwise |
| Dates.DayNumberMonotonic | src/App.jsx:53-56 | calendar order and day-number order agree |
| Dates.DayNumberInjective | src/App.jsx:53-56 | two valid dates with the same day number are the same date, so the days of an interval are distinct |
| Dates.NextDay | src/App.jsx:53-56 | the next day is a valid date whose day number is one more |
| Dates.PrevDay | src/App.jsx:50 | the previous day is a valid date whose day number is one less |
| Dates.DaysForward | src/App.jsx:51 | k days later is a valid date k day numbers on |
| Dates.DaysBack | src/App.jsx:50 | k days earlier is a valid date k day numbers back |
| Dates.StartOfMonth | src/App.jsx:48 | the first of the month: same year and month, d.day - 1 days earlier |
| Dates.EndOfMonth | src/App.jsx:49 | the last day of the month: same year and month, the next day is in another month |
| Dates.StartOfWeek | src/App.jsx:50 | the Sunday on or before the date: weekday 0, exactly as many days earlier as the date's weekday number |
| Dates.EndOfWeek | src/App.jsx:51 | the Saturday on or after the date: weekday 6, exactly 6 minus the date's weekday number days later |
| Dates.EachDayOfInterval | src/App.jsx:53-56 | every day from start to end inclusive: length is the day-number difference plus one, the first day is start, the i-th day is start + i |
| Dates.AddMonths | src/App.jsx:58-59 | a valid date k months on (month index + k), the same day or, when that day does not exist, the last day of the target month |
| Dates.AddMonthsRoundTrip | src/App.jsx:58-59 | for a day of the month up to 28, k months on and k months back returns to the same date |
| Dates.IsSameMonth | src/App.jsx:97 | on valid dates, two dates are in the same month exactly when their month indices (year * 12 + month - 1) agree |
| Dates.WeekdayAnchors | src/App.jsx:171 | the weekday numbering puts 1 March 2024 on a Friday and 1 January 1970 on a Thursday, with Sunday as day 0 as in the header order |
| DateFormat.PadNumber | src/components/ExportButton.jsx:22 | zero padding to a width: digits whose value is the number, at least `width` of them, and a longer result has no leading zero |
| DateFormat.FormatYear | src/components/ExportButton.jsx:22 | the `yyyy` token: at least four digits whose value is the year, or `1 - year` (the era year) for years before 1 |
| DateFormat.FormatYearMonth | src/components/ExportButton.jsx:22 | `yyyy-MM`: the year's digits, a dash, then two digits whose value is the month |
| DateFormat.FormatDate | src/components/EventForm.jsx:40 | `yyyy-MM-dd`: the `yyyy-MM` stamp, a dash, then two digits whose value is the day |
| DateFormat.Decimal | src/App.jsx:162 | the decimal digits of n with no leading zero: at least one digit, the first digit is '0' only for n = 0, exactly one digit iff n < 10, and their value is n |
| DateFormat.PadNumberValue | src/components/EventForm.jsx:40 | zero padding keeps the value and gives exactly `width` digits for numbers below 10^width |
| DateFormat.PadNumberOfDigits | src/App.jsx:97 | a digit string is the padded form of its own value |
| DateFormat.ParseDate | src/App.jsx:97 | a date read from a stored string is a valid calendar date of year 0 or later |
| DateFormat.FormatDateShape | src/components/ExportButton.jsx:22 | for years 1 to 9999 the written date is ten characters with dashes at 4 and 7, and its first seven characters are the `yyyy-MM` stamp |
| DateFormat.ParseFormatDate | src/components/EventForm.jsx:40 | reading back a written date gives the same date (years 1 to 9999) |
| DateFormat.FormatParseDate | src/App.jsx:97 | a string that reads as a date of year 1 or later is exactly that date written out |
| Events.Filter | src/App.jsx:77 | the filtered list is no longer than the input and holds exactly the elements that pass |
| Events.FilterAppend | src/App.jsx:77 | filtering a concatenation filters each part, keeping order |
| Events.FilterMultiplicity | src/App.jsx:77 | each element is kept as many times as it occurs, or dropped |
| Events.FilterUnchanged | src/App.jsx:77 | the filter returns its input exactly when every element passes |
| Events.FilterNone | src/App.jsx:191 | nothing passes a filter that no element satisfies |
| Events.FilterAgrees | src/App.jsx:96-98 | two tests that agree on every element of a list select the same sublist |
| Events.DeleteEvent | src/App.jsx:76-78 | exactly the events without the id remain, each with its original multiplicity; the list is unchanged iff no event has the id |
| Events.DeleteKeepsOrder | src/App.jsx:76-78 | deletion distributes over concatenation, so the remaining events keep their order |
| Events.ReplaceEvent | src/App.jsx:82 | same length; entries with the id become the record, the others are unchanged |
| Events.MoveEvent | src/App.jsx:89-93 | same length; every entry differs from the original at most in its date, which is the new date exactly for the entries with the id |
| Events.UnknownIdIsNoOp | src/App.jsx:76-93 | replace, move and delete with an id no event carries leave the list unchanged |
| Events.MoveTouchesOnlyId | src/App.jsx:89-93 | removing the id's events before or after a move gives the same list |
| Events.ReplaceTouchesOnlyId | src/App.jsx:82 | removing the id's events before or after a replacement by a record with that id gives the same list |
| Events.MoveIdempotent | src/App.jsx:89-93 | moving twice to the same date equals moving once |
| MonthView.DayEvents | src/App.jsx:191 | a cell's events are exactly the stored events whose date reads as that day |
| MonthView.MonthEvents | src/App.jsx:95-98 | the month's events are exactly the stored events whose date reads as a day of the reference year and month |
| MonthView.CalendarDays | src/App.jsx:48-56 | the grid starts at `startOfWeek(startOfMonth(ref))`, ends at `endOfWeek(endOfMonth(ref))` and holds one entry per day number in between |
| MonthView.GridShape | src/App.jsx:48-56 | the grid is 28 to 42 days, a multiple of 7, from a Sunday to a Saturday, each day followed by the next, all distinct |
| MonthView.GridIsInterval | src/App.jsx:53-56 | a valid date is in the grid iff its day number is between the first and last grid day |
| MonthView.GridCoversMonth | src/App.jsx:48-56 | every day of the month is in the grid, in order, after one leading day per weekday before the 1st; `isSameMonth` holds for exactly those cells |
| MonthView.MonthRun | src/App.jsx:48-56 | days 1 to the month's length sit in order right after the leading days of the previous month |
| MonthView.MonthFlags | src/App.jsx:188 | `isSameMonth` holds for a cell iff it lies in the month's run |
| MonthView.DayEventsKeepOrder | src/App.jsx:191 | a day's list keeps the store order |
| MonthView.MonthEventsKeepOrder | src/App.jsx:96-98 | the month's list keeps the store order |
| MonthView.AddedEventOnItsDay | src/App.jsx:84 | an appended event comes last in its day's list |
| MonthView.EventInOneCell | src/App.jsx:184-191 | an event dated inside the grid is in exactly one cell, any other event in none |
| MonthView.MonthEventInMonthCell | src/App.jsx:184-191 | each event of the month is in one of the month's own cells |
| MonthView.MovedEventsChangeDay | src/App.jsx:89-93 | after a move to a written date, the id's events read as that day and the others keep their day |
| MonthView.MonthSummary | src/App.jsx:162-163 | the summary starts with the month's event count in digits, followed by " events this month" iff the count is not 1 and " event this month" iff it is 1 |
| CalendarApp.SaveEvent | src/App.jsx:80-87 | without an edited event, the store grows by one with the earlier entries untouched and the record last; when editing, the length stays and only entries with the edited id become the record |
| CalendarApp.App.Cells | src/App.jsx:184-191 | one cell per grid day, in order, each with its date, `isCurrentMonth` = same month as the reference date, `isToday` = equal to today, `isSelected` = equal to the selected date, and that day's events |
| CalendarApp.OneSelectedCell | src/App.jsx:189-190 | at most one cell is selected and at most one is today; a selected date or today that lies in the grid is marked in some cell |
| CalendarApp.App.constructor | src/App.jsx:30-35 | initial state: today's month, no selection, empty store, both modals closed, nothing being edited |
| CalendarApp.App.ListedEvents | src/App.jsx:211-214 | the list modal shows exactly when it is open and a day is selected, and holds that day's events |
| CalendarApp.App.PrevMonth | src/App.jsx:58 | the reference date moves one month back by `AddMonths`; nothing else changes |
| CalendarApp.App.NextMonth | src/App.jsx:59 | the reference date moves one month on by `AddMonths`; nothing else changes |
| CalendarApp.App.HandleDayClick | src/App.jsx:61-64 | the day is selected and the event list opens; nothing else changes |
| CalendarApp.App.HandleAddEvent | src/App.jsx:66-69 | nothing is being edited and the form opens; nothing else changes |
| CalendarApp.App.HandleEditEvent | src/App.jsx:71-74 | the event is being edited and the form opens; nothing else changes |
| CalendarApp.App.HandleDeleteEvent | src/App.jsx:76-78 | the store becomes `DeleteEvent` of the old store; nothing else changes |
| CalendarApp.App.HandleSaveEvent | src/App.jsx:80-87 | the store becomes `SaveEvent` of the old store and edited event; the form closes; the edited event and everything else stay |
| CalendarApp.App.HandleMoveEvent | src/App.jsx:89-93 | the store becomes `MoveEvent` of the old store; nothing else changes |
| CalendarApp.App.CloseEventForm | src/App.jsx:206 | the form closes; nothing else changes |
| CalendarApp.App.CloseEventList | src/App.jsx:217 | the list closes; nothing else changes |
| CalendarApp.AddAppendsToDay | src/App.jsx:84 | adding leaves the earlier entries in place and puts the record last in its day's list |
| CalendarApp.EditTouchesOnlyId | src/App.jsx:82 | saving an edit with the same id changes only the events with that id |
| CalendarApp.EditOfRemovedEventIsNoOp | src/App.jsx:82 | saving an edit of an event no longer stored leaves the store unchanged |
| CalendarApp.PrevThenNextMonth | src/App.jsx:58-59 | a month back then on, or on then back, returns to the reference date when its day is at most 28 |
| CalendarApp.StandupExample | src/App.jsx:84 | a record dated 2024-03-15 saved into an empty store is the only event of March 2024 |
| CalendarApp.MoveOntoBusyDay | src/App.jsx:89-93 | for any day holding two events and another day holding the third, moving the third onto the first day leaves three events there and none on the other |
| CalendarApp.MoveExample | src/App.jsx:89-93 | with two events on 2024-03-15 and one on the 16th, moving the latter to the 15th leaves three on the 15th and none on the 16th |
| EventFormModel.PaletteValues | src/components/EventForm.jsx:5-11 | the palette holds exactly the five background classes red, blue, green, yellow and purple |
| EventFormModel.InitialFields | src/components/EventForm.jsx:14-18 | a new form holds the event's fields (a missing description as ''), with the first palette colour when the colour is empty; all fields are empty and the colour is `bg-red-100` when adding |
| EventFormModel.LoadedFields | src/components/EventForm.jsx:20-34 | with an event the effect loads its name, start time, end time, description (a missing one as '') and colour as they are; with no event it clears every field and sets `bg-red-100` |
| EventFormModel.RecordId | src/components/EventForm.jsx:39 | the edited event's non-empty id is kept, otherwise the id is the clock reading's digits |
| EventFormModel.Submittable | src/components/EventForm.jsx:70-92 | the `required` name and time inputs gate the submit, so the freshly reset or initial add form cannot be submitted |
| EventFormModel.Submission | src/components/EventForm.jsx:36-47 | no record iff name, start or end time is empty; otherwise the record has the kept or clock id, the form's day written as `yyyy-MM-dd`, and the five field values |
| EventFormModel.EventForm.constructor | src/components/EventForm.jsx:13-18 | the fields start at the `useState` initial values, a palette colour when adding |
| EventFormModel.EventForm.LoadEvent | src/components/EventForm.jsx:20-34 | the fields become the loaded values, a palette colour when adding |
| EventFormModel.EventForm.SetName | src/components/EventForm.jsx:69 | only the name changes |
| EventFormModel.EventForm.SetStartTime | src/components/EventForm.jsx:80 | only the start time changes |
| EventFormModel.EventForm.SetEndTime | src/components/EventForm.jsx:91 | only the end time changes |
| EventFormModel.EventForm.SetDescription | src/components/EventForm.jsx:100 | only the description changes |
| EventFormModel.EventForm.ChooseColor | src/components/EventForm.jsx:107-111 | only the colour changes, to the chosen palette value, which is in the palette |
| EventFormModel.EventForm.Submit | src/components/EventForm.jsx:36-47 | the returned record is `Submission` of the form's day, event and current fields |
| EventFormModel.ResetColorInPalette | src/components/EventForm.jsx:27-33 | the colour after a reset, and the initial colour when adding, are palette values |
| EventFormModel.InitialMatchesLoaded | src/components/EventForm.jsx:14-34 | the initial values equal the values the effect loads iff there is no event or its colour is not empty |
| EventFormModel.EditSubmitsSameRecord | src/components/EventForm.jsx:38-46 | an untouched edit form saves the event back with its id and fields, only the date rewritten and the description made present |
| EventFormModel.SubmittedDateReadsBack | src/components/EventForm.jsx:40 | the saved date reads back as the form's day (years 1 to 9999) |
| EventFormModel.NewRecordIdIsNumeric | src/components/EventForm.jsx:39 | a new record's id is a non-empty digit string |
| DayCell.Drop | src/components/Day.jsx:9-13 | a move request is made iff the dragged event's date differs from the cell's written date, and it carries the event's id and that date |
| DayCell.ApplyDrop | src/components/Day.jsx:9-13 | no request leaves the store as it was; a request keeps the length and moves exactly the entries with its id to its date |
| DayCell.DropOnOwnDay | src/components/Day.jsx:10 | a drop on the event's own day makes no request and leaves the store unchanged |
| DayCell.SkippedMoveIsNoOp | src/components/Day.jsx:10 | when every stored event with the dragged id carries the payload's date, the move that is skipped would not have changed the store either |
| DayCell.DropMovesToCell | src/components/Day.jsx:9-13 | when every stored event with the dragged id carries the payload's date, after a drop (years 1 to 9999) the dragged id's events read as the cell's day and every other event is untouched |
| DayCell.View | src/components/Day.jsx:44-62 | at most one event is listed, the first; the list is empty iff there are no events; "+N more" iff more than one event, N = count - 1; the badge iff at least one event, showing the count |
| DayCell.ViewAccountsForAll | src/components/Day.jsx:45-61 | the listed event plus the "+N more" count, and the badge, both equal the number of events |
| DayCell.MoreText | src/components/Day.jsx:50 | the overflow line is `+`, the count in digits and ` more` |
| DayCell.OverflowLineCountsHidden | src/components/Day.jsx:45-51 | the number in the overflow line plus the listed event is the cell's event count |
| DayCell.DayLabel | src/components/Day.jsx:40 | the corner label is the day of the month in one or two digits with no leading zero: one digit exactly for days 1 to 9 |
| JsonText.HexDigit | src/components/ExportButton.jsx:29 | a lowercase hex digit whose value is n, as `JSON.stringify` writes in `\u` escapes |
| JsonText.EscapeChar | src/components/ExportButton.jsx:29 | a character is written as itself iff it is not a quote, a backslash or a control character; otherwise its escape starts with a backslash |
| JsonText.Escape | src/components/ExportButton.jsx:29 | escaping never shortens a string and leaves it unchanged when no character needs an escape |
| JsonText.Quote | src/components/ExportButton.jsx:29 | the literal starts and ends with a double quote and is at least two longer than the string; it is the string between quotes when nothing needs an escape |
| JsonText.ShortEscape | src/components/ExportButton.jsx:29 | exactly the eight characters `" \ / b f n r t` have a one-character escape |
| JsonText.Unescape | src/components/ExportButton.jsx:29 | an escape is one character long iff it is one of the eight short forms, and otherwise five characters starting with `u`; every surrogate code, a valid pair included, is refused |
| JsonText.ParseChars | src/components/ExportButton.jsx:29 | a literal's value is shorter than the text it consumes |
| JsonText.ParseCharsConsumes | src/components/ExportButton.jsx:29 | what follows a literal is the untouched end of the text, and the literal ends with its closing quote |
| JsonText.ParseString | src/components/ExportButton.jsx:29 | a literal starts with a double quote and consumes at least two characters more than its value's length |
| JsonText.Unquote | src/components/ExportButton.jsx:29 | a text that reads as one literal starts and ends with a double quote and is at least two longer than its value |
| JsonText.EscapeCharParses | src/components/ExportButton.jsx:29 | reading one escaped character gives the character back |
| JsonText.ParseEscaped | src/components/ExportButton.jsx:29 | the escaped characters of a string, up to the closing quote, read back as the string |
| JsonText.ParseQuoted | src/components/ExportButton.jsx:29 | a quoted string followed by any text reads back as the string, leaving the text |
| JsonText.UnquoteQuote | src/components/ExportButton.jsx:29 | unquoting a quoted string gives the string |
| JsonText.EscapeHasNoLineBreak | src/components/ExportButton.jsx:29 | escaping removes every line break |
| JsonText.QuoteHasNoLineBreak | src/components/ExportButton.jsx:29 | a quoted value contains no line break |
| Export.BuildExport | src/components/ExportButton.jsx:9-35 | JSON: the content is exactly the exported events (`ExportEvents`), media type `application/json`; CSV: the text reads back as those events' field values in order, media type `text/csv`; the file name is `FileName` |
| Export.HeaderLine | src/components/ExportButton.jsx:25-27 | the header line is exactly `id,date,name,startTime,endTime,description,color` |
| Export.Join | src/components/ExportButton.jsx:27 | joining no parts gives the empty string and one part gives that part |
| Export.Split | src/components/ExportButton.jsx:26-31 | splitting gives between one and length + 1 parts, none containing the separator |
| Export.FieldValue | src/components/ExportButton.jsx:29 | `event[header]` with the `''` fallback: the description header gives the description or '' when it is absent; a header naming no field gives '' |
| Export.RowValues | src/components/ExportButton.jsx:29 | a row has one value per header, and a missing description is exported as an empty cell |
| Export.CsvRow | src/components/ExportButton.jsx:28-29 | a data row contains no line break and ends with the closing quote of its last field |
| Export.CsvRows | src/components/ExportButton.jsx:28-30 | one data row per exported event, in order |
| Export.CsvContent | src/components/ExportButton.jsx:26-31 | the text splits at line breaks into the header line and the rows, and reads back as every event's field values in order |
| Export.FileName | src/components/ExportButton.jsx:22 | the file name is `events_`, the `yyyy-MM` stamp and the extension of the format |
| Export.ParseCsv | src/components/ExportButton.jsx:26-31 | a successful read found the header line first and gives one value list per further line |
| Export.ExportEvents | src/components/ExportButton.jsx:12-14 | the exported events are exactly the stored events whose date reads as a date of year 1 or later in the reference month |
| Export.ExportMatchesSummary | src/components/ExportButton.jsx:12-14 | for a reference year of 1 or later the export selects exactly the events the summary counts |
| Export.YearZeroExport | src/components/ExportButton.jsx:12-14 | in January of year 0, an event dated `0000-01-15` is counted by the summary but left out of the export |
| Export.QuotedRowShape | src/components/ExportButton.jsx:29 | comma-joined quoted values form one line ending with a double quote |
| Export.RowValuesInOrder | src/components/ExportButton.jsx:25-29 | a row's values are the id, date, name, start time, end time, description (or '') and colour, in header order |
| Export.HeaderLineSplits | src/components/ExportButton.jsx:25-27 | the header line is one line and splits at commas into the seven header names |
| Export.SplitJoin | src/components/ExportButton.jsx:26-31 | splitting a join gives the parts back when no part contains the separator |
| Export.JoinAppend | src/components/ExportButton.jsx:27 | joining two non-empty lists joins each with one separator between |
| Export.CsvLines | src/components/ExportButton.jsx:26-31 | the CSV text splits at line breaks into the header line and one line per event in order, n + 1 lines for n events; the header line reads `id,date,name,startTime,endTime,description,color` and splits into the seven header names |
| Export.QuoteAll | src/components/ExportButton.jsx:29 | one field per value, each the JSON string literal of that value |
| Export.NoTrailingLineBreak | src/components/ExportButton.jsx:26-31 | the CSV text is non-empty and its last character is not a line break |
| Export.ParseJoinedFields | src/components/ExportButton.jsx:29 | comma-joined quoted values read back as the values |
| Export.RowRoundTrip | src/components/ExportButton.jsx:28-29 | a row reads back as the seven field values in header order, a missing description as '' |
| Export.RowsRoundTrip | src/components/ExportButton.jsx:28-30 | the data rows read back as each event's values, in order |
| Export.EmptyMonthExport | src/components/ExportButton.jsx:20-31 | with no exported events the CSV is the header line alone and the JSON array is empty |
| Export.FileNameMatchesDates | src/components/ExportButton.jsx:22 | for years 1 to 9999 the file name is `events_`, the seven-character `yyyy-MM` stamp and `.json` or `.csv`, and the stamp begins every exported event's date |
| Export.SavedRecordRow | src/components/ExportButton.jsx:25-29 | a record saved by the form exports all of its fields in header order, the description included |

## Left out

- Persistence in `localStorage` (src/App.jsx:37-46) is browser I/O; the store starts empty.
- The Blob, the object URL, the link click and the `setTimeout` reset of the export button (src/components/ExportButton.jsx:37-46) are DOM I/O and a timer. `exportFormat` becomes the `format` argument; `isExporting`, which disables the button from the click until the timer resets it (src/components/ExportButton.jsx:10,46,79), is left out with the timer.
- The JSON export is modelled as the selected list of records. The layout `JSON.stringify(..., null, 2)` gives it is library formatting.
- react-dnd wiring (`useDrop`, `isOver`) is left out; only the drop decision is modelled. `EventItem.jsx` is not part of this model, beyond the drag payload `{id, date}`.
- `EventList.jsx` is presentation; only the events it is given (src/App.jsx:214) are modelled.
- Markup, Tailwind classes and icons, including the `MMMM yyyy` heading and the cell's highlight classes, are presentation.
- `new Date()`, `isToday` and `Date.now()` read the wall clock. The initial date is the constructor's `today`, the cell comparison uses the `today` argument of `App.Cells`, and `now` is a parameter of the submit. Id uniqueness is not enforced by the code, and the store operations do not assume it.
- DayCell.SkippedMoveIsNoOp, DayCell.DropMovesToCell: both require every stored event with the dragged id to carry the payload's date, a weak form of id uniqueness. Without it a drop onto the dragged event's own day is skipped (src/components/Day.jsx:10), so another event with the same id on a different day stays where it is.
- Time of day, time zones and daylight saving are not modelled: a date is a year, month and day.
- DateFormat.ParseDate: reads only the strict `yyyy-MM-dd` shape, four, two and two digits, as `parseISO` does for the page's filters. `parse(…, 'yyyy-MM-dd')` in the export differs on that shape in one way: its `yyyy` token refuses year 0. Export.ExportEvents adds that condition, and Export.YearZeroExport shows a date on which the two filters disagree. The other ISO forms `parseISO` accepts, the one-digit fields `parse` tolerates, and signed or extended years are not modelled; such a string reads as an invalid date here.
- DateFormat.ParseFormatDate: the round trip is stated for years 1 to 9999. Outside that range `format` writes more digits or the era year, which the four-digit reading does not take back.
- Dates.AddMonthsRoundTrip: stated for days up to 28 only, because a later day can be clamped on the way.
- JsonText.Unescape: every `\u` escape of a UTF-16 surrogate is refused, a valid pair such as `\uD83D\uDE00` included, although section 7 of RFC 8259 reads such a pair as one character. Lone surrogates cannot occur in a Dafny string, which holds Unicode scalar values, and pairs are not decoded. The round trip JsonText.UnquoteQuote does not depend on it, since JsonText.Escape writes `\u` only for control characters.
- Fields other than the description are always present strings. Records with missing or non-string fields, which only hand-edited storage could hold, are not modelled.
