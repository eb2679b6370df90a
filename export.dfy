/** The content `handleExport` builds (ExportButton.jsx): the reference month's
    events as a JSON array or as CSV text, the file name and the media type. */
module Export {
  import opened Wrappers
  import opened Dates
  import opened DateFormat
  import opened Events
  import opened MonthView
  import opened JsonText
  import opened EventFormModel

  /** The value of the format selector. */
  datatype Format = Json | Csv

  datatype Content = JsonArray(records: seq<Event>) | CsvText(text: string)

  datatype ExportFile = ExportFile(content: Content, filename: string, mimeType: string)

  const HEADERS: seq<string> := ["id", "date", "name", "startTime", "endTime", "description", "color"]

  /** `Array.prototype.join` with a one-character separator: nothing for no parts,
      the part itself for one; SplitJoin and JoinAppend state the rest. */
  function Join(parts: seq<string>, sep: char): (r: string)
    ensures |parts| == 0 ==> r == ""
    ensures |parts| == 1 ==> r == parts[0]
  {
    if |parts| == 0 then ""
    else if |parts| == 1 then parts[0]
    else parts[0] + [sep] + Join(parts[1..], sep)
  }

  /** `String.prototype.split` with a one-character separator. */
  function Split(s: string, sep: char): (parts: seq<string>)
    ensures 1 <= |parts| <= |s| + 1
    ensures forall i :: 0 <= i < |parts| ==> sep !in parts[i]
  {
    if s == [] then [[]]
    else
      var tail := Split(s[1..], sep);
      if s[0] == sep then [[]] + tail else [[s[0]] + tail[0]] + tail[1..]
  }

  /** `event[header] || ''`: the field a header names, a missing value read as ''. */
  function FieldValue(e: Event, header: string): (v: string)
    ensures header == "description" ==> v == e.description.GetOr("")
    ensures header !in HEADERS ==> v == ""
  {
    if header == "id" then e.id
    else if header == "date" then e.date
    else if header == "name" then e.name
    else if header == "startTime" then e.startTime
    else if header == "endTime" then e.endTime
    else if header == "description" then e.description.GetOr("")
    else if header == "color" then e.color
    else ""
  }

  /** The values of one CSV row, in header order: one per header, a missing
      description exported as an empty cell. */
  function RowValues(e: Event): (r: seq<string>)
    ensures |r| == |HEADERS|
    ensures e.description.None? ==> r[5] == ""
  {
    seq(|HEADERS|, i requires 0 <= i < |HEADERS| => FieldValue(e, HEADERS[i]))
  }

  function QuoteAll(values: seq<string>): (r: seq<string>)
    ensures |r| == |values|
    ensures forall i :: 0 <= i < |values| ==> r[i] == Quote(values[i])
  {
    if values == [] then [] else [Quote(values[0])] + QuoteAll(values[1..])
  }

  /** One data row: `headers.map(header => JSON.stringify(event[header] || '')).join(',')`. */
  function CsvRow(e: Event): (r: string)
    ensures '\n' !in r
    ensures |r| > 0 && r[|r| - 1] == '"'
  {
    QuotedRowShape(RowValues(e));
    Join(QuoteAll(RowValues(e)), ',')
  }

  function CsvRows(events: seq<Event>): (r: seq<string>)
    ensures |r| == |events|
    ensures forall i :: 0 <= i < |events| ==> r[i] == CsvRow(events[i])
  {
    if events == [] then [] else [CsvRow(events[0])] + CsvRows(events[1..])
  }

  /** The whole CSV text: the header line and the rows, joined by '\n'. Reading it
      back gives every event's values, in order. */
  function CsvContent(events: seq<Event>): (text: string)
    ensures Split(text, '\n') == [Join(HEADERS, ',')] + CsvRows(events)
    ensures ParseCsv(text) == Some(AllRowValues(events))
  {
    var lines := [Join(HEADERS, ',')] + CsvRows(events);
    HeaderLineSplits();
    RowsAreLines(events);
    SplitJoin(lines, '\n');
    RowsRoundTrip(events);
    assert lines[1..] == CsvRows(events);
    Join(lines, '\n')
  }

  /** `events_${format(currentDate, 'yyyy-MM')}.json` or `.csv`. */
  function FileName(ref: Date, format: Format): (name: string)
    requires IsValid(ref)
    ensures var ext := if format == Json then ".json" else ".csv";
      && |name| == 7 + |FormatYearMonth(ref)| + |ext|
      && name[..7] == "events_" && name[7..|name| - |ext|] == FormatYearMonth(ref)
      && name[|name| - |ext|..] == ext
  {
    "events_" + FormatYearMonth(ref) + (if format == Json then ".json" else ".csv")
  }

  // ---------------------------------------------------------------------------
  // Reading an exported CSV text back

  /** A row of comma-separated string literals, unquoted. */
  function ParseFields(s: string): Option<seq<string>>
    decreases |s|
  {
    match ParseString(s)
    case None => None
    case Some(Decoded(v, rest)) =>
      if rest == [] then Some([v])
      else if rest[0] == ',' then
        match ParseFields(rest[1..])
        case None => None
        case Some(vs) => Some([v] + vs)
      else None
  }

  function ParseRows(lines: seq<string>): (r: Option<seq<seq<string>>>)
    ensures r.Some? ==> |r.value| == |lines|
  {
    if lines == [] then Some([])
    else
      match ParseFields(lines[0])
      case None => None
      case Some(row) =>
        match ParseRows(lines[1..])
        case None => None
        case Some(rows) => Some([row] + rows)
  }

  /** Reads a CSV export back: the fixed header line, then the unquoted values of each row. */
  function ParseCsv(text: string): (r: Option<seq<seq<string>>>)
    ensures r.Some? ==> Split(text, '\n')[0] == Join(HEADERS, ',') && |r.value| == |Split(text, '\n')| - 1
  {
    var lines := Split(text, '\n');
    if lines[0] == Join(HEADERS, ',') then ParseRows(lines[1..]) else None
  }

  function AllRowValues(events: seq<Event>): (r: seq<seq<string>>)
    ensures |r| == |events|
  {
    if events == [] then [] else [RowValues(events[0])] + AllRowValues(events[1..])
  }

  // ---------------------------------------------------------------------------
  // The export

  function IsInExportMonth(ref: Date): Event -> bool {
    (e: Event) => ParseDate(e.date).Some? && ParseDate(e.date).value.year >= 1
                  && IsSameMonth(ParseDate(e.date).value, ref)
  }

  /** The events the button exports: `parse(event.date, 'yyyy-MM-dd', new Date())`
      in the reference month. The 'yyyy' token reads only years 1 and later, so a
      date of year 0 is an Invalid Date here, unlike for the page's `parseISO`. */
  function ExportEvents(events: seq<Event>, ref: Date): (r: seq<Event>)
    ensures forall e :: e in r <==> e in events && ParseDate(e.date).Some? && ParseDate(e.date).value.year >= 1
                                    && IsSameMonth(ParseDate(e.date).value, ref)
  {
    Filter(events, IsInExportMonth(ref))
  }

  /** The file `handleExport` offers for download. */
  function BuildExport(events: seq<Event>, ref: Date, format: Format): (f: ExportFile)
    requires IsValid(ref)
    ensures format == Json ==>
      f.content == JsonArray(ExportEvents(events, ref)) && f.mimeType == "application/json"
    ensures format == Csv ==>
      f.content.CsvText? && f.mimeType == "text/csv"
      && ParseCsv(f.content.text) == Some(AllRowValues(ExportEvents(events, ref)))
    ensures f.filename == FileName(ref, format)
  {
    var currentMonthEvents := ExportEvents(events, ref);
    match format
    case Json =>
      ExportFile(JsonArray(currentMonthEvents), FileName(ref, Json), "application/json")
    case Csv =>
      ExportFile(CsvText(CsvContent(currentMonthEvents)), FileName(ref, Csv), "text/csv")
  }

  // ---------------------------------------------------------------------------
  // Lemmas

  /** Splitting a text with no separator gives the text alone. */
  lemma {:induction false} SplitPlain(p: string, sep: char)
    requires sep !in p
    ensures Split(p, sep) == [p]
  {
    if p != [] {
      SplitPlain(p[1..], sep);
      assert [p[0]] + p[1..] == p;
    }
  }

  /** A separator-free part followed by the separator splits off as one part. */
  lemma {:induction false} SplitPart(p: string, sep: char, rest: string)
    requires sep !in p
    ensures Split(p + [sep] + rest, sep) == [p] + Split(rest, sep)
  {
    if p == [] {
      assert p + [sep] + rest == [sep] + rest;
      assert ([sep] + rest)[1..] == rest;
    } else {
      assert (p + [sep] + rest)[1..] == p[1..] + [sep] + rest;
      SplitPart(p[1..], sep, rest);
      assert [p[0]] + p[1..] == p;
    }
  }

  /** Splitting undoes joining when no part contains the separator. */
  lemma {:induction false} SplitJoin(parts: seq<string>, sep: char)
    requires |parts| >= 1
    requires forall i :: 0 <= i < |parts| ==> sep !in parts[i]
    ensures Split(Join(parts, sep), sep) == parts
  {
    if |parts| == 1 {
      SplitPlain(parts[0], sep);
    } else {
      SplitJoin(parts[1..], sep);
      SplitPart(parts[0], sep, Join(parts[1..], sep));
      assert [parts[0]] + parts[1..] == parts;
    }
  }

  lemma {:induction false} QuoteAllNoLineBreak(values: seq<string>)
    ensures forall i :: 0 <= i < |values| ==> '\n' !in QuoteAll(values)[i]
  {
    if values != [] {
      QuoteHasNoLineBreak(values[0]);
      QuoteAllNoLineBreak(values[1..]);
    }
  }

  lemma {:induction false} JoinNoLineBreak(parts: seq<string>, sep: char)
    requires sep != '\n'
    requires forall i :: 0 <= i < |parts| ==> '\n' !in parts[i]
    ensures '\n' !in Join(parts, sep)
  {
    if |parts| > 1 {
      JoinNoLineBreak(parts[1..], sep);
    }
  }

  /** Joining two non-empty lists is joining each and putting one separator between. */
  lemma {:induction false} JoinAppend(a: seq<string>, b: seq<string>, sep: char)
    requires a != [] && b != []
    ensures Join(a + b, sep) == Join(a, sep) + [sep] + Join(b, sep)
  {
    if |a| > 1 {
      assert (a + b)[1..] == a[1..] + b;
      JoinAppend(a[1..], b, sep);
    }
  }

  /** The header line is exactly `id,date,name,startTime,endTime,description,color`. */
  lemma HeaderLine()
    ensures Join(HEADERS, ',') == "id,date,name,startTime,endTime,description,color"
  {
    var front, back := HEADERS[..4], HEADERS[4..];
    assert HEADERS == front + back;
    JoinAppend(front, back, ',');
    JoinFront();
    JoinBack();
    JoinedHalves(Join(front, ','), Join(back, ','));
  }

  lemma JoinFront()
    ensures Join(HEADERS[..4], ',') == "id,date,name,startTime"
  {
    assert HEADERS[..4] == ["id", "date"] + ["name", "startTime"];
    JoinAppend(["id", "date"], ["name", "startTime"], ',');
    assert Join(["id", "date"], ',') == "id" + [','] + "date";
    assert Join(["name", "startTime"], ',') == "name" + [','] + "startTime";
  }

  lemma JoinBack()
    ensures Join(HEADERS[4..], ',') == "endTime,description,color"
  {
    assert HEADERS[4..] == ["endTime"] + ["description", "color"];
    JoinAppend(["endTime"], ["description", "color"], ',');
    assert Join(["description", "color"], ',') == "description" + [','] + "color";
  }

  lemma JoinedHalves(a: string, b: string)
    requires a == "id,date,name,startTime" && b == "endTime,description,color"
    ensures a + [','] + b == "id,date,name,startTime,endTime,description,color"
  {
  }

  /** The header line is one line and splits back into the seven header names. */
  lemma HeaderLineSplits()
    ensures Split(Join(HEADERS, ','), ',') == HEADERS
    ensures '\n' !in Join(HEADERS, ',')
  {
    assert forall i :: 0 <= i < |HEADERS| ==> ',' !in HEADERS[i] && '\n' !in HEADERS[i] by {
      assert ',' !in "id" && ',' !in "date" && ',' !in "name" && ',' !in "startTime";
      assert ',' !in "endTime" && ',' !in "description" && ',' !in "color";
      assert '\n' !in "id" && '\n' !in "date" && '\n' !in "name" && '\n' !in "startTime";
      assert '\n' !in "endTime" && '\n' !in "description" && '\n' !in "color";
    }
    SplitJoin(HEADERS, ',');
    JoinNoLineBreak(HEADERS, ',');
  }

  lemma RowsAreLines(events: seq<Event>)
    ensures forall i :: 0 <= i < |events| ==> '\n' !in CsvRows(events)[i]
  {
    forall i | 0 <= i < |events|
      ensures '\n' !in CsvRows(events)[i]
    {
    }
  }

  /** The CSV text for n events is exactly n + 1 lines: the header line, then one
      line per event in order, so no line break ends the text. */
  lemma CsvLines(events: seq<Event>)
    ensures Split(CsvContent(events), '\n') == [Join(HEADERS, ',')] + CsvRows(events)
    ensures |Split(CsvContent(events), '\n')| == |events| + 1
    ensures Split(CsvContent(events), '\n')[0] == "id,date,name,startTime,endTime,description,color"
    ensures Split(Split(CsvContent(events), '\n')[0], ',') == HEADERS
  {
    HeaderLineSplits();
    HeaderLine();
  }

  /** A join ends with the last character of its last part. */
  lemma {:induction false} JoinEnd(parts: seq<string>, sep: char)
    requires |parts| >= 1 && |parts[|parts| - 1]| > 0
    ensures var text := Join(parts, sep); var tail := parts[|parts| - 1];
      |text| > 0 && text[|text| - 1] == tail[|tail| - 1]
  {
    if |parts| > 1 {
      JoinEnd(parts[1..], sep);
    }
  }

  /** Comma-joined quoted values form one line ending with a closing quote. */
  lemma QuotedRowShape(values: seq<string>)
    requires |values| >= 1
    ensures var r := Join(QuoteAll(values), ','); '\n' !in r && |r| > 0 && r[|r| - 1] == '"'
  {
    var quoted := QuoteAll(values);
    QuoteAllNoLineBreak(values);
    JoinNoLineBreak(quoted, ',');
    JoinEnd(quoted, ',');
  }

  /** The CSV text never ends with a line break: it ends with the header's last
      letter or a row's closing quote. */
  lemma NoTrailingLineBreak(events: seq<Event>)
    ensures var text := CsvContent(events); |text| > 0 && text[|text| - 1] != '\n'
  {
    var lines := [Join(HEADERS, ',')] + CsvRows(events);
    assert CsvContent(events) == Join(lines, '\n');
    LastLineEnd(events);
    JoinEnd(lines, '\n');
  }

  /** The last line, the header or the last row, is non-empty and ends with a letter
      or a closing quote. */
  lemma LastLineEnd(events: seq<Event>)
    ensures var lines := [Join(HEADERS, ',')] + CsvRows(events); var last := lines[|lines| - 1];
      |last| > 0 && last[|last| - 1] != '\n'
  {
    HeaderLine();
  }

  /** Comma-joined quoted values read back as the values. */
  lemma {:induction false} ParseJoinedFields(values: seq<string>)
    requires |values| >= 1
    ensures ParseFields(Join(QuoteAll(values), ',')) == Some(values)
  {
    if |values| == 1 {
      JoinQuotedOne(values);
      ParseLastField(values[0]);
    } else {
      ParseJoinedFields(values[1..]);
      JoinQuotedCons(values);
      ParseNextField(values[0], Join(QuoteAll(values[1..]), ','), values[1..]);
      assert [values[0]] + values[1..] == values;
    }
  }

  lemma JoinQuotedOne(values: seq<string>)
    requires |values| == 1
    ensures Join(QuoteAll(values), ',') == Quote(values[0]) && values == [values[0]]
  {
  }

  lemma JoinQuotedCons(values: seq<string>)
    requires |values| >= 2
    ensures Join(QuoteAll(values), ',') == Quote(values[0]) + ([','] + Join(QuoteAll(values[1..]), ','))
  {
    var quoted := QuoteAll(values);
    assert quoted[1..] == QuoteAll(values[1..]);
  }

  lemma ParseLastField(v: string)
    ensures ParseFields(Quote(v)) == Some([v])
  {
    ParseQuoted(v, []);
    assert Quote(v) + [] == Quote(v);
  }

  lemma ParseNextField(v: string, more: string, vs: seq<string>)
    requires ParseFields(more) == Some(vs)
    ensures ParseFields(Quote(v) + ([','] + more)) == Some([v] + vs)
  {
    ParseQuoted(v, [','] + more);
    assert ([','] + more)[1..] == more;
  }

  /** Each data row unquotes to the seven field values in header order, a missing
      description as the empty string. */
  lemma RowRoundTrip(e: Event)
    ensures ParseFields(CsvRow(e)) == Some(RowValues(e))
    ensures RowValues(e) == [e.id, e.date, e.name, e.startTime, e.endTime, e.description.GetOr(""), e.color]
  {
    ParseJoinedFields(RowValues(e));
    RowValuesInOrder(e);
  }

  lemma RowValuesInOrder(e: Event)
    ensures RowValues(e) == [e.id, e.date, e.name, e.startTime, e.endTime, e.description.GetOr(""), e.color]
  {
    var r := RowValues(e);
    assert r[0] == e.id by { assert HEADERS[0] == "id"; }
    assert r[1] == e.date by { assert HEADERS[1] == "date"; }
    assert r[2] == e.name by { assert HEADERS[2] == "name"; }
    assert r[3] == e.startTime by { assert HEADERS[3] == "startTime"; }
    assert r[4] == e.endTime by { assert HEADERS[4] == "endTime"; }
    assert r[5] == e.description.GetOr("") by { assert HEADERS[5] == "description"; }
    assert r[6] == e.color by { assert HEADERS[6] == "color"; }
  }

  lemma {:induction false} RowsRoundTrip(events: seq<Event>)
    ensures ParseRows(CsvRows(events)) == Some(AllRowValues(events))
  {
    if events != [] {
      RowRoundTrip(events[0]);
      RowsRoundTrip(events[1..]);
      assert CsvRows(events)[1..] == CsvRows(events[1..]);
    }
  }

  /** With no events in the month the CSV is the header line alone and the JSON an empty array. */
  lemma EmptyMonthExport(events: seq<Event>, ref: Date)
    requires IsValid(ref) && ExportEvents(events, ref) == []
    ensures BuildExport(events, ref, Csv).content == CsvText("id,date,name,startTime,endTime,description,color")
    ensures BuildExport(events, ref, Json).content == JsonArray([])
  {
    HeaderLine();
  }

  /** For years 1 to 9999 the file name is `events_YYYY-MM` and the extension, and
      its stamp is the first seven characters of every exported event's date. */
  lemma FileNameMatchesDates(events: seq<Event>, ref: Date, format: Format)
    requires IsValid(ref) && 1 <= ref.year <= 9999
    ensures var name := FileName(ref, format);
      && name[..7] == "events_"
      && |name| == (if format == Json then 19 else 18)
      && name[14..] == (if format == Json then ".json" else ".csv")
      && forall e :: e in ExportEvents(events, ref) ==> e.date[..7] == name[7..14]
  {
    var name := FileName(ref, format);
    FormatDateShape(ref);
    assert name[7..14] == FormatYearMonth(ref);
    forall e | e in ExportEvents(events, ref)
      ensures e.date[..7] == name[7..14]
    {
      var d := ParseDate(e.date).value;
      FormatParseDate(e.date, d);
      FormatDateShape(d);
    }
  }

  /** For a reference month of year 1 or later the button exports exactly the events
      the page counts in its summary. */
  lemma ExportMatchesSummary(events: seq<Event>, ref: Date)
    requires IsValid(ref) && ref.year >= 1
    ensures ExportEvents(events, ref) == MonthEvents(events, ref)
  {
    FilterAgrees(events, IsInExportMonth(ref), IsInMonth(ref));
  }

  /** In January of year 0 an event dated "0000-01-15" is counted by the page's
      `parseISO` filter but left out of the export, whose 'yyyy' reading refuses year 0. */
  lemma YearZeroExport(e: Event)
    requires e.date == "0000-01-15"
    ensures e in MonthEvents([e], Date(0, 1, 1))
    ensures ExportEvents([e], Date(0, 1, 1)) == []
  {
    assert e.date[..4] == "0000" && e.date[5..7] == "01" && e.date[8..] == "15";
    ZerosValue(4);
    assert Zeros(4) == "0000";
    assert "1"[..0] == [] && DigitsValue("1") == 1;
    LeadingZerosValue(1, "1");
    assert Zeros(1) + "1" == "01";
    assert "15"[..1] == "1" && DigitsValue("15") == 15;
    assert ParseDate(e.date) == Some(Date(0, 1, 15));
    FilterNone([e], IsInExportMonth(Date(0, 1, 1)));
  }

  /** A record saved by the form exports every one of its fields, in header order,
      the description included. */
  lemma SavedRecordRow(date: Date, event: Option<Event>, f: Fields, now: nat)
    requires IsValid(date) && Submittable(f)
    ensures var r := Submission(date, event, f, now).value;
      ParseFields(CsvRow(r)) == Some([r.id, FormatDate(date), f.name, f.startTime, f.endTime, f.description, f.color])
  {
    RowRoundTrip(Submission(date, event, f, now).value);
  }
}
