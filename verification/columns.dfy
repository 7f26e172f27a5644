/** NewColumn: one output row built from one calendar event. */
module Columns {
  import opened Results
  import opened Calendar
  import opened Timestamps
  import opened Formats
  import opened Durations

  /** A VEVENT as far as the converter reads it: the values of its SUMMARY,
      DTSTART and DTEND properties, each of which may be absent. */
  datatype Event = Event(summary: Option<string>, dtstart: Option<string>, dtend: Option<string>)

  /** One output row. */
  datatype Column = Column(name: string, date: string, startTime: string, endTime: string, duration: string)

  /** Why a conversion stops. A missing property is a nil dereference (a
      panic) in the source; a malformed timestamp is the error log.Fatal prints. */
  datatype RowError = MissingProperty(property: string) | BadTimestamp(cause: ParseError)

  /** NewColumn. DTSTART is read and parsed first; DTEND is only looked at
      once DTSTART has parsed. */
  function NewColumn(e: Event, name: string): Result<Column, RowError> {
    match e.dtstart
    case None => Failure(MissingProperty("DTSTART"))
    case Some(s) =>
      match ParseTime(s)
      case Failure(err) => Failure(BadTimestamp(err))
      case Success(start) =>
        match e.dtend
        case None => Failure(MissingProperty("DTEND"))
        case Some(t) =>
          match ParseTime(t)
          case Failure(err) => Failure(BadTimestamp(err))
          case Success(end) =>
            Success(Column(name, FormatDate(start), FormatClock(start), FormatClock(end),
                           FormatDuration(Sub(end, start))))
  }

  /** A row is built exactly when both timestamps are present and accepted;
      otherwise the first problem, in the order DTSTART then DTEND, is the
      failure. The row's date and clocks are the timestamps' digits
      regrouped, its name is the given one, and its duration is the span
      from start to end. */
  lemma NewColumnContract(e: Event, name: string)
    ensures var r := NewColumn(e, name);
      && (r.Success? <==>
            e.dtstart.Some? && e.dtend.Some? && Accepted(e.dtstart.value) && Accepted(e.dtend.value))
      && (e.dtstart.None? ==> r == Failure(MissingProperty("DTSTART")))
      && (e.dtstart.Some? && ParseTime(e.dtstart.value).Failure? ==>
            r == Failure(BadTimestamp(ParseTime(e.dtstart.value).error)))
      && (e.dtstart.Some? && ParseTime(e.dtstart.value).Success? && e.dtend.None? ==>
            r == Failure(MissingProperty("DTEND")))
      && (e.dtstart.Some? && ParseTime(e.dtstart.value).Success? &&
          e.dtend.Some? && ParseTime(e.dtend.value).Failure? ==>
            r == Failure(BadTimestamp(ParseTime(e.dtend.value).error)))
      && (r.Success? ==>
            var s, t := e.dtstart.value, e.dtend.value;
            && r.value.name == name
            && r.value.date == s[0..4] + "/" + s[4..6] + "/" + s[6..8]
            && r.value.startTime == s[9..11] + ":" + s[11..13]
            && r.value.endTime == t[9..11] + ":" + t[11..13]
            && r.value.duration == FormatDuration(Sub(Fields(t), Fields(s))))
  {
    if e.dtstart.Some? {
      var s := e.dtstart.value;
      ParseTimeCharacterised(s);
      if ParseTime(s).Success? {
        DateRearranges(s);
        ClockRearranges(s);
      }
    }
    if e.dtend.Some? {
      var t := e.dtend.value;
      ParseTimeCharacterised(t);
      if ParseTime(t).Success? {
        ClockRearranges(t);
      }
    }
  }

  /** The parsed start of an event whose row can be built. */
  function StartOf(e: Event): Timestamp
    requires e.dtstart.Some? && Accepted(e.dtstart.value)
  {
    Fields(e.dtstart.value)
  }
}
