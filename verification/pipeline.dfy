/** The body of main once the calendar is parsed: select the events, build
    one row for each, sort the rows and write them. Any failure before the
    writing stops the program with nothing written. */
module Pipeline {
  import opened Results
  import opened Columns
  import opened Selection
  import opened Ordering
  import opened CsvOutput

  /** Gathers the values of a run of results up to the first failure, which
      it reports instead. */
  function Collect<T, E>(rs: seq<Result<T, E>>): (r: Result<seq<T>, E>)
    ensures r.Success? <==> forall i :: 0 <= i < |rs| ==> rs[i].Success?
    ensures r.Success? ==>
      && |r.value| == |rs|
      && forall i :: 0 <= i < |rs| ==> rs[i] == Success(r.value[i])
    ensures r.Failure? ==>
      exists k :: && 0 <= k < |rs|
                  && rs[k] == Failure(r.error)
                  && forall j :: 0 <= j < k ==> rs[j].Success?
  {
    if |rs| == 0 then Success([])
    else
      match rs[0]
      case Failure(err) => Failure(err)
      case Success(c) =>
        match Collect(rs[1..])
        case Failure(err) =>
          ghost var k :| 0 <= k < |rs| - 1 && rs[1..][k] == Failure(err) &&
            forall j :: 0 <= j < k ==> rs[1..][j].Success?;
          assert rs[k + 1] == Failure(err);
          assert forall j :: 1 <= j < k + 1 ==> rs[j] == rs[1..][j - 1];
          Failure(err)
        case Success(cols) =>
          assert forall i :: 1 <= i < |rs| ==> ([c] + cols)[i] == cols[i - 1] && rs[i] == rs[1..][i - 1];
          Success([c] + cols)
  }

  /** The attempted row of each selected event, in order. */
  function Attempts(events: seq<Event>, name: string): (rs: seq<Result<Column, RowError>>)
    ensures |rs| == |events|
    ensures forall i :: 0 <= i < |events| ==> rs[i] == NewColumn(events[i], name)
  {
    seq(|events|, i requires 0 <= i < |events| => NewColumn(events[i], name))
  }

  /** The row-building loop: a row for each selected event, in order; the
      first event whose row cannot be built stops the loop. */
  function BuildColumns(events: seq<Event>, name: string): (r: Result<seq<Column>, RowError>)
    ensures r.Success? <==> forall i :: 0 <= i < |events| ==> NewColumn(events[i], name).Success?
    ensures r.Success? ==>
      && |r.value| == |events|
      && forall i :: 0 <= i < |events| ==> NewColumn(events[i], name) == Success(r.value[i])
    ensures r.Failure? ==>
      exists k :: && 0 <= k < |events|
                  && NewColumn(events[k], name) == Failure(r.error)
                  && forall j :: 0 <= j < k ==> NewColumn(events[j], name).Success?
  {
    Collect(Attempts(events, name))
  }

  /** The sorted rows, or the failure that stops the program first. */
  function Convert(events: seq<Event>, filter: string, name: string): (r: Result<seq<Column>, RowError>)
    ensures !HasSummaries(events) ==> r == Failure(MissingProperty("SUMMARY"))
    ensures HasSummaries(events) ==>
      (r.Success? <==> forall e :: e in Filter(events, filter) ==> NewColumn(e, name).Success?)
    ensures r.Success? ==> HasSummaries(events) && BuildColumns(Filter(events, filter), name).Success?
    ensures r.Success? ==>
      && Sorted(r.value)
      && multiset(r.value) == multiset(BuildColumns(Filter(events, filter), name).value)
  {
    if !HasSummaries(events) then Failure(MissingProperty("SUMMARY"))
    else
      var selected := Filter(events, filter);
      match BuildColumns(selected, name)
      case Failure(err) => Failure(err)
      case Success(cols) => Success(SortColumns(cols))
  }

  datatype Outcome = Written | Aborted(reason: RowError) | WriteFailed

  /** main after parsing the calendar. The sink fails at record failAt, if given. */
  method Run(events: seq<Event>, filter: string, name: string, failAt: Option<nat>)
    returns (written: seq<seq<string>>, outcome: Outcome)
    ensures outcome.Aborted? <==> Convert(events, filter, name).Failure?
    ensures outcome.Aborted? ==> written == [] && outcome.reason == Convert(events, filter, name).error
    ensures Convert(events, filter, name).Success? ==>
      var rows := Convert(events, filter, name).value;
      && (outcome == WriteFailed <==> failAt.Some? && failAt.value < |rows|)
      && |written| == (if outcome == WriteFailed then failAt.value else |rows|)
      && forall i :: 0 <= i < |written| ==> written[i] == Record(rows[i])
  {
    var selected := Select(events, filter);
    if selected.Failure? {
      return [], Aborted(selected.error);
    }
    var built := BuildColumns(selected.value, name);
    if built.Failure? {
      return [], Aborted(built.error);
    }
    var rows := SortColumns(built.value);
    var failed;
    written, failed := WriteCsv(rows, failAt);
    outcome := if failed then WriteFailed else Written;
  }

  /** With an empty filter, a successful run has one row per event. */
  lemma EmptyFilterRowCount(events: seq<Event>, name: string)
    requires Convert(events, "", name).Success?
    ensures |Convert(events, "", name).value| == |events|
  {
    EmptyFilterKeepsAll(events);
    var cols := BuildColumns(Filter(events, ""), name).value;
    assert |multiset(Convert(events, "", name).value)| == |multiset(cols)|;
  }
}
