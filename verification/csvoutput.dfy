/** writeCsv: one five-field record per row. Quoting, the delimiter and the
    bytes encoding/csv produces are not part of this model. */
module CsvOutput {
  import opened Results
  import opened Columns

  /** The fields of one record, in the order writeCsv passes them. */
  function Record(c: Column): seq<string> {
    [c.name, c.date, c.startTime, c.endTime, c.duration]
  }

  /** writeCsv. The sink is described by the position of the first record
      whose write fails, if any; writing stops there with that error. */
  method WriteCsv(cols: seq<Column>, failAt: Option<nat>) returns (written: seq<seq<string>>, failed: bool)
    ensures failed <==> failAt.Some? && failAt.value < |cols|
    ensures |written| == if failed then failAt.value else |cols|
    ensures forall i :: 0 <= i < |written| ==>
      written[i] == [cols[i].name, cols[i].date, cols[i].startTime, cols[i].endTime, cols[i].duration]
  {
    written := [];
    for i := 0 to |cols|
      invariant |written| == i
      invariant forall k :: 0 <= k < i ==> written[k] == Record(cols[k])
      invariant failAt.Some? ==> failAt.value >= i
    {
      if failAt == Some(i) {
        return written, true;
      }
      written := written + [Record(cols[i])];
    }
    return written, false;
  }
}
