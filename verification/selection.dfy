/** The summary filter of the source's main loop: which events become rows. */
module Selection {
  import opened Results
  import opened Columns

  /** The filter test: an empty filter keeps every event, otherwise the
      summary must equal the filter character for character. */
  predicate Keeps(filter: string, summary: string) {
    filter == "" || summary == filter
  }

  predicate HasSummaries(events: seq<Event>) {
    forall i :: 0 <= i < |events| ==> events[i].summary.Some?
  }

  /** The events the loop appends, in the order it appends them. */
  function Filter(events: seq<Event>, filter: string): seq<Event>
    requires HasSummaries(events)
  {
    if |events| == 0 then []
    else
      var last := events[|events| - 1];
      Filter(events[..|events| - 1], filter) + (if Keeps(filter, last.summary.value) then [last] else [])
  }

  /** The loop that selects events. Reading an absent SUMMARY dereferences
      nil, so an event without one stops the program whatever the filter. */
  method Select(events: seq<Event>, filter: string) returns (r: Result<seq<Event>, RowError>)
    ensures r.Failure? <==> !HasSummaries(events)
    ensures r.Failure? ==> r.error == MissingProperty("SUMMARY")
    ensures r.Success? ==> r.value == Filter(events, filter)
  {
    var kept := [];
    for i := 0 to |events|
      invariant HasSummaries(events[..i])
      invariant kept == Filter(events[..i], filter)
    {
      assert events[..i + 1][..i] == events[..i];
      match events[i].summary
      case None =>
        return Failure(MissingProperty("SUMMARY"));
      case Some(summary) =>
        if filter != "" && summary != filter {
          continue;
        }
        kept := kept + [events[i]];
    }
    assert events[..|events|] == events;
    return Success(kept);
  }

  /** Indices of the kept events, ascending. */
  function KeptIndices(events: seq<Event>, filter: string): (idx: seq<nat>)
    requires HasSummaries(events)
    ensures |idx| == |Filter(events, filter)|
    ensures forall j :: 0 <= j < |idx| ==> idx[j] < |events| && Filter(events, filter)[j] == events[idx[j]]
    ensures forall j, k :: 0 <= j < k < |idx| ==> idx[j] < idx[k]
    ensures forall i :: 0 <= i < |events| ==> (i in idx <==> Keeps(filter, events[i].summary.value))
  {
    if |events| == 0 then []
    else
      var n := |events| - 1;
      var init := events[..n];
      assert forall i :: 0 <= i < n ==> init[i] == events[i];
      KeptIndices(init, filter) + (if Keeps(filter, events[n].summary.value) then [n] else [])
  }

  /** With an empty filter every event is kept, in order. */
  lemma {:induction false} EmptyFilterKeepsAll(events: seq<Event>)
    requires HasSummaries(events)
    ensures Filter(events, "") == events
  {
    if |events| > 0 {
      EmptyFilterKeepsAll(events[..|events| - 1]);
      assert events == events[..|events| - 1] + [events[|events| - 1]];
    }
  }

  /** The kept events are exactly those the filter test passes, each as often
      as it occurs among the events: no trimming, no case folding, no
      substring match. */
  lemma {:induction false} FilterKeepsExactly(events: seq<Event>, filter: string, e: Event)
    requires HasSummaries(events)
    ensures multiset(Filter(events, filter))[e]
         == if e.summary.Some? && Keeps(filter, e.summary.value) then multiset(events)[e] else 0
  {
    if |events| > 0 {
      var init := events[..|events| - 1];
      FilterKeepsExactly(init, filter, e);
      assert events == init + [events[|events| - 1]];
    }
  }
}
