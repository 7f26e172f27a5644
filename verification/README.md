# ics2tsv — a Dafny model of the converter's core

ics2tsv reads an iCalendar file and writes one delimited row per event:
the user's name, the event's date, its start and end clock times and its
duration. An optional summary filter selects which events become rows.
The rows are sorted by date and start time before they are written. All of
this lives in `main.go`. This project models what happens to the events
once the calendar has been parsed:

- `parseTime` is Go's `time.Parse` with the layout `20060102T150405`. It is
  modelled exactly as Go's parser runs for that layout: the digit counts,
  the range checks in their order, the literal `T`, the optional fractional
  second, the "extra text" error and the day-of-month check made at the end
  (`Timestamps`).
- Calendar arithmetic is the proleptic Gregorian day count behind
  `time.Time` (`Calendar`).
- `Format("2006/01/02")` and `Format("15:04")` are modelled in `Formats`,
  and zero-padded decimal numerals in `Digits`. String `<`, as the sort
  comparator uses it, is modelled in `Lex`.
- `end.Sub(start)` saturates at the `int64` range. `formatDuration` takes
  the whole hours and minutes, truncating toward zero, and prints them with
  `%02d` (`Durations`).
- `NewColumn` builds one row from the DTSTART and DTEND values of an event
  (`Columns`).
- In `main`, the summary filter loop is modelled in `Selection` and the
  comparator passed to `sort.Slice` in `Ordering`. `writeCsv` is modelled in
  `CsvOutput`, and the whole flow from events to written records in
  `Pipeline`.

The parser is given two partners. One is a declarative description of the
accepted strings (`Timestamps.Accepted`, `Timestamps.Fields`), proved
equivalent to the parser in both directions. The other is a printer
(`Timestamps.Compact`), which the parser inverts. The sort is given a
chronological meaning: two rows compare as their start minutes do. The
model's insertion sort is stable, keeping rows with the same date and start
time in input order, and a sorted, stable arrangement is unique. Any two
sorted arrangements of the same rows agree on the keys at every position,
so where `sort.Slice` is not stable it differs from the model only in the
order of such ties.

Two behaviours of the code are easy to miss. Go's `time.Parse` also
accepts a fractional second right after the seconds, a `.` or `,`
followed by digits, as in `20240115T090000.5`, so `Timestamps.ParseTime`
accepts those too. And the filter loop reads SUMMARY (main.go:130) before
it tests the filter (main.go:131), so an event without a SUMMARY stops the
program even when no filter is given (`Selection.Select`).

## Model

| member | source | states |
|---|---|---|
| Timestamps.ParseTime | main.go:49-55 | the parser itself, element by element as Go reads the layout; a successful result is a valid timestamp (year at most 9999, a real date, an in-range clock). What it accepts and returns is stated by ParseTimeCharacterised, which errors it reports by ShapedRanges and TrailingText |
| Timestamps.ParseTimeCharacterised | main.go:49-55 | parseTime succeeds exactly when the text has four, two and two digits, a `T`, then two, two and two digits, optionally followed by `.` or `,` and digits, and the groups form a real date (year at most 9999) and a time with hour below 24 and minute and second below 60; the result is the timestamp those digits spell |
| Timestamps.ParseTimeSound | main.go:49-55 | every text parseTime accepts has that shape and range, and the parsed value is the one its digit groups spell |
| Timestamps.ParseTimeComplete | main.go:49-55 | every text of that shape and range is accepted |
| Timestamps.ShapedRanges | main.go:49-55 | on a text of the right shape, parseTime fails exactly when a group is out of range, and reports the first such group in Go's order: month, hour, minute, second, then the day against its month's length |
| Timestamps.ClockRanges | main.go:49-55 | the same for the part from the `T` on, given an in-range month |
| Timestamps.TrailingText | main.go:49-55 | text after a complete fifteen-character value that does not start a fractional second gives the "extra text" error carrying that text |
| Timestamps.ParseCompact | main.go:49-55 | printing a valid timestamp in the compact layout and parsing it gives the timestamp back, without its sub-second part |
| Timestamps.RejectsUtcForm | main.go:49-55 | a value ending in the UTC marker `Z` is always rejected, because the layout has no zone |
| Timestamps.RejectsShortInput | main.go:49-55 | a value shorter than fifteen characters, such as a date-only value, is always rejected |
| Calendar.DayNumberNext | main.go:87 | the day count used for `Sub` grows by exactly one from each valid date to the next, across month ends, year ends and leap days |
| Calendar.DayNumberOrder | main.go:87 | one date precedes another on the calendar exactly when its day count is smaller, and equal day counts mean the same date |
| Calendar.DaysBeforeYearIsSum | main.go:87 | the closed-form count of days before a year equals the sum of the lengths of all earlier years under the Gregorian leap rule |
| Formats.DateRearranges | main.go:84 | the row's date is the first eight characters of DTSTART, regrouped as `YYYY/MM/DD` |
| Formats.ClockRearranges | main.go:85-86 | a row's start or end time is the hour and minute digits of DTSTART or DTEND around a colon; seconds and fractions are dropped |
| Formats.DateOrderIsCalendarOrder | main.go:147-148 | formatted dates compare as strings exactly as the days compare on the calendar, and are equal only for the same day |
| Formats.ClockOrderIsTimeOrder | main.go:147-148 | formatted clock times compare as strings exactly as the times of day do, to the minute |
| Lex.FixedLess | main.go:148 | two zero-padded numerals of the same width compare as strings exactly as the numbers do |
| Durations.Sub | main.go:87 | `end.Sub(start)`: the exact difference of the two instants in nanoseconds when it fits in an int64 Duration, and otherwise the nearest end of that range |
| Durations.SubAcrossMidnight | main.go:87 | a span running into the next day is the rest of the first day plus the clock of the second |
| Durations.FormatDuration | main.go:57-61 | formatDuration itself; its contract is given by DurationFields (the two numbers), DurationRoundTrip (the exact text of a span that is not negative and its read-back) and NegativeSpan |
| Durations.DurationFields | main.go:58-59 | the hours are the whole minutes divided by 60, truncated toward zero; hours times 60 plus minutes gives the whole minutes back; for a span that is not negative the minutes lie in 0-59, for a negative one in -59-0 |
| Durations.DurationRoundTrip | main.go:57-61 | a span that is not negative prints as its whole hours, zero-padded to two digits below 100 and without leading zeros above, a colon and its leftover minutes in two digits, and that text reads back as whole minutes divided by 60 and their remainder |
| Durations.ElapsedMinutes | main.go:87 | when the end is not before the start and the span fits in a Duration, the printed span of a row reads back as the whole minutes elapsed, in hours and minutes |
| Durations.NegativeSpan | main.go:57-61 | an end before the start is not rejected: a span under a minute prints `00:00`, a longer one prints a minus sign |
| Columns.NewColumn | main.go:71-89 | NewColumn itself; NewColumnContract states when it succeeds, which failure it reports first and what each field of the row holds |
| Columns.NewColumnContract | main.go:71-89 | a row is built exactly when DTSTART and DTEND are present and accepted; otherwise the failure is the first problem in the order DTSTART, then DTEND; a built row has the given name, the regrouped date and clock digits, and the formatted span from start to end |
| Selection.Select | main.go:126-135 | the filter loop fails exactly when some event has no SUMMARY, and otherwise keeps the events the filter admits, in order |
| Selection.KeptIndices | main.go:129-134 | the kept events are the events at a strictly increasing run of positions, and a position is among them exactly when its summary passes the filter |
| Selection.EmptyFilterKeepsAll | main.go:131 | an empty filter keeps every event |
| Selection.FilterKeepsExactly | main.go:129-135 | an event whose summary passes the filter occurs among the kept events as often as among all events; one that fails it does not occur at all |
| Ordering.ColumnLess | main.go:147-149 | the less function given to `sort.Slice`; ColumnLessTransitive and ColumnLessTotal show it is a strict weak order, and RowOrderIsChronological that it orders rows by start time |
| Ordering.ColumnLessTransitive | main.go:147-149 | the comparator is transitive |
| Ordering.ColumnLessTotal | main.go:147-149 | of two rows, one is less or they share date and start time, so the comparator is a strict weak order as `sort.Slice` needs |
| Ordering.SortColumns | main.go:146-149 | the sorted rows are ordered by date, then start time, and are a permutation of the built rows |
| Ordering.SortStable | main.go:146-149 | for every date and start time, the rows with that key leave the sort in the order they came in |
| Ordering.StableSortIsUnique | main.go:146-149 | two sorted permutations of the same rows that keep every key's rows in the same order are equal, so the model's output is that of any stable sort by date and start time |
| Ordering.TiesKeepInputOrder | main.go:147-149 | two rows with the same date and start time come out in input order |
| Ordering.SortedPermutationsAgree | main.go:146-149 | any two sorted arrangements of the same rows have the same date and start time at every position, whatever order ties are left in |
| Ordering.RowOrderIsChronological | main.go:146-149 | one row sorts before another exactly when its event starts at an earlier minute |
| CsvOutput.WriteCsv | main.go:91-105 | the records are written in row order, each being name, date, start time, end time and duration; the loop stops at the first failing write and reports it |
| Pipeline.Collect | main.go:138-145 | the row-building loop yields every row in event order when no row fails, and otherwise the failure of the first event whose row cannot be built |
| Pipeline.BuildColumns | main.go:137-145 | the rows are built exactly when every selected event's row can be built, one row per event in order; otherwise the failure is the first event's failure |
| Pipeline.Convert | main.go:126-149 | a missing SUMMARY stops the program; otherwise rows are produced exactly when every selected event can be converted, and they are the built rows, sorted |
| Pipeline.Run | main.go:126-176 | the program aborts with nothing written exactly when converting fails; otherwise the records written are the sorted rows in order, ending at the first failed write |
| Pipeline.EmptyFilterRowCount | main.go:126-145 | with no filter, a successful run has exactly one row per event |

## Left out

- Command-line parsing (`parseArgs`, main.go:17-47) is left out. The filter
  text and the name are parameters, and the output path and the `-s` flag
  only choose where the bytes go.
- Opening, closing and creating files, `log.Fatal` and the deferred `Close`
  and `Flush` calls are left out. An abort is modelled as a `Failure`
  result or the `Aborted` outcome. Because `log.Fatal` exits without running
  deferred calls, records written before a failed write may never reach the
  file; the model reports them as written.
- Parsing the iCalendar text (`ics.ParseCalendar`) is left out. An event is
  modelled by the values of its SUMMARY, DTSTART and DTEND properties, each
  possibly absent. Property parameters such as `TZID` are not seen.
- The delimited-text encoding done by `csv.Writer` is left out: quoting,
  the separator, line endings, and rejecting an invalid delimiter decoded
  from `-d`. A record is modelled as its five fields. Any write error,
  including an invalid delimiter, is modelled as the index of the first
  failing record (`CsvOutput.WriteCsv`'s `failAt`).
- Time zones are left out. The layout carries no zone, so Go parses every
  value as UTC and formats it back in UTC. The model has no zone to get
  wrong.
- Durations.DurationFields: `int(d.Hours())` and `int(d.Minutes())` are
  computed in floating point in Go. The model uses exact integer division
  truncated toward zero. The two agree for every span of whole seconds.
  For spans with a sub-second part they can differ from 4096 hours (about
  171 days) on, where the float sum of whole hours and the fraction rounds
  up. For a span of 4096 h 59 m 59.999999999 s, Go's `int(d.Hours())` is
  4097 and it prints `4097:-1`, while the model prints `4096:59`.
- Timestamps.ParseTimeCharacterised says when parsing fails, but for a
  text of the wrong shape it does not say which "cannot parse" error Go
  reports. The parser returns the same errors as Go's, in the same order;
  only the lemmas are silent about them. The program only prints that
  error before stopping.
- Ordering.SortColumns is a stable sort. Since Go 1.19, `sort.Slice` on
  twelve rows or fewer runs an insertion sort that moves a row only past a
  strictly greater one. That is stable too, so for such inputs the model's
  order is Go's (`Ordering.SortStable`, `Ordering.StableSortIsUnique`). On
  more rows Go's pattern-defeating quicksort may reorder rows that share a
  date and start time; `Ordering.SortedPermutationsAgree` shows that such
  reordering is the only possible difference.
- Running the program twice on the same input writes the same output,
  since nothing depends on state outside the input. The functional model
  has this by construction, so it is not stated as a lemma.
