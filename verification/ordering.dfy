/** The sort of the rows by date, then start time. */
module Ordering {
  import opened Results
  import opened Calendar
  import opened Timestamps
  import opened Formats
  import opened Columns
  import Lex

  /** The less function given to sort.Slice. */
  predicate ColumnLess(a: Column, b: Column) {
    Lex.Less(a.date, b.date) || (a.date == b.date && Lex.Less(a.startTime, b.startTime))
  }

  /** What sort.Slice promises: no row is less than one before it. */
  predicate Sorted(cols: seq<Column>) {
    forall i, j :: 0 <= i < j < |cols| ==> !ColumnLess(cols[j], cols[i])
  }

  predicate SameKey(a: Column, b: Column) {
    a.date == b.date && a.startTime == b.startTime
  }

  lemma ColumnLessIrreflexive(a: Column)
    ensures !ColumnLess(a, a)
  {
    Lex.LessIrreflexive(a.date);
    Lex.LessIrreflexive(a.startTime);
  }

  lemma ColumnLessTransitive(a: Column, b: Column, c: Column)
    requires ColumnLess(a, b) && ColumnLess(b, c)
    ensures ColumnLess(a, c)
  {
    if Lex.Less(a.date, b.date) && Lex.Less(b.date, c.date) {
      Lex.LessTransitive(a.date, b.date, c.date);
    } else if a.date == b.date && b.date == c.date {
      Lex.LessTransitive(a.startTime, b.startTime, c.startTime);
    }
  }

  /** Rows neither of which is less than the other share date and start time. */
  lemma ColumnLessTotal(a: Column, b: Column)
    ensures !ColumnLess(a, b) && !ColumnLess(b, a) ==> SameKey(a, b)
  {
    Lex.LessTotal(a.date, b.date);
    Lex.LessTotal(a.startTime, b.startTime);
  }

  /** Inserts c into sorted rows before the first row that is not less
      than c, so that c precedes the rows that share its key. */
  function Insert(c: Column, cols: seq<Column>): (r: seq<Column>)
    requires Sorted(cols)
    ensures Sorted(r)
    ensures multiset(r) == multiset(cols) + multiset{c}
  {
    if |cols| == 0 then [c]
    else if !ColumnLess(cols[0], c) then
      assert forall k :: 0 <= k < |cols| ==> !ColumnLess(cols[k], c) by {
        forall k | 0 <= k < |cols|
          ensures !ColumnLess(cols[k], c)
        {
          if k > 0 && ColumnLess(cols[k], c) {
            assert !ColumnLess(cols[k], cols[0]);
            ColumnLessTotal(cols[0], c);
            if ColumnLess(c, cols[0]) {
              ColumnLessTransitive(cols[k], c, cols[0]);
            }
          }
        }
      }
      [c] + cols
    else
      var rest := Insert(c, cols[1..]);
      assert cols == [cols[0]] + cols[1..];
      assert !ColumnLess(c, cols[0]) by {
        if ColumnLess(c, cols[0]) {
          ColumnLessTransitive(c, cols[0], c);
          ColumnLessIrreflexive(c);
        }
      }
      assert forall k :: 0 <= k < |rest| ==> !ColumnLess(rest[k], cols[0]) by {
        forall k | 0 <= k < |rest|
          ensures !ColumnLess(rest[k], cols[0])
        {
          assert rest[k] in multiset(rest);
          if rest[k] != c {
            assert rest[k] in cols[1..];
          }
        }
      }
      [cols[0]] + rest
  }

  /** The rows sorted by (date, startTime): a sorted permutation that keeps
      rows with equal keys in their input order (see SortStable). */
  function SortColumns(cols: seq<Column>): (r: seq<Column>)
    ensures Sorted(r)
    ensures multiset(r) == multiset(cols)
  {
    if |cols| == 0 then []
    else
      assert cols == [cols[0]] + cols[1..];
      Insert(cols[0], SortColumns(cols[1..]))
  }

  /** The rows that share k's date and start time, in their order. */
  function Only(cols: seq<Column>, k: Column): seq<Column> {
    if |cols| == 0 then []
    else (if SameKey(cols[0], k) then [cols[0]] else []) + Only(cols[1..], k)
  }

  /** Rows with the same key are never less than one another. */
  lemma SameKeyNotLess(a: Column, b: Column)
    requires SameKey(a, b)
    ensures !ColumnLess(a, b)
  {
    Lex.LessIrreflexive(a.date);
    Lex.LessIrreflexive(a.startTime);
  }

  lemma OnlyCons(x: Column, cols: seq<Column>, k: Column)
    ensures Only([x] + cols, k) == (if SameKey(x, k) then [x] else []) + Only(cols, k)
  {
    assert ([x] + cols)[1..] == cols;
  }

  /** The placement Insert makes, without its sortedness contract. */
  function Place(c: Column, cols: seq<Column>): seq<Column> {
    if |cols| == 0 then [c]
    else if !ColumnLess(cols[0], c) then [c] + cols
    else [cols[0]] + Place(c, cols[1..])
  }

  lemma {:induction false} InsertIsPlace(c: Column, cols: seq<Column>)
    requires Sorted(cols)
    ensures Insert(c, cols) == Place(c, cols)
    decreases |cols|
  {
    if |cols| > 0 && ColumnLess(cols[0], c) {
      InsertIsPlace(c, cols[1..]);
    }
  }

  lemma {:induction false} PlaceOnly(c: Column, cols: seq<Column>, k: Column)
    ensures Only(Place(c, cols), k) == (if SameKey(c, k) then [c] else []) + Only(cols, k)
    decreases |cols|
  {
    if |cols| > 0 && ColumnLess(cols[0], c) {
      PlaceOnly(c, cols[1..], k);
      OnlyCons(cols[0], Place(c, cols[1..]), k);
      assert cols == [cols[0]] + cols[1..];
      OnlyCons(cols[0], cols[1..], k);
      assert !(SameKey(c, k) && SameKey(cols[0], k)) by {
        if SameKey(c, k) && SameKey(cols[0], k) {
          SameKeyNotLess(cols[0], c);
        }
      }
    } else if |cols| > 0 {
      OnlyCons(c, cols, k);
    }
  }

  lemma InsertOnly(c: Column, cols: seq<Column>, k: Column)
    requires Sorted(cols)
    ensures Only(Insert(c, cols), k) == (if SameKey(c, k) then [c] else []) + Only(cols, k)
  {
    InsertIsPlace(c, cols);
    PlaceOnly(c, cols, k);
  }

  /** The sort is stable: for every key, the rows with that key come out in
      the order they went in. Go's sort.Slice agrees on up to twelve rows,
      where it runs an insertion sort that only moves a row past a
      strictly greater one. */
  lemma {:induction false} SortStable(cols: seq<Column>, k: Column)
    ensures Only(SortColumns(cols), k) == Only(cols, k)
    decreases |cols|
  {
    if |cols| > 0 {
      SortStable(cols[1..], k);
      InsertOnly(cols[0], SortColumns(cols[1..]), k);
    }
  }

  /** Two rows with the same date and start time keep their input order. */
  lemma TiesKeepInputOrder(a: Column, b: Column)
    requires SameKey(a, b)
    ensures SortColumns([a, b]) == [a, b]
  {
    assert [a, b][1..] == [b];
    assert SortColumns([b]) == [b];
    SameKeyNotLess(b, a);
  }

  /** A sorted arrangement that keeps every key's rows in a given order is
      unique: two sorted permutations of the same rows with the same rows
      per key, in the same order, are equal. So SortColumns gives exactly
      the output of any stable sort by date and start time. */
  lemma {:induction false} StableSortIsUnique(a: seq<Column>, b: seq<Column>)
    requires Sorted(a) && Sorted(b) && multiset(a) == multiset(b)
    requires forall k :: Only(a, k) == Only(b, k)
    ensures a == b
    decreases |a|
  {
    assert |a| == |multiset(a)| == |multiset(b)| == |b|;
    if |a| > 0 {
      HeadsShareKey(a, b);
      var k := a[0];
      assert SameKey(a[0], k) && SameKey(b[0], k);
      assert Only(a, k)[0] == a[0];
      assert Only(b, k)[0] == b[0];
      assert a[0] == b[0];
      assert a == [a[0]] + a[1..] && b == [b[0]] + b[1..];
      calc {
        multiset(a[1..]);
        multiset(a) - multiset{a[0]};
        multiset(b) - multiset{b[0]};
        multiset(b[1..]);
      }
      forall x
        ensures Only(a[1..], x) == Only(b[1..], x)
      {
        var head := if SameKey(a[0], x) then [a[0]] else [];
        assert Only(a, x) == head + Only(a[1..], x);
        assert Only(b, x) == head + Only(b[1..], x);
        assert Only(a[1..], x) == Only(a, x)[|head|..];
        assert Only(b[1..], x) == Only(b, x)[|head|..];
      }
      StableSortIsUnique(a[1..], b[1..]);
    }
  }

  lemma SortedWithout(b: seq<Column>, j: nat)
    requires Sorted(b) && j < |b|
    ensures Sorted(b[..j] + b[j + 1..])
  {
    var b' := b[..j] + b[j + 1..];
    forall i, k | 0 <= i < k < |b'|
      ensures !ColumnLess(b'[k], b'[i])
    {
      var i0 := if i < j then i else i + 1;
      var k0 := if k < j then k else k + 1;
      assert b'[i] == b[i0] && b'[k] == b[k0];
    }
  }

  /** In sorted rows, every row between two rows with the same key has that key too. */
  lemma SortedRunShareKey(b: seq<Column>, j: nat, m: nat)
    requires Sorted(b) && m <= j < |b| && SameKey(b[0], b[j])
    ensures SameKey(b[m], b[0])
  {
    if 0 < m {
      assert !ColumnLess(b[m], b[0]);
      assert !ColumnLess(b[j], b[m]) by {
        if m < j {
        }
      }
      ColumnLessTotal(b[m], b[0]);
    }
  }

  lemma HeadsShareKey(a: seq<Column>, b: seq<Column>)
    requires Sorted(a) && Sorted(b) && multiset(a) == multiset(b) && |a| > 0 && |b| > 0
    ensures SameKey(a[0], b[0])
  {
    assert b[0] in multiset(a);
    var k :| 0 <= k < |a| && a[k] == b[0];
    assert a[0] in multiset(b);
    var j :| 0 <= j < |b| && b[j] == a[0];
    ColumnLessIrreflexive(a[0]);
    ColumnLessIrreflexive(b[0]);
    assert !ColumnLess(b[0], a[0]);
    assert !ColumnLess(a[0], b[0]);
    ColumnLessTotal(a[0], b[0]);
  }

  lemma WithoutFirst(a: seq<Column>, b: seq<Column>, j: nat)
    requires multiset(a) == multiset(b) && |a| > 0 && j < |b| && b[j] == a[0]
    ensures multiset(a[1..]) == multiset(b[..j] + b[j + 1..])
  {
    assert b == b[..j] + [b[j]] + b[j + 1..];
    assert a == [a[0]] + a[1..];
    calc {
      multiset(b[..j] + b[j + 1..]);
      multiset(b[..j]) + multiset(b[j + 1..]);
      multiset(b) - multiset{a[0]};
      multiset(a) - multiset{a[0]};
      multiset(a[1..]);
    }
  }

  lemma KeysLineUp(a: seq<Column>, b: seq<Column>, j: nat)
    requires Sorted(b) && |a| == |b| && j < |b| && b[j] == a[0] && SameKey(a[0], b[0])
    requires forall i :: 0 <= i < |a| - 1 ==> SameKey(a[1..][i], (b[..j] + b[j + 1..])[i])
    ensures forall i :: 0 <= i < |a| ==> SameKey(a[i], b[i])
  {
    var b' := b[..j] + b[j + 1..];
    forall i | 0 < i < |a|
      ensures SameKey(a[i], b[i])
    {
      assert SameKey(a[1..][i - 1], b'[i - 1]);
      if i <= j {
        assert a[1..][i - 1] == a[i] && b'[i - 1] == b[i - 1];
        SortedRunShareKey(b, j, i - 1);
        SortedRunShareKey(b, j, i);
      } else {
        assert a[1..][i - 1] == a[i] && b'[i - 1] == b[i];
      }
    }
  }

  /** Any two sorted arrangements of the same rows agree, position by
      position, on date and start time: the order sort.Slice leaves is fixed
      up to the order of rows with equal date and start time. */
  lemma {:induction false} SortedPermutationsAgree(a: seq<Column>, b: seq<Column>)
    requires Sorted(a) && Sorted(b) && multiset(a) == multiset(b)
    ensures |a| == |b|
    ensures forall i :: 0 <= i < |a| ==> SameKey(a[i], b[i])
    decreases |a|
  {
    assert |a| == |multiset(a)| == |multiset(b)| == |b|;
    if |a| > 0 {
      HeadsShareKey(a, b);
      assert a[0] in multiset(b);
      var j :| 0 <= j < |b| && b[j] == a[0];
      WithoutFirst(a, b, j);
      SortedWithout(b, j);
      SortedPermutationsAgree(a[1..], b[..j] + b[j + 1..]);
      KeysLineUp(a, b, j);
    }
  }

  /** A point in time to the minute: the precision the date and start time
      fields show. */
  function StartMinute(t: Timestamp): nat
    requires Valid(t)
  {
    DayNumber(t.date) * 1440 + ClockMinutes(t)
  }

  /** Comparing two built rows compares the starts of their events in time,
      to the minute: string order on the zero-padded fields is chronological
      order, across months, years and leap days. */
  lemma RowOrderIsChronological(e1: Event, e2: Event, name: string)
    requires e1.dtstart.Some? && e1.dtend.Some? && Accepted(e1.dtstart.value) && Accepted(e1.dtend.value)
    requires e2.dtstart.Some? && e2.dtend.Some? && Accepted(e2.dtstart.value) && Accepted(e2.dtend.value)
    ensures NewColumn(e1, name).Success? && NewColumn(e2, name).Success?
    ensures ColumnLess(NewColumn(e1, name).value, NewColumn(e2, name).value)
        <==> StartMinute(StartOf(e1)) < StartMinute(StartOf(e2))
  {
    var t1, t2 := StartOf(e1), StartOf(e2);
    NewColumnContract(e1, name);
    NewColumnContract(e2, name);
    ParseTimeCharacterised(e1.dtstart.value);
    ParseTimeCharacterised(e2.dtstart.value);
    var c1, c2 := NewColumn(e1, name).value, NewColumn(e2, name).value;
    assert c1.date == FormatDate(t1) && c1.startTime == FormatClock(t1);
    assert c2.date == FormatDate(t2) && c2.startTime == FormatClock(t2);
    DateOrderIsCalendarOrder(t1, t2);
    ClockOrderIsTimeOrder(t1, t2);
    DayNumberOrder(t1.date, t2.date);
  }
}
