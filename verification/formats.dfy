/** The row's date and clock fields: Go's Format with the layouts
    "2006/01/02" and "15:04" applied to a parsed timestamp. */
module Formats {
  import opened Digits
  import opened Calendar
  import opened Timestamps
  import Lex

  /** t.Format("2006/01/02"). */
  function FormatDate(t: Timestamp): string
    requires Valid(t)
  {
    Fixed(t.date.year, 4) + "/" + Fixed(t.date.month, 2) + "/" + Fixed(t.date.day, 2)
  }

  /** t.Format("15:04"). */
  function FormatClock(t: Timestamp): string
    requires Valid(t)
  {
    Fixed(t.hour, 2) + ":" + Fixed(t.minute, 2)
  }

  /** The date of a parsed DTSTART is its first eight characters regrouped. */
  lemma DateRearranges(s: string)
    requires ParseTime(s).Success?
    ensures FormatDate(ParseTime(s).value) == s[0..4] + "/" + s[4..6] + "/" + s[6..8]
  {
    ParseTimeCharacterised(s);
    FixedOfValue(s[0..4]);
    FixedOfValue(s[4..6]);
    FixedOfValue(s[6..8]);
  }

  /** The clock of a parsed DTSTART or DTEND is its hour and minute digits
      around a colon; the seconds and any fraction are not shown. */
  lemma ClockRearranges(s: string)
    requires ParseTime(s).Success?
    ensures FormatClock(ParseTime(s).value) == s[9..11] + ":" + s[11..13]
  {
    ParseTimeCharacterised(s);
    FixedOfValue(s[9..11]);
    FixedOfValue(s[11..13]);
  }

  /** Comparing a fixed-width numeral followed by a separator compares the
      numbers first. */
  lemma FieldThenRest(n1: nat, n2: nat, w: nat, c: char, r1: string, r2: string)
    requires n1 < Pow10(w) && n2 < Pow10(w)
    ensures Lex.Less(Fixed(n1, w) + [c] + r1, Fixed(n2, w) + [c] + r2)
        <==> n1 < n2 || (n1 == n2 && Lex.Less(r1, r2))
    ensures Fixed(n1, w) + [c] + r1 == Fixed(n2, w) + [c] + r2 <==> n1 == n2 && r1 == r2
  {
    var a1, a2 := Fixed(n1, w) + [c], Fixed(n2, w) + [c];
    Lex.LessAppend(a1, r1, a2, r2);
    Lex.LessAppend(Fixed(n1, w), [c], Fixed(n2, w), [c]);
    Lex.LessIrreflexive([c]);
    Lex.FixedLess(n1, n2, w);
    FixedInjective(n1, n2, w);
    assert a1[..w] == Fixed(n1, w) && a2[..w] == Fixed(n2, w);
    if a1 + r1 == a2 + r2 {
      assert (a1 + r1)[..w + 1] == a1 && (a2 + r2)[..w + 1] == a2;
      assert (a1 + r1)[w + 1..] == r1 && (a2 + r2)[w + 1..] == r2;
    }
  }

  /** The formatted dates sort as strings exactly as the days do on the
      calendar, and two are equal only for the same day: zero padding to a
      fixed width makes string order numeric order. */
  lemma DateOrderIsCalendarOrder(t1: Timestamp, t2: Timestamp)
    requires Valid(t1) && Valid(t2)
    ensures Lex.Less(FormatDate(t1), FormatDate(t2)) <==> DayNumber(t1.date) < DayNumber(t2.date)
    ensures FormatDate(t1) == FormatDate(t2) <==> t1.date == t2.date
  {
    var d1, d2 := t1.date, t2.date;
    var rest1 := Fixed(d1.month, 2) + "/" + Fixed(d1.day, 2);
    var rest2 := Fixed(d2.month, 2) + "/" + Fixed(d2.day, 2);
    assert FormatDate(t1) == Fixed(d1.year, 4) + ['/'] + rest1;
    assert FormatDate(t2) == Fixed(d2.year, 4) + ['/'] + rest2;
    FieldThenRest(d1.year, d2.year, 4, '/', rest1, rest2);
    FieldThenRest(d1.month, d2.month, 2, '/', Fixed(d1.day, 2), Fixed(d2.day, 2));
    Lex.FixedLess(d1.day, d2.day, 2);
    FixedInjective(d1.day, d2.day, 2);
    DayNumberOrder(d1, d2);
  }

  /** Minutes since midnight shown by the clock field. */
  function ClockMinutes(t: Timestamp): nat {
    t.hour * 60 + t.minute
  }

  /** The formatted clocks sort as strings exactly as the times of day do,
      to the minute. */
  lemma ClockOrderIsTimeOrder(t1: Timestamp, t2: Timestamp)
    requires Valid(t1) && Valid(t2)
    ensures Lex.Less(FormatClock(t1), FormatClock(t2)) <==> ClockMinutes(t1) < ClockMinutes(t2)
    ensures FormatClock(t1) == FormatClock(t2) <==> ClockMinutes(t1) == ClockMinutes(t2)
  {
    FieldThenRest(t1.hour, t2.hour, 2, ':', Fixed(t1.minute, 2), Fixed(t2.minute, 2));
    Lex.FixedLess(t1.minute, t2.minute, 2);
    FixedInjective(t1.minute, t2.minute, 2);
  }
}
