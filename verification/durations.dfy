/** Time spans: end.Sub(start) as a time.Duration (an int64 count of
    nanoseconds) and formatDuration's "HH:MM" rendering of it. */
module Durations {
  import opened Results
  import opened Digits
  import opened Calendar
  import opened Timestamps

  const Second: int := 1_000_000_000
  const Minute: int := 60 * Second
  const Hour: int := 60 * Minute
  const MinDuration: int := -0x8000_0000_0000_0000
  const MaxDuration: int := 0x7fff_ffff_ffff_ffff

  /** Seconds since midnight. */
  function ClockSeconds(t: Timestamp): nat {
    t.hour * 3600 + t.minute * 60 + t.second
  }

  /** Nanoseconds from 0000-01-01T00:00:00 UTC to t. */
  function Instant(t: Timestamp): int
    requires Valid(t)
  {
    (DayNumber(t.date) * 86400 + ClockSeconds(t)) * Second + t.nanos
  }

  /** end.Sub(start): the elapsed nanoseconds, or the nearest end of
      time.Duration's range when the span does not fit in 64 bits. */
  function Sub(end: Timestamp, start: Timestamp): (d: int)
    requires Valid(end) && Valid(start)
    ensures MinDuration <= d <= MaxDuration
    ensures var exact := Instant(end) - Instant(start);
      && (MinDuration <= exact <= MaxDuration ==> d == exact)
      && (MaxDuration < exact ==> d == MaxDuration)
      && (exact < MinDuration ==> d == MinDuration)
  {
    var d := Instant(end) - Instant(start);
    if d > MaxDuration then MaxDuration
    else if d < MinDuration then MinDuration
    else d
  }

  /** A span within one calendar day is the difference of the clocks. */
  lemma SubSameDay(end: Timestamp, start: Timestamp)
    requires Valid(end) && Valid(start) && end.date == start.date
    ensures Sub(end, start) == (ClockSeconds(end) - ClockSeconds(start)) * Second + end.nanos - start.nanos
  {
  }

  /** A span that runs past midnight into the next calendar day is the rest
      of the first day plus the clock of the second, whether the day ends a
      month, a year, or is February 28 or 29. */
  lemma SubAcrossMidnight(end: Timestamp, start: Timestamp)
    requires Valid(end) && Valid(start) && end.date == NextDate(start.date)
    ensures Sub(end, start)
         == (86400 - ClockSeconds(start) + ClockSeconds(end)) * Second + end.nanos - start.nanos
  {
    DayNumberNext(start.date);
  }

  /** Go's integer division, which truncates toward zero (Dafny's rounds down). */
  function Quot(a: int, b: int): (q: int)
    requires b > 0
    ensures a >= 0 ==> 0 <= q && q * b <= a < q * b + b
    ensures a < 0 ==> q <= 0 && q * b - b < a <= q * b
  {
    if a >= 0 then
      DivBounds(a, b);
      a / b
    else
      var n := -a;
      DivBounds(n, b);
      assert -(n / b) * b == -((n / b) * b);
      -(n / b)
  }

  /** Euclidean division of a natural number brackets it between multiples. */
  lemma DivBounds(a: int, b: int)
    requires a >= 0 && b > 0
    ensures 0 <= a / b && (a / b) * b <= a < (a / b) * b + b
  {
    var q, r := a / b, a % b;
    assert a == q * b + r && 0 <= r < b;
  }

  lemma QuotNested(a: int)
    ensures Quot(Quot(a, Minute), 60) == Quot(a, Hour)
  {
    if a >= 0 {
      assert a / Minute / 60 == a / Hour;
    } else {
      assert (-a) / Minute / 60 == (-a) / Hour;
    }
  }

  /** formatDuration's two numbers. int(d.Hours()) and int(d.Minutes())
      truncate toward zero; hours is the whole hours and minutes the whole
      minutes left over, both carrying the sign of the span. */
  function DurationFields(d: int): (r: (int, int))
    ensures r.0 == Quot(Quot(d, Minute), 60)
    ensures Quot(d, Minute) == 60 * r.0 + r.1
    ensures d >= 0 ==> 0 <= r.0 && 0 <= r.1 < 60
    ensures d < 0 ==> r.0 <= 0 && -60 < r.1 <= 0
  {
    QuotNested(d);
    var hours := Quot(d, Hour);
    var minutes := Quot(d, Minute) - hours * 60;
    (hours, minutes)
  }

  /** fmt's "%02d": at least two digits with zero padding; the sign of a
      negative number counts toward the width, so -5 prints as "-5". */
  function Pad2(n: int): string {
    if n < 0 then "-" + Decimal(-n)
    else if n < 10 then "0" + Decimal(n)
    else Decimal(n)
  }

  /** formatDuration. */
  function FormatDuration(d: int): string {
    var (hours, minutes) := DurationFields(d);
    Pad2(hours) + ":" + Pad2(minutes)
  }

  /** Reads "H...H:MM" back as its hours and minutes. */
  function ReadDuration(s: string): Option<(nat, nat)> {
    if |s| >= 5 && s[|s| - 3] == ':' && AllDigits(s[..|s| - 3]) && AllDigits(s[|s| - 2..])
    then Some((Value(s[..|s| - 3]), Value(s[|s| - 2..])))
    else None
  }

  lemma Pad2NonNegative(n: nat)
    ensures |Pad2(n)| >= 2 && AllDigits(Pad2(n)) && Value(Pad2(n)) == n
    ensures n < 100 ==> Pad2(n) == Fixed(n, 2)
  {
    if n < 10 {
      var s := Pad2(n);
      assert s[..1] == "0";
      assert s[..1][..0] == [];
      assert s == Fixed(n, 2);
    } else if n < 100 {
      FixedOfValue(Pad2(n));
    }
  }

  lemma ReadJoined(a: string, b: string)
    requires |a| >= 2 && AllDigits(a) && |b| == 2 && AllDigits(b)
    ensures ReadDuration(a + ":" + b) == Some((Value(a), Value(b)))
  {
    JoinedParts(a, b);
    ReadParts(a + ":" + b, a, b);
  }

  lemma JoinedParts(a: string, b: string)
    requires |b| == 2
    ensures var s := a + ":" + b;
      |s| == |a| + 3 && s[|s| - 3] == ':' && s[..|s| - 3] == a && s[|s| - 2..] == b
  {
  }

  lemma ReadParts(s: string, a: string, b: string)
    requires |s| >= 5 && s[|s| - 3] == ':' && s[..|s| - 3] == a && s[|s| - 2..] == b
    requires AllDigits(a) && AllDigits(b)
    ensures ReadDuration(s) == Some((Value(a), Value(b)))
  {
  }

  /** For a span that is not negative the text is the hours, zero-padded to
      two digits and otherwise without leading zeros, a colon and the
      minutes in two digits; it reads back as the span's whole minutes
      divided into hours and minutes 00-59: leftover seconds are dropped. */
  lemma DurationRoundTrip(d: int)
    requires d >= 0
    ensures var h, m := d / Minute / 60, d / Minute % 60;
      FormatDuration(d) == HoursText(h) + ":" + Fixed(m, 2)
    ensures ReadDuration(FormatDuration(d)) == Some((d / Minute / 60, d / Minute % 60))
  {
    ReadsBack(d);
    FormatNonNegative(d);
    HoursAndMinutes(d / Minute / 60, d / Minute % 60);
  }

  lemma ReadsBack(d: int)
    requires d >= 0
    ensures ReadDuration(FormatDuration(d)) == Some((d / Minute / 60, d / Minute % 60))
  {
    FormatNonNegative(d);
    HoursAndMinutes(d / Minute / 60, d / Minute % 60);
  }

  /** The printed form of hours and minutes 00-59 that are not negative. */
  lemma HoursAndMinutes(h: nat, m: nat)
    requires m < 60
    ensures Pad2(h) + ":" + Pad2(m) == HoursText(h) + ":" + Fixed(m, 2)
    ensures ReadDuration(Pad2(h) + ":" + Pad2(m)) == Some((h, m))
  {
    PaddedHours(h);
    Pad2NonNegative(h);
    Pad2NonNegative(m);
    ReadJoined(Pad2(h), Pad2(m));
  }

  /** Hours as %02d prints them when not negative: two digits below 100,
      otherwise the plain numeral. */
  function HoursText(h: nat): string {
    if h < 100 then Fixed(h, 2) else Decimal(h)
  }

  lemma PaddedHours(h: nat)
    ensures Pad2(h) == HoursText(h)
  {
    if h < 100 {
      Pad2NonNegative(h);
    }
  }

  lemma FormatNonNegative(d: int)
    requires d >= 0
    ensures FormatDuration(d) == Pad2(d / Minute / 60) + ":" + Pad2(d / Minute % 60)
  {
    FieldsOfNonNegative(d);
  }

  /** When the end is not before the start, and the two are less than about
      292 years apart, the printed span reads back as the whole minutes
      elapsed between them, split into hours and minutes. */
  lemma ElapsedMinutes(end: Timestamp, start: Timestamp)
    requires Valid(end) && Valid(start)
    requires Instant(start) <= Instant(end) <= Instant(start) + MaxDuration
    ensures var elapsed := (Instant(end) - Instant(start)) / Minute;
      ReadDuration(FormatDuration(Sub(end, start))) == Some((elapsed / 60, elapsed % 60))
  {
    var d := Sub(end, start);
    assert d == Instant(end) - Instant(start);
    ReadsBack(d);
  }

  lemma FieldsOfNonNegative(d: int)
    requires d >= 0
    ensures DurationFields(d) == (d / Minute / 60, d / Minute % 60)
  {
    var r := DurationFields(d);
    var t := d / Minute;
    assert Quot(d, Minute) == t;
    assert r.0 == Quot(t, 60) == t / 60;
  }

  /** Less than a minute shows as "00:00". */
  lemma UnderAMinute(d: int)
    requires 0 <= d < Minute
    ensures FormatDuration(d) == "00:00"
  {
    var r := DurationFields(d);
    assert Quot(d, Minute) == 0;
    assert r == (0, 0);
    assert Pad2(0) == "00";
  }

  /** A negative span is not rejected: hours and minutes both truncate
      toward zero, so a span of less than a minute still shows "00:00" and a
      longer one shows a minus sign. */
  lemma NegativeSpan(d: int)
    requires d < 0
    ensures d > -Minute ==> FormatDuration(d) == "00:00"
    ensures d <= -Minute ==> '-' in FormatDuration(d)
  {
    var (h, m) := DurationFields(d);
    if d > -Minute {
      assert Quot(d, Minute) == 0;
      assert Pad2(0) == "00";
    } else {
      assert h < 0 || m < 0;
      var s := FormatDuration(d);
      if h < 0 {
        assert s[0] == '-';
      } else {
        assert s[|Pad2(h)| + 1] == '-';
      }
    }
  }
}
