/** parseTime: Go's time.Parse with the layout "20060102T150405", the basic
    DATE-TIME form of section 3.3.5 of RFC 5545 without the UTC "Z". */
module Timestamps {
  import opened Results
  import opened Digits
  import opened Calendar

  /** A parsed wall-clock time. The layout carries no zone, so Go places it in UTC. */
  datatype Timestamp = Timestamp(date: Date, hour: nat, minute: nat, second: nat, nanos: nat)

  /** The values a Go time.Time parsed from this layout can take. */
  predicate Valid(t: Timestamp) {
    && ValidDate(t.date) && t.date.year <= 9999
    && t.hour < 24 && t.minute < 60 && t.second < 60
    && t.nanos < 1_000_000_000
  }

  /** The element of the layout an error is about. */
  datatype Element = YearField | MonthField | DayField | HourField | MinuteField | SecondField

  datatype ParseError =
    | CannotParse(element: Element)   // the digits of this element are not where the layout expects them
    | CannotParseT                    // the literal 'T' between date and clock is missing
    | OutOfRange(field: Element)      // a month, day, hour, minute or second outside its range
    | ExtraText(rest: string)         // text left over after the seconds

  /** Go's getnum: a number of one or two leading digits; `fixed` (the
      zero-padded elements "01", "02", "04", "05") demands two. */
  function GetNum(s: string, fixed: bool): Option<(nat, string)> {
    if |s| == 0 || !IsDigit(s[0]) then None
    else if |s| < 2 || !IsDigit(s[1]) then
      (if fixed then None else Some((DigitValue(s[0]), s[1..])))
    else Some((DigitValue(s[0]) * 10 + DigitValue(s[1]), s[2..]))
  }

  /** Length of the run of digits s starts with. */
  function LeadingDigits(s: string): (n: nat)
    ensures n <= |s| && AllDigits(s[..n])
    ensures n < |s| ==> !IsDigit(s[n])
  {
    if |s| == 0 || !IsDigit(s[0]) then 0
    else
      var n := 1 + LeadingDigits(s[1..]);
      assert s[..n] == [s[0]] + s[1..][..n - 1];
      n
  }

  predicate IsSeparator(c: char) {
    c == '.' || c == ','
  }

  lemma MulBelow(v: nat, p: nat, q: nat)
    requires v < p && q >= 1
    ensures v * q < p * q
  {
  }

  /** The nanoseconds a run of fraction digits stands for: its first nine
      digits, scaled up when there are fewer. */
  function Nanos(run: string): (ns: nat)
    requires AllDigits(run)
    ensures ns < 1_000_000_000
  {
    var k := if |run| < 9 then |run| else 9;
    assert AllDigits(run[..k]);
    Pow10Add(k, 9 - k);
    MulBelow(Value(run[..k]), Pow10(k), Pow10(9 - k));
    Value(run[..k]) * Pow10(9 - k)
  }

  /** time.Parse accepts a fractional second right after the seconds even
      when the layout has none: '.' or ',' followed by a maximal run of
      digits. Otherwise nothing is consumed. */
  function Fraction(s: string): (r: (nat, string))
    ensures r.0 < 1_000_000_000
  {
    if |s| >= 2 && IsSeparator(s[0]) && IsDigit(s[1]) then
      var n := LeadingDigits(s[1..]);
      assert s[1..1 + n] == s[1..][..n];
      (Nanos(s[1..1 + n]), s[1 + n..])
    else (0, s)
  }

  /** parseTime. Elements are read left to right as Go does, failing at the
      first one that does not fit; the day is checked against the month only
      once the whole input has been read. */
  function ParseTime(s: string): (r: Result<Timestamp, ParseError>)
    ensures r.Success? ==> Valid(r.value)
  {
    if |s| < 4 || !AllDigits(s[..4]) then Failure(CannotParse(YearField))
    else
      var year := Value(s[..4]);
      match GetNum(s[4..], true)
      case None => Failure(CannotParse(MonthField))
      case Some((month, s1)) =>
        if month < 1 || 12 < month then Failure(OutOfRange(MonthField))
        else match GetNum(s1, true)
        case None => Failure(CannotParse(DayField))
        case Some((day, s2)) => ParseClock(s2, Date(year, month, day))
  }

  /** The part of parseTime from the 'T' to the seconds. */
  function ParseClock(s: string, date: Date): (r: Result<Timestamp, ParseError>)
    requires 1 <= date.month <= 12 && date.year <= 9999
    ensures r.Success? ==> Valid(r.value)
  {
    if |s| == 0 || s[0] != 'T' then Failure(CannotParseT)
    else match GetNum(s[1..], false)
    case None => Failure(CannotParse(HourField))
    case Some((hour, s3)) =>
      if 24 <= hour then Failure(OutOfRange(HourField))
      else match GetNum(s3, true)
      case None => Failure(CannotParse(MinuteField))
      case Some((minute, s4)) =>
        if 60 <= minute then Failure(OutOfRange(MinuteField))
        else match GetNum(s4, true)
        case None => Failure(CannotParse(SecondField))
        case Some((second, s5)) =>
          if 60 <= second then Failure(OutOfRange(SecondField))
          else Finish(s5, date, hour, minute, second)
  }

  /** The end of parseTime: an optional fraction, no extra text, and the day
      checked against the length of its month. */
  function Finish(s: string, date: Date, hour: nat, minute: nat, second: nat): (r: Result<Timestamp, ParseError>)
    requires 1 <= date.month <= 12 && date.year <= 9999
    requires hour < 24 && minute < 60 && second < 60
    ensures r.Success? ==> Valid(r.value)
  {
    var (nanos, rest) := Fraction(s);
    if |rest| != 0 then Failure(ExtraText(rest))
    else if date.day < 1 || DaysIn(date.month, date.year) < date.day then Failure(OutOfRange(DayField))
    else Success(Timestamp(date, hour, minute, second, nanos))
  }

  // ---------------------------------------------------------------------
  // The accepted inputs, described independently of the parser

  predicate IsFraction(f: string) {
    |f| >= 2 && IsSeparator(f[0]) && AllDigits(f[1..])
  }

  /** Eight digits, 'T', six digits, then nothing or a fractional second. */
  predicate Shaped(s: string) {
    && |s| >= 15
    && AllDigits(s[0..4]) && AllDigits(s[4..6]) && AllDigits(s[6..8])
    && s[8] == 'T'
    && AllDigits(s[9..11]) && AllDigits(s[11..13]) && AllDigits(s[13..15])
    && (|s| == 15 || IsFraction(s[15..]))
  }

  /** The timestamp a shaped input spells out, digit group by digit group. */
  function Fields(s: string): Timestamp
    requires Shaped(s)
  {
    Timestamp(Date(Value(s[0..4]), Value(s[4..6]), Value(s[6..8])),
              Value(s[9..11]), Value(s[11..13]), Value(s[13..15]),
              if |s| == 15 then 0 else Nanos(s[16..]))
  }

  /** Shaped, and every group within its calendar or clock range. */
  predicate Accepted(s: string) {
    Shaped(s) && Valid(Fields(s))
  }

  lemma TwoDigits(x: string)
    requires |x| == 2 && AllDigits(x)
    ensures Value(x) == DigitValue(x[0]) * 10 + DigitValue(x[1])
  {
    assert x[..1][..0] == [];
  }

  /** A zero-padded element reads exactly two digits. */
  lemma GetNumFixed(x: string)
    ensures GetNum(x, true).Some? <==> |x| >= 2 && AllDigits(x[..2])
    ensures GetNum(x, true).Some? ==> GetNum(x, true).value == (Value(x[..2]), x[2..])
  {
    if |x| >= 2 && AllDigits(x[..2]) {
      TwoDigits(x[..2]);
    }
    if |x| >= 2 && IsDigit(x[0]) && IsDigit(x[1]) {
      assert AllDigits(x[..2]);
    }
  }

  /** What the fractional-second step leaves behind is empty exactly when the
      text after the seconds is empty or a complete fraction. */
  lemma FractionConsumesAll(f: string)
    ensures Fraction(f).1 == [] <==> |f| == 0 || IsFraction(f)
    ensures Fraction(f).1 == [] && |f| > 0 ==> Fraction(f).0 == Nanos(f[1..])
  {
    if |f| >= 2 && IsSeparator(f[0]) && IsDigit(f[1]) {
      var n := LeadingDigits(f[1..]);
      if n == |f| - 1 {
        assert f[1..1 + n] == f[1..];
      }
    }
  }

  /** 'T', six digits, then nothing or a fraction: the text after the date. */
  predicate ClockShaped(x: string) {
    && |x| >= 7 && x[0] == 'T'
    && AllDigits(x[1..3]) && AllDigits(x[3..5]) && AllDigits(x[5..7])
    && (|x| == 7 || IsFraction(x[7..]))
  }

  function ClockFields(x: string, date: Date): Timestamp
    requires ClockShaped(x)
  {
    Timestamp(date, Value(x[1..3]), Value(x[3..5]), Value(x[5..7]), if |x| == 7 then 0 else Nanos(x[8..]))
  }

  lemma FinishCharacterised(x: string, date: Date, hour: nat, minute: nat, second: nat)
    requires 1 <= date.month <= 12 && date.year <= 9999
    requires hour < 24 && minute < 60 && second < 60
    ensures Finish(x, date, hour, minute, second).Success?
        <==> (|x| == 0 || IsFraction(x)) && ValidDate(date)
    ensures Finish(x, date, hour, minute, second).Success? ==>
        Finish(x, date, hour, minute, second).value
          == Timestamp(date, hour, minute, second, if |x| == 0 then 0 else Nanos(x[1..]))
  {
    FractionConsumesAll(x);
  }

  lemma ClockSound(x: string, date: Date)
    requires 1 <= date.month <= 12 && date.year <= 9999
    requires ParseClock(x, date).Success?
    ensures ClockShaped(x) && ParseClock(x, date).value == ClockFields(x, date)
  {
    var x3 := x[1..];
    // the hour takes two digits, or the minute that follows finds no digit
    assert |x3| >= 2 && IsDigit(x3[1]) by {
      if |x3| < 2 || !IsDigit(x3[1]) {
        GetNumFixed(x3[1..]);
        assert false;
      }
    }
    assert AllDigits(x[1..3]) by {
      assert x[1..3][0] == x3[0] && x[1..3][1] == x3[1];
    }
    TwoDigits(x[1..3]);
    var hour := Value(x[1..3]);
    var x4 := x[3..];
    assert x3[2..] == x4;
    GetNumFixed(x4);
    assert x4[..2] == x[3..5] && x4[2..] == x[5..];
    var x5 := x[5..];
    GetNumFixed(x5);
    assert x5[..2] == x[5..7] && x5[2..] == x[7..];
    FinishCharacterised(x[7..], date, hour, Value(x[3..5]), Value(x[5..7]));
    if |x| > 7 {
      assert x[7..][1..] == x[8..];
    }
  }

  lemma ClockComplete(x: string, date: Date)
    requires 1 <= date.month <= 12 && date.year <= 9999
    requires ClockShaped(x) && Valid(ClockFields(x, date))
    ensures ParseClock(x, date) == Success(ClockFields(x, date))
  {
    var x3 := x[1..];
    assert x3[..2] == x[1..3] && x3[2..] == x[3..];
    GetNumFixed(x3);
    TwoDigits(x[1..3]);
    var x4 := x[3..];
    assert x4[..2] == x[3..5] && x4[2..] == x[5..];
    GetNumFixed(x4);
    var x5 := x[5..];
    assert x5[..2] == x[5..7] && x5[2..] == x[7..];
    GetNumFixed(x5);
    FinishCharacterised(x[7..], date, Value(x[1..3]), Value(x[3..5]), Value(x[5..7]));
    if |x| > 7 {
      assert x[7..][1..] == x[8..];
    }
  }

  /** On a shaped clock part the result is decided by the ranges alone,
      checked in the order the layout reads them and the day last. */
  lemma ClockRanges(x: string, date: Date)
    requires 1 <= date.month <= 12 && date.year <= 9999
    requires ClockShaped(x)
    ensures var t := ClockFields(x, date);
      ParseClock(x, date)
        == if 24 <= t.hour then Failure(OutOfRange(HourField))
           else if 60 <= t.minute then Failure(OutOfRange(MinuteField))
           else if 60 <= t.second then Failure(OutOfRange(SecondField))
           else if !ValidDate(date) then Failure(OutOfRange(DayField))
           else Success(t)
  {
    var x3 := x[1..];
    assert x3[..2] == x[1..3] && x3[2..] == x[3..];
    GetNumFixed(x3);
    TwoDigits(x[1..3]);
    var x4 := x[3..];
    assert x4[..2] == x[3..5] && x4[2..] == x[5..];
    GetNumFixed(x4);
    var x5 := x[5..];
    assert x5[..2] == x[5..7] && x5[2..] == x[7..];
    GetNumFixed(x5);
    var t := ClockFields(x, date);
    if t.hour < 24 && t.minute < 60 && t.second < 60 {
      FinishCharacterised(x[7..], date, t.hour, t.minute, t.second);
      if |x| > 7 {
        assert x[7..][1..] == x[8..];
      }
    }
  }

  /** Shaped input splits into eight date digits and a shaped clock part. */
  lemma ShapedSplits(s: string)
    requires |s| >= 8
    ensures Shaped(s) <==>
      AllDigits(s[0..4]) && AllDigits(s[4..6]) && AllDigits(s[6..8]) && ClockShaped(s[8..])
    ensures Shaped(s) ==> Fields(s) == ClockFields(s[8..], Date(Value(s[0..4]), Value(s[4..6]), Value(s[6..8])))
  {
    var x := s[8..];
    if |s| >= 15 {
      assert x[1..3] == s[9..11] && x[3..5] == s[11..13] && x[5..7] == s[13..15];
      assert x[7..] == s[15..];
    }
    if |s| > 15 {
      assert x[8..] == s[16..];
    }
  }

  /** Everything a successful parse reveals about its input. */
  lemma ParseTimeSound(s: string)
    requires ParseTime(s).Success?
    ensures Accepted(s) && ParseTime(s).value == Fields(s)
  {
    assert s[..4] == s[0..4];
    var x1 := s[4..];
    GetNumFixed(x1);
    assert x1[..2] == s[4..6] && x1[2..] == s[6..];
    var x2 := s[6..];
    GetNumFixed(x2);
    assert x2[..2] == s[6..8] && x2[2..] == s[8..];
    var date := Date(Value(s[0..4]), Value(s[4..6]), Value(s[6..8]));
    ClockSound(s[8..], date);
    ShapedSplits(s);
  }

  /** Every accepted input parses, to the timestamp its digits spell. */
  lemma ParseTimeComplete(s: string)
    requires Accepted(s)
    ensures ParseTime(s) == Success(Fields(s))
  {
    assert s[..4] == s[0..4];
    var x1 := s[4..];
    assert x1[..2] == s[4..6] && x1[2..] == s[6..];
    GetNumFixed(x1);
    var x2 := s[6..];
    assert x2[..2] == s[6..8] && x2[2..] == s[8..];
    GetNumFixed(x2);
    var date := Date(Value(s[0..4]), Value(s[4..6]), Value(s[6..8]));
    ShapedSplits(s);
    ClockComplete(s[8..], date);
  }

  /** parseTime succeeds exactly on the accepted inputs, and then yields the
      timestamp their digits spell. */
  lemma ParseTimeCharacterised(s: string)
    ensures ParseTime(s).Success? <==> Accepted(s)
    ensures ParseTime(s).Success? ==> ParseTime(s).value == Fields(s)
  {
    if ParseTime(s).Success? {
      ParseTimeSound(s);
    }
    if Accepted(s) {
      ParseTimeComplete(s);
    }
  }

  /** On an input of the right shape, parseTime fails exactly when a group
      is out of its range, and then reports the first such group in the
      order month, hour, minute, second, with the day checked last. */
  lemma ShapedRanges(s: string)
    requires Shaped(s)
    ensures var t := Fields(s);
      ParseTime(s)
        == if t.date.month < 1 || 12 < t.date.month then Failure(OutOfRange(MonthField))
           else if 24 <= t.hour then Failure(OutOfRange(HourField))
           else if 60 <= t.minute then Failure(OutOfRange(MinuteField))
           else if 60 <= t.second then Failure(OutOfRange(SecondField))
           else if !ValidDate(t.date) then Failure(OutOfRange(DayField))
           else Success(t)
  {
    assert s[..4] == s[0..4];
    var x1 := s[4..];
    assert x1[..2] == s[4..6] && x1[2..] == s[6..];
    GetNumFixed(x1);
    var x2 := s[6..];
    assert x2[..2] == s[6..8] && x2[2..] == s[8..];
    GetNumFixed(x2);
    var date := Date(Value(s[0..4]), Value(s[4..6]), Value(s[6..8]));
    ShapedSplits(s);
    if 1 <= date.month <= 12 {
      ClockRanges(s[8..], date);
    }
  }

  /** The UTC form of RFC 5545 ("...T150405Z") is rejected: the layout has no zone. */
  lemma RejectsUtcForm(s: string)
    ensures ParseTime(s + "Z").Failure?
  {
    var x := s + "Z";
    ParseTimeCharacterised(x);
    assert x[|x| - 1] == 'Z';
    if |x| > 16 {
      assert x[15..][1..][|x| - 17] == x[|x| - 1];
    }
  }

  /** Text after a complete, in-range fifteen-character value is reported
      as extra text, unless it starts a fractional second; the UTC marker
      "Z" of RFC 5545 is such text. */
  lemma TrailingText(s: string, rest: string)
    requires |s| == 15 && Accepted(s)
    requires |rest| > 0 && !(|rest| >= 2 && IsSeparator(rest[0]) && IsDigit(rest[1]))
    ensures ParseTime(s + rest) == Failure(ExtraText(rest))
  {
    var u := s + rest;
    assert u[..4] == s[0..4];
    var x1 := u[4..];
    assert x1[..2] == s[4..6] && x1[2..] == u[6..];
    GetNumFixed(x1);
    var x2 := u[6..];
    assert x2[..2] == s[6..8] && x2[2..] == u[8..];
    GetNumFixed(x2);
    var x := u[8..];
    var x3 := x[1..];
    assert x[0] == s[8];
    assert x3[..2] == s[9..11] && x3[2..] == x[3..];
    GetNumFixed(x3);
    TwoDigits(s[9..11]);
    var x4 := x[3..];
    assert x4[..2] == s[11..13] && x4[2..] == x[5..];
    GetNumFixed(x4);
    var x5 := x[5..];
    assert x5[..2] == s[13..15] && x5[2..] == rest;
    GetNumFixed(x5);
  }

  /** Anything shorter than date, 'T' and clock is rejected, date-only values
      ("20240101") among them. */
  lemma RejectsShortInput(s: string)
    requires |s| < 15
    ensures ParseTime(s).Failure?
  {
    ParseTimeCharacterised(s);
  }

  /** The layout "20060102T150405" printed for t. */
  function Compact(t: Timestamp): string
    requires Valid(t)
  {
    Fixed(t.date.year, 4) + Fixed(t.date.month, 2) + Fixed(t.date.day, 2) + "T"
      + Fixed(t.hour, 2) + Fixed(t.minute, 2) + Fixed(t.second, 2)
  }

  /** Printing a timestamp in the layout and parsing it back gives the same
      timestamp, up to the fraction of a second the layout does not print. */
  lemma ParseCompact(t: Timestamp)
    requires Valid(t)
    ensures ParseTime(Compact(t)) == Success(t.(nanos := 0))
  {
    var s := Compact(t);
    assert s[0..4] == Fixed(t.date.year, 4);
    assert s[4..6] == Fixed(t.date.month, 2);
    assert s[6..8] == Fixed(t.date.day, 2);
    assert s[9..11] == Fixed(t.hour, 2);
    assert s[11..13] == Fixed(t.minute, 2);
    assert s[13..15] == Fixed(t.second, 2);
    assert Accepted(s);
    ParseTimeComplete(s);
  }
}
