/** The proleptic Gregorian calendar as Go's time package uses it: leap
    years, month lengths, and a count of days since 0000-01-01 from which
    time spans are taken. */
module Calendar {

  datatype Date = Date(year: nat, month: nat, day: nat)

  predicate IsLeap(y: nat) {
    y % 4 == 0 && (y % 100 != 0 || y % 400 == 0)
  }

  function DaysInYear(y: nat): nat {
    if IsLeap(y) then 366 else 365
  }

  /** Month lengths by the usual rule: thirty days have September, April,
      June and November; February has 29 days in a leap year. */
  function DaysIn(m: nat, y: nat): (n: nat)
    requires 1 <= m <= 12
    ensures 28 <= n <= 31
  {
    if m == 2 then (if IsLeap(y) then 29 else 28)
    else if m == 4 || m == 6 || m == 9 || m == 11 then 30
    else 31
  }

  predicate ValidDate(d: Date) {
    1 <= d.month <= 12 && 1 <= d.day <= DaysIn(d.month, d.year)
  }

  /** Days in the years before y in closed form: 365 a year plus one for
      every leap year among 0 .. y-1. Go's daysSinceEpoch reaches the same
      count by adding up 400-, 100- and 4-year cycles; DaysBeforeYearIsSum
      ties this form to the year lengths themselves. */
  function DaysBeforeYear(y: nat): nat {
    365 * y + (y + 3) / 4 - (y + 99) / 100 + (y + 399) / 400
  }

  /** Days in the months of year y before month m: Go's cumulative table for
      a common year, plus February 29 once March is reached in a leap year. */
  function DaysBeforeMonth(m: nat, y: nat): nat
    requires 1 <= m <= 12
  {
    var table := [0, 31, 59, 90, 120, 151, 181, 212, 243, 273, 304, 334];
    table[m - 1] + (if IsLeap(y) && m >= 3 then 1 else 0)
  }

  /** Days from 0000-01-01 to d. */
  function DayNumber(d: Date): nat
    requires 1 <= d.month <= 12 && 1 <= d.day
  {
    DaysBeforeYear(d.year) + DaysBeforeMonth(d.month, d.year) + (d.day - 1)
  }

  /** The closed form adds exactly the length of year y when going from y to y + 1. */
  lemma DaysBeforeNextYear(y: nat)
    ensures DaysBeforeYear(y + 1) == DaysBeforeYear(y) + DaysInYear(y)
  {
    MultiplesOf4(y);
    MultiplesOf100(y);
    MultiplesOf400(y);
    DivisibilityChain(y);
    var leapDays := (y + 3) / 4 - (y + 99) / 100 + (y + 399) / 400;
    var nextLeapDays := (y + 4) / 4 - (y + 100) / 100 + (y + 400) / 400;
    assert nextLeapDays == leapDays + (if IsLeap(y) then 1 else 0);
    assert DaysBeforeYear(y) == 365 * y + leapDays;
    assert DaysBeforeYear(y + 1) == 365 * y + 365 + nextLeapDays;
  }

  /** A multiple of 400 is a multiple of 100, and that of 4. */
  lemma DivisibilityChain(y: nat)
    ensures y % 400 == 0 ==> y % 100 == 0
    ensures y % 100 == 0 ==> y % 4 == 0
  {
    if y % 400 == 0 {
      var q := y / 400;
      assert y == 100 * (4 * q);
    }
    if y % 100 == 0 {
      var q := y / 100;
      assert y == 4 * (25 * q);
    }
  }

  /** (y + k - 1) / k counts the multiples of k among 0 .. y-1; going to
      y + 1 adds one exactly when y itself is a multiple. */
  lemma MultiplesOf4(y: nat)
    ensures (y + 4) / 4 == (y + 3) / 4 + (if y % 4 == 0 then 1 else 0)
  {
  }

  lemma MultiplesOf100(y: nat)
    ensures (y + 100) / 100 == (y + 99) / 100 + (if y % 100 == 0 then 1 else 0)
  {
  }

  lemma MultiplesOf400(y: nat)
    ensures (y + 400) / 400 == (y + 399) / 400 + (if y % 400 == 0 then 1 else 0)
  {
  }

  /** The reference count: year lengths summed one by one. */
  function SumOfYears(y: nat): nat {
    if y == 0 then 0 else SumOfYears(y - 1) + DaysInYear(y - 1)
  }

  /** Go's closed form for the days before a year equals summing the year
      lengths one by one. */
  lemma {:induction false} DaysBeforeYearIsSum(y: nat)
    ensures DaysBeforeYear(y) == SumOfYears(y)
  {
    if y > 0 {
      DaysBeforeYearIsSum(y - 1);
      DaysBeforeNextYear(y - 1);
    }
  }

  /** The month table agrees with the month lengths: each month starts where
      the previous one ends, and December ends with the year. */
  lemma MonthTableAgrees(m: nat, y: nat)
    requires 1 <= m <= 12
    ensures m < 12 ==> DaysBeforeMonth(m + 1, y) == DaysBeforeMonth(m, y) + DaysIn(m, y)
    ensures m == 12 ==> DaysBeforeMonth(m, y) + DaysIn(m, y) == DaysInYear(y)
  {
  }

  /** The calendar day after d. */
  function NextDate(d: Date): (r: Date)
    requires ValidDate(d)
    ensures ValidDate(r)
  {
    if d.day < DaysIn(d.month, d.year) then Date(d.year, d.month, d.day + 1)
    else if d.month < 12 then Date(d.year, d.month + 1, 1)
    else Date(d.year + 1, 1, 1)
  }

  /** Day numbers step by exactly one from a day to the next, across month
      ends, year ends and February 29 alike, so differences of day numbers
      count elapsed days. */
  lemma DayNumberNext(d: Date)
    requires ValidDate(d)
    ensures DayNumber(NextDate(d)) == DayNumber(d) + 1
  {
    MonthTableAgrees(d.month, d.year);
    if d.day == DaysIn(d.month, d.year) && d.month == 12 {
      DaysBeforeNextYear(d.year);
    }
  }

  /** Calendar order: by year, then month, then day. */
  predicate DateBefore(a: Date, b: Date) {
    a.year < b.year || (a.year == b.year && (a.month < b.month || (a.month == b.month && a.day < b.day)))
  }

  lemma {:induction false} DaysBeforeYearGrows(y1: nat, y2: nat)
    requires y1 < y2
    ensures DaysBeforeYear(y1) + DaysInYear(y1) <= DaysBeforeYear(y2)
    decreases y2 - y1
  {
    DaysBeforeNextYear(y1);
    if y1 + 1 < y2 {
      DaysBeforeYearGrows(y1 + 1, y2);
    }
  }

  lemma DaysBeforeMonthGrows(m1: nat, m2: nat, y: nat)
    requires 1 <= m1 < m2 <= 12
    ensures DaysBeforeMonth(m1, y) + DaysIn(m1, y) <= DaysBeforeMonth(m2, y)
  {
  }

  lemma DayWithinYear(d: Date)
    requires ValidDate(d)
    ensures DaysBeforeMonth(d.month, d.year) + d.day <= DaysInYear(d.year)
  {
    if d.month < 12 {
      DaysBeforeMonthGrows(d.month, 12, d.year);
    }
  }

  /** Day numbers order valid dates exactly as the calendar does. */
  lemma DayNumberOrder(a: Date, b: Date)
    requires ValidDate(a) && ValidDate(b)
    ensures DateBefore(a, b) <==> DayNumber(a) < DayNumber(b)
    ensures a == b <==> DayNumber(a) == DayNumber(b)
  {
    DayWithinYear(a);
    DayWithinYear(b);
    if a.year < b.year {
      DaysBeforeYearGrows(a.year, b.year);
    } else if b.year < a.year {
      DaysBeforeYearGrows(b.year, a.year);
    } else if a.month < b.month {
      DaysBeforeMonthGrows(a.month, b.month, a.year);
    } else if b.month < a.month {
      DaysBeforeMonthGrows(b.month, a.month, a.year);
    }
  }
}
