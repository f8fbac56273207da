/** Calendar dates as the dashboard and the entry form handle them: JavaScript `Date`
    values read in the user's local time zone, and the two date-fns steps the program
    uses (adding months, going to the start and end of a year). */
module Dates {

  /** Milliseconds in a calendar day. */
  const MsPerDay: int := 86_400_000

  /** A local calendar date: year, month (1 is January), day of the month and the
      milliseconds elapsed since local midnight. */
  datatype Date = Date(year: int, month: int, day: int, ms: int)

  predicate IsLeapYear(year: int) {
    year % 4 == 0 && (year % 100 != 0 || year % 400 == 0)
  }

  function DaysInMonth(year: int, month: int): (n: int)
    ensures 28 <= n <= 31
    ensures month == 2 ==> (n == 29 <==> IsLeapYear(year))
  {
    if month == 2 then (if IsLeapYear(year) then 29 else 28)
    else if month == 4 || month == 6 || month == 9 || month == 11 then 30
    else 31
  }

  /** The dates a JavaScript `Date` can denote. */
  predicate Valid(d: Date) {
    1 <= d.month <= 12 && 1 <= d.day <= DaysInMonth(d.year, d.month) && 0 <= d.ms < MsPerDay
  }

  function Min(a: int, b: int): int {
    if a <= b then a else b
  }

  /** Months elapsed since January of year 0: two dates have the same index exactly when
      they have the same year and month. */
  function MonthIndex(d: Date): int {
    d.year * 12 + (d.month - 1)
  }

  lemma MonthIndexIdentifiesMonth(a: Date, b: Date)
    requires 1 <= a.month <= 12 && 1 <= b.month <= 12
    ensures MonthIndex(a) == MonthIndex(b) <==> a.year == b.year && a.month == b.month
  {
    if MonthIndex(a) == MonthIndex(b) {
      assert (a.year - b.year) * 12 == b.month - a.month;
    }
  }

  /** The year date-fns's `yyyy` token writes: the year of the era, so the years 0, -1,
      -2, ... (1 BC, 2 BC, 3 BC, ...) are written as 1, 2, 3, ... */
  function EraYear(year: int): (e: int)
    ensures e >= 1
    ensures year >= 1 ==> e == year
  {
    if year > 0 then year else 1 - year
  }

  /** What `format(d, 'MMM yyyy')` writes, as the month it names and the year it prints. */
  datatype MonthText = MonthText(month: int, year: int)

  function FormatMonth(d: Date): MonthText {
    MonthText(d.month, EraYear(d.year))
  }

  /** From the year 1 on, two dates print the same month text exactly when they have the
      same month index. */
  lemma FormatMonthFromYearOne(a: Date, b: Date)
    requires 1 <= a.month <= 12 && 1 <= b.month <= 12
    requires a.year >= 1 && b.year >= 1
    ensures FormatMonth(a) == FormatMonth(b) <==> MonthIndex(a) == MonthIndex(b)
  {
    MonthIndexIdentifiesMonth(a, b);
  }

  /** Date order, field by field: the order of the instants the dates denote. */
  predicate Before(a: Date, b: Date) {
    a.year < b.year
    || (a.year == b.year && a.month < b.month)
    || (a.year == b.year && a.month == b.month && a.day < b.day)
    || (a.year == b.year && a.month == b.month && a.day == b.day && a.ms < b.ms)
  }

  /** A point on a time line that orders valid dates as time does: each month has a slot
      of 31 days. It stands for the millisecond timestamps that JavaScript compares. */
  function Instant(d: Date): int {
    ((d.year * 12 + (d.month - 1)) * 31 + (d.day - 1)) * 86_400_000 + d.ms
  }

  /** How far into its month slot a valid date lies. */
  lemma InstantSplit(d: Date)
    requires Valid(d)
    ensures Instant(d) == MonthIndex(d) * 2_678_400_000 + (d.day - 1) * 86_400_000 + d.ms
    ensures 0 <= (d.day - 1) * 86_400_000 + d.ms < 2_678_400_000
  {
  }

  lemma {:induction false} InstantOrder(a: Date, b: Date)
    requires Valid(a) && Valid(b)
    ensures Instant(a) < Instant(b) <==> Before(a, b)
  {
    InstantSplit(a);
    InstantSplit(b);
    var ra := (a.day - 1) * 86_400_000 + a.ms;
    var rb := (b.day - 1) * 86_400_000 + b.ms;
    if MonthIndex(a) < MonthIndex(b) {
      assert MonthIndex(a) * 2_678_400_000 + 2_678_400_000 <= MonthIndex(b) * 2_678_400_000;
      assert a.year < b.year || (a.year == b.year && a.month < b.month);
    } else if MonthIndex(a) > MonthIndex(b) {
      assert MonthIndex(b) * 2_678_400_000 + 2_678_400_000 <= MonthIndex(a) * 2_678_400_000;
      assert b.year < a.year || (a.year == b.year && b.month < a.month);
    } else {
      MonthIndexIdentifiesMonth(a, b);
    }
  }

  /** `startOfYear`: midnight at the start of January 1. */
  function StartOfYear(d: Date): (r: Date)
    ensures Valid(r) && r.year == d.year
    ensures forall e :: Valid(e) && e.year == d.year ==> !Before(e, r)
  {
    Date(d.year, 1, 1, 0)
  }

  /** `endOfYear`: the last millisecond of December 31. */
  function EndOfYear(d: Date): (r: Date)
    ensures Valid(r) && r.year == d.year
    ensures forall e :: Valid(e) && e.year == d.year ==> !Before(r, e)
  {
    Date(d.year, 12, 31, MsPerDay - 1)
  }

  /** A valid date lies between the start and the end of a year, both included, exactly
      when it falls in that calendar year. */
  lemma {:induction false} WithinYear(d: Date, selected: Date)
    requires Valid(d)
    ensures Instant(StartOfYear(selected)) <= Instant(d) <= Instant(EndOfYear(selected))
            <==> d.year == selected.year
  {
    InstantSplit(d);
    var y := selected.year;
    assert Instant(StartOfYear(selected)) == y * 12 * 2_678_400_000;
    assert Instant(EndOfYear(selected)) == y * 12 * 2_678_400_000 + 12 * 2_678_400_000 - 1;
    if d.year < y {
      assert MonthIndex(d) * 2_678_400_000 + 2_678_400_000 <= y * 12 * 2_678_400_000;
    } else if d.year > y {
      assert (y + 1) * 12 * 2_678_400_000 <= MonthIndex(d) * 2_678_400_000;
    }
  }

  /** date-fns `addMonths`: moves the date n months (backwards for negative n), keeps the
      time of day, and moves the day back to the last day of the target month when that
      month is shorter. */
  function AddMonths(d: Date, n: int): (r: Date)
    requires Valid(d)
    ensures Valid(r)
    ensures MonthIndex(r) == MonthIndex(d) + n
    ensures r.day == Min(d.day, DaysInMonth(r.year, r.month)) && r.ms == d.ms
  {
    var k := MonthIndex(d) + n;
    var year, month := k / 12, k % 12 + 1;
    Date(year, month, Min(d.day, DaysInMonth(year, month)), d.ms)
  }

  /** Going n months forward and n months back returns to the same month, and to the
      very same date when its day exists in every month. */
  lemma {:induction false} AddMonthsRoundTrip(d: Date, n: int)
    requires Valid(d)
    ensures MonthIndex(AddMonths(AddMonths(d, n), -n)) == MonthIndex(d)
    ensures d.day <= 28 ==> AddMonths(AddMonths(d, n), -n) == d
  {
    var r := AddMonths(AddMonths(d, n), -n);
    MonthIndexIdentifiesMonth(r, d);
  }
}
