/** The dashboard: per-name totals of the records that fall in the selected month or
    year, the chart that shows one bar per name ever logged, and the buttons that move
    the selected date. */
module Dashboard {
  import opened Dates
  import opened Types

  datatype Timeframe = Monthly | Yearly

  /** One entry of the stats map: a name's total and the unit shown beside it. */
  datatype Stat = Stat(value: real, unit: string)

  /** Whether a record counts for the selected window: in monthly mode its date has the
      selected date's month and year (what comparing the two `format(_, 'MMM yyyy')`
      texts means from the year 1 on, see InMonthAsWritten); in yearly mode it lies
      between the start and the end of the selected year. */
  predicate InWindow(a: Activity, timeframe: Timeframe, selected: Date) {
    match timeframe
    case Monthly => MonthIndex(a.date) == MonthIndex(selected)
    case Yearly => Instant(StartOfYear(selected)) <= Instant(a.date) <= Instant(EndOfYear(selected))
  }

  lemma MonthlyWindow(a: Activity, selected: Date)
    requires 1 <= a.date.month <= 12 && 1 <= selected.month <= 12
    ensures InWindow(a, Monthly, selected)
            <==> a.date.year == selected.year && a.date.month == selected.month
  {
    MonthIndexIdentifiesMonth(a.date, selected);
  }

  /** The monthly test as written: the two `'MMM yyyy'` texts agree. */
  predicate InMonthAsWritten(a: Activity, selected: Date) {
    FormatMonth(a.date) == FormatMonth(selected)
  }

  /** A record of January 5 of the year 0 (1 BC) prints as "Jan 0001", so the text test
      counts it in January of the year 1, which is not its month. */
  lemma YearZeroPrintsAsYearOne()
    ensures var a := Activity("1", "Coffee", None, Date(0, 1, 5, 0), QuantityKind);
      InMonthAsWritten(a, Date(1, 1, 15, 0)) && !InWindow(a, Monthly, Date(1, 1, 15, 0))
  {
  }

  /** From the year 1 on, the text test and the month test agree. */
  lemma InMonthAsWrittenFromYearOne(a: Activity, selected: Date)
    requires 1 <= a.date.month <= 12 && 1 <= selected.month <= 12
    requires a.date.year >= 1 && selected.year >= 1
    ensures InMonthAsWritten(a, selected) <==> InWindow(a, Monthly, selected)
  {
    FormatMonthFromYearOne(a.date, selected);
  }

  lemma YearlyWindow(a: Activity, selected: Date)
    requires Valid(a.date)
    ensures InWindow(a, Yearly, selected) <==> a.date.year == selected.year
  {
    WithinYear(a.date, selected);
  }

  /** `filteredActivities`: the records in the window, in list order. */
  function InWindowActivities(acts: seq<Activity>, timeframe: Timeframe, selected: Date): (r: seq<Activity>)
    ensures forall a :: a in r <==> a in acts && InWindow(a, timeframe, selected)
    ensures |r| <= |acts|
  {
    if acts == [] then []
    else
      var front, a := acts[..|acts| - 1], acts[|acts| - 1];
      assert acts == front + [a];
      var p := InWindowActivities(front, timeframe, selected);
      if InWindow(a, timeframe, selected) then p + [a] else p
  }

  /** One more record is kept at the end exactly when it is in the window. */
  lemma InWindowActivitiesSnoc(acts: seq<Activity>, a: Activity, timeframe: Timeframe, selected: Date)
    ensures InWindowActivities(acts + [a], timeframe, selected)
            == InWindowActivities(acts, timeframe, selected) + (if InWindow(a, timeframe, selected) then [a] else [])
  {
    assert (acts + [a])[..|acts + [a]| - 1] == acts;
  }

  /** Filtering a concatenation filters each part: the kept records keep their order
      and their multiplicity. */
  lemma {:induction false} InWindowActivitiesConcat(s: seq<Activity>, t: seq<Activity>, timeframe: Timeframe, selected: Date)
    ensures InWindowActivities(s + t, timeframe, selected)
            == InWindowActivities(s, timeframe, selected) + InWindowActivities(t, timeframe, selected)
    decreases |t|
  {
    if t == [] {
      assert s + t == s;
    } else {
      var front, a := t[..|t| - 1], t[|t| - 1];
      var last := if InWindow(a, timeframe, selected) then [a] else [];
      assert t == front + [a];
      calc {
        InWindowActivities(s + t, timeframe, selected);
        { assert s + t == (s + front) + [a]; }
        InWindowActivities((s + front) + [a], timeframe, selected);
        { InWindowActivitiesSnoc(s + front, a, timeframe, selected); }
        InWindowActivities(s + front, timeframe, selected) + last;
        { InWindowActivitiesConcat(s, front, timeframe, selected); }
        InWindowActivities(s, timeframe, selected) + InWindowActivities(front, timeframe, selected) + last;
        { InWindowActivitiesSnoc(front, a, timeframe, selected); }
        InWindowActivities(s, timeframe, selected) + InWindowActivities(t, timeframe, selected);
      }
    }
  }

  /** A list wholly inside the window is kept as it is. */
  lemma {:induction false} InWindowActivitiesAllIn(acts: seq<Activity>, timeframe: Timeframe, selected: Date)
    requires forall a :: a in acts ==> InWindow(a, timeframe, selected)
    ensures InWindowActivities(acts, timeframe, selected) == acts
  {
    if acts != [] {
      var front := acts[..|acts| - 1];
      assert acts == front + [acts[|acts| - 1]];
      InWindowActivitiesAllIn(front, timeframe, selected);
    }
  }

  /** `activity.quantity?.value || 0`: a missing quantity or a NaN value counts as 0. */
  function Amount(a: Activity): real {
    match a.quantity
    case None => 0.0
    case Some(q) =>
      match q.value
      case NaN => 0.0
      case Finite(v) => v
  }

  /** `activity.quantity?.unit || ''` */
  function UnitOf(a: Activity): string {
    match a.quantity
    case None => ""
    case Some(q) => q.unit
  }

  /** Whether some record of the window has the name. */
  predicate HasRecord(acts: seq<Activity>, timeframe: Timeframe, selected: Date, name: string) {
    exists a :: a in acts && a.name == name && InWindow(a, timeframe, selected)
  }

  /** The sum of the amounts of the records of the window that have the name. */
  function WindowTotal(acts: seq<Activity>, timeframe: Timeframe, selected: Date, name: string): real {
    if acts == [] then 0.0
    else
      var a := acts[|acts| - 1];
      WindowTotal(acts[..|acts| - 1], timeframe, selected, name)
        + (if a.name == name && InWindow(a, timeframe, selected) then Amount(a) else 0.0)
  }

  /** The unit of the last record of the window that has the name ('' when none has). */
  function LastUnit(acts: seq<Activity>, timeframe: Timeframe, selected: Date, name: string): string {
    if acts == [] then ""
    else
      var a := acts[|acts| - 1];
      if a.name == name && InWindow(a, timeframe, selected) then UnitOf(a)
      else LastUnit(acts[..|acts| - 1], timeframe, selected, name)
  }

  /** A name with no record in the window has total 0 and no unit. */
  lemma {:induction false} NoRecordNoStat(acts: seq<Activity>, timeframe: Timeframe, selected: Date, name: string)
    requires !HasRecord(acts, timeframe, selected, name)
    ensures WindowTotal(acts, timeframe, selected, name) == 0.0
    ensures LastUnit(acts, timeframe, selected, name) == ""
  {
    if acts != [] {
      var front := acts[..|acts| - 1];
      assert forall a :: a in front ==> a in acts;
      NoRecordNoStat(front, timeframe, selected, name);
    }
  }

  /** The unit is that of the last record of the window with the name: no later record
      of the window has that name. */
  lemma {:induction false} LastUnitIsLast(acts: seq<Activity>, timeframe: Timeframe, selected: Date, name: string)
    requires HasRecord(acts, timeframe, selected, name)
    ensures exists k :: (0 <= k < |acts| && acts[k].name == name && InWindow(acts[k], timeframe, selected)
      && LastUnit(acts, timeframe, selected, name) == UnitOf(acts[k])
      && forall j :: k < j < |acts| ==> !(acts[j].name == name && InWindow(acts[j], timeframe, selected)))
  {
    var n := |acts| - 1;
    var a := acts[n];
    if a.name == name && InWindow(a, timeframe, selected) {
      assert LastUnit(acts, timeframe, selected, name) == UnitOf(acts[n]);
    } else {
      var front := acts[..n];
      assert acts == front + [a];
      assert HasRecord(front, timeframe, selected, name);
      LastUnitIsLast(front, timeframe, selected, name);
      var k :| 0 <= k < |front| && front[k].name == name && InWindow(front[k], timeframe, selected)
        && LastUnit(front, timeframe, selected, name) == UnitOf(front[k])
        && forall j :: k < j < |front| ==> !(front[j].name == name && InWindow(front[j], timeframe, selected));
      assert acts[k] == front[k];
    }
  }

  /** Records outside the window never change an entry: the totals and units of the
      filtered list are those of the whole list. */
  lemma {:induction false} FilterKeepsStats(acts: seq<Activity>, timeframe: Timeframe, selected: Date, name: string)
    ensures WindowTotal(InWindowActivities(acts, timeframe, selected), timeframe, selected, name)
            == WindowTotal(acts, timeframe, selected, name)
    ensures LastUnit(InWindowActivities(acts, timeframe, selected), timeframe, selected, name)
            == LastUnit(acts, timeframe, selected, name)
  {
    if acts != [] {
      var front, a := acts[..|acts| - 1], acts[|acts| - 1];
      FilterKeepsStats(front, timeframe, selected, name);
      var p := InWindowActivities(front, timeframe, selected);
      if InWindow(a, timeframe, selected) {
        assert (p + [a])[..|p + [a]| - 1] == p;
      }
    }
  }

  /** What one more record of the window does to a name's entry. */
  lemma StatsStep(done: seq<Activity>, a: Activity, timeframe: Timeframe, selected: Date, name: string)
    requires InWindow(a, timeframe, selected)
    ensures WindowTotal(done + [a], timeframe, selected, name)
            == WindowTotal(done, timeframe, selected, name) + (if a.name == name then Amount(a) else 0.0)
    ensures LastUnit(done + [a], timeframe, selected, name)
            == if a.name == name then UnitOf(a) else LastUnit(done, timeframe, selected, name)
    ensures HasRecord(done + [a], timeframe, selected, name)
            <==> HasRecord(done, timeframe, selected, name) || a.name == name
  {
    assert (done + [a])[..|done|] == done;
    assert forall b :: b in done + [a] <==> b in done || b == a;
  }

  /** The stats map describes the records of acts: a key for each name with a record in
      the window, holding that name's window total and last unit. */
  ghost predicate Summarises(stats: map<string, Stat>, acts: seq<Activity>, timeframe: Timeframe, selected: Date) {
    (forall name :: name in stats <==> HasRecord(acts, timeframe, selected, name))
    && forall name :: name in stats ==>
         stats[name] == Stat(WindowTotal(acts, timeframe, selected, name), LastUnit(acts, timeframe, selected, name))
  }

  /** One pass of the `forEach` body keeps the map describing the records seen so far. */
  lemma SummarisesStep(stats: map<string, Stat>, done: seq<Activity>, a: Activity, timeframe: Timeframe, selected: Date)
    requires Summarises(stats, done, timeframe, selected)
    requires InWindow(a, timeframe, selected)
    ensures Summarises(
      stats[a.name := Stat((if a.name in stats then stats[a.name].value else 0.0) + Amount(a), UnitOf(a))],
      done + [a], timeframe, selected)
  {
    var next := stats[a.name := Stat((if a.name in stats then stats[a.name].value else 0.0) + Amount(a), UnitOf(a))];
    forall name ensures name in next <==> HasRecord(done + [a], timeframe, selected, name) {
      StatsStep(done, a, timeframe, selected, name);
    }
    forall name | name in next
      ensures next[name] == Stat(WindowTotal(done + [a], timeframe, selected, name),
                                 LastUnit(done + [a], timeframe, selected, name))
    {
      StatsStep(done, a, timeframe, selected, name);
      if name == a.name && name !in stats {
        NoRecordNoStat(done, timeframe, selected, name);
      }
    }
  }

  /** The loop step of getActivityStats over a list of records of the window. */
  lemma SummarisesNext(stats: map<string, Stat>, filtered: seq<Activity>, i: nat, timeframe: Timeframe, selected: Date)
    requires i < |filtered| && forall a :: a in filtered ==> InWindow(a, timeframe, selected)
    requires Summarises(stats, filtered[..i], timeframe, selected)
    ensures var a := filtered[i];
      Summarises(stats[a.name := Stat((if a.name in stats then stats[a.name].value else 0.0) + Amount(a), UnitOf(a))],
        filtered[..i + 1], timeframe, selected)
  {
    assert filtered[i] in filtered;
    assert filtered[..i + 1] == filtered[..i] + [filtered[i]];
    SummarisesStep(stats, filtered[..i], filtered[i], timeframe, selected);
  }

  /** A map that describes the records of the window describes the whole list. */
  lemma FilterSummarises(stats: map<string, Stat>, acts: seq<Activity>, timeframe: Timeframe, selected: Date)
    requires Summarises(stats, InWindowActivities(acts, timeframe, selected), timeframe, selected)
    ensures Summarises(stats, acts, timeframe, selected)
  {
    var filtered := InWindowActivities(acts, timeframe, selected);
    forall name ensures WindowTotal(filtered, timeframe, selected, name) == WindowTotal(acts, timeframe, selected, name)
      && LastUnit(filtered, timeframe, selected, name) == LastUnit(acts, timeframe, selected, name)
      && (HasRecord(filtered, timeframe, selected, name) <==> HasRecord(acts, timeframe, selected, name))
    {
      FilterKeepsStats(acts, timeframe, selected, name);
    }
  }

  /** `getActivityStats`: folds the records of the window into a map from each name to
      its total and its last unit. */
  method GetActivityStats(acts: seq<Activity>, timeframe: Timeframe, selected: Date)
    returns (stats: map<string, Stat>)
    ensures forall name :: name in stats <==> HasRecord(acts, timeframe, selected, name)
    ensures forall name :: name in stats ==>
      stats[name] == Stat(WindowTotal(acts, timeframe, selected, name), LastUnit(acts, timeframe, selected, name))
  {
    var filtered := InWindowActivities(acts, timeframe, selected);
    stats := map[];
    var i := 0;
    while i < |filtered|
      invariant 0 <= i <= |filtered|
      invariant Summarises(stats, filtered[..i], timeframe, selected)
    {
      var activity := filtered[i];
      SummarisesNext(stats, filtered, i, timeframe, selected);
      var name := activity.name;
      var current := if name in stats then stats[name].value else 0.0;
      stats := stats[name := Stat(current + Amount(activity), UnitOf(activity))];
      i := i + 1;
    }
    assert filtered[..i] == filtered;
    FilterSummarises(stats, acts, timeframe, selected);
  }

  /** The chart: one label per name of the whole list, and for each the total of the
      window, or 0 when the window holds no record of that name. */
  method ChartData(acts: seq<Activity>, timeframe: Timeframe, selected: Date)
    returns (labels: seq<string>, data: seq<real>)
    ensures labels == ActivityNames(acts)
    ensures |data| == |labels|
    ensures forall i :: 0 <= i < |labels| ==> data[i] == WindowTotal(acts, timeframe, selected, labels[i])
  {
    var stats := GetActivityStats(acts, timeframe, selected);
    labels := ActivityNames(acts);
    data := seq(|labels|, i requires 0 <= i < |labels| =>
      if labels[i] in stats then stats[labels[i]].value else 0.0);
    forall i | 0 <= i < |labels| && labels[i] !in stats
      ensures WindowTotal(acts, timeframe, selected, labels[i]) == 0.0
    {
      NoRecordNoStat(acts, timeframe, selected, labels[i]);
    }
  }

  /** The totals of the first k months of a year. */
  function MonthsTotal(acts: seq<Activity>, year: int, name: string, k: nat): real {
    if k == 0 then 0.0
    else MonthsTotal(acts, year, name, k - 1) + WindowTotal(acts, Monthly, Date(year, k, 1, 0), name)
  }

  /** What the last record adds to the totals of the first k months. */
  lemma {:induction false} MonthsTotalOfLast(acts: seq<Activity>, year: int, name: string, k: nat)
    requires acts != [] && 1 <= acts[|acts| - 1].date.month <= 12 && k <= 12
    ensures var a := acts[|acts| - 1];
      MonthsTotal(acts, year, name, k)
      == MonthsTotal(acts[..|acts| - 1], year, name, k)
         + (if a.name == name && a.date.year == year && a.date.month <= k then Amount(a) else 0.0)
  {
    if k > 0 {
      MonthsTotalOfLast(acts, year, name, k - 1);
      MonthIndexIdentifiesMonth(acts[|acts| - 1].date, Date(year, k, 1, 0));
    }
  }

  lemma {:induction false} MonthsTotalOfNothing(year: int, name: string, k: nat)
    ensures MonthsTotal([], year, name, k) == 0.0
  {
    if k > 0 {
      MonthsTotalOfNothing(year, name, k - 1);
    }
  }

  /** A year's total is the sum of its twelve months' totals. */
  lemma {:induction false} YearIsSumOfMonths(acts: seq<Activity>, selected: Date, name: string)
    requires forall a :: a in acts ==> Valid(a.date)
    ensures WindowTotal(acts, Yearly, selected, name) == MonthsTotal(acts, selected.year, name, 12)
  {
    if acts == [] {
      MonthsTotalOfNothing(selected.year, name, 12);
    } else {
      var front, a := acts[..|acts| - 1], acts[|acts| - 1];
      assert forall b :: b in front ==> b in acts;
      assert a in acts;
      YearIsSumOfMonths(front, selected, name);
      MonthsTotalOfLast(acts, selected.year, name, 12);
      YearlyWindow(a, selected);
      assert WindowTotal(acts, Yearly, selected, name)
             == WindowTotal(front, Yearly, selected, name)
                + (if a.name == name && InWindow(a, Yearly, selected) then Amount(a) else 0.0);
    }
  }

  /** `new Date(year, 0, 1)`: the ECMAScript Date constructor reads a year from 0 to 99
      as 1900 plus that year. */
  function JanuaryFirst(year: int): (r: Date)
    ensures Valid(r) && r.month == 1 && r.day == 1 && r.ms == 0
    ensures r.year == year <==> !(0 <= year <= 99)
  {
    Date(if 0 <= year <= 99 then 1900 + year else year, 1, 1, 0)
  }

  /** `handleDateChange` as written: a month forward or back in monthly mode, January 1
      of the next or previous year in yearly mode, built with `new Date(year, 0, 1)`. */
  function DateChangeAsWritten(timeframe: Timeframe, selected: Date, increment: bool): (r: Date)
    requires Valid(selected)
    ensures Valid(r)
  {
    var step := if increment then 1 else -1;
    match timeframe
    case Monthly => AddMonths(selected, step)
    case Yearly => JanuaryFirst(selected.year + step)
  }

  /** Going back a year from the year 100 lands in 1999, not in 99. */
  lemma YearStepFrom100()
    ensures DateChangeAsWritten(Yearly, Date(100, 6, 15, 0), false) == Date(1999, 1, 1, 0)
  {
  }

  /** `handleDateChange` with the year taken as it is: the selected date moves one
      month, or to January 1 of the next or previous year. */
  function DateChange(timeframe: Timeframe, selected: Date, increment: bool): (r: Date)
    requires Valid(selected)
    ensures Valid(r)
    ensures timeframe == Monthly ==>
      MonthIndex(r) == MonthIndex(selected) + (if increment then 1 else -1) && r.ms == selected.ms
    ensures timeframe == Yearly ==>
      r.year == selected.year + (if increment then 1 else -1) && r.month == 1 && r.day == 1 && r.ms == 0
  {
    var step := if increment then 1 else -1;
    match timeframe
    case Monthly => AddMonths(selected, step)
    case Yearly => Date(selected.year + step, 1, 1, 0)
  }

  /** Outside the two-digit years the corrected step is the step as written. */
  lemma DateChangeAgreesBeyondTwoDigitYears(timeframe: Timeframe, selected: Date, increment: bool)
    requires Valid(selected)
    requires !(0 <= selected.year + (if increment then 1 else -1) <= 99)
    ensures DateChange(timeframe, selected, increment) == DateChangeAsWritten(timeframe, selected, increment)
  {
  }

  /** After a step the window is the next or previous month, or year. */
  lemma DateChangeMovesWindow(a: Activity, timeframe: Timeframe, selected: Date, increment: bool)
    requires Valid(a.date) && Valid(selected)
    ensures var step := if increment then 1 else -1;
      InWindow(a, timeframe, DateChange(timeframe, selected, increment))
      <==> (if timeframe == Monthly then MonthIndex(a.date) == MonthIndex(selected) + step
            else a.date.year == selected.year + step)
  {
    if timeframe == Yearly {
      YearlyWindow(a, DateChange(timeframe, selected, increment));
    }
  }

  /** A step forward and a step back return to the same window. */
  lemma DateChangeBackAndForth(a: Activity, timeframe: Timeframe, selected: Date)
    requires Valid(a.date) && Valid(selected)
    ensures InWindow(a, timeframe, DateChange(timeframe, DateChange(timeframe, selected, true), false))
            <==> InWindow(a, timeframe, selected)
  {
    var there := DateChange(timeframe, selected, true);
    DateChangeMovesWindow(a, timeframe, there, false);
    if timeframe == Yearly {
      YearlyWindow(a, selected);
    }
  }
}
