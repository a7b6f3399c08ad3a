/**
 * The global time series: the table grouped by date, with `new_cases`,
 * `new_deaths` and `total_vaccinations` summed over each group.
 */
module Aggregate {
  import opened Wrappers
  import opened Table

  /** One row of the global series. */
  datatype DailyTotals = DailyTotals(date: Date, newCases: int, newDeaths: int, totalVaccinations: int)

  ghost predicate StrictlyIncreasing(ds: seq<Date>) {
    forall i, j :: 0 <= i < j < |ds| ==> ds[i] < ds[j]
  }

  /** Add `d` to a strictly increasing sequence of dates, unless it is there. */
  function InsertDate(ds: seq<Date>, d: Date): (r: seq<Date>)
    requires StrictlyIncreasing(ds)
    ensures StrictlyIncreasing(r)
    ensures forall x :: x in r <==> x in ds || x == d
  {
    if ds == [] then [d]
    else if d < ds[0] then [d] + ds
    else if d == ds[0] then ds
    else
      assert forall x :: x in ds[1..] ==> ds[0] < x;
      var rest := InsertDate(ds[1..], d);
      assert forall x :: x in rest ==> ds[0] < x;
      assert forall k :: 0 <= k < |rest| ==> ds[0] < rest[k] by {
        forall k | 0 <= k < |rest| ensures ds[0] < rest[k] {
          assert rest[k] in rest;
        }
      }
      [ds[0]] + rest
  }

  /** The dates the table has (a group key is never NaT). */
  ghost function StampedDates(rows: seq<Row>): set<Date> {
    set r | r in rows && r.date.Stamp? :: r.date.day
  }

  /** The group keys in ascending order, each once. */
  function DistinctDates(rows: seq<Row>): (r: seq<Date>)
    ensures StrictlyIncreasing(r)
    ensures forall d :: d in r <==> d in StampedDates(rows)
  {
    if rows == [] then []
    else
      assert forall x :: x in rows <==> x == rows[0] || x in rows[1..];
      var rest := DistinctDates(rows[1..]);
      if rows[0].date.Stamp? then InsertDate(rest, rows[0].date.day) else rest
  }

  /** The sum of a column over the rows of one date, missing values skipped. */
  function SumOn(rows: seq<Row>, d: Date, m: Metric): int {
    if rows == [] then 0
    else (if rows[0].date == Stamp(d) then Get(rows[0], m).GetOr(0) else 0) + SumOn(rows[1..], d, m)
  }

  /** The sum of a column over the rows whose date is in `ds`. */
  function SumOnDates(rows: seq<Row>, ds: set<Date>, m: Metric): int {
    if rows == [] then 0
    else
      var here := if rows[0].date.Stamp? && rows[0].date.day in ds then Get(rows[0], m).GetOr(0) else 0;
      here + SumOnDates(rows[1..], ds, m)
  }

  /** The series rows for the dates `ds`, in the order of `ds`. */
  function Totals(rows: seq<Row>, ds: seq<Date>): seq<DailyTotals> {
    seq(|ds|, i requires 0 <= i < |ds| =>
      DailyTotals(ds[i], SumOn(rows, ds[i], NewCases), SumOn(rows, ds[i], NewDeaths), SumOn(rows, ds[i], TotalVaccinations)))
  }

  /**
   * The global series (main.py:78): one row per date, in ascending date
   * order, with new cases, new deaths and vaccinations summed over the
   * rows of that date.
   */
  function GlobalData(rows: seq<Row>): seq<DailyTotals> {
    Totals(rows, DistinctDates(rows))
  }

  /** The three columns the series sums. */
  predicate Aggregated(m: Metric) {
    m == NewCases || m == NewDeaths || m == TotalVaccinations
  }

  function Column(t: DailyTotals, m: Metric): int
    requires Aggregated(m)
  {
    match m
    case NewCases => t.newCases
    case NewDeaths => t.newDeaths
    case TotalVaccinations => t.totalVaccinations
  }

  /** The sum of one column of the series. */
  function SeriesSum(g: seq<DailyTotals>, m: Metric): int
    requires Aggregated(m)
  {
    if g == [] then 0 else Column(g[0], m) + SeriesSum(g[1..], m)
  }

  /**
   * The series has one row per distinct date of the table, in ascending
   * date order, and each of its columns is the sum of that column over the
   * rows of the date.
   */
  lemma GlobalDataIsPerDateSum(rows: seq<Row>)
    ensures StrictlyIncreasing(seq(|GlobalData(rows)|, i requires 0 <= i < |GlobalData(rows)| => GlobalData(rows)[i].date))
    ensures forall d :: d in StampedDates(rows) <==> exists i :: 0 <= i < |GlobalData(rows)| && GlobalData(rows)[i].date == d
    ensures forall i, m :: 0 <= i < |GlobalData(rows)| && Aggregated(m) ==>
      Column(GlobalData(rows)[i], m) == SumOn(rows, GlobalData(rows)[i].date, m)
  {
    var ds := DistinctDates(rows);
    var g := GlobalData(rows);
    assert seq(|g|, i requires 0 <= i < |g| => g[i].date) == ds;
    forall d | d in StampedDates(rows) ensures exists i :: 0 <= i < |g| && g[i].date == d {
      var i :| 0 <= i < |ds| && ds[i] == d;
      assert g[i].date == d;
    }
  }

  /** Splitting one date off a set of dates splits the sum. */
  lemma {:induction false} SumOnDatesSplit(rows: seq<Row>, d: Date, ds: set<Date>, m: Metric)
    requires d !in ds
    ensures SumOnDates(rows, {d} + ds, m) == SumOn(rows, d, m) + SumOnDates(rows, ds, m)
  {
    if rows != [] {
      SumOnDatesSplit(rows[1..], d, ds, m);
    }
  }

  /** No dates, no sum. */
  lemma {:induction false} SumOnNoDates(rows: seq<Row>, m: Metric)
    ensures SumOnDates(rows, {}, m) == 0
  {
    if rows != [] {
      SumOnNoDates(rows[1..], m);
    }
  }

  /** Summing over a set of dates that covers every row sums the whole column. */
  lemma {:induction false} SumOnAllDates(rows: seq<Row>, ds: set<Date>, m: Metric)
    requires AllStamped(rows)
    requires StampedDates(rows) <= ds
    ensures SumOnDates(rows, ds, m) == ColumnSum(rows, m)
  {
    if rows != [] {
      assert rows[0] in rows;
      assert StampedDates(rows[1..]) <= StampedDates(rows) by {
        forall d | d in StampedDates(rows[1..]) ensures d in StampedDates(rows) {
          var r :| r in rows[1..] && r.date.Stamp? && r.date.day == d;
          assert r in rows;
        }
      }
      SumOnAllDates(rows[1..], ds, m);
    }
  }

  /** The series rows of distinct dates sum to the sum over those dates. */
  lemma {:induction false} SeriesSumOfTotals(rows: seq<Row>, ds: seq<Date>, m: Metric)
    requires Aggregated(m)
    requires StrictlyIncreasing(ds)
    ensures SeriesSum(Totals(rows, ds), m) == SumOnDates(rows, (set d | d in ds), m)
  {
    if ds == [] {
      assert (set d | d in ds) == {};
      SumOnNoDates(rows, m);
    } else {
      var t := Totals(rows, ds);
      assert t[1..] == Totals(rows, ds[1..]);
      SeriesSumOfTotals(rows, ds[1..], m);
      var tail := set d | d in ds[1..];
      assert (set d | d in ds) == {ds[0]} + tail;
      assert ds[0] !in tail;
      SumOnDatesSplit(rows, ds[0], tail, m);
    }
  }

  /**
   * Summing a column of the global series gives that column's sum over the
   * whole cleaned table: grouping by date neither loses nor counts twice.
   */
  lemma GlobalDataKeepsTotals(rows: seq<Row>, m: Metric)
    requires Aggregated(m)
    requires AllStamped(rows)
    ensures SeriesSum(GlobalData(rows), m) == ColumnSum(rows, m)
  {
    var ds := DistinctDates(rows);
    SeriesSumOfTotals(rows, ds, m);
    SumOnAllDates(rows, (set d | d in ds), m);
  }
}
