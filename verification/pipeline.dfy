/**
 * The script's data pipeline from the file's rows to what the charts and
 * the summary lines show, in the order the script runs its steps.
 */
module Pipeline {
  import opened Wrappers
  import opened Table
  import opened Projection
  import opened Cleaning
  import opened Sorting
  import opened Snapshot
  import opened Ranking
  import opened Aggregate
  import opened Insights
  import opened Frames

  /** What the pipeline hands to the charts and the summary lines. */
  datatype Report = Report(
    cleaned: seq<Row>,                    // the cleaned full history
    snapshot: seq<Row>,                   // latest row per location
    topCases: seq<Row>,
    topDeaths: seq<Row>,
    global: seq<DailyTotals>,
    bubbles: seq<Row>,                    // the snapshot after the population fallback
    topVaccinations: Option<seq<Row>>,    // None: the vaccination chart is not drawn
    highestCases: Option<string>,
    highestDeaths: Option<string>,
    highestVaccinations: Option<string>)  // None when not reported, or no value

  /** The cleaned table, as a function of what was read from the file. */
  function Prepared(parse: string -> Option<Date>, columns: seq<string>, rows: seq<Row>): seq<Row> {
    var kept := AvailableColumns(columns);
    Clean(parse, PlaceholderColumns(kept), PlaceholderRows(kept, rows))
  }

  /** The column list of the cleaned table. */
  function PreparedColumns(columns: seq<string>): seq<string> {
    PlaceholderColumns(AvailableColumns(columns))
  }

  /** Every count column holds a value in every row. */
  ghost predicate Filled(rows: seq<Row>) {
    forall i, m :: 0 <= i < |rows| && m in FILL_METRICS ==> Get(rows[i], m).Some?
  }

  /** `location` is the name of a row of `s` holding the largest value of column m. */
  ghost predicate NamesHighest(s: seq<Row>, location: string, m: Metric) {
    exists k :: 0 <= k < |s| && s[k].location == location && IsHighest(s, k, m)
  }

  /**
   * On a file with the count columns, the cleaned table has a date in every
   * row and a value in every count cell, and stays consistent with its
   * columns.
   */
  lemma PreparedIsCleanAndFilled(parse: string -> Option<Date>, columns: seq<string>, rows: seq<Row>)
    requires "total_cases" in columns && "new_cases" in columns
    requires "total_deaths" in columns && "new_deaths" in columns
    ensures AllStamped(Prepared(parse, columns, rows))
    ensures Filled(Prepared(parse, columns, rows))
  {
    var cols := PreparedColumns(columns);
    var placed := PlaceholderRows(AvailableColumns(columns), rows);
    FillMetricsPrepared(columns);
    CleanIsIdempotent(parse, cols, placed);
    FillIsCompleteAndIdempotent(cols, KeepStamped(CoerceDates(parse, placed)));
  }

  /** A metric column of the file is a column of the cleaned table. */
  lemma KeptInPrepared(columns: seq<string>, m: Metric)
    requires Name(m) in columns
    ensures Name(m) in PreparedColumns(columns)
  {
    ProjectionKeepsMetricColumns(columns);
    PlaceholderAddsVaccinations(AvailableColumns(columns), []);
  }

  /** Every count column the fill loop visits is a column of the cleaned table. */
  lemma FillMetricsPrepared(columns: seq<string>)
    requires "total_cases" in columns && "new_cases" in columns
    requires "total_deaths" in columns && "new_deaths" in columns
    ensures forall m :: m in FILL_METRICS ==> Name(m) in PreparedColumns(columns)
  {
    KeptInPrepared(columns, TotalCases);
    KeptInPrepared(columns, NewCases);
    KeptInPrepared(columns, TotalDeaths);
    KeptInPrepared(columns, NewDeaths);
    PlaceholderAddsVaccinations(AvailableColumns(columns), []);
    assert Name(TotalVaccinations) in PreparedColumns(columns);
  }

  /**
   * The snapshot of a filled table is filled, and is empty only when the
   * table is.
   */
  lemma SnapshotIsFilled(cleaned: seq<Row>)
    requires Filled(cleaned)
    ensures Filled(Latest(cleaned))
    ensures |cleaned| > 0 ==> |Latest(cleaned)| > 0
  {
    var latest := Latest(cleaned);
    LatestIsLastRowPerLocation(cleaned);
    forall i, m | 0 <= i < |latest| && m in FILL_METRICS ensures Get(latest[i], m).Some? {
      var j :| 0 <= j < |cleaned| && cleaned[j] == latest[i];
    }
    if |cleaned| > 0 {
      assert cleaned[0].location in Locations(cleaned);
    }
  }

  /** The population fallback leaves the count cells of a filled snapshot filled. */
  lemma FallbackKeepsFilled(columns: seq<string>, snapshot: seq<Row>)
    requires Filled(snapshot)
    ensures Filled(PopulationRows(columns, snapshot))
  {
    PopulationFallbackSpec(columns, snapshot);
    assert Population !in FILL_METRICS;
  }

  /** The steps of the script up to and including the fill loop. */
  method Prepare(parse: string -> Option<Date>, columns: seq<string>, rows: seq<Row>)
      returns (cleanedColumns: seq<string>, cleaned: seq<Row>)
    requires Consistent(columns, rows)
    requires "date" in columns
    ensures cleanedColumns == PreparedColumns(columns)
    ensures cleaned == Prepared(parse, columns, rows)
    ensures Consistent(cleanedColumns, cleaned)
  {
    var df := new Dataset(columns, rows);
    df.Project();
    ProjectionKeepsSchemaColumns(columns, rows);
    assert COLUMNS_NEEDED[1] == "date";
    df.AddVaccinationPlaceholder();
    df.CoerceDates(parse);
    df.DropUndated();
    df.FillMissing();
    cleanedColumns, cleaned := df.columns, df.rows;
  }

  /**
   * Run the pipeline on the rows of the file. The file must have the
   * columns the script indexes without checking; the rest degrade to
   * placeholders.
   */
  method Analyse(parse: string -> Option<Date>, columns: seq<string>, rows: seq<Row>) returns (report: Report)
    requires Consistent(columns, rows)
    requires "location" in columns && "date" in columns
    requires "total_cases" in columns && "new_cases" in columns
    requires "total_deaths" in columns && "new_deaths" in columns
    ensures report.cleaned == Prepared(parse, columns, rows)
    ensures AllStamped(report.cleaned) && Filled(report.cleaned)
    ensures report.snapshot == Latest(report.cleaned)
    ensures report.topCases == Top(report.snapshot, TotalCases, TOP_COUNT)
    ensures report.topDeaths == Top(report.snapshot, TotalDeaths, TOP_COUNT)
    ensures report.global == GlobalData(report.cleaned)
    ensures report.bubbles == PopulationRows(PreparedColumns(columns), report.snapshot)
    ensures |report.bubbles| == |report.snapshot|
    ensures forall i :: 0 <= i < |report.bubbles| ==>
      report.bubbles[i].population.Some? && report.bubbles[i].population.value != 0
    ensures report.topVaccinations == TopVaccinations(report.cleaned, report.bubbles)
    ensures report.topVaccinations.Some? <==> VaccinationReported(report.cleaned)
    ensures report.topVaccinations.Some? ==>
      report.topVaccinations.value == Top(report.bubbles, TotalVaccinations, TOP_COUNT)
    ensures report.highestVaccinations.Some? <==> VaccinationReported(report.cleaned)
    ensures |report.snapshot| > 0 ==> report.highestCases.Some? && report.highestDeaths.Some?
    ensures report.highestCases.Some? ==> NamesHighest(report.bubbles, report.highestCases.value, TotalCases)
    ensures report.highestDeaths.Some? ==> NamesHighest(report.bubbles, report.highestDeaths.value, TotalDeaths)
    ensures report.highestVaccinations.Some? ==>
      NamesHighest(report.bubbles, report.highestVaccinations.value, TotalVaccinations)
  {
    var cols, cleaned := Prepare(parse, columns, rows);
    PreparedIsCleanAndFilled(parse, columns, rows);

    var latest := Latest(cleaned);
    LatestIsLastRowPerLocation(cleaned);
    ConsistentRowsOf(cols, cleaned, latest);
    var latestData := new Dataset(cols, latest);
    var topCases := Top(latest, TotalCases, TOP_COUNT);
    var topDeaths := Top(latest, TotalDeaths, TOP_COUNT);
    var global := GlobalData(cleaned);

    latestData.FillPopulation();
    var bubbles := latestData.rows;
    PopulationFallbackSpec(cols, latest);
    SnapshotIsFilled(cleaned);
    FallbackKeepsFilled(cols, latest);
    assert TotalCases in FILL_METRICS && TotalDeaths in FILL_METRICS && TotalVaccinations in FILL_METRICS;

    var reported := VaccinationReported(cleaned);
    assert reported ==> cleaned != [];
    var topVaccinations := TopVaccinations(cleaned, bubbles);
    var highestCases := Highest(bubbles, TotalCases);
    var highestDeaths := Highest(bubbles, TotalDeaths);
    var highestVaccinations := None;
    if reported {
      highestVaccinations := Highest(bubbles, TotalVaccinations);
    }
    report := Report(cleaned, latest, topCases, topDeaths, global, bubbles, topVaccinations,
                     highestCases, highestDeaths, highestVaccinations);
  }

  /** Without the column, no dated row holds a vaccination count before the fill. */
  lemma NoVaccinationsBeforeFill(parse: string -> Option<Date>, columns: seq<string>, rows: seq<Row>)
    requires "total_vaccinations" !in columns
    ensures forall i :: 0 <= i < |KeepStamped(CoerceDates(parse, PlaceholderRows(AvailableColumns(columns), rows)))| ==>
      KeepStamped(CoerceDates(parse, PlaceholderRows(AvailableColumns(columns), rows)))[i].totalVaccinations == None
  {
    var kept := AvailableColumns(columns);
    assert "total_vaccinations" !in kept;
    var placed := PlaceholderRows(kept, rows);
    PlaceholderAddsVaccinations(kept, rows);
    var coerced := CoerceDates(parse, placed);
    CoerceDatesSpec(parse, placed);
    var stamped := KeepStamped(coerced);
    KeepStampedSpec(coerced);
    forall i | 0 <= i < |stamped| ensures stamped[i].totalVaccinations == None {
      assert stamped[i] in multiset(stamped);
      var j :| 0 <= j < |coerced| && coerced[j] == stamped[i];
      assert Get(coerced[j], TotalVaccinations) == Get(placed[j], TotalVaccinations);
    }
  }

  /** Without the column, the fill loop writes a zero vaccination count into every row. */
  lemma NoVaccinationsAfterFill(parse: string -> Option<Date>, columns: seq<string>, rows: seq<Row>)
    requires "total_vaccinations" !in columns
    ensures forall i :: 0 <= i < |Prepared(parse, columns, rows)| ==>
      Prepared(parse, columns, rows)[i].totalVaccinations == Some(0)
  {
    var kept := AvailableColumns(columns);
    var stamped := KeepStamped(CoerceDates(parse, PlaceholderRows(kept, rows)));
    NoVaccinationsBeforeFill(parse, columns, rows);
    var cleaned := Prepared(parse, columns, rows);
    assert cleaned == FillColumns(PreparedColumns(columns), FILL_METRICS, stamped);
    FillColumnsSpec(PreparedColumns(columns), FILL_METRICS, stamped);
    PlaceholderAddsVaccinations(kept, rows);
    assert TotalVaccinations in FILL_METRICS;
    forall i | 0 <= i < |cleaned| ensures Get(cleaned[i], TotalVaccinations) == Some(0) {
      assert Get(stamped[i], TotalVaccinations) == None;
    }
  }

  /**
   * A file without a `total_vaccinations` column yields zero vaccinations
   * in every cleaned and every snapshot row, so no vaccination chart or
   * summary line is produced.
   */
  lemma NoVaccinationColumnReportsNothing(parse: string -> Option<Date>, columns: seq<string>, rows: seq<Row>)
    requires "total_vaccinations" !in columns
    ensures forall i :: 0 <= i < |Prepared(parse, columns, rows)| ==>
      Prepared(parse, columns, rows)[i].totalVaccinations == Some(0)
    ensures forall k :: 0 <= k < |Latest(Prepared(parse, columns, rows))| ==>
      Latest(Prepared(parse, columns, rows))[k].totalVaccinations == Some(0)
    ensures !VaccinationReported(Prepared(parse, columns, rows))
    ensures TopVaccinations(Prepared(parse, columns, rows), Latest(Prepared(parse, columns, rows))) == None
  {
    var cleaned := Prepared(parse, columns, rows);
    NoVaccinationsAfterFill(parse, columns, rows);
    forall i | 0 <= i < |cleaned| ensures Get(cleaned[i], TotalVaccinations) == Some(0) { }
    ZeroColumnSum(cleaned, TotalVaccinations);
    LatestIsLastRowPerLocation(cleaned);
  }
}
