/**
 * The table the pipeline works on: one row per (location, date) pair, with
 * the eight columns the script keeps, and the column list of the frame.
 */
module Table {
  import opened Wrappers

  /** A calendar day, as an abstract, totally ordered day number. */
  type Date = int

  /**
   * A `date` cell: the text read from the file, a timestamp once the
   * column has been coerced, or NaT (missing, or text that did not parse).
   */
  datatype DateCell = Text(text: string) | Stamp(day: Date) | NaT

  datatype Row = Row(
    location: string,
    date: DateCell,
    totalCases: Option<int>,
    newCases: Option<int>,
    totalDeaths: Option<int>,
    newDeaths: Option<int>,
    totalVaccinations: Option<int>,
    population: Option<int>)

  /** The numeric columns of a row. */
  datatype Metric = TotalCases | NewCases | TotalDeaths | NewDeaths | TotalVaccinations | Population

  /** The column name of a metric in the file. */
  function Name(m: Metric): string {
    match m
    case TotalCases => "total_cases"
    case NewCases => "new_cases"
    case TotalDeaths => "total_deaths"
    case NewDeaths => "new_deaths"
    case TotalVaccinations => "total_vaccinations"
    case Population => "population"
  }

  function Get(r: Row, m: Metric): Option<int> {
    match m
    case TotalCases => r.totalCases
    case NewCases => r.newCases
    case TotalDeaths => r.totalDeaths
    case NewDeaths => r.newDeaths
    case TotalVaccinations => r.totalVaccinations
    case Population => r.population
  }

  /** The row with the cell of `m` replaced by `v`, and nothing else changed. */
  function Set(r: Row, m: Metric, v: Option<int>): (r': Row)
    ensures Get(r', m) == v
    ensures forall m' :: m' != m ==> Get(r', m') == Get(r, m')
    ensures r'.location == r.location && r'.date == r.date
  {
    match m
    case TotalCases => r.(totalCases := v)
    case NewCases => r.(newCases := v)
    case TotalDeaths => r.(totalDeaths := v)
    case NewDeaths => r.(newDeaths := v)
    case TotalVaccinations => r.(totalVaccinations := v)
    case Population => r.(population := v)
  }

  /** Two rows that agree on location, date and every metric are the same row. */
  lemma RowsEqual(a: Row, b: Row)
    requires a.location == b.location && a.date == b.date
    requires forall m :: Get(a, m) == Get(b, m)
    ensures a == b
  {
    assert Get(a, TotalCases) == Get(b, TotalCases);
    assert Get(a, NewCases) == Get(b, NewCases);
    assert Get(a, TotalDeaths) == Get(b, TotalDeaths);
    assert Get(a, NewDeaths) == Get(b, NewDeaths);
    assert Get(a, TotalVaccinations) == Get(b, TotalVaccinations);
    assert Get(a, Population) == Get(b, Population);
  }

  /**
   * The cells of a column the frame does not have are empty: a frame read
   * from a file without `date` has no dates, one without `population` no
   * populations.
   */
  ghost predicate Consistent(columns: seq<string>, rows: seq<Row>) {
    && ("date" !in columns ==> forall i :: 0 <= i < |rows| ==> rows[i].date == NaT)
    && forall m, i :: Name(m) !in columns && 0 <= i < |rows| ==> Get(rows[i], m) == None
  }

  /** A table made of rows of a consistent table is consistent with the same columns. */
  lemma ConsistentRowsOf(columns: seq<string>, rows: seq<Row>, part: seq<Row>)
    requires Consistent(columns, rows)
    requires forall k :: 0 <= k < |part| ==> part[k] in rows
    ensures Consistent(columns, part)
  {
    forall m, k | Name(m) !in columns && 0 <= k < |part| ensures Get(part[k], m) == None {
      var j :| 0 <= j < |rows| && rows[j] == part[k];
    }
    if "date" !in columns {
      forall k | 0 <= k < |part| ensures part[k].date == NaT {
        var j :| 0 <= j < |rows| && rows[j] == part[k];
      }
    }
  }

  /** Every row carries a timestamp: what cleaning leaves behind. */
  ghost predicate AllStamped(rows: seq<Row>) {
    forall i :: 0 <= i < |rows| ==> rows[i].date.Stamp?
  }

  /** The distinct locations of a table. */
  function Locations(rows: seq<Row>): set<string> {
    set r | r in rows :: r.location
  }

  lemma LocationsCons(rows: seq<Row>)
    requires rows != []
    ensures Locations(rows) == {rows[0].location} + Locations(rows[1..])
  {
    assert forall r :: r in rows <==> r == rows[0] || r in rows[1..];
  }

  /** The sum of a column with missing cells skipped, as a column sum does. */
  function ColumnSum(rows: seq<Row>, m: Metric): int {
    if rows == [] then 0 else Get(rows[0], m).GetOr(0) + ColumnSum(rows[1..], m)
  }

  /** `r` is `s` with some elements left out and the rest kept in order. */
  ghost predicate SubsequenceOf<T>(r: seq<T>, s: seq<T>)
    decreases |s|
  {
    if r == [] then true
    else if s == [] then false
    else (r[0] == s[0] && SubsequenceOf(r[1..], s[1..])) || SubsequenceOf(r, s[1..])
  }
}
