/**
 * Narrowing the file to the fixed schema, and the empty vaccination column
 * added when the file has none.
 */
module Projection {
  import opened Wrappers
  import opened Table

  /** The columns the script keeps, in the order it keeps them. */
  const COLUMNS_NEEDED: seq<string> :=
    ["location", "date", "total_cases", "new_cases",
     "total_deaths", "new_deaths", "total_vaccinations", "population"]

  /**
   * The entries of `wanted` that occur in `present`, in the order of
   * `wanted`.
   */
  function Select(wanted: seq<string>, present: seq<string>): (r: seq<string>)
    ensures forall c :: c in r <==> c in wanted && c in present
    ensures SubsequenceOf(r, wanted)
  {
    if wanted == [] then []
    else if wanted[0] in present then [wanted[0]] + Select(wanted[1..], present)
    else Select(wanted[1..], present)
  }

  /** The columns of the schema that the file has. */
  function AvailableColumns(present: seq<string>): seq<string> {
    Select(COLUMNS_NEEDED, present)
  }

  lemma MetricNamesNeeded(m: Metric)
    ensures Name(m) in COLUMNS_NEEDED
  {
    match m
    case TotalCases => assert COLUMNS_NEEDED[2] == Name(m);
    case NewCases => assert COLUMNS_NEEDED[3] == Name(m);
    case TotalDeaths => assert COLUMNS_NEEDED[4] == Name(m);
    case NewDeaths => assert COLUMNS_NEEDED[5] == Name(m);
    case TotalVaccinations => assert COLUMNS_NEEDED[6] == Name(m);
    case Population => assert COLUMNS_NEEDED[7] == Name(m);
  }

  /** Every metric column, and `date`, survives projection exactly when the file has it. */
  lemma ProjectionKeepsMetricColumns(present: seq<string>)
    ensures forall m :: Name(m) in AvailableColumns(present) <==> Name(m) in present
    ensures ("date" in AvailableColumns(present)) == ("date" in present)
  {
    forall m ensures Name(m) in COLUMNS_NEEDED { MetricNamesNeeded(m); }
    assert COLUMNS_NEEDED[1] == "date";
  }

  /**
   * Projection keeps exactly the schema columns the file has, in schema
   * order; every metric column and `date` is kept exactly when the file has
   * it, so the cells of the table stay consistent with its column list.
   */
  lemma ProjectionKeepsSchemaColumns(present: seq<string>, rows: seq<Row>)
    requires Consistent(present, rows)
    ensures forall c :: c in AvailableColumns(present) <==> c in COLUMNS_NEEDED && c in present
    ensures SubsequenceOf(AvailableColumns(present), COLUMNS_NEEDED)
    ensures forall m :: Name(m) in AvailableColumns(present) <==> Name(m) in present
    ensures ("date" in AvailableColumns(present)) == ("date" in present)
    ensures Consistent(AvailableColumns(present), rows)
  {
    ProjectionKeepsMetricColumns(present);
  }

  /** Every row with its vaccination cell emptied. */
  function ClearVaccinations(rows: seq<Row>): seq<Row> {
    seq(|rows|, i requires 0 <= i < |rows| => Set(rows[i], TotalVaccinations, None))
  }

  /**
   * The column list after the vaccination placeholder step: unchanged when
   * the column exists, otherwise extended by it.
   */
  function PlaceholderColumns(columns: seq<string>): seq<string> {
    if "total_vaccinations" in columns then columns else columns + ["total_vaccinations"]
  }

  /** The rows after the placeholder step: an added column holds no values. */
  function PlaceholderRows(columns: seq<string>, rows: seq<Row>): seq<Row> {
    if "total_vaccinations" in columns then rows else ClearVaccinations(rows)
  }

  /**
   * After the placeholder step `total_vaccinations` is a column; when it was
   * missing, every row holds no vaccination count; an existing column is
   * left alone; no other cell changes.
   */
  lemma PlaceholderAddsVaccinations(columns: seq<string>, rows: seq<Row>)
    ensures "total_vaccinations" in PlaceholderColumns(columns)
    ensures forall c :: c in columns ==> c in PlaceholderColumns(columns)
    ensures |PlaceholderRows(columns, rows)| == |rows|
    ensures "total_vaccinations" !in columns ==>
      forall i :: 0 <= i < |rows| ==> Get(PlaceholderRows(columns, rows)[i], TotalVaccinations) == None
    ensures "total_vaccinations" in columns ==> PlaceholderRows(columns, rows) == rows
    ensures forall i, m :: 0 <= i < |rows| && m != TotalVaccinations ==>
      Get(PlaceholderRows(columns, rows)[i], m) == Get(rows[i], m)
    ensures forall i :: 0 <= i < |rows| ==>
      PlaceholderRows(columns, rows)[i].location == rows[i].location &&
      PlaceholderRows(columns, rows)[i].date == rows[i].date
  {
  }

  /** The placeholder step keeps the cells consistent with the column list. */
  lemma PlaceholderKeepsConsistent(columns: seq<string>, rows: seq<Row>)
    requires Consistent(columns, rows)
    ensures Consistent(PlaceholderColumns(columns), PlaceholderRows(columns, rows))
  {
    PlaceholderAddsVaccinations(columns, rows);
    var cs, rs := PlaceholderColumns(columns), PlaceholderRows(columns, rows);
    forall m, i | Name(m) !in cs && 0 <= i < |rs| ensures Get(rs[i], m) == None {
      assert Name(m) !in columns;
    }
  }
}
