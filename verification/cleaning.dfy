/**
 * Cleaning: coerce the `date` column to timestamps, drop the rows whose
 * date did not parse, and fill the missing cells of the count columns
 * with zero.
 */
module Cleaning {
  import opened Wrappers
  import opened Table

  /**
   * Coercion of one date cell. `parse` stands for the permissive,
   * mixed-format date parser: `None` is a string it cannot read. A cell
   * that already holds a timestamp, or NaT, is left as it is.
   */
  function CoerceCell(parse: string -> Option<Date>, c: DateCell): DateCell {
    match c
    case Text(s) => (match parse(s) case Some(d) => Stamp(d) case None => NaT)
    case _ => c
  }

  function CoerceDates(parse: string -> Option<Date>, rows: seq<Row>): seq<Row> {
    seq(|rows|, i requires 0 <= i < |rows| => rows[i].(date := CoerceCell(parse, rows[i].date)))
  }

  /**
   * After coercion no date cell holds text; a cell becomes a timestamp
   * exactly when it was one or its text parses; a parsed text becomes the
   * parser's day and a timestamp is kept; nothing else changes, and
   * coercing again changes nothing.
   */
  lemma CoerceDatesSpec(parse: string -> Option<Date>, rows: seq<Row>)
    ensures |CoerceDates(parse, rows)| == |rows|
    ensures forall i :: 0 <= i < |rows| ==> !CoerceDates(parse, rows)[i].date.Text?
    ensures forall i :: 0 <= i < |rows| ==>
      (CoerceDates(parse, rows)[i].date.Stamp? <==>
         rows[i].date.Stamp? || (rows[i].date.Text? && parse(rows[i].date.text).Some?))
    ensures forall i :: 0 <= i < |rows| && rows[i].date.Text? && parse(rows[i].date.text).Some? ==>
      CoerceDates(parse, rows)[i].date == Stamp(parse(rows[i].date.text).value)
    ensures forall i :: 0 <= i < |rows| && rows[i].date.Stamp? ==> CoerceDates(parse, rows)[i].date == rows[i].date
    ensures forall i, m :: 0 <= i < |rows| ==> Get(CoerceDates(parse, rows)[i], m) == Get(rows[i], m)
    ensures forall i :: 0 <= i < |rows| ==> CoerceDates(parse, rows)[i].location == rows[i].location
    ensures CoerceDates(parse, CoerceDates(parse, rows)) == CoerceDates(parse, rows)
  {
  }

  /** The rows that carry a timestamp, in their original order. */
  function KeepStamped(rows: seq<Row>): (r: seq<Row>)
    ensures AllStamped(r)
  {
    if rows == [] then []
    else if rows[0].date.Stamp? then [rows[0]] + KeepStamped(rows[1..])
    else KeepStamped(rows[1..])
  }

  /**
   * Dropping the rows without a date keeps exactly the stamped rows, each as
   * often as it occurs, in their original relative order, and keeps a table
   * that is already fully stamped as it is.
   */
  lemma KeepStampedSpec(rows: seq<Row>)
    ensures AllStamped(KeepStamped(rows))
    ensures SubsequenceOf(KeepStamped(rows), rows)
    ensures forall x :: multiset(KeepStamped(rows))[x] == if x.date.Stamp? then multiset(rows)[x] else 0
    ensures AllStamped(rows) ==> KeepStamped(rows) == rows
  {
    KeepStampedIsSubsequence(rows);
    KeepStampedCounts(rows);
    KeepStampedOfStamped(rows);
  }

  /** The kept rows appear in the table in the same order. */
  lemma {:induction false} KeepStampedIsSubsequence(rows: seq<Row>)
    ensures SubsequenceOf(KeepStamped(rows), rows)
  {
    if rows != [] {
      KeepStampedIsSubsequence(rows[1..]);
      if rows[0].date.Stamp? {
        var r := KeepStamped(rows);
        assert r[0] == rows[0] && r[1..] == KeepStamped(rows[1..]);
      }
    }
  }

  /** A dated row is kept as often as it occurs; an undated one never. */
  lemma {:induction false} KeepStampedCounts(rows: seq<Row>)
    ensures forall x :: multiset(KeepStamped(rows))[x] == if x.date.Stamp? then multiset(rows)[x] else 0
  {
    if rows != [] {
      KeepStampedCounts(rows[1..]);
      assert rows == [rows[0]] + rows[1..];
      assert multiset(rows) == multiset{rows[0]} + multiset(rows[1..]);
    }
  }

  /** A fully dated table is kept whole. */
  lemma {:induction false} KeepStampedOfStamped(rows: seq<Row>)
    ensures AllStamped(rows) ==> KeepStamped(rows) == rows
  {
    if rows != [] {
      KeepStampedOfStamped(rows[1..]);
      assert AllStamped(rows) ==> AllStamped(rows[1..]);
      assert rows == [rows[0]] + rows[1..];
    }
  }

  /** A table without dates loses every row. */
  lemma {:induction false} KeepStampedOfUndated(rows: seq<Row>)
    requires forall i :: 0 <= i < |rows| ==> rows[i].date == NaT
    ensures KeepStamped(rows) == []
  {
    if rows != [] {
      KeepStampedOfUndated(rows[1..]);
    }
  }

  /** Coercion keeps the cells consistent with the column list: it touches only dates, and NaT stays NaT. */
  lemma CoerceKeepsConsistent(parse: string -> Option<Date>, columns: seq<string>, rows: seq<Row>)
    requires Consistent(columns, rows)
    ensures Consistent(columns, CoerceDates(parse, rows))
  {
    CoerceDatesSpec(parse, rows);
  }

  /** The row drop keeps the cells consistent with the column list. */
  lemma DropKeepsConsistent(columns: seq<string>, rows: seq<Row>)
    requires Consistent(columns, rows)
    ensures Consistent(columns, KeepStamped(rows))
  {
    KeepStampedSpec(rows);
    var kept := KeepStamped(rows);
    forall i | 0 <= i < |kept| ensures kept[i] in rows {
      assert kept[i] in multiset(kept);
    }
    if "date" !in columns {
      KeepStampedOfUndated(rows);
    }
    forall m, i | Name(m) !in columns && 0 <= i < |kept| ensures Get(kept[i], m) == None {
      var j :| 0 <= j < |rows| && rows[j] == kept[i];
    }
  }

  /** A row outlives coercion and the drop: its date is a timestamp or text the parser reads. */
  predicate Survives(parse: string -> Option<Date>, r: Row) {
    r.date.Stamp? || (r.date.Text? && parse(r.date.text).Some?)
  }

  /** The rows of the file that outlive cleaning, in their original order. */
  function Surviving(parse: string -> Option<Date>, rows: seq<Row>): seq<Row> {
    if rows == [] then []
    else if Survives(parse, rows[0]) then [rows[0]] + Surviving(parse, rows[1..])
    else Surviving(parse, rows[1..])
  }

  /**
   * Coercion followed by the drop keeps exactly the rows whose date is a
   * timestamp or parses, in their original order, each with its date
   * coerced.
   */
  lemma {:induction false} CoerceThenDropKeepsSurviving(parse: string -> Option<Date>, rows: seq<Row>)
    ensures KeepStamped(CoerceDates(parse, rows)) == CoerceDates(parse, Surviving(parse, rows))
  {
    if rows != [] {
      CoerceThenDropKeepsSurviving(parse, rows[1..]);
      var coerced := CoerceDates(parse, rows);
      assert coerced[1..] == CoerceDates(parse, rows[1..]);
      assert coerced[0].date.Stamp? <==> Survives(parse, rows[0]);
      if Survives(parse, rows[0]) {
        var s := Surviving(parse, rows);
        assert s == [rows[0]] + Surviving(parse, rows[1..]);
        assert s[1..] == Surviving(parse, rows[1..]);
        assert CoerceDates(parse, s) == [coerced[0]] + CoerceDates(parse, s[1..]);
      }
    }
  }

  /** The count columns the fill loop visits, in its order. */
  const FILL_METRICS: seq<Metric> := [TotalCases, NewCases, TotalDeaths, NewDeaths, TotalVaccinations]

  function FillCell(r: Row, m: Metric): Row {
    if Get(r, m) == None then Set(r, m, Some(0)) else r
  }

  /** One column with its missing cells replaced by zero. */
  function FillColumn(rows: seq<Row>, m: Metric): seq<Row> {
    seq(|rows|, i requires 0 <= i < |rows| => FillCell(rows[i], m))
  }

  /**
   * The fill loop over the count columns `ms`: each one the frame has
   * gets its missing cells set to zero; one it lacks is skipped.
   */
  function FillColumns(columns: seq<string>, ms: seq<Metric>, rows: seq<Row>): seq<Row>
    decreases |ms|
  {
    if ms == [] then rows
    else
      var before := FillColumns(columns, ms[..|ms| - 1], rows);
      var m := ms[|ms| - 1];
      if Name(m) in columns then FillColumn(before, m) else before
  }

  /**
   * The fill replaces a cell by zero exactly when it is missing and its
   * column is one of `ms` that the frame has; every other cell, and every
   * location and date, is unchanged.
   */
  lemma {:induction false} FillColumnsSpec(columns: seq<string>, ms: seq<Metric>, rows: seq<Row>)
    decreases |ms|
    ensures |FillColumns(columns, ms, rows)| == |rows|
    ensures forall i, m :: 0 <= i < |rows| ==>
      Get(FillColumns(columns, ms, rows)[i], m) ==
        if m in ms && Name(m) in columns && Get(rows[i], m) == None then Some(0) else Get(rows[i], m)
    ensures forall i :: 0 <= i < |rows| ==>
      FillColumns(columns, ms, rows)[i].location == rows[i].location &&
      FillColumns(columns, ms, rows)[i].date == rows[i].date
  {
    if ms != [] {
      var init, m := ms[..|ms| - 1], ms[|ms| - 1];
      assert ms == init + [m];
      FillColumnsSpec(columns, init, rows);
    }
  }

  /**
   * After the fill no filled column has a missing cell, present values are
   * kept, the columns the loop does not visit are untouched, and filling
   * again changes nothing.
   */
  lemma FillIsCompleteAndIdempotent(columns: seq<string>, rows: seq<Row>)
    ensures var filled := FillColumns(columns, FILL_METRICS, rows);
      && |filled| == |rows|
      && (forall i, m :: 0 <= i < |rows| && m in FILL_METRICS && Name(m) in columns ==> Get(filled[i], m).Some?)
      && (forall i, m :: 0 <= i < |rows| && Get(rows[i], m).Some? ==> Get(filled[i], m) == Get(rows[i], m))
      && (forall i :: 0 <= i < |rows| ==> Get(filled[i], Population) == Get(rows[i], Population))
      && FillColumns(columns, FILL_METRICS, filled) == filled
  {
    var filled := FillColumns(columns, FILL_METRICS, rows);
    FillColumnsSpec(columns, FILL_METRICS, rows);
    assert Population !in FILL_METRICS;
    forall i, m | 0 <= i < |rows| && Get(rows[i], m).Some? ensures Get(filled[i], m) == Get(rows[i], m) {
      assert Get(rows[i], m) != None;
      assert Get(filled[i], m) ==
        if m in FILL_METRICS && Name(m) in columns && Get(rows[i], m) == None then Some(0) else Get(rows[i], m);
    }
    var again := FillColumns(columns, FILL_METRICS, filled);
    FillColumnsSpec(columns, FILL_METRICS, filled);
    forall i | 0 <= i < |rows| ensures again[i] == filled[i] {
      forall m ensures Get(again[i], m) == Get(filled[i], m) {
        assert Get(filled[i], m) == None ==> !(m in FILL_METRICS && Name(m) in columns);
      }
      RowsEqual(again[i], filled[i]);
    }
  }

  /** Filling only ever writes into columns the frame has. */
  lemma FillKeepsConsistent(columns: seq<string>, rows: seq<Row>)
    requires Consistent(columns, rows)
    ensures Consistent(columns, FillColumns(columns, FILL_METRICS, rows))
  {
    FillColumnsSpec(columns, FILL_METRICS, rows);
  }

  /** The whole cleaning stage as one function of the projected table. */
  function Clean(parse: string -> Option<Date>, columns: seq<string>, rows: seq<Row>): seq<Row> {
    FillColumns(columns, FILL_METRICS, KeepStamped(CoerceDates(parse, rows)))
  }

  /**
   * No cleaned row lacks a date, a row survives exactly when its date is or
   * parses to a timestamp, and cleaning a cleaned table changes nothing.
   */
  lemma CleanIsIdempotent(parse: string -> Option<Date>, columns: seq<string>, rows: seq<Row>)
    ensures AllStamped(Clean(parse, columns, rows))
    ensures |Clean(parse, columns, rows)| == |Surviving(parse, rows)|
    ensures forall i :: 0 <= i < |Clean(parse, columns, rows)| ==>
      Clean(parse, columns, rows)[i].location == Surviving(parse, rows)[i].location &&
      Clean(parse, columns, rows)[i].date == CoerceCell(parse, Surviving(parse, rows)[i].date)
    ensures Clean(parse, columns, Clean(parse, columns, rows)) == Clean(parse, columns, rows)
  {
    var coerced := CoerceDates(parse, rows);
    var kept := KeepStamped(coerced);
    var cleaned := Clean(parse, columns, rows);
    FillColumnsSpec(columns, FILL_METRICS, kept);
    assert AllStamped(cleaned);
    CoerceDatesSpec(parse, cleaned);
    assert CoerceDates(parse, cleaned) == cleaned;
    KeepStampedSpec(cleaned);
    FillIsCompleteAndIdempotent(columns, kept);
    CoerceThenDropKeepsSurviving(parse, rows);
  }
}
