/**
 * The data frame the script rewrites in place: its column list and its rows,
 * with one method per in-place step of the script.
 */
module Frames {
  import opened Wrappers
  import opened Table
  import opened Projection
  import Cleaning
  import opened Snapshot

  class Dataset {
    var columns: seq<string>
    var rows: seq<Row>

    /** The cells of a column the frame lacks are empty. */
    ghost predicate Valid()
      reads this
    {
      Consistent(columns, rows)
    }

    /** A frame holding what was read from the file. */
    constructor (columns: seq<string>, rows: seq<Row>)
      requires Consistent(columns, rows)
      ensures Valid()
      ensures this.columns == columns && this.rows == rows
    {
      this.columns := columns;
      this.rows := rows;
    }

    /** Keep the schema columns the frame has, in schema order. */
    method Project()
      requires Valid()
      modifies this
      ensures Valid()
      ensures columns == AvailableColumns(old(columns)) && rows == old(rows)
    {
      ProjectionKeepsSchemaColumns(columns, rows);
      columns := AvailableColumns(columns);
    }

    /** Add an empty `total_vaccinations` column when the frame has none. */
    method AddVaccinationPlaceholder()
      requires Valid()
      modifies this
      ensures Valid()
      ensures columns == PlaceholderColumns(old(columns))
      ensures rows == PlaceholderRows(old(columns), old(rows))
    {
      PlaceholderKeepsConsistent(columns, rows);
      if "total_vaccinations" !in columns {
        columns := columns + ["total_vaccinations"];
        rows := ClearVaccinations(rows);
      }
    }

    /** Replace the `date` column by its coercion to timestamps. */
    method CoerceDates(parse: string -> Option<Date>)
      requires Valid()
      requires "date" in columns
      modifies this
      ensures Valid()
      ensures columns == old(columns) && rows == Cleaning.CoerceDates(parse, old(rows))
      ensures forall i :: 0 <= i < |rows| ==> !rows[i].date.Text?
    {
      Cleaning.CoerceKeepsConsistent(parse, columns, rows);
      Cleaning.CoerceDatesSpec(parse, rows);
      rows := Cleaning.CoerceDates(parse, rows);
    }

    /**
     * Drop, in place, the rows whose date is missing. It runs after the
     * coercion, so no date cell holds text any more.
     */
    method DropUndated()
      requires Valid()
      requires forall i :: 0 <= i < |rows| ==> !rows[i].date.Text?
      modifies this
      ensures Valid()
      ensures columns == old(columns) && rows == Cleaning.KeepStamped(old(rows))
    {
      Cleaning.DropKeepsConsistent(columns, rows);
      rows := Cleaning.KeepStamped(rows);
    }

    /**
     * The fill loop: each count column the frame has gets its missing cells
     * replaced by zero, one column at a time.
     */
    method FillMissing()
      requires Valid()
      modifies this
      ensures Valid()
      ensures columns == old(columns)
      ensures rows == Cleaning.FillColumns(columns, Cleaning.FILL_METRICS, old(rows))
    {
      Cleaning.FillKeepsConsistent(columns, rows);
      for k := 0 to |Cleaning.FILL_METRICS|
        invariant columns == old(columns)
        invariant rows == Cleaning.FillColumns(columns, Cleaning.FILL_METRICS[..k], old(rows))
      {
        var col := Cleaning.FILL_METRICS[k];
        assert Cleaning.FILL_METRICS[..k + 1][..k] == Cleaning.FILL_METRICS[..k];
        if Name(col) in columns {
          rows := Cleaning.FillColumn(rows, col);
        }
      }
      assert Cleaning.FILL_METRICS[..|Cleaning.FILL_METRICS|] == Cleaning.FILL_METRICS;
    }

    /**
     * The population fallback on the snapshot: add the column as 1 when it
     * is missing, then turn missing and zero populations into 1.
     */
    method FillPopulation()
      requires Valid()
      modifies this
      ensures Valid()
      ensures columns == PopulationColumns(old(columns))
      ensures rows == PopulationRows(old(columns), old(rows))
    {
      PopulationFallbackKeepsConsistent(columns, rows);
      if "population" !in columns {
        columns := columns + ["population"];
        rows := SetPopulation(rows);
      }
      rows := FillPopulationNa(rows);
      rows := ReplaceZeroPopulation(rows);
    }
  }
}
