# COVID-19 data pipeline, modelled in Dafny

This project models the data-shaping pipeline of `main.py`. The script reads
the Our World in Data COVID-19 table and prepares what its charts and summary
lines show:

- projection of the file to the columns `location`, `date`, `total_cases`,
  `new_cases`, `total_deaths`, `new_deaths`, `total_vaccinations` and
  `population`, with an empty vaccination column added when the file has none;
- cleaning: date coercion, dropping the rows whose date did not parse, and
  zero-filling of the five count columns;
- the latest snapshot (`latest_data`): the last row of each location after
  sorting by date;
- the top-10 tables by total cases, deaths and vaccinations;
- the global per-date series of new cases, new deaths and total vaccinations;
- the population fallback on the snapshot;
- the "highest" summary lines, found with `idxmax`.

Layout, one module per stage:

| file | module | contents |
|---|---|---|
| wrappers.dfy | Wrappers | `Option`; a missing count (NaN) is `None` |
| table.dfy | Table | `Row`, `DateCell` (a missing date is `NaT`), `Metric`, the frame invariant `Consistent`, column sums |
| projection.dfy | Projection | `AvailableColumns` and the vaccination placeholder |
| cleaning.dfy | Cleaning | date coercion, the row drop, the fill loop, `Clean` |
| sorting.dfy | Sorting | the stable row sort behind `sort_values` |
| snapshot.dfy | Snapshot | `Latest` (last row per location) and the population fallback |
| ranking.dfy | Ranking | `Top` and the vaccination gate |
| aggregate.dfy | Aggregate | `GlobalData`, the per-date sums |
| insights.dfy | Insights | `IdxMax` and `Highest` |
| dataset.dfy | Frames | class `Dataset`: the frame the script rewrites in place |
| pipeline.dfy | Pipeline | `Analyse`, the script's steps in its own order |

The steps the script runs in place are methods of the class
`Frames.Dataset`. The class holds the column list and the row sequence, and
each method states the new state as a function of the old one. Every method
also keeps the invariant `Valid()`: the cells of a column the frame lacks are
empty. The derived tables (`latest_data`, the top-10s, `global_data`) are
functions, and lemmas state their properties.

Modelling choices:

- A date is an abstract, totally ordered day number (`int`).
- A `date` cell is raw text, a timestamp, or NaT. The permissive
  mixed-format parser is a parameter `parse: string -> Option<Date>`.
- Counts are unbounded integers, with `None` for a missing value.
- `sort_values` is not stable by default, so the script leaves two things
  open: which row it keeps when a location has several rows on its latest
  date, and the order of equal values in a top-10. The model fixes one
  deterministic policy, a stable sort with missing keys last. The lemma
  `Snapshot.LatestBreaksTiesByInputOrder` proves what this gives for the
  snapshot: among the rows tied on a location's latest date, the last one in
  input order is kept.

## Model

| member | source | states |
|---|---|---|
| Projection.Select | main.py:23 | the result holds exactly the wanted names that are present, in the wanted order (a subsequence) |
| Projection.ProjectionKeepsMetricColumns | main.py:20-24 | a metric column or `date` survives projection exactly when the file has it |
| Projection.ProjectionKeepsSchemaColumns | main.py:20-24 | projection keeps exactly the schema columns the file has, in schema order, and the table stays consistent with its columns |
| Projection.PlaceholderAddsVaccinations | main.py:27-29 | afterwards `total_vaccinations` is a column; if it was missing, every row holds no vaccination value; an existing column and all other cells are unchanged |
| Projection.PlaceholderKeepsConsistent | main.py:27-29 | the placeholder step keeps the cells consistent with the column list |
| Cleaning.CoerceDatesSpec | main.py:35 | after coercion no cell holds text; a cell is a timestamp exactly when it was one or its text parses; a parsed text becomes the parser's day and an existing timestamp is kept; no other cell changes; coercing twice equals coercing once |
| Cleaning.KeepStampedSpec | main.py:36 | the drop keeps exactly the dated rows, each as often as it occurs, in their original relative order; a fully dated table is unchanged |
| Cleaning.KeepStampedOfUndated | main.py:36 | a table in which no row has a date loses every row |
| Cleaning.CoerceKeepsConsistent | main.py:35 | coercion keeps the cells consistent with the column list |
| Cleaning.DropKeepsConsistent | main.py:36 | the drop keeps the cells consistent with the column list |
| Cleaning.KeepStampedIsSubsequence | main.py:36 | the kept rows appear in the table in the same order |
| Cleaning.KeepStampedCounts | main.py:36 | a dated row is kept as often as it occurs, an undated one never |
| Cleaning.KeepStampedOfStamped | main.py:36 | a fully dated table is kept whole |
| Cleaning.CoerceThenDropKeepsSurviving | main.py:35-36 | coercion then the drop keep exactly the rows whose date is a timestamp or parses, in their order, each with its date coerced |
| Cleaning.FillColumnsSpec | main.py:39-41 | a cell becomes 0 exactly when it is missing and its column is a visited count column that the frame has; every other cell is unchanged |
| Cleaning.FillIsCompleteAndIdempotent | main.py:39-41 | after the fill no present count column has a missing cell; present values and `population` are unchanged; filling again is a no-op |
| Cleaning.FillKeepsConsistent | main.py:39-41 | the fill writes only into columns the frame has |
| Cleaning.CleanIsIdempotent | main.py:35-41 | every cleaned row has a date; the cleaned rows are, in order, the rows whose date is a timestamp or parses, with the same location and the coerced date; cleaning a cleaned table changes nothing |
| Frames.Dataset.Project | main.py:23-24 | the columns become `AvailableColumns` of the old ones; the rows are unchanged; the frame invariant holds |
| Frames.Dataset.AddVaccinationPlaceholder | main.py:28-29 | the new state is the placeholder step applied to the old one; the frame invariant holds |
| Frames.Dataset.constructor | main.py:14 | a frame built from a consistent table holds it and satisfies the frame invariant |
| Frames.Dataset.CoerceDates | main.py:35 | the rows become their date coercion (the frame must have `date`), so no date cell holds text; the columns are unchanged |
| Frames.Dataset.DropUndated | main.py:36 | on a coerced frame (no text dates), the rows become the dated rows of the old table; the columns are unchanged |
| Frames.Dataset.FillMissing | main.py:39-41 | the loop over the five count columns leaves the rows equal to `FillColumns` of the old rows |
| Frames.Dataset.FillPopulation | main.py:93-99 | the state becomes the three population rewrites applied to the old state; the frame invariant holds |
| Sorting.Insert | main.py:50 | insertion adds exactly one row to the multiset of rows |
| Sorting.InsertOrdered | main.py:50 | inserting into an ordered sequence keeps it ordered |
| Sorting.SortBy | main.py:50 | the sort returns a permutation of its input, ordered by the key, with missing keys last |
| Sorting.InsertStable | main.py:50 | insertion places a row after every row with the same key |
| Sorting.SortByIsStable | main.py:50 | for every key, the rows holding it come out in input order |
| Sorting.DescendingKeyIsAtLeast | main.py:51 | the descending sort key orders rows by the column value, larger first, missing last |
| Snapshot.LastPerLocationCoversLocations | main.py:50 | keeping the last row of each location gives one row per location, for every location of its input |
| Snapshot.LastPerLocationDistinct | main.py:50 | no two kept rows share a location |
| Snapshot.LastPerLocationKeepsLast | main.py:50 | each kept row is the final occurrence of its location |
| Snapshot.LatestIsLastRowPerLocation | main.py:50 | `latest_data` has exactly one row per distinct location; that row is one of the table's rows; no row of the location has a later date |
| Snapshot.LatestHasMaximalDate | main.py:50 | on a cleaned table, the snapshot row of a location carries the maximum date among that location's rows |
| Snapshot.LastOfLocationWithKey | main.py:50 | the final row of a location in the sorted table is also final among the sorted rows that share its date |
| Snapshot.LastWithKeyIsLastAmongTies | main.py:50 | a row final among the rows with its date is, in the input, the last row of its location with that date |
| Snapshot.LatestBreaksTiesByInputOrder | main.py:50 | when several rows of a location share its latest date, the snapshot keeps the last of them in input order |
| Snapshot.TestlandSnapshot | main.py:50 | three "Testland" days with totals 10, 20 and 30 give one snapshot row: the third day's |
| Snapshot.PopulationFallbackSpec | main.py:93-99 | afterwards every row has a present, non-zero population; present non-zero values are kept; missing or zero ones become 1; nothing else changes |
| Snapshot.PopulationFallbackKeepsConsistent | main.py:93-99 | on a consistent frame every present non-zero population is kept, and the frame stays consistent |
| Ranking.TopIsRankedSubset | main.py:51 | a top-N has min(N, snapshot size) rows, all taken from the snapshot, non-increasing in the ranked column |
| Ranking.TopLeavesOutNoHigher | main.py:51 | no snapshot row left out of a top-N ranks above the last row kept |
| Ranking.ZeroColumnSum | main.py:112 | a column holding only zeros sums to zero |
| Aggregate.InsertDate | main.py:78 | adding a date to the ordered group keys keeps them strictly increasing, adding exactly that date |
| Aggregate.DistinctDates | main.py:78 | the group keys are strictly increasing and are exactly the table's dates |
| Aggregate.GlobalDataIsPerDateSum | main.py:78 | `global_data` has one row per distinct date, in ascending order; each column is the sum of that column over the rows of the date |
| Aggregate.SumOnDatesSplit | main.py:78 | the sum over a set of dates splits into the sum over one date plus the rest |
| Aggregate.GlobalDataKeepsTotals | main.py:78 | on a cleaned table, summing a column of `global_data` gives that column's sum over the whole table |
| Insights.IdxMax | main.py:126-129 | the first position holding the column's largest value, missing values skipped; `None` exactly when the column has no value |
| Insights.Highest | main.py:126-129 | the location named has a value in the column that is at least every snapshot row's value |
| Pipeline.PreparedIsCleanAndFilled | main.py:35-41 | on a file with the four case and death columns, every cleaned row has a date and a value in all five count columns |
| Pipeline.FillMetricsPrepared | main.py:39-41 | every column the fill loop visits is present after projection and the placeholder step |
| Pipeline.Prepare | main.py:20-41 | running the in-place steps on the frame yields the cleaned table and its columns |
| Pipeline.SnapshotIsFilled | main.py:39-50 | the snapshot of a filled table has all five counts in every row, and is empty only when the table is |
| Pipeline.FallbackKeepsFilled | main.py:93-99 | the population fallback leaves every count cell of a filled snapshot filled |
| Pipeline.Analyse | main.py:20-129 | the script's order of steps: the cleaned table, the snapshot, both top-10s, the global series and the bubble table (the snapshot after the population fallback) are each the stated function; the vaccination top-10 ranks the bubble table and exists exactly when vaccinations sum to a positive total; the vaccination line appears exactly then too; on a non-empty snapshot the cases and deaths lines always appear; each highest line names a bubble-table row of maximal value |
| Pipeline.KeptInPrepared | main.py:20-29 | a count column of the file is still a column after projection and the placeholder step |
| Pipeline.NoVaccinationsBeforeFill | main.py:27-36 | without the column, no dated row holds a vaccination count before the fill |
| Pipeline.NoVaccinationsAfterFill | main.py:27-41 | without the column, every cleaned row holds a vaccination count of zero |
| Pipeline.NoVaccinationColumnReportsNothing | main.py:27-41 | a file without `total_vaccinations` gives zero vaccinations in every cleaned and snapshot row, and no vaccination chart |

## Left out

- Reading the CSV file (main.py:14). Every `print` and `describe` output
  (main.py:15-17, 25, 30, 43-45, 124-130) is left out too: this is I/O.
- All matplotlib, seaborn and plotly styling and rendering, including label
  offsets (main.py:3-11, 53-60, 67-74, 80-89, 102-107, 114-121). This is
  presentation code, and it only consumes the tables the model computes.
- How the mixed-format date conversion reads a date string. The model
  takes the parser as a parameter.
- Floating point and NaN arithmetic. Counts are unbounded integers, with
  `None` for a missing value.
- The file's other columns. A row holds only the eight kept fields, so
  projection only changes the column list.
- A missing `location` value. `location` is a plain string, so the way
  `groupby` drops rows with a NaN key is not modelled.
- The `KeyError` the script raises when the file lacks `date`, `location`
  or one of the four case and death columns. These are preconditions of
  `Pipeline.Analyse`, and `date` is one of `Frames.Dataset.CoerceDates`.
- The exception `idxmax` raises on an empty or all-missing column. The model
  returns `None` instead.
- Index labels. `idxmax` returns a label and `.loc` looks it up; the model
  uses positions in the snapshot, which select the same row.
- The copy-versus-view behaviour of assigning into `latest_data`. The
  snapshot is a fresh `Dataset`.
- The non-deterministic tie order of pandas' default sort. It is replaced
  by a stable sort, as described above.
- Aggregate.GlobalDataIsPerDateSum: groups only rows whose date is a
  timestamp. A text date cannot reach `groupby` after coercion.
