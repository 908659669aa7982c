# Data-quality inspector — Dafny model of the analysis pass

The inspector reads one CSV or Parquet file into a table and reports, in one
pass: the table's shape, a time-series index column (the first column whose
every value reads as a date), null counts by row and by column, the number of
"heavily null" rows, the number of IQR outliers over the numeric columns, and
a Sparse/Dense label. This project models that analysis pass
(`inspector.py`, lines 24-62) over an abstract, immutable table and proves
what the pass promises.

Layout, one module per concern:

- `counting.dfy` (`Counting`): `CountIf`, `Sum`, `Repeat` and their algebra
  (append, permutation, monotonicity, prefix/suffix bounds).
- `table.dfy` (`Options`, `Tables`): values, cells (`Option<Value>`, `None` is
  a missing cell), columns with a name, a numeric tag and their cells, and
  the table with its row count; well-formedness; rows read across columns.
- `date_detection.dfy` (`DateDetection`): parse counts, qualifying columns,
  first-match selection, sample value, the `"None"` sentinel.
- `null_profile.dfy` (`NullProfile`): per-column and per-row null counts,
  rows and columns with nulls, heavily-null rows.
- `sorting.dfy` (`Sorting`), `quantiles.dfy` (`Quantiles`): sorted copy of a
  column's values, linear-interpolation quantiles, quartile fences.
- `outliers.dfy` (`Outliers`): per-column and total outlier counts.
- `density.dfy` (`Density`): present-cell ratio and the Sparse/Dense label.
- `inspector.dfy` (`Inspector`): the report assembled from all steps.
- `scenarios.dfy` (`Scenarios`): the repository's test tables as lemmas.

Modelling choices:

- Cell values are `Number(real)` or `Text(string)`. Whether a value reads as
  a date is the reader `parses(cells)(v)`, given the whole column. It stands
  in for `pd.to_datetime(..., errors='coerce', infer_datetime_format=True)`
  (inspector.py:28), which may infer one format from the column and turn the
  values that do not follow it into NaT. The same value can therefore read as
  a date in one column and not in another. A missing cell never reads as a date.
- The numeric tag of a column stands in for `select_dtypes(include=[np.number])`.
  A well-formed table holds only numbers or missing cells in a numeric column.
- Quantiles use `real` arithmetic. This idealises float64. The position is
  `q * (n - 1)`, and the value is interpolated linearly between the sorted
  values at `floor` and `floor + 1`. This is pandas' default `linear` method.
- The constants are named: `NullThreshold` (0.1), `IqrMultiplier` (1.5),
  `DenseCutoff` (0.5), `LowerQuartile` / `UpperQuartile` (0.25 / 0.75). The
  comment at inspector.py:46 says "50%", but the code uses 0.1. The model
  uses 0.1.
- The integer form `10 * n > columns` of the heavily-null rule agrees with
  the float comparison `n > columns * 0.1` for every column count below
  10^15. The double nearest 0.1 is slightly above 0.1, but the rounded
  product `fl(columns * 0.1)` can still fall below `columns / 10` (for 43
  columns it is 4.2999999999999998…). Two cases show the comparison is
  unaffected:
  - when `columns` is a multiple of 10, the exact product lies just above the
    integer `columns / 10`, which is a double, so rounding to nearest cannot
    go below it, nor reach the next integer;
  - otherwise `columns / 10` is at least 0.1 away from every integer, and the
    representation error of 0.1 plus the rounding of the product is far
    smaller than that.
- The code only compares the parse count with the row count (inspector.py:29).
  It does not reject a column with no parseable cell as such. With zero rows
  every column qualifies (`ZeroRowsEveryColumnQualifies`), and line 32 then
  fails reading row 0. `Inspect` requires at least one row.
- A numeric column with no present value has no quartiles (pandas yields
  NaN). All comparisons with NaN are false, so such a column adds 0 outliers.
  The model says this explicitly in `ColumnOutliers`.
- The detection reports the literal string `"None"` when no column
  qualifies. A column actually named `None` gives the same index-column text.
  The time-series flag tells the two cases apart.

## Model

| member | source | states |
|---|---|---|
| `NullProfile.NullCountsByColumn` | inspector.py:39 | one null count per column, each bounded by the column's height |
| `NullProfile.NullCountsByRow` | inspector.py:40 | one null count per row, each bounded by the number of columns, and positive exactly when some cell of that row is missing |
| `NullProfile.NullTotalsAgree` | inspector.py:39-40 | the column counts and the row counts both sum to the number of missing cells among all the table's cells |
| `NullProfile.PositiveIndices` | inspector.py:42 | the positions with a positive count, strictly increasing, each one listed, and as many as there are positive counts |
| `NullProfile.RowsWithNulls` | inspector.py:42 | exactly the rows with a positive null count (so with at least one missing cell), in row order, as many as the positive row counts, no more than the row count |
| `NullProfile.ColumnsWithNulls` | inspector.py:43 | exactly the columns with at least one missing cell, in column order, each with its name and null count |
| `NullProfile.MissingCells` | inspector.py:39 | the missing cells of the whole table are what the per-column null counts add up to |
| `NullProfile.HeavilyNullRows` | inspector.py:46-47 | the rows counted are exactly those where 10 times the null count exceeds the column count, and they are no more than the rows with nulls |
| `NullProfile.HeavilyNullMonotone` | inspector.py:46-47 | lowering the fraction never decreases the heavily-null count |
| `NullProfile.HeavilyNullAmongRowsWithNulls` | inspector.py:42-47 | with any non-negative fraction, the heavily-null rows are no more than the rows with nulls |
| `DateDetection.ParseCount` | inspector.py:28 | the parsed cells of a column are at most its present cells: a missing cell never reads as a date |
| `DateDetection.Qualifies` | inspector.py:28-29 | a column qualifies only if it has at least as many present cells as the table has rows |
| `DateDetection.QualifiesIffEveryCellParses` | inspector.py:28-29 | a column qualifies exactly when every one of its cells is present and reads as a date |
| `DateDetection.MissingCellDisqualifies` | inspector.py:28-29 | one missing cell disqualifies a column, so an all-missing column with rows never qualifies |
| `DateDetection.ZeroRowsEveryColumnQualifies` | inspector.py:28-31 | with zero rows the count comparison holds of every column |
| `DateDetection.FirstQualifying` | inspector.py:31 | the result qualifies and no earlier column does; no result means no column from the start position qualifies |
| `DateDetection.DetectDateColumn` | inspector.py:28-36 | no date column exactly when none qualifies; otherwise the first qualifying column, its name, and its row-0 value as sample |
| `DateDetection.IsTimeSeries` | inspector.py:29 | the time-series flag is set exactly when some column qualifies |
| `DateDetection.DateSample` | inspector.py:30-32 | a sample exists exactly when some column qualifies |
| `DateDetection.DateFieldsAgree` | inspector.py:29-36 | the flag, the index column and the sample agree: with a time series both name and sample come from the first qualifying column; without one the index column is "None" and there is no sample |
| `DateDetection.IndexColumn` | inspector.py:30-36 | the index column is the first qualifying column's name, and the sentinel "None" when no column qualifies |
| `Sorting.Sort` | inspector.py:53-54 | the column values in ascending order, as a permutation of the input |
| `Quantiles.Quantile` | inspector.py:53-54 | the quantile lies between the sorted values around its position and within the smallest and largest value |
| `Quantiles.QuantileInterpolates` | inspector.py:53-54 | between two different neighbours the value is interpolated linearly: the lower quartile of 1, 2, 3, 4 is 1.75 and its median 2.5 |
| `Quantiles.QuantileMonotone` | inspector.py:53-55 | a larger quantile level never gives a smaller value, so Q1 <= Q3 and the IQR is non-negative |
| `Quantiles.OrderStatistic` | inspector.py:53-54 | a sorted position holds x when the count below x is at most the position and the count at or below x exceeds it |
| `Quantiles.ColumnFences` | inspector.py:53-57 | lower <= Q1 <= Q3 <= upper, the fences lie 1.5 IQR beyond the quartiles, the quartiles lie within the column's values, and each quartile has the rank of its position floor(q * (n - 1)) among the values: more than that many at or below it, at most one more strictly below it |
| `Quantiles.QuantileRank` | inspector.py:53-54 | the q-quantile of a column's values has at least floor(q * (n - 1)) + 1 values at or below it and at most that many strictly below it |
| `Quantiles.RankBetween` | inspector.py:53-54 | a value between the sorted values at positions lo and lo + 1 has rank lo among the unsorted values |
| `Outliers.PresentNumbers` | inspector.py:53-54 | the values handed to the quartiles are one per present numeric cell, each number as often as cells hold it; missing cells are left out |
| `Outliers.ColumnOutliers` | inspector.py:58 | a column's outliers are its present values strictly outside its own fences, never more than its present values |
| `Outliers.FlaggedCellsAreOutsideValues` | inspector.py:58 | counting flagged cells equals counting present values outside the fences; a missing cell is never counted |
| `Outliers.InterquartileValueNotFlagged` | inspector.py:55-58 | a value between Q1 and Q3 is never an outlier |
| `Outliers.TotalOutliers` | inspector.py:50-58 | the total is at most the number of present numeric cells |
| `Outliers.TotalOutliersSingle` | inspector.py:50-58 | a one-column table's total is that column's outlier count when it is numeric, and 0 otherwise |
| `Outliers.TotalOutliersIsSum` | inspector.py:51-58 | the total is the sum, over all columns, of each column's score: its outlier count if numeric, 0 otherwise |
| `Outliers.TotalOutliersSplit` | inspector.py:52-58 | columns are scored independently: the total over two groups of columns is the sum of their totals |
| `Outliers.TextColumnsIgnored` | inspector.py:50-52 | non-numeric columns contribute nothing to the total |
| `Outliers.ZeroIqrFlagsEveryOtherValue` | inspector.py:55-58 | for 1.5 IQR fences whose quartiles coincide (zero spread is not special-cased), the values outside the fences are exactly the values different from Q1 |
| `Outliers.ZeroIqrWithOtherValueHasOutlier` | inspector.py:55-58 | with zero-spread 1.5 IQR fences, one value off Q1 already gives at least one outlier |
| `Density.NonNullCells` | inspector.py:61 | the present cells of the table are all its cells except the missing ones |
| `Density.CellAccounting` | inspector.py:61 | present cells plus missing cells equal rows times columns |
| `Density.Classify` | inspector.py:61-62 | Sparse exactly when twice the present count is below the total, so a ratio of exactly 0.5 is Dense |
| `Density.Sparsity` | inspector.py:61-62 | Sparse exactly when under half the cells are present; Dense exactly when at most half are missing |
| `Inspector.Inspect` | inspector.py:24-77 | the report's shape, time-series flag, index column and sample match first-match detection; rows with nulls is the number of positive row counts (at most the rows); the columns with nulls are the listed ones; heavily-null rows are the rows with 10 times their null count above the column count (at most the rows with nulls); outliers are the column total (at most the present numeric cells); the label follows the half-present rule |
| `Scenarios.OutlierSampleFences` | test_inspector.py:62-70 | the outlier test column has quartiles 2 and 4 and fences -1 and 7 |
| `Scenarios.OutlierSampleHasTwoOutliers` | test_inspector.py:62-77 | the outlier test column has exactly two outliers |
| `Scenarios.FullyDatedFirstColumnDetected` | test_inspector.py:32-38 | a fully dated first column is the one detected, with its row-0 value as sample |
| `Scenarios.MissingCellListsColumn` | test_inspector.py:56-60 | a column with a missing cell is listed with its name and its null count |

## Left out

- Command-line handling: argument parsing and the existence check of the path, which exits with status 2 (inspector.py:6-10). This is framework behaviour.
- File decoding: the CSV/Parquet readers, the extension dispatch, and the "Unsupported file format" / "Error reading file" messages that still exit 0 (inspector.py:12-22). This is I/O through foreign libraries.
- Date parsing itself (`pd.to_datetime`, inspector.py:28), including how a format is inferred from a column: it is the caller's reader `parses`, which sees the whole column but is otherwise unconstrained.
- Type inference (`select_dtypes`, inspector.py:50): it is the column's `isNumeric` tag.
- Output formatting with `click.echo` (inspector.py:33-34, 65-77). The report keeps as data the values printed at lines 65-77, in that order, plus the sample printed at line 34, which it places after the index column. The columns with nulls are kept as (position, name, count) entries.
- Floating point: quantiles, fences and the density ratio are over `real`. Rounding of float64 is not modelled. Infinite values (the CSV reader accepts "inf") have no `real` counterpart: a numeric column holding one gets infinite or NaN quartiles, and pandas then counts its outliers differently from the model.
- Inspect: requires at least one row and one column. With zero rows the source reads a row-0 value that does not exist (inspector.py:32). With zero cells the density ratio divides by zero (inspector.py:61). Neither failure is modelled.
- DateDetection.DetectDateColumn: requires at least one row, for the same reason.
- Density.Sparsity: requires at least one row and one column, because the source divides by `rows * columns` (inspector.py:61).
- Columns are identified by position. The source goes through column names in three places: it selects the detected column again by name (inspector.py:31-32), reads each numeric column with `df[col]` in the outlier loop (inspector.py:52-58), and lists the columns with nulls by name (inspector.py:43, 73-74). These differ from the model only for tables with duplicate column names.
- The repository's tests with random data (the Dense/Sparse samples, the random `value` column) are not restated as lemmas. `Density.Sparsity` and `Inspector.Inspect` state the rules those tests sample.
- Determinism of the date detection (restarting it gives the same column and sample) holds because every member is a function; no separate lemma states it.
