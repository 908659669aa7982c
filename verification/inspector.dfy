/**
 The analysis pass of the inspector (inspector.py:24-62): every step reads
 the same table, and the results are gathered into one report. Its fields are
 the values printed at inspector.py:65-77, in that order, with the date
 sample printed at inspector.py:34 kept next to the index column.
 */
module Inspector {
  import opened Options
  import opened Counting
  import opened Tables
  import opened DateDetection
  import opened NullProfile
  import opened Outliers
  import opened Density

  datatype Report = Report(
    totalRows: nat,
    totalColumns: nat,
    timeSeries: bool,
    indexColumn: string,
    dateSample: Option<Value>,
    rowsWithNulls: nat,
    columnsWithNulls: seq<NullColumn>,
    heavilyNullRows: nat,
    outliers: nat,
    sparsity: Label)

  /**
   Inspects a table with at least one row and one column (with no rows the
   source reads a first value that does not exist, and with no cells it
   divides by zero). `parses` decides whether a value reads as a date within its column.
   */
  function Inspect(t: Table, parses: DateReader): (r: Report)
    requires WellFormed(t) && t.rows > 0 && |t.columns| > 0
    ensures r.totalRows == t.rows && r.totalColumns == |t.columns|
    ensures r.timeSeries <==> exists j :: 0 <= j < |t.columns| && Qualifies(t.columns[j], t.rows, parses)
    ensures !r.timeSeries ==> r.indexColumn == NoIndexColumn && r.dateSample == None
    ensures r.timeSeries ==>
      exists j :: 0 <= j < |t.columns|
        && Qualifies(t.columns[j], t.rows, parses)
        && (forall k :: 0 <= k < j ==> !Qualifies(t.columns[k], t.rows, parses))
        && r.indexColumn == t.columns[j].name
        && r.dateSample == t.columns[j].cells[0]
    ensures r.rowsWithNulls <= r.totalRows
    ensures r.rowsWithNulls == CountIf(NullCountsByRow(t), IsPositive)
    ensures r.columnsWithNulls == ColumnsWithNulls(t)
    ensures |r.columnsWithNulls| <= r.totalColumns
    ensures r.heavilyNullRows == CountIf(NullCountsByRow(t), TenfoldExceeds(|t.columns|))
    ensures r.heavilyNullRows <= r.rowsWithNulls
    ensures r.outliers == TotalOutliers(t.columns)
    ensures r.outliers <= NumericPresentCells(t.columns)
    ensures r.sparsity == Sparse <==> 2 * NonNullCells(t) < t.rows * |t.columns|
  {
    DateFieldsAgree(t, parses);
    var withNulls := RowsWithNulls(t);
    var heavy := HeavilyNullRows(t);
    assert |withNulls| == CountIf(NullCountsByRow(t), IsPositive);
    assert heavy <= |withNulls|;
    Report(
      t.rows,
      |t.columns|,
      IsTimeSeries(t, parses),
      IndexColumn(t, parses),
      DateSample(t, parses),
      |withNulls|,
      ColumnsWithNulls(t),
      heavy,
      TotalOutliers(t.columns),
      Sparsity(t))
  }
}
