/**
 Time-series column detection (inspector.py:27-36). Whether a value reads as
 a calendar date within its column is left to the caller as the reader
 `parses`; a missing cell never reads as a date.
 */
module DateDetection {
  import opened Options
  import opened Counting
  import opened Tables

  /**
   `parses(cells)(v)` says whether the value `v` reads as a date within a
   column holding `cells`: the reader may infer one format from the column
   and reject the values that do not follow it.
   */
  type DateReader = seq<Cell> -> Value -> bool

  /** What a table reports as its index column when no column qualifies. */
  const NoIndexColumn: string := "None"

  /** The cell is present and its value reads as a date. */
  function ReadsAsDate(accepts: Value -> bool): (p: Cell -> bool)
  {
    (c: Cell) => c.Some? && accepts(c.value)
  }

  /** Number of cells of a column that read as dates; a missing cell never does. */
  function ParseCount(cells: seq<Cell>, parses: DateReader): (n: nat)
    ensures n <= PresentIn(cells)
  {
    CountIfMonotone(cells, ReadsAsDate(parses(cells)), IsPresent);
    CountIf(cells, ReadsAsDate(parses(cells)))
  }

  /**
   A column qualifies when its number of date cells equals the row count, so
   a qualifying column has at least as many present cells as there are rows.
   */
  function Qualifies(col: Column, rows: nat, parses: DateReader): (b: bool)
    ensures b ==> rows <= PresentIn(col.cells)
  {
    ParseCount(col.cells, parses) == rows
  }

  /**
   For a column of the table's height, qualifying means that every cell is
   present and reads as a date.
   */
  lemma QualifiesIffEveryCellParses(col: Column, rows: nat, parses: DateReader)
    requires |col.cells| == rows
    ensures Qualifies(col, rows, parses) <==>
      forall i :: 0 <= i < rows ==> col.cells[i].Some? && parses(col.cells)(col.cells[i].value)
  {
    CountIfFull(col.cells, ReadsAsDate(parses(col.cells)));
  }

  /** A single missing cell disqualifies a column; in particular an all-missing column with rows never qualifies. */
  lemma MissingCellDisqualifies(col: Column, rows: nat, parses: DateReader, i: nat)
    requires |col.cells| == rows
    requires i < rows && col.cells[i].None?
    ensures !Qualifies(col, rows, parses)
  {
    QualifiesIffEveryCellParses(col, rows, parses);
  }

  /**
   With no rows the comparison is vacuous: every column qualifies, so the
   first column is selected and its (nonexistent) first value is read.
   */
  lemma ZeroRowsEveryColumnQualifies(t: Table, parses: DateReader)
    requires WellFormed(t) && t.rows == 0
    ensures forall j :: 0 <= j < |t.columns| ==> Qualifies(t.columns[j], t.rows, parses)
  {
    forall j | 0 <= j < |t.columns| ensures Qualifies(t.columns[j], t.rows, parses) {
      assert t.columns[j].cells == [];
    }
  }

  /** Position of the first qualifying column at or after `from`, if any. */
  function FirstQualifying(cols: seq<Column>, rows: nat, parses: DateReader, from: nat): (r: Option<nat>)
    requires from <= |cols|
    ensures r.Some? ==>
      && from <= r.value < |cols|
      && Qualifies(cols[r.value], rows, parses)
      && forall k :: from <= k < r.value ==> !Qualifies(cols[k], rows, parses)
    ensures r.None? ==> forall k :: from <= k < |cols| ==> !Qualifies(cols[k], rows, parses)
    decreases |cols| - from
  {
    if from == |cols| then None
    else if Qualifies(cols[from], rows, parses) then Some(from)
    else FirstQualifying(cols, rows, parses, from + 1)
  }

  /** Outcome of the detection: no date column, or the chosen column and its first raw value. */
  datatype Detection = NoDateColumn | DateColumn(position: nat, name: string, sample: Value)

  /**
   The time-series column is the first column, in column order, whose every
   cell reads as a date; the sample is that column's raw value in row 0.
   */
  function DetectDateColumn(t: Table, parses: DateReader): (d: Detection)
    requires WellFormed(t) && t.rows > 0
    ensures d.NoDateColumn? <==> forall j :: 0 <= j < |t.columns| ==> !Qualifies(t.columns[j], t.rows, parses)
    ensures d.DateColumn? ==>
      && d.position < |t.columns|
      && Qualifies(t.columns[d.position], t.rows, parses)
      && (forall k :: 0 <= k < d.position ==> !Qualifies(t.columns[k], t.rows, parses))
      && d.name == t.columns[d.position].name
      && t.columns[d.position].cells[0] == Some(d.sample)
      && parses(t.columns[d.position].cells)(d.sample)
  {
    match FirstQualifying(t.columns, t.rows, parses, 0)
    case None => NoDateColumn
    case Some(j) =>
      QualifiesIffEveryCellParses(t.columns[j], t.rows, parses);
      DateColumn(j, t.columns[j].name, t.columns[j].cells[0].value)
  }

  /** The time-series flag reported for the table: some column qualifies. */
  function IsTimeSeries(t: Table, parses: DateReader): (b: bool)
    requires WellFormed(t) && t.rows > 0
    ensures b <==> exists j :: 0 <= j < |t.columns| && Qualifies(t.columns[j], t.rows, parses)
  {
    DetectDateColumn(t, parses).DateColumn?
  }

  /**
   The reported index column: the name of the first qualifying column, or the
   literal sentinel "None" when no column qualifies.
   */
  function IndexColumn(t: Table, parses: DateReader): (name: string)
    requires WellFormed(t) && t.rows > 0
    ensures (forall j :: 0 <= j < |t.columns| ==> !Qualifies(t.columns[j], t.rows, parses)) ==> name == NoIndexColumn
    ensures forall j ::
      (0 <= j < |t.columns| && Qualifies(t.columns[j], t.rows, parses)
        && forall k :: 0 <= k < j ==> !Qualifies(t.columns[k], t.rows, parses))
      ==> name == t.columns[j].name
  {
    match DetectDateColumn(t, parses)
    case NoDateColumn => NoIndexColumn
    case DateColumn(_, name, _) => name
  }

  /** The printed sample value: the chosen column's row-0 cell, or nothing when no column qualifies. */
  function DateSample(t: Table, parses: DateReader): (sample: Option<Value>)
    requires WellFormed(t) && t.rows > 0
    ensures sample.None? <==> forall j :: 0 <= j < |t.columns| ==> !Qualifies(t.columns[j], t.rows, parses)
  {
    match DetectDateColumn(t, parses)
    case NoDateColumn => None
    case DateColumn(_, _, v) => Some(v)
  }

  /**
   The three reported date fields agree: with a time series, the index column
   and the sample both come from the first qualifying column; without one, the
   index column is the sentinel and there is no sample.
   */
  lemma DateFieldsAgree(t: Table, parses: DateReader)
    requires WellFormed(t) && t.rows > 0
    ensures !IsTimeSeries(t, parses) ==> IndexColumn(t, parses) == NoIndexColumn && DateSample(t, parses) == None
    ensures IsTimeSeries(t, parses) ==>
      exists j :: 0 <= j < |t.columns|
        && Qualifies(t.columns[j], t.rows, parses)
        && (forall k :: 0 <= k < j ==> !Qualifies(t.columns[k], t.rows, parses))
        && IndexColumn(t, parses) == t.columns[j].name
        && DateSample(t, parses) == t.columns[j].cells[0]
  {
    var d := DetectDateColumn(t, parses);
    if d.DateColumn? {
      assert IndexColumn(t, parses) == t.columns[d.position].name;
      assert DateSample(t, parses) == t.columns[d.position].cells[0];
    }
  }
}
