/**
 Null profiling (inspector.py:38-47): missing-cell counts per column and per
 row, the rows and the columns that have at least one missing cell, and the
 rows whose missing count exceeds a fixed fraction of the column count.
 */
module NullProfile {
  import opened Counting
  import opened Tables

  /** Fraction of the columns a row's missing count must exceed to be "heavily null". */
  const NullThreshold: real := 0.1

  /** One missing-cell count per column, in column order. */
  function NullCountsByColumn(t: Table): (r: seq<nat>)
    ensures |r| == |t.columns|
    ensures forall j :: 0 <= j < |r| ==> r[j] <= |t.columns[j].cells|
  {
    seq(|t.columns|, j requires 0 <= j < |t.columns| => NullsIn(t.columns[j].cells))
  }

  /** Missing-cell counts of every row of a stack of columns of height `rows`. */
  function RowNullCounts(cols: seq<Column>, rows: nat): (r: seq<nat>)
    requires forall j :: 0 <= j < |cols| ==> |cols[j].cells| == rows
    ensures |r| == rows
    ensures forall i :: 0 <= i < rows ==> r[i] <= |cols|
    ensures forall i :: 0 <= i < rows ==>
      (r[i] > 0 <==> exists j :: 0 <= j < |cols| && cols[j].cells[i].None?)
  {
    var r := seq(rows, i requires 0 <= i < rows => NullsIn(Row(cols, i)));
    assert forall i :: 0 <= i < rows ==>
      (r[i] > 0 <==> exists j :: 0 <= j < |cols| && cols[j].cells[i].None?) by {
      forall i | 0 <= i < rows
        ensures r[i] > 0 <==> exists j :: 0 <= j < |cols| && cols[j].cells[i].None?
      {
        CountIfPositive(Row(cols, i), IsMissing);
      }
    }
    r
  }

  /** One missing-cell count per row, in row order; a row's count is positive exactly when one of its cells is missing. */
  function NullCountsByRow(t: Table): (r: seq<nat>)
    requires WellFormed(t)
    ensures |r| == t.rows
    ensures forall i :: 0 <= i < t.rows ==> r[i] <= |t.columns|
    ensures forall i :: 0 <= i < t.rows ==>
      (r[i] > 0 <==> exists j :: 0 <= j < |t.columns| && t.columns[j].cells[i].None?)
  {
    RowNullCounts(t.columns, t.rows)
  }

  /** 1 for a missing cell and 0 for a present one, position by position. */
  function Indicators(cells: seq<Cell>): (r: seq<nat>)
    ensures |r| == |cells|
    ensures forall i :: 0 <= i < |cells| ==> r[i] == NullsIn([cells[i]])
  {
    if |cells| == 0 then [] else [NullsIn([cells[0]])] + Indicators(cells[1..])
  }

  lemma {:induction false} SumOfIndicators(cells: seq<Cell>)
    ensures Sum(Indicators(cells)) == NullsIn(cells)
  {
    if |cells| > 0 {
      SumOfIndicators(cells[1..]);
      CountIfAppend([cells[0]], cells[1..], IsMissing);
      assert cells == [cells[0]] + cells[1..];
    }
  }

  /** Summing the row counts counts every missing cell of the table exactly once. */
  lemma {:induction false} RowSumsCountAllNulls(cols: seq<Column>, rows: nat)
    requires forall j :: 0 <= j < |cols| ==> |cols[j].cells| == rows
    ensures Sum(RowNullCounts(cols, rows)) == NullsIn(AllCells(cols))
  {
    var counts := RowNullCounts(cols, rows);
    if |cols| == 0 {
      SumOfZeros(counts);
    } else {
      var rest := cols[1..];
      RowSumsCountAllNulls(rest, rows);
      var first := Indicators(cols[0].cells);
      var restCounts := RowNullCounts(rest, rows);
      forall i | 0 <= i < rows ensures counts[i] == first[i] + restCounts[i] {
        assert Row(cols, i) == [cols[0].cells[i]] + Row(rest, i);
        CountIfAppend([cols[0].cells[i]], Row(rest, i), IsMissing);
      }
      SumPointwise(first, restCounts, counts);
      SumOfIndicators(cols[0].cells);
      CountIfAppend(cols[0].cells, AllCells(rest), IsMissing);
    }
  }

  /** Summing the column counts counts every missing cell of the table exactly once. */
  lemma {:induction false} ColumnSumsCountAllNulls(cols: seq<Column>)
    ensures Sum(NullCountsByColumn(Table(0, cols))) == NullsIn(AllCells(cols))
  {
    if |cols| > 0 {
      ColumnSumsCountAllNulls(cols[1..]);
      assert NullCountsByColumn(Table(0, cols))[1..] == NullCountsByColumn(Table(0, cols[1..]));
      CountIfAppend(cols[0].cells, AllCells(cols[1..]), IsMissing);
    }
  }

  /** The number of missing cells of the whole table: the per-column counts add up to it. */
  function MissingCells(t: Table): (n: nat)
    ensures n == Sum(NullCountsByColumn(t))
  {
    ColumnSumsCountAllNulls(t.columns);
    assert NullCountsByColumn(t) == NullCountsByColumn(Table(0, t.columns));
    NullsIn(AllCells(t.columns))
  }

  /**
   The per-column and per-row null counts come from the same null mask: both
   add up to the number of missing cells of the table.
   */
  lemma NullTotalsAgree(t: Table)
    requires WellFormed(t)
    ensures Sum(NullCountsByColumn(t)) == NullsIn(AllCells(t.columns))
    ensures Sum(NullCountsByRow(t)) == NullsIn(AllCells(t.columns))
  {
    ColumnSumsCountAllNulls(t.columns);
    assert NullCountsByColumn(t) == NullCountsByColumn(Table(0, t.columns));
    RowSumsCountAllNulls(t.columns, t.rows);
  }

  predicate IsPositive(n: nat)
  {
    n > 0
  }

  /** The positions from `from` on whose count is positive, in increasing order. */
  function PositiveIndices(counts: seq<nat>, from: nat): (r: seq<nat>)
    requires from <= |counts|
    ensures forall k :: 0 <= k < |r| ==> from <= r[k] < |counts| && counts[r[k]] > 0
    ensures forall i :: from <= i < |counts| && counts[i] > 0 ==> i in r
    ensures forall k, l :: 0 <= k < l < |r| ==> r[k] < r[l]
    ensures |r| == CountIf(counts[from..], IsPositive)
    decreases |counts| - from
  {
    if from == |counts| then []
    else
      assert counts[from..][1..] == counts[from + 1..];
      if counts[from] > 0 then [from] + PositiveIndices(counts, from + 1)
      else PositiveIndices(counts, from + 1)
  }

  /** The rows with at least one missing cell (only their number is reported). */
  function RowsWithNulls(t: Table): (r: seq<nat>)
    requires WellFormed(t)
    ensures forall k :: 0 <= k < |r| ==> r[k] < t.rows && NullCountsByRow(t)[r[k]] > 0
    ensures forall i :: 0 <= i < t.rows && NullCountsByRow(t)[i] > 0 ==> i in r
    ensures forall k, l :: 0 <= k < l < |r| ==> r[k] < r[l]
    ensures |r| <= t.rows
    ensures |r| == CountIf(NullCountsByRow(t), IsPositive)
  {
    var counts := NullCountsByRow(t);
    assert counts[0..] == counts;
    PositiveIndices(counts, 0)
  }

  /** A column with at least one missing cell: its position, name and null count. */
  datatype NullColumn = NullColumn(position: nat, name: string, nulls: nat)

  /** `e` describes column `e.position` of `cols`, which has at least one missing cell. */
  predicate DescribesNullColumn(cols: seq<Column>, e: NullColumn)
  {
    && e.position < |cols|
    && e.name == cols[e.position].name
    && e.nulls == NullsIn(cols[e.position].cells)
    && e.nulls > 0
  }

  /** The columns from position `from` on with at least one missing cell, in column order, with their counts. */
  function NullColumnsFrom(cols: seq<Column>, from: nat): (r: seq<NullColumn>)
    requires from <= |cols|
    ensures |r| <= |cols| - from
    ensures forall k :: 0 <= k < |r| ==> DescribesNullColumn(cols, r[k]) && from <= r[k].position
    ensures forall k, l :: 0 <= k < l < |r| ==> r[k].position < r[l].position
    decreases |cols| - from
  {
    if from == |cols| then []
    else
      var rest := NullColumnsFrom(cols, from + 1);
      var nulls := NullsIn(cols[from].cells);
      if nulls > 0 then
        var r := [NullColumn(from, cols[from].name, nulls)] + rest;
        assert forall k :: 0 <= k < |rest| ==> r[k + 1] == rest[k];
        r
      else
        rest
  }

  /** Every column from `from` on with a missing cell is listed. */
  lemma {:induction false} NullColumnsFromComplete(cols: seq<Column>, from: nat, j: nat)
    requires from <= j < |cols| && NullsIn(cols[j].cells) > 0
    ensures exists k :: 0 <= k < |NullColumnsFrom(cols, from)| && NullColumnsFrom(cols, from)[k].position == j
    decreases |cols| - from
  {
    var r := NullColumnsFrom(cols, from);
    var rest := NullColumnsFrom(cols, from + 1);
    var nulls := NullsIn(cols[from].cells);
    if nulls > 0 {
      assert r == [NullColumn(from, cols[from].name, nulls)] + rest;
      if j == from {
        assert r[0].position == j;
      } else {
        NullColumnsFromComplete(cols, from + 1, j);
        var k :| 0 <= k < |rest| && rest[k].position == j;
        assert r[k + 1].position == j;
      }
    } else {
      assert r == rest;
      NullColumnsFromComplete(cols, from + 1, j);
    }
  }

  /** The columns with at least one missing cell, in column order, with their counts. */
  function ColumnsWithNulls(t: Table): (r: seq<NullColumn>)
    ensures |r| <= |t.columns|
    ensures forall k :: 0 <= k < |r| ==>
      && r[k].position < |t.columns|
      && r[k].name == t.columns[r[k].position].name
      && r[k].nulls == NullsIn(t.columns[r[k].position].cells)
      && r[k].nulls > 0
    ensures forall j :: 0 <= j < |t.columns| && NullsIn(t.columns[j].cells) > 0 ==>
      exists k :: 0 <= k < |r| && r[k].position == j
    ensures forall k, l :: 0 <= k < l < |r| ==> r[k].position < r[l].position
  {
    var r := NullColumnsFrom(t.columns, 0);
    assert forall j :: 0 <= j < |t.columns| && NullsIn(t.columns[j].cells) > 0 ==>
      exists k :: 0 <= k < |r| && r[k].position == j by {
      forall j | 0 <= j < |t.columns| && NullsIn(t.columns[j].cells) > 0
        ensures exists k :: 0 <= k < |r| && r[k].position == j
      {
        NullColumnsFromComplete(t.columns, 0, j);
      }
    }
    r
  }

  /** The rule for a heavily-null row: its null count strictly exceeds `fraction` of the columns. */
  function ExceedsFraction(columns: nat, fraction: real): (p: nat -> bool)
  {
    n => n as real > columns as real * fraction
  }

  /** Number of row counts that strictly exceed `fraction` of `columns`. */
  function HeavilyNullCount(rowCounts: seq<nat>, columns: nat, fraction: real): (n: nat)
  {
    CountIf(rowCounts, ExceedsFraction(columns, fraction))
  }

  /** Integer form of the 0.1 rule: `n > 0.1 * columns` exactly when `10 * n > columns`. */
  function TenfoldExceeds(columns: nat): (p: nat -> bool)
  {
    n => 10 * n > columns
  }

  /**
   The heavily-null row count of the table, with the fixed 0.1 fraction: the
   rows with more than one tenth of their cells missing, all of them among the
   rows with nulls.
   */
  function HeavilyNullRows(t: Table): (n: nat)
    requires WellFormed(t)
    ensures n == CountIf(NullCountsByRow(t), TenfoldExceeds(|t.columns|))
    ensures n <= |RowsWithNulls(t)|
  {
    var counts := NullCountsByRow(t);
    CountIfSame(counts, ExceedsFraction(|t.columns|, NullThreshold), TenfoldExceeds(|t.columns|));
    HeavilyNullAmongRowsWithNulls(t, NullThreshold);
    HeavilyNullCount(counts, |t.columns|, NullThreshold)
  }

  /** Lowering the fraction never decreases the heavily-null count. */
  lemma HeavilyNullMonotone(rowCounts: seq<nat>, columns: nat, fraction: real, lower: real)
    requires lower <= fraction
    ensures HeavilyNullCount(rowCounts, columns, fraction) <= HeavilyNullCount(rowCounts, columns, lower)
  {
    assert columns as real * lower <= columns as real * fraction by {
      assert columns as real * (fraction - lower) >= 0.0;
    }
    CountIfMonotone(rowCounts, ExceedsFraction(columns, fraction), ExceedsFraction(columns, lower));
  }

  /**
   With a non-negative fraction a heavily-null row has at least one missing
   cell, so it is among the rows with nulls.
   */
  lemma HeavilyNullAmongRowsWithNulls(t: Table, fraction: real)
    requires WellFormed(t)
    requires fraction >= 0.0
    ensures HeavilyNullCount(NullCountsByRow(t), |t.columns|, fraction) <= |RowsWithNulls(t)|
  {
    var counts := NullCountsByRow(t);
    assert counts[0..] == counts;
    assert |t.columns| as real * fraction >= 0.0;
    CountIfMonotone(counts, ExceedsFraction(|t.columns|, fraction), IsPositive);
  }
}
