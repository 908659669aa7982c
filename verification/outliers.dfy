/**
 Interquartile-range outlier counting (inspector.py:49-58). Each numeric
 column gets fences from its own present values; a cell is an outlier when it
 holds a number strictly outside them. The counts of the numeric columns are
 added up.
 */
module Outliers {
  import opened Options
  import opened Counting
  import opened Tables
  import opened Quantiles

  predicate IsPresentNumber(c: Cell)
  {
    c.Some? && c.value.Number?
  }

  /** The cell holds the number `x`. */
  function HoldsNumber(x: real): (p: Cell -> bool)
  {
    (c: Cell) => c == Some(Number(x))
  }

  /**
   The present numeric values of a column, in row order; missing cells are
   skipped. Each number occurs as often as there are cells holding it.
   */
  function PresentNumbers(cells: seq<Cell>): (r: seq<real>)
    ensures |r| == CountIf(cells, IsPresentNumber)
    ensures forall x :: multiset(r)[x] == CountIf(cells, HoldsNumber(x))
  {
    if |cells| == 0 then []
    else
      var rest := PresentNumbers(cells[1..]);
      if IsPresentNumber(cells[0]) then
        var r := [cells[0].value.x] + rest;
        assert forall x :: multiset(r)[x] == (if cells[0].value.x == x then 1 else 0) + multiset(rest)[x];
        r
      else
        rest
  }

  /** A value strictly below the lower fence or strictly above the upper fence. */
  function OutsideFences(f: Fences): (p: real -> bool)
  {
    x => x < f.lower || x > f.upper
  }

  /** A cell is flagged when it holds a number outside the fences. */
  function FlaggedCell(f: Fences): (p: Cell -> bool)
  {
    (c: Cell) => IsPresentNumber(c) && OutsideFences(f)(c.value.x)
  }

  /**
   Outliers of one column. A column without any present number has no
   quartiles and contributes nothing.
   */
  function ColumnOutliers(cells: seq<Cell>): (n: nat)
    ensures n <= |PresentNumbers(cells)|
    ensures |PresentNumbers(cells)| > 0 ==>
      n == CountIf(PresentNumbers(cells), OutsideFences(ColumnFences(PresentNumbers(cells))))
  {
    var values := PresentNumbers(cells);
    if |values| == 0 then 0
    else
      CountIfMonotone(cells, FlaggedCell(ColumnFences(values)), IsPresentNumber);
      FlaggedCellsAreOutsideValues(cells, ColumnFences(values));
      CountIf(cells, FlaggedCell(ColumnFences(values)))
  }

  /** What one column adds to the total: its outlier count when it is numeric, nothing otherwise. */
  function ColumnScore(c: Column): (n: nat)
    ensures !c.isNumeric ==> n == 0
  {
    if c.isNumeric then ColumnOutliers(c.cells) else 0
  }

  /** Number of present numbers over the numeric columns. */
  function NumericPresentCells(cols: seq<Column>): (n: nat)
  {
    if |cols| == 0 then 0
    else (if cols[0].isNumeric then |PresentNumbers(cols[0].cells)| else 0) + NumericPresentCells(cols[1..])
  }

  /** The outlier total of the table: the sum over the numeric columns only. */
  function TotalOutliers(cols: seq<Column>): (n: nat)
    ensures n <= NumericPresentCells(cols)
  {
    if |cols| == 0 then 0
    else ColumnScore(cols[0]) + TotalOutliers(cols[1..])
  }

  /** Counting flagged cells is counting present values outside the fences: missing cells never count. */
  lemma {:induction false} FlaggedCellsAreOutsideValues(cells: seq<Cell>, f: Fences)
    ensures CountIf(cells, FlaggedCell(f)) == CountIf(PresentNumbers(cells), OutsideFences(f))
  {
    if |cells| > 0 {
      FlaggedCellsAreOutsideValues(cells[1..], f);
      if IsPresentNumber(cells[0]) {
        var rest := PresentNumbers(cells[1..]);
        assert PresentNumbers(cells) == [cells[0].value.x] + rest;
        assert ([cells[0].value.x] + rest)[1..] == rest;
      }
    }
  }

  /** A value between the quartiles is never flagged. */
  lemma InterquartileValueNotFlagged(values: seq<real>, x: real)
    requires |values| > 0
    requires ColumnFences(values).q1 <= x <= ColumnFences(values).q3
    ensures !OutsideFences(ColumnFences(values))(x)
  {
  }

  /** A one-column table scores that column alone: its outliers when it is numeric, nothing otherwise. */
  lemma TotalOutliersSingle(c: Column)
    ensures TotalOutliers([c]) == (if c.isNumeric then ColumnOutliers(c.cells) else 0)
  {
    assert [c][1..] == [];
  }

  /** The total is the sum of the per-column scores. */
  lemma {:induction false} TotalOutliersIsSum(cols: seq<Column>)
    ensures TotalOutliers(cols) == Sum(seq(|cols|, j requires 0 <= j < |cols| => ColumnScore(cols[j])))
  {
    var scores := seq(|cols|, j requires 0 <= j < |cols| => ColumnScore(cols[j]));
    if |cols| > 0 {
      TotalOutliersIsSum(cols[1..]);
      assert scores[1..] == seq(|cols[1..]|, j requires 0 <= j < |cols[1..]| => ColumnScore(cols[1..][j]));
    }
  }

  /** Columns are scored independently: the total over a split table is the sum over its parts. */
  lemma {:induction false} TotalOutliersSplit(a: seq<Column>, b: seq<Column>)
    ensures TotalOutliers(a + b) == TotalOutliers(a) + TotalOutliers(b)
  {
    if |a| == 0 {
      assert a + b == b;
    } else {
      assert (a + b)[1..] == a[1..] + b;
      TotalOutliersSplit(a[1..], b);
    }
  }

  /** Non-numeric columns contribute nothing, whatever their cells hold. */
  lemma {:induction false} TextColumnsIgnored(cols: seq<Column>)
    requires forall j :: 0 <= j < |cols| ==> !cols[j].isNumeric
    ensures TotalOutliers(cols) == 0
  {
    if |cols| > 0 {
      TextColumnsIgnored(cols[1..]);
    }
  }

  function DiffersFrom(x: real): (p: real -> bool)
  {
    y => y != x
  }

  /**
   Zero spread is not special-cased: for fences built by the 1.5 IQR rule
   (the shape `ColumnFences` guarantees) with coinciding quartiles, the fences
   collapse onto Q1 and every value different from Q1 is flagged.
   */
  lemma {:induction false} ZeroIqrFlagsEveryOtherValue(values: seq<real>, f: Fences)
    requires f.q1 == f.q3
    requires f.q1 - f.lower == f.upper - f.q3 == IqrMultiplier * (f.q3 - f.q1)
    ensures CountIf(values, OutsideFences(f)) == CountIf(values, DiffersFrom(f.q1))
  {
    assert f.lower == f.q1 == f.upper;
    CountIfSame(values, OutsideFences(f), DiffersFrom(f.q1));
  }

  /** Hence a zero-spread column with one value off the quartile has at least one outlier. */
  lemma {:induction false} ZeroIqrWithOtherValueHasOutlier(values: seq<real>, f: Fences, i: nat)
    requires f.q1 == f.q3
    requires f.q1 - f.lower == f.upper - f.q3 == IqrMultiplier * (f.q3 - f.q1)
    requires i < |values| && values[i] != f.q1
    ensures CountIf(values, OutsideFences(f)) >= 1
  {
    ZeroIqrFlagsEveryOtherValue(values, f);
    CountIfWitness(values, DiffersFrom(f.q1), i);
  }
}
