/**
 Density classification (inspector.py:60-62): the share of present cells
 over all `rows * columns` cells, labelled Sparse below one half and Dense
 from one half up.
 */
module Density {
  import opened Tables
  import opened NullProfile

  datatype Label = Sparse | Dense

  /** Share of present cells from which a table counts as dense. */
  const DenseCutoff: real := 0.5

  /** Number of present cells of the whole table. */
  function NonNullCells(t: Table): (n: nat)
    ensures n + MissingCells(t) == |AllCells(t.columns)|
  {
    PresentIn(AllCells(t.columns))
  }

  /** Every cell is either present or missing. */
  lemma CellAccounting(t: Table)
    requires WellFormed(t)
    ensures NonNullCells(t) + MissingCells(t) == t.rows * |t.columns|
  {
    AllCellsSize(t);
  }

  /** The label from the present-cell ratio; exactly one half is Dense. */
  function Classify(nonNull: nat, total: nat): (d: Label)
    requires total > 0
    ensures d == Sparse <==> 2 * nonNull < total
  {
    var ratio := nonNull as real / total as real;
    assert ratio * total as real == nonNull as real;
    if ratio < DenseCutoff then Sparse else Dense
  }

  /** The table's label, stated over present and over missing cells. */
  function Sparsity(t: Table): (d: Label)
    requires WellFormed(t) && t.rows > 0 && |t.columns| > 0
    ensures d == Sparse <==> 2 * NonNullCells(t) < t.rows * |t.columns|
    ensures d == Dense <==> 2 * MissingCells(t) <= t.rows * |t.columns|
  {
    CellAccounting(t);
    Classify(NonNullCells(t), t.rows * |t.columns|)
  }
}
