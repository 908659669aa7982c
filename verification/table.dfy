/** The usual optional value; `None` is a missing cell. */
module Options {
  datatype Option<+T> = None | Some(value: T)
}

/**
 The in-memory table the inspection runs over: an ordered sequence of named
 columns, all of the same length. A cell is either missing (`None`) or holds
 a value; numeric columns hold numbers only.
 */
module Tables {
  import opened Options
  import opened Counting

  /** A cell value. Numbers are idealised as mathematical reals. */
  datatype Value = Number(x: real) | Text(s: string)

  type Cell = Option<Value>

  /**
   A named column. `isNumeric` is the loader's verdict that the column has a
   numeric element type; the numeric columns are the ones the outlier
   detector looks at.
   */
  datatype Column = Column(name: string, isNumeric: bool, cells: seq<Cell>)

  /** `rows` is kept apart from the columns so that a table without columns still has a height. */
  datatype Table = Table(rows: nat, columns: seq<Column>)

  /** Every column has one cell per row, and a numeric column holds only numbers. */
  ghost predicate WellFormed(t: Table)
  {
    forall j :: 0 <= j < |t.columns| ==>
      && |t.columns[j].cells| == t.rows
      && (t.columns[j].isNumeric ==> forall i :: 0 <= i < t.rows ==> IsNumberOrMissing(t.columns[j].cells[i]))
  }

  predicate IsNumberOrMissing(c: Cell)
  {
    c.None? || c.value.Number?
  }

  predicate IsMissing(c: Cell)
  {
    c.None?
  }

  predicate IsPresent(c: Cell)
  {
    c.Some?
  }

  /** Number of missing cells in a sequence of cells. */
  function NullsIn(cells: seq<Cell>): (n: nat)
    ensures n <= |cells|
  {
    CountIf(cells, IsMissing)
  }

  /** Number of present cells in a sequence of cells. */
  function PresentIn(cells: seq<Cell>): (n: nat)
    ensures n + NullsIn(cells) == |cells|
  {
    CountIfComplement(cells, IsPresent, IsMissing);
    CountIf(cells, IsPresent)
  }

  /** Row `i` of the table read across the columns, in column order. */
  function Row(cols: seq<Column>, i: nat): (r: seq<Cell>)
    requires forall j :: 0 <= j < |cols| ==> i < |cols[j].cells|
    ensures |r| == |cols|
    ensures forall j :: 0 <= j < |cols| ==> r[j] == cols[j].cells[i]
  {
    seq(|cols|, j requires 0 <= j < |cols| => cols[j].cells[i])
  }

  /** All cells of the table, column after column. */
  function AllCells(cols: seq<Column>): (r: seq<Cell>)
  {
    if |cols| == 0 then [] else cols[0].cells + AllCells(cols[1..])
  }

  /** A well-formed table has exactly `rows * columns` cells. */
  lemma {:induction false} AllCellsSize(t: Table)
    requires WellFormed(t)
    ensures |AllCells(t.columns)| == t.rows * |t.columns|
    decreases |t.columns|
  {
    if |t.columns| > 0 {
      var rest := Table(t.rows, t.columns[1..]);
      assert WellFormed(rest) by {
        forall j | 0 <= j < |rest.columns| ensures rest.columns[j] == t.columns[j + 1] { }
      }
      AllCellsSize(rest);
      assert t.rows * |t.columns| == t.rows + t.rows * (|t.columns| - 1);
    }
  }
}
