/**
 Worked instances of the model on the tables the repository's tests build
 (test_inspector.py): the outlier sample, and the shape of the date-and-category
 sample.
 */
module Scenarios {
  import opened Options
  import opened Counting
  import opened Tables
  import opened Sorting
  import opened Quantiles
  import opened Outliers
  import opened DateDetection
  import opened NullProfile

  /** A column in which every row holds the given number. */
  function AsCells(values: seq<real>): (r: seq<Cell>)
    ensures |r| == |values|
    ensures forall i :: 0 <= i < |r| ==> r[i] == Some(Number(values[i]))
  {
    seq(|values|, i requires 0 <= i < |values| => Some(Number(values[i])))
  }

  /** A column without missing cells hands every value, in order, to the quartile computation. */
  lemma {:induction false} PresentNumbersOfFullColumn(values: seq<real>)
    ensures PresentNumbers(AsCells(values)) == values
  {
    if |values| > 0 {
      assert AsCells(values)[1..] == AsCells(values[1..]);
      PresentNumbersOfFullColumn(values[1..]);
    }
  }

  lemma CountIfOfFive(a: real, b: real, c: real, d: real, e: real, p: real -> bool)
    ensures CountIf([a, b, c, d, e], p) ==
      (if p(a) then 1 else 0) + (if p(b) then 1 else 0) + (if p(c) then 1 else 0)
      + (if p(d) then 1 else 0) + (if p(e) then 1 else 0)
  {
    assert [a, b, c, d, e][1..] == [b, c, d, e];
    assert [b, c, d, e][1..] == [c, d, e];
    assert [c, d, e][1..] == [d, e];
    assert [d, e][1..] == [e];
    assert CountIf([e], p) == (if p(e) then 1 else 0) + CountIf([], p);
    assert CountIf([d, e], p) == (if p(d) then 1 else 0) + CountIf([e], p);
    assert CountIf([c, d, e], p) == (if p(c) then 1 else 0) + CountIf([d, e], p);
    assert CountIf([b, c, d, e], p) == (if p(b) then 1 else 0) + CountIf([c, d, e], p);
  }

  /** The repeating block of the outlier test's value column. */
  const Block: seq<real> := [1.0, 2.0, 3.0, 4.0, 5.0]

  /**
   How many times the block is repeated in the outlier test. The lemmas below
   take the count as a parameter equal to this constant, so that the verifier
   reasons about `Repeat` and `Sort` symbolically instead of unrolling them on
   a literal hundred-element column.
   */
  const Copies: nat := 20

  /**
   The outlier test's value column: the block `copies` times, then rows 0 and 1
   set to 1000 and -1000. The test uses twenty copies.
   */
  function OutlierSampleValues(copies: nat): (v: seq<real>)
    requires copies >= 1
    ensures |v| == 5 * copies
  {
    Repeat(Block, copies)[0 := 1000.0][1 := -1000.0]
  }

  /** The head of the outlier column (the first block with the two planted values) and the rest. */
  lemma OutlierSampleSplit(copies: nat)
    requires copies >= 1
    ensures OutlierSampleValues(copies) == [1000.0, -1000.0, 3.0, 4.0, 5.0] + Repeat(Block, copies - 1)
  {
    assert Repeat(Block, copies) == Block + Repeat(Block, copies - 1);
  }

  /** Counting `p` over the outlier column reduces to counting it over two five-value blocks. */
  lemma OutlierSampleCount(copies: nat, p: real -> bool)
    requires copies >= 1
    ensures CountIf(OutlierSampleValues(copies), p) ==
      CountIf([1000.0, -1000.0, 3.0, 4.0, 5.0], p) + (copies - 1) * CountIf(Block, p)
  {
    OutlierSampleSplit(copies);
    CountIfAppend([1000.0, -1000.0, 3.0, 4.0, 5.0], Repeat(Block, copies - 1), p);
    CountIfRepeat(Block, copies - 1, p);
  }

  /** Counting over the sorted column is counting over the column. */
  lemma SortedOutlierSampleCount(copies: nat, p: real -> bool)
    requires copies >= 1
    ensures CountIf(Sort(OutlierSampleValues(copies)), p) ==
      CountIf([1000.0, -1000.0, 3.0, 4.0, 5.0], p) + (copies - 1) * CountIf(Block, p)
  {
    CountIfPermutation(OutlierSampleValues(copies), Sort(OutlierSampleValues(copies)), p);
    OutlierSampleCount(copies, p);
  }

  /** Rank counts of the value 2 in the sorted outlier column: it fills positions 20 to 38. */
  lemma OutlierSampleRanksOfTwo(copies: nat)
    requires copies == Copies
    ensures CountIf(Sort(OutlierSampleValues(copies)), Below(2.0)) == 20
    ensures CountIf(Sort(OutlierSampleValues(copies)), AtMost(2.0)) == 39
  {
    SortedOutlierSampleCount(copies, Below(2.0));
    SortedOutlierSampleCount(copies, AtMost(2.0));
    CountIfOfFive(1000.0, -1000.0, 3.0, 4.0, 5.0, Below(2.0));
    CountIfOfFive(1.0, 2.0, 3.0, 4.0, 5.0, Below(2.0));
    CountIfOfFive(1000.0, -1000.0, 3.0, 4.0, 5.0, AtMost(2.0));
    CountIfOfFive(1.0, 2.0, 3.0, 4.0, 5.0, AtMost(2.0));
  }

  /** Rank counts of the value 4 in the sorted outlier column: it fills positions 59 to 78. */
  lemma OutlierSampleRanksOfFour(copies: nat)
    requires copies == Copies
    ensures CountIf(Sort(OutlierSampleValues(copies)), Below(4.0)) == 59
    ensures CountIf(Sort(OutlierSampleValues(copies)), AtMost(4.0)) == 79
  {
    SortedOutlierSampleCount(copies, Below(4.0));
    SortedOutlierSampleCount(copies, AtMost(4.0));
    CountIfOfFive(1000.0, -1000.0, 3.0, 4.0, 5.0, Below(4.0));
    CountIfOfFive(1.0, 2.0, 3.0, 4.0, 5.0, Below(4.0));
    CountIfOfFive(1000.0, -1000.0, 3.0, 4.0, 5.0, AtMost(4.0));
    CountIfOfFive(1.0, 2.0, 3.0, 4.0, 5.0, AtMost(4.0));
  }

  /** The outlier column's quartiles are 2 and 4, so its fences are -1 and 7. */
  lemma OutlierSampleFences(copies: nat)
    requires copies == Copies
    ensures ColumnFences(OutlierSampleValues(copies)) == Fences(2.0, 4.0, -1.0, 7.0)
  {
    var s := Sort(OutlierSampleValues(copies));
    OutlierSampleRanksOfTwo(copies);
    OutlierSampleRanksOfFour(copies);
    OrderStatistic(s, 24, 2.0);
    OrderStatistic(s, 25, 2.0);
    OrderStatistic(s, 74, 4.0);
    OrderStatistic(s, 75, 4.0);
    assert LowIndex(100, LowerQuartile) == 24;
    assert LowIndex(100, UpperQuartile) == 74;
    QuantileOnPlateau(s, LowerQuartile, 2.0);
    QuantileOnPlateau(s, UpperQuartile, 4.0);
  }

  /** The outlier test: exactly the two planted values lie outside the fences. */
  lemma OutlierSampleHasTwoOutliers(copies: nat)
    requires copies == Copies
    ensures ColumnOutliers(AsCells(OutlierSampleValues(copies))) == 2
  {
    var v := OutlierSampleValues(copies);
    PresentNumbersOfFullColumn(v);
    var f := Fences(2.0, 4.0, -1.0, 7.0);
    OutlierSampleFences(copies);
    OutlierSampleCount(copies, OutsideFences(f));
    CountIfOfFive(1000.0, -1000.0, 3.0, 4.0, 5.0, OutsideFences(f));
    CountIfOfFive(1.0, 2.0, 3.0, 4.0, 5.0, OutsideFences(f));
  }

  /**
   The date-and-category sample: when the first column is fully dated it is the
   one detected, and its row-0 value is the sample.
   */
  lemma FullyDatedFirstColumnDetected(t: Table, parses: DateReader)
    requires WellFormed(t) && t.rows > 0 && |t.columns| > 0
    requires forall i :: 0 <= i < t.rows ==> t.columns[0].cells[i].Some? && parses(t.columns[0].cells)(t.columns[0].cells[i].value)
    ensures DetectDateColumn(t, parses) == DateColumn(0, t.columns[0].name, t.columns[0].cells[0].value)
  {
    QualifiesIffEveryCellParses(t.columns[0], t.rows, parses);
  }

  /** A column with a missing cell (the sample's category column) is listed with its name and count. */
  lemma MissingCellListsColumn(t: Table, j: nat, i: nat)
    requires WellFormed(t)
    requires j < |t.columns| && i < t.rows && t.columns[j].cells[i].None?
    ensures exists k ::
      0 <= k < |ColumnsWithNulls(t)| &&
      ColumnsWithNulls(t)[k] == NullColumn(j, t.columns[j].name, NullsIn(t.columns[j].cells))
  {
    CountIfWitness(t.columns[j].cells, IsMissing, i);
    var listed := ColumnsWithNulls(t);
    var k :| 0 <= k < |listed| && listed[k].position == j;
    assert listed[k] == NullColumn(j, t.columns[j].name, NullsIn(t.columns[j].cells));
  }
}
