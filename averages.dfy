/**
 * The space average that `build_navigation_tree` in main/app.py shows next to every space: the
 * mean expected grade of its rows. Both statistics of a row are computed, as the source does;
 * their results are never `None`, so every row counts, an empty one with 0.0.
 */
module Averages {
  import opened Wrappers
  import Text
  import Ratio
  import Structure
  import opened Spaces

  /** `calculate_ratio` can run on every row: a row that has cards has a cell for every column. */
  ghost predicate RowsCovered(t: Table)
  {
    forall k :: 0 <= k < |t.rows| && t.rows[k] in t.cards ==> Ratio.Covers(t.cards[t.rows[k]], t.columns)
  }

  lemma RowsCoveredGraded(t: Table, k: nat)
    requires RowsCovered(t) && k < |t.rows|
    ensures t.rows[k] in t.cards ==> Ratio.Covers(t.cards[t.rows[k]], t.columns)
    ensures t.rows[k] in t.cards ==> Ratio.CoversGraded(Ratio.ColumnGrade, t.cards[t.rows[k]], t.columns)
  {
    if t.rows[k] in t.cards {
      Ratio.CoversPrefix(Ratio.ColumnGrade, t.cards[t.rows[k]], t.columns, 0);
    }
  }

  /** The expected grade of the row at position `k`. */
  function RowGrade(t: Table, k: nat): real
    requires RowsCovered(t) && k < |t.rows|
  {
    RowsCoveredGraded(t, k);
    Ratio.ExpectedGrade(t.rows[k], t.cards, t.columns)
  }

  /** The summed expected grades of the first `n` rows. */
  function GradeSum(t: Table, n: nat): real
    requires RowsCovered(t) && n <= |t.rows|
  {
    if n == 0 then 0.0 else GradeSum(t, n - 1) + RowGrade(t, n - 1)
  }

  /** The average of a space: `None` (shown as "—") without rows, else the mean over all rows. */
  function SpaceAverage(t: Table): Option<real>
    requires RowsCovered(t)
  {
    if t.rows == [] then None else Some(GradeSum(t, |t.rows|) / |t.rows| as real)
  }

  /** The loop of `build_navigation_tree` for one space. */
  method SpaceAverageLoop(t: Table) returns (average: Option<real>)
    requires RowsCovered(t)
    ensures average == SpaceAverage(t)
  {
    var rows := t.rows;
    if rows == [] {
      return None;
    }
    var columns := t.columns;
    var cards := t.cards;
    var values: seq<real> := [];
    var total := 0.0;
    var i := 0;
    while i < |rows|
      invariant 0 <= i <= |rows|
      invariant |values| == i
      invariant total == GradeSum(t, i)
    {
      var rowName := rows[i];
      RowsCoveredGraded(t, i);
      var ratio := Ratio.CalculateRatio(rowName, cards, columns);
      var expectedGrade := Ratio.CalculateExpectedGrade(rowName, cards, columns);
      values := values + [expectedGrade];
      total := total + expectedGrade;
      i := i + 1;
    }
    return Some(total / |values| as real);
  }

  /** Every row's expected grade is 0.0 or lies from 1.0 to 6.0, when the column grades do. */
  lemma RowGradeRange(t: Table, k: nat)
    requires RowsCovered(t) && k < |t.rows| && Ratio.GradesWithin(Ratio.ColumnGrade, t.columns)
    ensures RowGrade(t, k) == 0.0 || 1.0 <= RowGrade(t, k) <= 6.0
  {
    RowsCoveredGraded(t, k);
    var r := t.rows[k];
    if r in t.cards {
      var row := t.cards[r];
      if Ratio.Weightless(Ratio.ColumnGrade, row, t.columns) {
        Ratio.ExpectedGradeWeightless(Ratio.ColumnGrade, row, t.columns);
      } else {
        Ratio.ExpectedGradeWithin(Ratio.ColumnGrade, row, t.columns);
      }
    }
  }

  /** The summed grades of `n` rows lie from 0 to 6n. */
  lemma {:induction false} GradeSumBetween(t: Table, n: nat)
    requires RowsCovered(t) && n <= |t.rows| && Ratio.GradesWithin(Ratio.ColumnGrade, t.columns)
    ensures 0.0 <= GradeSum(t, n) <= 6.0 * n as real
  {
    if n > 0 {
      GradeSumBetween(t, n - 1);
      RowGradeRange(t, n - 1);
    }
  }

  /**
   * A space without rows has no average; otherwise, when its column grades lie from 1.0 to 6.0,
   * the average lies from 0.0 to 6.0.
   */
  lemma SpaceAverageBetween(t: Table)
    requires RowsCovered(t) && Ratio.GradesWithin(Ratio.ColumnGrade, t.columns)
    ensures SpaceAverage(t).None? <==> t.rows == []
    ensures SpaceAverage(t).Some? ==> 0.0 <= SpaceAverage(t).value <= 6.0
  {
    if t.rows != [] {
      var n := |t.rows|;
      GradeSumBetween(t, n);
      Ratio.DivBetween(GradeSum(t, n), n as real, 0.0, 6.0);
    }
  }

  /** A row none of whose cards carries weight in a graded column: its expected grade is 0.0. */
  ghost predicate Unweighted(t: Table, k: nat)
    requires RowsCovered(t) && k < |t.rows|
  {
    RowsCoveredGraded(t, k);
    t.rows[k] in t.cards ==> Ratio.Weightless(Ratio.ColumnGrade, t.cards[t.rows[k]], t.columns)
  }

  /** Rows without weighted cards add nothing to the sum. */
  lemma {:induction false} GradeSumUnweighted(t: Table, n: nat)
    requires RowsCovered(t) && n <= |t.rows|
    requires forall k :: 0 <= k < n ==> Unweighted(t, k)
    ensures GradeSum(t, n) == 0.0
  {
    if n > 0 {
      GradeSumUnweighted(t, n - 1);
      var k := n - 1;
      assert Unweighted(t, k);
      RowsCoveredGraded(t, k);
      if t.rows[k] in t.cards {
        Ratio.ExpectedGradeWeightless(Ratio.ColumnGrade, t.cards[t.rows[k]], t.columns);
      }
    }
  }

  /**
   * Empty rows are not skipped: a space whose rows hold no weighted card averages 0.0, not "—".
   */
  lemma SpaceAverageUnweighted(t: Table)
    requires RowsCovered(t) && t.rows != []
    requires forall k :: 0 <= k < |t.rows| ==> Unweighted(t, k)
    ensures SpaceAverage(t) == Some(0.0)
  {
    GradeSumUnweighted(t, |t.rows|);
  }

  /** A space with one row shows that row's expected grade. */
  lemma SpaceAverageSingle(t: Table)
    requires RowsCovered(t) && |t.rows| == 1
    ensures SpaceAverage(t) == Some(RowGrade(t, 0))
  {
    assert GradeSum(t, 1) == GradeSum(t, 0) + RowGrade(t, 0);
  }

  /** The generated stage columns have grades from 1.0 to 6.0 ("5.0" counts as 6.0). */
  lemma GeneratedColumnsGraded(n: int)
    ensures Ratio.GradesWithin(Ratio.ColumnGrade, Structure.Labels(n))
  {
    var labels := Structure.Labels(n);
    forall k | 0 <= k < |labels| && Ratio.ColumnGrade(labels[k]).Some?
      ensures 1.0 <= Ratio.ColumnGrade(labels[k]).value <= 6.0
    {
      Structure.LabelShape(n, k);
      var v := Structure.Tenths(n, k) as real / 10.0;
      assert 1.0 <= v <= 5.0;
      Ratio.EffectiveGradeSpec(v);
    }
  }

  /** Every well-formed space can be averaged. */
  lemma WellFormedCovered(t: Table)
    requires WellFormed(t)
    ensures RowsCovered(t)
  {
  }
}
