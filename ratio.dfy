/**
 * Row statistics of formula/ratio.py: the progress ratio of a row and its expected grade.
 * Column labels are read with `float`; a label that does not parse is skipped.
 *
 * The sums are defined for any way `grade` of reading a label, so that their properties do not
 * depend on the decimal parser; `Ratio` and `ExpectedGrade` fix it to `ColumnGrade`.
 */
module Ratio {
  import opened Wrappers
  import Text
  import Cards

  /** The cards of one row, by column label. */
  type Row = map<string, seq<Cards.Card>>
  /** The rows of a table, by row name. */
  type CardMatrix = map<string, Row>
  /** A way of reading a column label as a grade; `None` where the label is skipped. */
  type Grading = string -> Option<real>

  /** How close to 5.0 a stage value must be to count as the final stage. */
  const Tolerance: real := 0.000001

  /** `_effective_grade_value`: the stage 5.0 counts as grade 6.0. */
  function EffectiveGrade(raw: real): real
  {
    if -Tolerance < raw - 5.0 < Tolerance then 6.0 else raw
  }

  /** An effective grade is never within the tolerance of 5.0, and every other value is kept. */
  lemma EffectiveGradeSpec(raw: real)
    ensures !(-Tolerance < EffectiveGrade(raw) - 5.0 < Tolerance)
    ensures !(-Tolerance < raw - 5.0 < Tolerance) <==> EffectiveGrade(raw) == raw
    ensures EffectiveGrade(EffectiveGrade(raw)) == EffectiveGrade(raw)
  {
  }

  /** `_effective_grade_value(float(col))`, or `None` where `float` raises. */
  function ColumnGrade(col: string): Option<real>
  {
    match Text.ParseDecimal(col)
    case None => None
    case Some(v) => Some(EffectiveGrade(v))
  }

  /** `(5.0 - col_val) / 3.0`: how far a grade lies below the top stage, in thirds. */
  function Factor(g: real): real
  {
    (5.0 - g) / 3.0
  }

  /** Every column is a key of the row (the ratio looks every one of them up). */
  predicate Covers(row: Row, columns: seq<string>)
  {
    forall c :: c in columns ==> c in row
  }

  /** Every column with a grade is a key of the row (the expected grade looks up only those). */
  predicate CoversGraded(grade: Grading, row: Row, columns: seq<string>)
  {
    forall c :: c in columns && grade(c).Some? ==> c in row
  }

  lemma CoversPrefix(grade: Grading, row: Row, columns: seq<string>, k: nat)
    requires k <= |columns|
    ensures Covers(row, columns) ==> Covers(row, columns[..k])
    ensures Covers(row, columns) ==> CoversGraded(grade, row, columns)
    ensures CoversGraded(grade, row, columns) ==> CoversGraded(grade, row, columns[..k])
  {
    assert forall c :: c in columns[..k] ==> c in columns;
  }

  /** `sum(len(cards[row_name][col]) for col in columns)`. */
  function CountCards(row: Row, columns: seq<string>): nat
    requires Covers(row, columns)
  {
    if columns == [] then 0
    else
      CoversPrefix(ColumnGrade, row, columns, |columns| - 1);
      CountCards(row, columns[..|columns| - 1]) + |row[columns[|columns| - 1]]|
  }

  /** `sum_factors`: each card of a column with a grade adds that column's factor. */
  function SumFactors(grade: Grading, row: Row, columns: seq<string>): real
    requires CoversGraded(grade, row, columns)
  {
    if columns == [] then 0.0
    else
      CoversPrefix(grade, row, columns, |columns| - 1);
      var col := columns[|columns| - 1];
      var rest := SumFactors(grade, row, columns[..|columns| - 1]);
      match grade(col)
      case None => rest
      case Some(g) => rest + |row[col]| as real * Factor(g)
  }

  /** The mean factor over all cards of a row, for any reading of the labels; 0.0 for an empty row. */
  function RowRatio(grade: Grading, row: Row, columns: seq<string>): real
    requires Covers(row, columns)
  {
    CoversPrefix(grade, row, columns, 0);
    var total := CountCards(row, columns);
    if total == 0 then 0.0 else SumFactors(grade, row, columns) / total as real
  }

  /** `calculate_ratio`: the mean factor of the row's cards; 0.0 for an unknown or empty row. */
  function Ratio(rowName: string, cards: CardMatrix, columns: seq<string>): real
    requires rowName in cards ==> Covers(cards[rowName], columns)
  {
    if rowName !in cards then 0.0 else RowRatio(ColumnGrade, cards[rowName], columns)
  }

  /** `calculate_ratio`: an unknown row has ratio 0.0; a known one is summed up by `RowRatioLoop`. */
  method CalculateRatio(rowName: string, cards: CardMatrix, columns: seq<string>) returns (ratio: real)
    requires rowName in cards ==> Covers(cards[rowName], columns)
    ensures ratio == Ratio(rowName, cards, columns)
  {
    if rowName !in cards {
      return 0.0;
    }
    ratio := RowRatioLoop(ColumnGrade, cards[rowName], columns);
  }

  /** The two loops of `calculate_ratio`: count the cards, then sum their factors, reading labels with `grade`. */
  method RowRatioLoop(grade: Grading, row: Row, columns: seq<string>) returns (ratio: real)
    requires Covers(row, columns)
    ensures ratio == RowRatio(grade, row, columns)
  {
    var totalCards := CountCardsLoop(row, columns);
    if totalCards == 0 {
      return 0.0;
    }
    CoversPrefix(grade, row, columns, 0);
    var sumFactors := SumFactorsLoop(grade, row, columns);
    return sumFactors / totalCards as real;
  }

  /** The first loop of `calculate_ratio`: the number of cards in the row's cells. */
  method CountCardsLoop(row: Row, columns: seq<string>) returns (totalCards: nat)
    requires Covers(row, columns)
    ensures totalCards == CountCards(row, columns)
  {
    totalCards := 0;
    var i := 0;
    while i < |columns|
      invariant 0 <= i <= |columns|
      invariant Covers(row, columns[..i])
      invariant totalCards == CountCards(row, columns[..i])
    {
      CountCardsStep(row, columns, i);
      totalCards := totalCards + |row[columns[i]]|;
      i := i + 1;
    }
    assert columns[..i] == columns;
  }

  /** The second loop of `calculate_ratio`: every card of a graded column adds `(5 - value) / 3`. */
  method SumFactorsLoop(grade: Grading, row: Row, columns: seq<string>) returns (sumFactors: real)
    requires CoversGraded(grade, row, columns)
    ensures sumFactors == SumFactors(grade, row, columns)
  {
    sumFactors := 0.0;
    var i := 0;
    while i < |columns|
      invariant 0 <= i <= |columns|
      invariant CoversGraded(grade, row, columns[..i])
      invariant sumFactors == SumFactors(grade, row, columns[..i])
    {
      SumFactorsStep(grade, row, columns, i);
      var col := columns[i];
      var parsed := grade(col);
      if parsed.Some? {
        var colVal := parsed.value;
        var count := |row[col]|;
        var normalized := (5.0 - colVal) / 3.0;
        sumFactors := sumFactors + count as real * normalized;
      }
      i := i + 1;
    }
    assert columns[..i] == columns;
  }

  /** The weight a card carries: `weight / 100`, and nothing when the weight is not positive. */
  function Share(c: Cards.Card): real
  {
    if c.weight <= 0.0 then 0.0 else c.weight / 100.0
  }

  /** The summed shares of a column's cards. */
  function ColumnWeight(cs: seq<Cards.Card>): real
  {
    if cs == [] then 0.0 else ColumnWeight(cs[..|cs| - 1]) + Share(cs[|cs| - 1])
  }

  /** The summed `col_value * normalized_weight` of a column's cards. */
  function ColumnWeighted(cs: seq<Cards.Card>, g: real): real
  {
    if cs == [] then 0.0
    else
      var c := cs[|cs| - 1];
      ColumnWeighted(cs[..|cs| - 1], g) + (if c.weight <= 0.0 then 0.0 else g * (c.weight / 100.0))
  }

  /** `total_weight` over the columns with a grade. */
  function TotalWeight(grade: Grading, row: Row, columns: seq<string>): real
    requires CoversGraded(grade, row, columns)
  {
    if columns == [] then 0.0
    else
      CoversPrefix(grade, row, columns, |columns| - 1);
      var col := columns[|columns| - 1];
      var rest := TotalWeight(grade, row, columns[..|columns| - 1]);
      if grade(col).Some? then rest + ColumnWeight(row[col]) else rest
  }

  /** `weighted_sum` over the columns with a grade. */
  function WeightedSum(grade: Grading, row: Row, columns: seq<string>): real
    requires CoversGraded(grade, row, columns)
  {
    if columns == [] then 0.0
    else
      CoversPrefix(grade, row, columns, |columns| - 1);
      var col := columns[|columns| - 1];
      var rest := WeightedSum(grade, row, columns[..|columns| - 1]);
      match grade(col)
      case None => rest
      case Some(g) => rest + ColumnWeighted(row[col], g)
  }

  /** The weighted mean grade of a row, for any reading of the labels; 0.0 when no card carries weight. */
  function RowExpectedGrade(grade: Grading, row: Row, columns: seq<string>): real
    requires CoversGraded(grade, row, columns)
  {
    var total := TotalWeight(grade, row, columns);
    if total == 0.0 then 0.0 else WeightedSum(grade, row, columns) / total
  }

  /** `calculate_expected_grade`: the weighted mean grade of the row; 0.0 for an unknown row. */
  function ExpectedGrade(rowName: string, cards: CardMatrix, columns: seq<string>): real
    requires rowName in cards ==> CoversGraded(ColumnGrade, cards[rowName], columns)
  {
    if rowName !in cards then 0.0 else RowExpectedGrade(ColumnGrade, cards[rowName], columns)
  }

  /** One more column adds its cards to the count. */
  lemma CountCardsStep(row: Row, columns: seq<string>, i: nat)
    requires i < |columns| && Covers(row, columns)
    ensures Covers(row, columns[..i]) && Covers(row, columns[..i + 1])
    ensures CountCards(row, columns[..i + 1]) == CountCards(row, columns[..i]) + |row[columns[i]]|
  {
    CoversPrefix(ColumnGrade, row, columns, i);
    CoversPrefix(ColumnGrade, row, columns, i + 1);
    assert columns[..i + 1][..i] == columns[..i];
  }

  /** What the cell of column `col` adds to the factor sum: its factor once per card, or nothing without a grade. */
  function ColumnFactors(grade: Grading, row: Row, col: string): real
    requires grade(col).Some? ==> col in row
  {
    if grade(col).Some? then |row[col]| as real * Factor(grade(col).value) else 0.0
  }

  /** One more column adds its factor once per card, or nothing when it has no grade. */
  lemma SumFactorsStep(grade: Grading, row: Row, columns: seq<string>, i: nat)
    requires i < |columns| && CoversGraded(grade, row, columns)
    ensures CoversGraded(grade, row, columns[..i]) && CoversGraded(grade, row, columns[..i + 1])
    ensures SumFactors(grade, row, columns[..i + 1]) == SumFactors(grade, row, columns[..i])
      + ColumnFactors(grade, row, columns[i])
  {
    CoversPrefix(grade, row, columns, i);
    CoversPrefix(grade, row, columns, i + 1);
    var c := columns[..i + 1];
    assert c[..i] == columns[..i] && c[i] == columns[i];
    assert SumFactors(grade, row, c) == SumFactors(grade, row, c[..i]) + ColumnFactors(grade, row, c[i]);
  }

  /** One more column adds its weight and weighted sum, or nothing when it has no grade. */
  lemma WeightStep(grade: Grading, row: Row, columns: seq<string>, i: nat)
    requires i < |columns| && CoversGraded(grade, row, columns)
    ensures CoversGraded(grade, row, columns[..i]) && CoversGraded(grade, row, columns[..i + 1])
    ensures TotalWeight(grade, row, columns[..i + 1]) == TotalWeight(grade, row, columns[..i])
      + (if grade(columns[i]).Some? then ColumnWeight(row[columns[i]]) else 0.0)
    ensures WeightedSum(grade, row, columns[..i + 1]) == WeightedSum(grade, row, columns[..i])
      + (if grade(columns[i]).Some? then ColumnWeighted(row[columns[i]], grade(columns[i]).value) else 0.0)
  {
    CoversPrefix(grade, row, columns, i);
    CoversPrefix(grade, row, columns, i + 1);
    assert columns[..i + 1][..i] == columns[..i];
  }

  /** One more card adds its share, and its share weighted by the grade. */
  lemma ColumnStep(cs: seq<Cards.Card>, g: real, j: nat)
    requires j < |cs|
    ensures ColumnWeight(cs[..j + 1]) == ColumnWeight(cs[..j]) + Share(cs[j])
    ensures ColumnWeighted(cs[..j + 1], g) == ColumnWeighted(cs[..j], g)
      + (if cs[j].weight <= 0.0 then 0.0 else g * (cs[j].weight / 100.0))
  {
    assert cs[..j + 1][..j] == cs[..j];
  }

  /** `calculate_expected_grade`: an unknown row has expected grade 0.0; a known one is summed up by `RowExpectedGradeLoop`. */
  method CalculateExpectedGrade(rowName: string, cards: CardMatrix, columns: seq<string>) returns (grade: real)
    requires rowName in cards ==> CoversGraded(ColumnGrade, cards[rowName], columns)
    ensures grade == ExpectedGrade(rowName, cards, columns)
  {
    if rowName !in cards {
      return 0.0;
    }
    grade := RowExpectedGradeLoop(ColumnGrade, cards[rowName], columns);
  }

  /** The nested loops of `calculate_expected_grade`, reading labels with `grade`. */
  method RowExpectedGradeLoop(grade: Grading, row: Row, columns: seq<string>) returns (mean: real)
    requires CoversGraded(grade, row, columns)
    ensures mean == RowExpectedGrade(grade, row, columns)
  {
    var weightedSum := 0.0;
    var totalWeight := 0.0;
    var i := 0;
    while i < |columns|
      invariant 0 <= i <= |columns|
      invariant CoversGraded(grade, row, columns[..i])
      invariant weightedSum == WeightedSum(grade, row, columns[..i])
      invariant totalWeight == TotalWeight(grade, row, columns[..i])
    {
      WeightStep(grade, row, columns, i);
      var col := columns[i];
      var parsed := grade(col);
      if parsed.Some? {
        var colValue := parsed.value;
        var cs := row[col];
        ghost var w0, t0 := weightedSum, totalWeight;
        var j := 0;
        while j < |cs|
          invariant 0 <= j <= |cs|
          invariant weightedSum == w0 + ColumnWeighted(cs[..j], colValue)
          invariant totalWeight == t0 + ColumnWeight(cs[..j])
        {
          ColumnStep(cs, colValue, j);
          var weight := cs[j].weight;
          if weight > 0.0 {
            var normalizedWeight := weight / 100.0;
            totalWeight := totalWeight + normalizedWeight;
            weightedSum := weightedSum + colValue * normalizedWeight;
          }
          j := j + 1;
        }
        assert cs[..j] == cs;
      }
      i := i + 1;
    }
    assert columns[..i] == columns;
    if totalWeight == 0.0 {
      return 0.0;
    }
    return weightedSum / totalWeight;
  }

  /** A column's weighted sum is its grade times its weight: every card is weighted by the same grade. */
  lemma {:induction false} ColumnWeightedScales(cs: seq<Cards.Card>, g: real)
    ensures ColumnWeighted(cs, g) == g * ColumnWeight(cs)
  {
    if cs != [] {
      ColumnWeightedScales(cs[..|cs| - 1], g);
    }
  }

  /** A column's weight is never negative, and is zero exactly when none of its cards has a positive weight. */
  lemma {:induction false} ColumnWeightZero(cs: seq<Cards.Card>)
    ensures 0.0 <= ColumnWeight(cs)
    ensures ColumnWeight(cs) == 0.0 <==> forall c :: c in cs ==> c.weight <= 0.0
  {
    if cs != [] {
      var init, last := cs[..|cs| - 1], cs[|cs| - 1];
      ColumnWeightZero(init);
      assert cs == init + [last];
      assert forall c :: c in cs <==> c in init || c == last;
    }
  }

  /** No card of a column with a grade has a positive weight. */
  predicate Weightless(grade: Grading, row: Row, columns: seq<string>)
    requires CoversGraded(grade, row, columns)
  {
    forall k :: 0 <= k < |columns| && grade(columns[k]).Some? ==>
      forall c :: c in row[columns[k]] ==> c.weight <= 0.0
  }

  /** The total weight is never negative, and is zero exactly when no card of a graded column has a positive weight. */
  lemma {:induction false} TotalWeightZero(grade: Grading, row: Row, columns: seq<string>)
    requires CoversGraded(grade, row, columns)
    ensures 0.0 <= TotalWeight(grade, row, columns)
    ensures TotalWeight(grade, row, columns) == 0.0 <==> Weightless(grade, row, columns)
  {
    if columns != [] {
      var n := |columns| - 1;
      var init, col := columns[..n], columns[n];
      CoversPrefix(grade, row, columns, n);
      TotalWeightZero(grade, row, init);
      assert forall k :: 0 <= k < n ==> init[k] == columns[k];
      if grade(col).Some? {
        ColumnWeightZero(row[col]);
      }
    }
  }

  /** With no positive weight among the graded columns the expected grade is 0.0. */
  lemma ExpectedGradeWeightless(grade: Grading, row: Row, columns: seq<string>)
    requires CoversGraded(grade, row, columns) && Weightless(grade, row, columns)
    ensures RowExpectedGrade(grade, row, columns) == 0.0
  {
    TotalWeightZero(grade, row, columns);
  }

  /**
   * Every column of `columns` that has a grade has one from 1.0 to 6.0: the range of the stage
   * labels "1.0" to "5.0", with "5.0" counted as 6.0.
   */
  predicate GradesWithin(grade: Grading, columns: seq<string>)
  {
    forall k :: 0 <= k < |columns| && grade(columns[k]).Some? ==> 1.0 <= grade(columns[k]).value <= 6.0
  }

  lemma GradesWithinPrefix(grade: Grading, columns: seq<string>, n: nat)
    requires n < |columns| && GradesWithin(grade, columns)
    ensures GradesWithin(grade, columns[..n])
    ensures grade(columns[n]).Some? ==> 1.0 <= grade(columns[n]).value <= 6.0
  {
    assert forall k :: 0 <= k < n ==> columns[..n][k] == columns[k];
  }

  /** `x <= y` scaled by a non-negative `w`. */
  lemma MulLe(x: real, y: real, w: real)
    requires 0.0 <= w && x <= y
    ensures x * w <= y * w && w * x <= w * y
  {
    if x < y && 0.0 < w {
      MulStrict(x, y, w);
    }
  }

  /**
   * Every graded column that holds a card of positive weight, and so takes part in the mean, has
   * a grade from `lo` to `hi`. Columns whose cards all weigh 0 or less may have any grade.
   */
  predicate WeightedGradesBetween(grade: Grading, row: Row, columns: seq<string>, lo: real, hi: real)
    requires CoversGraded(grade, row, columns)
  {
    forall c :: c in columns && grade(c).Some? && (exists x :: x in row[c] && x.weight > 0.0) ==>
      lo <= grade(c).value <= hi
  }

  lemma WeightedGradesPrefix(grade: Grading, row: Row, columns: seq<string>, n: nat, lo: real, hi: real)
    requires n < |columns| && CoversGraded(grade, row, columns) && WeightedGradesBetween(grade, row, columns, lo, hi)
    ensures CoversGraded(grade, row, columns[..n]) && WeightedGradesBetween(grade, row, columns[..n], lo, hi)
  {
    CoversPrefix(grade, row, columns, n);
    assert forall c :: c in columns[..n] ==> c in columns;
  }

  /**
   * A column's weighted sum lies between `lo` and `hi` times its weight when its grade does, or
   * when none of its cards has a positive weight.
   */
  lemma ColumnWeightedBetween(cs: seq<Cards.Card>, g: real, lo: real, hi: real)
    requires (exists x :: x in cs && x.weight > 0.0) ==> lo <= g <= hi
    ensures lo * ColumnWeight(cs) <= ColumnWeighted(cs, g) <= hi * ColumnWeight(cs)
  {
    ColumnWeightZero(cs);
    ColumnWeightedScales(cs, g);
    var w := ColumnWeight(cs);
    if w != 0.0 {
      MulLe(lo, g, w);
      MulLe(g, hi, w);
    }
  }

  /** One more column whose weighted sum `gw` lies between `lo` and `hi` times its weight `w` keeps the bounds of the running sums. */
  lemma MeanStep(t: real, s: real, w: real, gw: real, lo: real, hi: real)
    requires lo * t <= s <= hi * t && lo * w <= gw <= hi * w
    ensures lo * (t + w) <= s + gw <= hi * (t + w)
  {
    assert lo * (t + w) == lo * t + lo * w;
    assert hi * (t + w) == hi * t + hi * w;
  }

  /**
   * The weighted sum lies between `lo` and `hi` times the total weight when every column that
   * carries weight has a grade from `lo` to `hi`.
   */
  lemma {:induction false} WeightedSumBetween(grade: Grading, row: Row, columns: seq<string>, lo: real, hi: real)
    requires CoversGraded(grade, row, columns) && WeightedGradesBetween(grade, row, columns, lo, hi)
    ensures lo * TotalWeight(grade, row, columns) <= WeightedSum(grade, row, columns)
    ensures WeightedSum(grade, row, columns) <= hi * TotalWeight(grade, row, columns)
  {
    if columns != [] {
      var n := |columns| - 1;
      WeightedGradesPrefix(grade, row, columns, n, lo, hi);
      WeightedSumBetween(grade, row, columns[..n], lo, hi);
      ColumnAtBetween(grade, row, columns, n, lo, hi);
      WeightedSumLast(grade, row, columns, n, lo, hi);
    }
  }

  /** The `n`th column's weighted sum lies between `lo` and `hi` times its weight, when it has a grade. */
  lemma ColumnAtBetween(grade: Grading, row: Row, columns: seq<string>, n: nat, lo: real, hi: real)
    requires n < |columns| && CoversGraded(grade, row, columns)
    requires WeightedGradesBetween(grade, row, columns, lo, hi)
    ensures grade(columns[n]).Some? ==>
      lo * ColumnWeight(row[columns[n]]) <= ColumnWeighted(row[columns[n]], grade(columns[n]).value)
    ensures grade(columns[n]).Some? ==>
      ColumnWeighted(row[columns[n]], grade(columns[n]).value) <= hi * ColumnWeight(row[columns[n]])
  {
    var col := columns[n];
    if grade(col).Some? {
      assert col in columns;
      ColumnWeightedBetween(row[col], grade(col).value, lo, hi);
    }
  }

  /** The bounds of the weighted sum carry over from all columns but the last to all of them. */
  lemma WeightedSumLast(grade: Grading, row: Row, columns: seq<string>, n: nat, lo: real, hi: real)
    requires n + 1 == |columns| && CoversGraded(grade, row, columns)
    requires CoversGraded(grade, row, columns[..n])
    requires lo * TotalWeight(grade, row, columns[..n]) <= WeightedSum(grade, row, columns[..n])
    requires WeightedSum(grade, row, columns[..n]) <= hi * TotalWeight(grade, row, columns[..n])
    requires grade(columns[n]).Some? ==>
      lo * ColumnWeight(row[columns[n]]) <= ColumnWeighted(row[columns[n]], grade(columns[n]).value)
    requires grade(columns[n]).Some? ==>
      ColumnWeighted(row[columns[n]], grade(columns[n]).value) <= hi * ColumnWeight(row[columns[n]])
    ensures lo * TotalWeight(grade, row, columns) <= WeightedSum(grade, row, columns)
    ensures WeightedSum(grade, row, columns) <= hi * TotalWeight(grade, row, columns)
  {
    WeightStep(grade, row, columns, n);
    assert columns[..n + 1] == columns;
    var col := columns[n];
    var t, s := TotalWeight(grade, row, columns[..n]), WeightedSum(grade, row, columns[..n]);
    var w := if grade(col).Some? then ColumnWeight(row[col]) else 0.0;
    var gw := if grade(col).Some? then ColumnWeighted(row[col], grade(col).value) else 0.0;
    MeanStep(t, s, w, gw, lo, hi);
  }

  lemma MulStrict(x: real, y: real, w: real)
    requires 0.0 < w && x < y
    ensures x * w < y * w
  {
  }

  lemma DivBetween(a: real, w: real, lo: real, hi: real)
    requires 0.0 < w && lo * w <= a <= hi * w
    ensures lo <= a / w <= hi
  {
    var q := a / w;
    assert q * w == a;
    if q < lo {
      MulStrict(q, lo, w);
    }
    if hi < q {
      MulStrict(hi, q, w);
    }
  }

  /**
   * The expected grade is a weighted mean of the grades of the columns that carry weight: any
   * bounds `lo` and `hi` of those grades (their smallest and largest among them) bound it too.
   */
  lemma ExpectedGradeBetween(grade: Grading, row: Row, columns: seq<string>, lo: real, hi: real)
    requires CoversGraded(grade, row, columns) && WeightedGradesBetween(grade, row, columns, lo, hi)
    requires !Weightless(grade, row, columns)
    ensures lo <= RowExpectedGrade(grade, row, columns) <= hi
  {
    TotalWeightZero(grade, row, columns);
    WeightedSumBetween(grade, row, columns, lo, hi);
    DivBetween(WeightedSum(grade, row, columns), TotalWeight(grade, row, columns), lo, hi);
  }

  /** With the grades of the stage labels, 1.0 to 6.0, a row with weighted cards has an expected grade from 1.0 to 6.0. */
  lemma ExpectedGradeWithin(grade: Grading, row: Row, columns: seq<string>)
    requires CoversGraded(grade, row, columns) && GradesWithin(grade, columns)
    requires !Weightless(grade, row, columns)
    ensures 1.0 <= RowExpectedGrade(grade, row, columns) <= 6.0
  {
    assert WeightedGradesBetween(grade, row, columns, 1.0, 6.0) by {
      forall c | c in columns && grade(c).Some?
        ensures 1.0 <= grade(c).value <= 6.0
      {
        var k :| 0 <= k < |columns| && columns[k] == c;
      }
    }
    ExpectedGradeBetween(grade, row, columns, 1.0, 6.0);
  }

  /** Grades from 1.0 to 6.0 give factors from -1/3 (grade 6) to 4/3 (grade 1). */
  lemma FactorRange(g: real)
    requires 1.0 <= g <= 6.0
    ensures -1.0 <= 3.0 * Factor(g) <= 4.0
  {
  }

  /** The factor sum lies between -1/3 and 4/3 times the card count. */
  lemma {:induction false} SumFactorsBetween(grade: Grading, row: Row, columns: seq<string>)
    requires Covers(row, columns) && GradesWithin(grade, columns)
    ensures CoversGraded(grade, row, columns)
    ensures -(CountCards(row, columns) as real) <= 3.0 * SumFactors(grade, row, columns)
    ensures 3.0 * SumFactors(grade, row, columns) <= 4.0 * CountCards(row, columns) as real
  {
    CoversPrefix(grade, row, columns, 0);
    if columns != [] {
      var n := |columns| - 1;
      CountCardsStep(row, columns, n);
      GradesWithinPrefix(grade, columns, n);
      assert columns[..n + 1] == columns;
      SumFactorsBetween(grade, row, columns[..n]);
      SumFactorsLast(grade, row, columns, n);
    }
  }

  /** The last column keeps the factor sum within its bounds. */
  lemma SumFactorsLast(grade: Grading, row: Row, columns: seq<string>, n: nat)
    requires n + 1 == |columns| && Covers(row, columns) && CoversGraded(grade, row, columns)
    requires GradesWithin(grade, columns)
    requires Covers(row, columns[..n]) && CoversGraded(grade, row, columns[..n])
    requires -(CountCards(row, columns[..n]) as real) <= 3.0 * SumFactors(grade, row, columns[..n])
    requires 3.0 * SumFactors(grade, row, columns[..n]) <= 4.0 * CountCards(row, columns[..n]) as real
    ensures -(CountCards(row, columns) as real) <= 3.0 * SumFactors(grade, row, columns)
    ensures 3.0 * SumFactors(grade, row, columns) <= 4.0 * CountCards(row, columns) as real
  {
    CountCardsStep(row, columns, n);
    SumFactorsStep(grade, row, columns, n);
    assert columns[..n + 1] == columns;
    var col := columns[n];
    ColumnFactorsBetween(grade, row, col);
    var m := |row[col]| as real;
    var t, s := CountCards(row, columns[..n]) as real, SumFactors(grade, row, columns[..n]);
    assert CountCards(row, columns) as real == t + m;
    assert SumFactors(grade, row, columns) == s + ColumnFactors(grade, row, col);
  }

  /** A cell of `m` cards in a column graded from 1.0 to 6.0 adds between -m/3 and 4m/3. */
  lemma ColumnFactorsBetween(grade: Grading, row: Row, col: string)
    requires col in row && (grade(col).Some? ==> 1.0 <= grade(col).value <= 6.0)
    ensures -(|row[col]| as real) <= 3.0 * ColumnFactors(grade, row, col) <= 4.0 * |row[col]| as real
  {
    if grade(col).Some? {
      var m, f := |row[col]| as real, Factor(grade(col).value);
      FactorRange(grade(col).value);
      MulLe(-1.0 / 3.0, f, m);
      MulLe(f, 4.0 / 3.0, m);
      assert ColumnFactors(grade, row, col) == m * f;
    }
  }

  /** When every graded column has a grade from 1.0 to 6.0 the ratio lies from -1/3 to 4/3. */
  lemma RatioBetween(grade: Grading, row: Row, columns: seq<string>)
    requires Covers(row, columns) && GradesWithin(grade, columns)
    ensures -1.0 / 3.0 <= RowRatio(grade, row, columns) <= 4.0 / 3.0
  {
    SumFactorsBetween(grade, row, columns);
    var total := CountCards(row, columns);
    if total > 0 {
      DivBetween(SumFactors(grade, row, columns), total as real, -1.0 / 3.0, 4.0 / 3.0);
    }
  }
}
