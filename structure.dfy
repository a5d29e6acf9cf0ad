/** The stage labels of a space: an evenly stepped, descending scale from 5.0 to 1.0 (table/structure.py). */
module Structure {
  import opened Wrappers
  import Text
  import Numbers

  const StartValue: real := 5.0
  const EndValue: real := 1.0

  /** The divisor of the step: `num_columns - 1`, guarded to 1 so that one column still divides. */
  function Steps(numColumns: int): (s: nat)
    ensures s >= 1
    ensures numColumns >= 2 ==> s == numColumns - 1
  {
    if numColumns > 1 then numColumns - 1 else 1
  }

  /** The distance between two neighbouring stages. */
  function Step(numColumns: int): (step: real)
    ensures 0.0 < step <= StartValue - EndValue
    ensures step * Steps(numColumns) as real == StartValue - EndValue
  {
    (StartValue - EndValue) / Steps(numColumns) as real
  }

  /** The value of the stage at position `idx`: `start_value - idx * step`. */
  function ColumnValue(numColumns: int, idx: nat): real
  {
    StartValue - idx as real * Step(numColumns)
  }

  /** Stage values lie on the scale from 1.0 to 5.0. */
  lemma ColumnValueRange(numColumns: int, idx: nat)
    requires idx < numColumns
    ensures EndValue <= ColumnValue(numColumns, idx) <= StartValue
  {
    var s, step := Steps(numColumns), Step(numColumns);
    assert idx <= s;
    assert idx as real * step <= s as real * step;
  }

  /** The value at `idx`, rounded to tenths as `f"{val:.1f}"` rounds it. */
  function Tenths(numColumns: int, idx: nat): (t: nat)
    requires idx < numColumns
    ensures 10 <= t <= 50
  {
    ColumnValueRange(numColumns, idx);
    Numbers.RoundBetween(ColumnValue(numColumns, idx) * 10.0, 10, 50);
    Numbers.RoundHalfEven(ColumnValue(numColumns, idx) * 10.0)
  }

  /** The label of the stage at position `idx`. */
  function Label(numColumns: int, idx: nat): string
    requires idx < numColumns
  {
    Text.FormatTenths(Tenths(numColumns, idx))
  }

  /** The labels of all `numColumns` stages, in order. */
  function Labels(numColumns: int): (labels: seq<string>)
    ensures |labels| == if numColumns > 0 then numColumns else 0
    ensures forall i :: 0 <= i < |labels| ==> labels[i] == Label(numColumns, i)
  {
    seq(if numColumns > 0 then numColumns else 0, i requires 0 <= i < numColumns => Label(numColumns, i))
  }

  /** `generate_columns`: one label per stage, appended in order. */
  method GenerateColumns(numColumns: int) returns (columns: seq<string>)
    ensures |columns| == if numColumns > 0 then numColumns else 0
    ensures forall i :: 0 <= i < |columns| ==> columns[i] == Label(numColumns, i)
    ensures columns == Labels(numColumns)
  {
    var startValue := StartValue;
    var endValue := EndValue;
    var diff := startValue - endValue;
    var steps := if numColumns > 1 then numColumns - 1 else 1;
    var step := diff / steps as real;
    columns := [];
    var idx := 0;
    while idx < numColumns
      invariant 0 <= idx <= (if numColumns > 0 then numColumns else 0)
      invariant |columns| == idx
      invariant forall i :: 0 <= i < idx ==> columns[i] == Label(numColumns, i)
    {
      var val := startValue - idx as real * step;
      var tenths := Numbers.RoundHalfEven(val * 10.0);
      StageTenths(numColumns, idx, steps, step, val);
      columns := columns + [Text.FormatTenths(tenths)];
      idx := idx + 1;
    }
  }

  /** The stage value the loop computes rounds to the stage's tenths. */
  lemma StageTenths(numColumns: int, idx: nat, steps: int, step: real, val: real)
    requires idx < numColumns && steps == (if numColumns > 1 then numColumns - 1 else 1)
    requires step == (StartValue - EndValue) / steps as real && val == StartValue - idx as real * step
    ensures Numbers.RoundHalfEven(val * 10.0) == Tenths(numColumns, idx)
  {
    assert steps == Steps(numColumns);
    assert step == Step(numColumns);
    assert val == ColumnValue(numColumns, idx);
  }

  /** The first stage is always labelled "5.0". */
  lemma FirstLabel(numColumns: int)
    requires numColumns >= 1
    ensures Label(numColumns, 0) == "5.0"
  {
    Numbers.RoundOfInteger(50);
    assert Text.NatToDigits(5) == "5";
  }

  /** A single column is the start stage alone: the guarded divisor avoids dividing by zero. */
  lemma SingleColumn()
    ensures Label(1, 0) == "5.0" && Steps(1) == 1
  {
    FirstLabel(1);
  }

  /** With two or more columns the last stage is exactly 1.0, labelled "1.0". */
  lemma LastLabel(numColumns: int)
    requires numColumns >= 2
    ensures ColumnValue(numColumns, numColumns - 1) == EndValue
    ensures Label(numColumns, numColumns - 1) == "1.0"
  {
    assert (numColumns - 1) as real * Step(numColumns) == StartValue - EndValue;
    Numbers.RoundOfInteger(10);
    assert Text.NatToDigits(1) == "1";
  }

  /** Neighbouring stages differ by the constant step 4 / (num_columns - 1): the values strictly decrease. */
  lemma ValuesStrictlyDecrease(numColumns: int, idx: nat)
    ensures ColumnValue(numColumns, idx) - ColumnValue(numColumns, idx + 1) == Step(numColumns) > 0.0
  {
  }

  /** Every label has exactly one decimal place and reads back as its rounded stage value. */
  lemma LabelShape(numColumns: int, idx: nat)
    requires idx < numColumns
    ensures Text.OneDecimal(Label(numColumns, idx))
    ensures Text.ParseDecimal(Label(numColumns, idx)) == Some(Tenths(numColumns, idx) as real / 10.0)
  {
    var t := Tenths(numColumns, idx);
    assert Label(numColumns, idx) == Text.FormatTenths(t);
    Text.FormatTenthsShape(t);
    Text.ParseFormatTenths(t);
  }

  lemma MulMono(x: real, y: real, k: real)
    requires 0.0 <= k && x <= y
    ensures x * k <= y * k
  {
  }

  lemma SubMul(a: real, b: real, k: real)
    ensures b * k - a * k == (b - a) * k
  {
  }

  /** Two stages at least one step apart, with the step above 0.1, are more than one tenth apart. */
  lemma {:induction false} TenthsApart(numColumns: int, i: nat, j: nat)
    requires 2 <= numColumns <= 40 && i < j
    ensures ColumnValue(numColumns, j) * 10.0 + 1.0 < ColumnValue(numColumns, i) * 10.0
  {
    var s, step := Steps(numColumns), Step(numColumns);
    assert step * s as real == 4.0;
    MulMono(s as real, 39.0, step);
    assert 39.0 * step >= 4.0;
    var d := (j - i) as real;
    MulMono(1.0, d, step);
    SubMul(i as real, j as real, step);
    assert ColumnValue(numColumns, i) - ColumnValue(numColumns, j) == d * step;
  }

  /** With 41 columns the step is exactly 0.1: stage `i` is worth `50 - i` tenths. */
  lemma TenthsAt41(i: nat)
    requires i < 41
    ensures Tenths(41, i) == 50 - i
  {
    assert Step(41) == 0.1;
    assert ColumnValue(41, i) * 10.0 == (50 - i) as real;
    Numbers.RoundOfInteger(50 - i);
  }

  /** Up to 41 columns a later stage is rounded to strictly fewer tenths. */
  lemma {:induction false} TenthsDecrease(numColumns: int, i: nat, j: nat)
    requires 2 <= numColumns <= 41 && i < j < numColumns
    ensures Tenths(numColumns, j) < Tenths(numColumns, i)
  {
    if numColumns == 41 {
      TenthsAt41(i);
      TenthsAt41(j);
    } else {
      TenthsApart(numColumns, i, j);
      var a, b := ColumnValue(numColumns, i) * 10.0, ColumnValue(numColumns, j) * 10.0;
      assert Tenths(numColumns, i) as real >= a - 0.5;
      assert Tenths(numColumns, j) as real <= b + 0.5;
    }
  }

  /** Up to 41 columns the labels strictly decrease and are pairwise distinct. */
  lemma {:induction false} LabelsDistinct(numColumns: int, i: nat, j: nat)
    requires 2 <= numColumns <= 41 && i < j < numColumns
    ensures Tenths(numColumns, j) < Tenths(numColumns, i)
    ensures Label(numColumns, i) != Label(numColumns, j)
  {
    TenthsDecrease(numColumns, i, j);
    Text.ParseFormatTenths(Tenths(numColumns, i));
    Text.ParseFormatTenths(Tenths(numColumns, j));
  }

  /** From 42 columns on, the step drops below 0.1 and two stages share a label: 42 columns repeat "3.0". */
  lemma LabelsCollideAt42()
    ensures Label(42, 20) == Label(42, 21) == "3.0"
  {
    assert Step(42) == 4.0 / 41.0;
    var a, b := ColumnValue(42, 20) * 10.0, ColumnValue(42, 21) * 10.0;
    assert a == 1250.0 / 41.0;
    assert b == 1210.0 / 41.0;
    assert a.Floor == 30;
    assert b.Floor == 29;
    assert Text.NatToDigits(3) == "3";
  }
}
