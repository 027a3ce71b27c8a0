/** `calculate_compass_coordinates`: one model's position on the political compass. */
module Compass {
  import opened Wrappers
  import opened QuestionMapping

  /** One answer: a question id and its score on the 1 to 7 agreement scale. */
  datatype Row = Row(questionId: string, score: real)

  /** The neutral point of the agreement scale. */
  const NEUTRAL: real := 4.0

  /** Scales an average in [-3, 3] onto [-10, 10]. */
  const SCALE: real := 10.0 / 3.0

  /** Whether a row counts towards `axis`: its id is in the table with that axis. */
  predicate CountsTowards(r: Row, axis: Axis) {
    AxisOf(r.questionId) == Some(axis)
  }

  /** A counted row's contribution: its distance from neutral, signed by the question's polarity. */
  function Weight(r: Row): real
    requires AxisOf(r.questionId).Some?
  {
    (r.score - NEUTRAL) * Polarity(r.questionId) as real
  }

  /** What the loop adds to the sum of `axis` for one row. */
  function Contribution(r: Row, axis: Axis): real {
    if CountsTowards(r, axis) then Weight(r) else 0.0
  }

  /** The sum of the weights of the rows that count towards `axis`. */
  function AxisSum(rows: seq<Row>, axis: Axis): real {
    if rows == [] then 0.0
    else AxisSum(rows[..|rows| - 1], axis) + Contribution(rows[|rows| - 1], axis)
  }

  /** The number of rows that count towards `axis`. */
  function AxisCount(rows: seq<Row>, axis: Axis): nat {
    if rows == [] then 0
    else AxisCount(rows[..|rows| - 1], axis) + (if CountsTowards(rows[|rows| - 1], axis) then 1 else 0)
  }

  /** The average weight scaled by 10/3, or exactly 0 when nothing was counted. */
  function Scaled(sum: real, count: nat): real {
    if count > 0 then (sum / count as real) * SCALE else 0.0
  }

  /** The coordinate of `rows` on `axis`. */
  function Coordinate(rows: seq<Row>, axis: Axis): real {
    Scaled(AxisSum(rows, axis), AxisCount(rows, axis))
  }

  /**
   * `calculate_compass_coordinates`: one pass over the rows accumulating a
   * sum and a count per axis, then the scaled averages.
   */
  method CalculateCompassCoordinates(modelScores: seq<Row>) returns (economic: real, social: real)
    ensures economic == Coordinate(modelScores, Economic)
    ensures social == Coordinate(modelScores, Social)
  {
    var economicScore, economicCount := 0.0, 0;
    var socialScore, socialCount := 0.0, 0;
    for i := 0 to |modelScores|
      invariant economicScore == AxisSum(modelScores[..i], Economic)
      invariant economicCount == AxisCount(modelScores[..i], Economic)
      invariant socialScore == AxisSum(modelScores[..i], Social)
      invariant socialCount == AxisCount(modelScores[..i], Social)
    {
      var row := modelScores[i];
      assert modelScores[..i + 1][..i] == modelScores[..i];
      var qId := row.questionId;
      if qId in QUESTION_MAPPING && QUESTION_MAPPING[qId].axis.Some? {
        var normalized := row.score - NEUTRAL;
        var mapping := QUESTION_MAPPING[qId];
        var weightedScore := normalized * mapping.polarity as real;
        if mapping.axis == Some(Economic) {
          economicScore := economicScore + weightedScore;
          economicCount := economicCount + 1;
        } else if mapping.axis == Some(Social) {
          socialScore := socialScore + weightedScore;
          socialCount := socialCount + 1;
        }
      }
    }
    assert modelScores[..|modelScores|] == modelScores;
    economic := if economicCount > 0 then (economicScore / economicCount as real) * SCALE else 0.0;
    social := if socialCount > 0 then (socialScore / socialCount as real) * SCALE else 0.0;
  }

  // ---------------------------------------------------------------------------
  // Properties
  // ---------------------------------------------------------------------------

  /** Sums and counts split over a concatenation. */
  lemma {:induction false} AppendSplits(xs: seq<Row>, ys: seq<Row>, axis: Axis)
    ensures AxisSum(xs + ys, axis) == AxisSum(xs, axis) + AxisSum(ys, axis)
    ensures AxisCount(xs + ys, axis) == AxisCount(xs, axis) + AxisCount(ys, axis)
    decreases |ys|
  {
    if ys == [] {
      assert xs + ys == xs;
    } else {
      var init := ys[..|ys| - 1];
      assert (xs + ys)[..|xs + ys| - 1] == xs + init;
      AppendSplits(xs, init, axis);
    }
  }

  /** A row that is unmapped or excluded changes neither the sum nor the count of any axis, wherever it stands. */
  lemma ExcludedRowChangesNothing(xs: seq<Row>, r: Row, ys: seq<Row>, axis: Axis)
    requires AxisOf(r.questionId).None?
    ensures AxisSum(xs + [r] + ys, axis) == AxisSum(xs + ys, axis)
    ensures AxisCount(xs + [r] + ys, axis) == AxisCount(xs + ys, axis)
  {
    AppendSplits(xs, [r], axis);
    AppendSplits(xs + [r], ys, axis);
    AppendSplits(xs, ys, axis);
    assert [r][..0] == [];
  }

  /** An axis towards which no row counts has coordinate exactly 0. */
  lemma {:induction false} NoCountedRowsGiveZero(rows: seq<Row>, axis: Axis)
    requires forall i :: 0 <= i < |rows| ==> !CountsTowards(rows[i], axis)
    ensures AxisCount(rows, axis) == 0
    ensures Coordinate(rows, axis) == 0.0
  {
    if rows != [] {
      NoCountedRowsGiveZero(rows[..|rows| - 1], axis);
    }
  }

  /** Empty input, or input made only of unmapped and excluded questions, sits at the origin. */
  lemma ExcludedOnlyIsOrigin(rows: seq<Row>)
    requires forall i :: 0 <= i < |rows| ==> AxisOf(rows[i].questionId).None?
    ensures Coordinate(rows, Economic) == 0.0 && Coordinate(rows, Social) == 0.0
  {
    NoCountedRowsGiveZero(rows, Economic);
    NoCountedRowsGiveZero(rows, Social);
  }

  /** Every score of a row that counts lies on the 1 to 7 scale. */
  predicate CountedScoresOnScale(rows: seq<Row>) {
    forall i :: 0 <= i < |rows| && AxisOf(rows[i].questionId).Some? ==> 1.0 <= rows[i].score <= 7.0
  }

  /** A counted row on the 1 to 7 scale weighs between -3 and 3. */
  lemma WeightBounded(r: Row)
    requires AxisOf(r.questionId).Some? && 1.0 <= r.score <= 7.0
    ensures -3.0 <= Weight(r) <= 3.0
  {
  }

  /** On the 1 to 7 scale, the sum of an axis is at most three times its count in size. */
  lemma {:induction false} AxisSumBounded(rows: seq<Row>, axis: Axis)
    requires CountedScoresOnScale(rows)
    ensures -3.0 * AxisCount(rows, axis) as real <= AxisSum(rows, axis) <= 3.0 * AxisCount(rows, axis) as real
  {
    if rows != [] {
      var init := rows[..|rows| - 1];
      var last := rows[|rows| - 1];
      assert CountedScoresOnScale(init) by {
        forall i | 0 <= i < |init| && AxisOf(init[i].questionId).Some? ensures 1.0 <= init[i].score <= 7.0 {
          assert init[i] == rows[i];
        }
      }
      AxisSumBounded(init, axis);
      if CountsTowards(last, axis) {
        WeightBounded(last);
      }
    }
  }

  /** A scaled average of terms in [-3, 3] lies in [-10, 10]. */
  lemma ScaledBounded(sum: real, count: nat)
    requires -3.0 * count as real <= sum <= 3.0 * count as real
    ensures -10.0 <= Scaled(sum, count) <= 10.0
  {
    if count > 0 {
      var c := count as real;
      QuotientBounded(sum, c);
      assert Scaled(sum, count) == (sum / c) * SCALE;
    }
  }

  /** A sum of `c` terms in [-3, 3], divided by `c`, lies in [-3, 3]. */
  lemma QuotientBounded(sum: real, c: real)
    requires c > 0.0 && -3.0 * c <= sum <= 3.0 * c
    ensures -3.0 <= sum / c <= 3.0
  {
    var avg := sum / c;
    assert avg * c == sum;
    assert (avg - 3.0) * c == sum - 3.0 * c <= 0.0;
    assert (avg + 3.0) * c == sum + 3.0 * c >= 0.0;
  }

  /** With every counted score on the 1 to 7 scale, both coordinates lie in [-10, 10]. */
  lemma CoordinatesBounded(rows: seq<Row>)
    requires CountedScoresOnScale(rows)
    ensures -10.0 <= Coordinate(rows, Economic) <= 10.0
    ensures -10.0 <= Coordinate(rows, Social) <= 10.0
  {
    AxisSumBounded(rows, Economic);
    ScaledBounded(AxisSum(rows, Economic), AxisCount(rows, Economic));
    AxisSumBounded(rows, Social);
    ScaledBounded(AxisSum(rows, Social), AxisCount(rows, Social));
  }

  /** Taking one row out of the middle takes exactly its contribution out of the sum and the count. */
  lemma RemoveAt(ys: seq<Row>, k: nat, axis: Axis)
    requires k < |ys|
    ensures AxisSum(ys, axis) == AxisSum(ys[..k] + ys[k + 1..], axis) + Contribution(ys[k], axis)
    ensures AxisCount(ys, axis) == AxisCount(ys[..k] + ys[k + 1..], axis) + AxisCount([ys[k]], axis)
  {
    assert ys == ys[..k] + [ys[k]] + ys[k + 1..];
    AppendSplits(ys[..k] + [ys[k]], ys[k + 1..], axis);
    AppendSplits(ys[..k], [ys[k]], axis);
    AppendSplits(ys[..k], ys[k + 1..], axis);
    assert [ys[k]][..0] == [];
  }

  /** Sums and counts do not depend on the order of the rows. */
  lemma {:induction false} SumAndCountPermutationInvariant(xs: seq<Row>, ys: seq<Row>, axis: Axis)
    requires multiset(xs) == multiset(ys)
    ensures AxisSum(xs, axis) == AxisSum(ys, axis)
    ensures AxisCount(xs, axis) == AxisCount(ys, axis)
    decreases |xs|
  {
    if xs == [] {
      assert |ys| == |multiset(ys)| == 0;
    } else {
      var x := xs[|xs| - 1];
      assert x in multiset(ys) by {
        assert x in multiset(xs);
      }
      var k :| 0 <= k < |ys| && ys[k] == x;
      RemoveLast(xs, ys, k);
      SumAndCountPermutationInvariant(xs[..|xs| - 1], ys[..k] + ys[k + 1..], axis);
      RemoveAt(ys, k, axis);
      assert [x][..0] == [];
    }
  }

  /** Taking the last row of `xs` and a matching row of `ys` out of equal multisets leaves equal multisets. */
  lemma RemoveLast(xs: seq<Row>, ys: seq<Row>, k: nat)
    requires multiset(xs) == multiset(ys)
    requires xs != [] && k < |ys| && ys[k] == xs[|xs| - 1]
    ensures multiset(xs[..|xs| - 1]) == multiset(ys[..k] + ys[k + 1..])
  {
    var x := ys[k];
    assert xs == xs[..|xs| - 1] + [x];
    assert ys == ys[..k] + [x] + ys[k + 1..];
    assert multiset(xs) == multiset(xs[..|xs| - 1]) + multiset{x};
    assert multiset(ys) == multiset(ys[..k]) + multiset{x} + multiset(ys[k + 1..]);
    var a := multiset(xs[..|xs| - 1]);
    var b := multiset(ys[..k] + ys[k + 1..]);
    assert b == multiset(ys[..k]) + multiset(ys[k + 1..]);
    assert a + multiset{x} == b + multiset{x};
    assert a == (a + multiset{x}) - multiset{x};
    assert b == (b + multiset{x}) - multiset{x};
  }

  /** Reordering the rows does not move the model on the compass. */
  lemma CoordinatesPermutationInvariant(xs: seq<Row>, ys: seq<Row>)
    requires multiset(xs) == multiset(ys)
    ensures Coordinate(xs, Economic) == Coordinate(ys, Economic)
    ensures Coordinate(xs, Social) == Coordinate(ys, Social)
  {
    SumAndCountPermutationInvariant(xs, ys, Economic);
    SumAndCountPermutationInvariant(xs, ys, Social);
  }

  /** Full agreement short of the maximum (6 of 7) with a left-leaning economic question gives 20/3 on that axis. */
  lemma SingleEconomicAnswer()
    ensures Coordinate([Row("Q01", 6.0)], Economic) == 20.0 / 3.0
    ensures Coordinate([Row("Q01", 6.0)], Social) == 0.0
  {
    var rows := [Row("Q01", 6.0)];
    assert rows[..0] == [];
  }
}
