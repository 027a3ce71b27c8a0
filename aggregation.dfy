/** `calculate_all_coordinates`: the compass position of every model in the averaged scores. */
module Aggregation {
  import opened QuestionMapping
  import opened Compass

  /** One row of the averaged scores: a model, a question, and the model's mean score for it. */
  datatype AveragedRow = AveragedRow(model: string, questionId: string, score: real)

  /** One row of the result: a model and its two coordinates. */
  datatype ModelCoordinates = ModelCoordinates(model: string, economic: real, social: real)

  /** The model names of `rows`, each once, in order of first appearance (`unique()`). */
  function UniqueModels(rows: seq<AveragedRow>): (ms: seq<string>)
    ensures forall m :: m in ms <==> exists i :: 0 <= i < |rows| && rows[i].model == m
    ensures forall i, j :: 0 <= i < j < |ms| ==> ms[i] != ms[j]
  {
    if rows == [] then []
    else
      var ms := UniqueModels(rows[..|rows| - 1]);
      var m := rows[|rows| - 1].model;
      if m in ms then ms else ms + [m]
  }

  /**
   * The rows of model `m`, as (question, score) rows, in their original order:
   * each (question, score) pair occurs as often as the model's row with that
   * pair does in `rows`.
   */
  function RowsOf(rows: seq<AveragedRow>, m: string): (r: seq<Row>)
    ensures forall q, s :: Row(q, s) in r <==> AveragedRow(m, q, s) in rows
    ensures forall q, s :: multiset(r)[Row(q, s)] == multiset(rows)[AveragedRow(m, q, s)]
    ensures |r| <= |rows|
  {
    if rows == [] then []
    else
      var last := rows[|rows| - 1];
      assert rows == rows[..|rows| - 1] + [last];
      RowsOf(rows[..|rows| - 1], m) + (if last.model == m then [Row(last.questionId, last.score)] else [])
  }

  /** The result row for model `m`. */
  function Position(rows: seq<AveragedRow>, m: string): ModelCoordinates {
    var own := RowsOf(rows, m);
    ModelCoordinates(m, Coordinate(own, Economic), Coordinate(own, Social))
  }

  /**
   * `calculate_all_coordinates` after the averaging step: one result row per
   * distinct model, in order of first appearance, holding the coordinates of
   * that model's rows.
   */
  method CalculateAllCoordinates(avgScores: seq<AveragedRow>) returns (compassData: seq<ModelCoordinates>)
    ensures |compassData| == |UniqueModels(avgScores)|
    ensures forall i :: 0 <= i < |compassData| ==> compassData[i] == Position(avgScores, UniqueModels(avgScores)[i])
  {
    var models := UniqueModels(avgScores);
    compassData := [];
    for k := 0 to |models|
      invariant |compassData| == k
      invariant forall i :: 0 <= i < k ==> compassData[i] == Position(avgScores, models[i])
    {
      var model := models[k];
      var modelScores := RowsOf(avgScores, model);
      var econ, social := CalculateCompassCoordinates(modelScores);
      compassData := compassData + [ModelCoordinates(model, econ, social)];
    }
  }

  // ---------------------------------------------------------------------------
  // Properties
  // ---------------------------------------------------------------------------

  /**
   * A model's position depends only on how many times each of its rows
   * occurs: reordering the averaged scores, or adding other models' rows,
   * leaves it unchanged.
   */
  lemma PositionDependsOnlyOnOwnRows(xs: seq<AveragedRow>, ys: seq<AveragedRow>, m: string)
    requires forall q, s :: multiset(xs)[AveragedRow(m, q, s)] == multiset(ys)[AveragedRow(m, q, s)]
    ensures Position(xs, m) == Position(ys, m)
  {
    var a, b := RowsOf(xs, m), RowsOf(ys, m);
    forall x: Row ensures multiset(a)[x] == multiset(b)[x] {
      assert x == Row(x.questionId, x.score);
    }
    assert multiset(a) == multiset(b);
    CoordinatesPermutationInvariant(a, b);
  }

  /** `p` is where model `m` first appears in `rows`. */
  predicate FirstSeenAt(rows: seq<AveragedRow>, m: string, p: int) {
    0 <= p < |rows| && rows[p].model == m && forall q :: 0 <= q < p ==> rows[q].model != m
  }

  /** Models come out in the order in which they first appear in the rows. */
  lemma {:induction false} UniqueModelsInFirstAppearanceOrder(rows: seq<AveragedRow>, i: nat, j: nat, p: int, q: int)
    requires i < j < |UniqueModels(rows)|
    requires FirstSeenAt(rows, UniqueModels(rows)[i], p)
    requires FirstSeenAt(rows, UniqueModels(rows)[j], q)
    ensures p < q
    decreases |rows|
  {
    var init := rows[..|rows| - 1];
    var last := rows[|rows| - 1];
    var ms := UniqueModels(rows);
    var before := UniqueModels(init);
    if j < |before| {
      assert ms[i] == before[i] && ms[j] == before[j];
      FirstSeenInPrefix(rows, before[i], p);
      FirstSeenInPrefix(rows, before[j], q);
      UniqueModelsInFirstAppearanceOrder(init, i, j, p, q);
    } else {
      assert ms[j] == last.model && last.model !in before;
      assert q == |rows| - 1;
      assert ms[i] == before[i];
      FirstSeenInPrefix(rows, before[i], p);
    }
  }

  /** A model already seen before the last row is first seen before it too. */
  lemma FirstSeenInPrefix(rows: seq<AveragedRow>, m: string, p: int)
    requires rows != [] && m in UniqueModels(rows[..|rows| - 1])
    requires FirstSeenAt(rows, m, p)
    ensures p < |rows| - 1 && FirstSeenAt(rows[..|rows| - 1], m, p)
  {
    var init := rows[..|rows| - 1];
    var k :| 0 <= k < |init| && init[k].model == m;
    assert rows[k].model == m;
  }

  /** The model column of the result. */
  function ModelColumn(compassData: seq<ModelCoordinates>): (ms: seq<string>)
    ensures |ms| == |compassData|
    ensures forall i :: 0 <= i < |ms| ==> ms[i] == compassData[i].model
  {
    seq(|compassData|, i requires 0 <= i < |compassData| => compassData[i].model)
  }

  /** Every model of the input has exactly one result row, and no other model has one. */
  lemma OneRowPerModel(avgScores: seq<AveragedRow>, compassData: seq<ModelCoordinates>)
    requires |compassData| == |UniqueModels(avgScores)|
    requires forall i :: 0 <= i < |compassData| ==> compassData[i] == Position(avgScores, UniqueModels(avgScores)[i])
    ensures forall m :: m in ModelColumn(compassData) <==> exists i :: 0 <= i < |avgScores| && avgScores[i].model == m
    ensures forall i, j :: 0 <= i < j < |compassData| ==> compassData[i].model != compassData[j].model
  {
    assert ModelColumn(compassData) == UniqueModels(avgScores);
  }

  /**
   * When every averaged score of model `m` on a counted question lies on the
   * 1 to 7 scale, `m` lands inside the [-10, 10] square.
   */
  lemma AllPositionsBounded(avgScores: seq<AveragedRow>, m: string)
    requires forall i :: 0 <= i < |avgScores| && avgScores[i].model == m && AxisOf(avgScores[i].questionId).Some? ==>
      1.0 <= avgScores[i].score <= 7.0
    ensures -10.0 <= Position(avgScores, m).economic <= 10.0
    ensures -10.0 <= Position(avgScores, m).social <= 10.0
  {
    var own := RowsOf(avgScores, m);
    forall i | 0 <= i < |own| && AxisOf(own[i].questionId).Some? ensures 1.0 <= own[i].score <= 7.0 {
      assert Row(own[i].questionId, own[i].score) in own;
      assert AveragedRow(m, own[i].questionId, own[i].score) in avgScores;
    }
    CoordinatesBounded(own);
  }
}
