/** The column-schema decision `load_data` makes for each run file it has read. */
module Schema {
  /** What happens to a table, judged by its column labels. */
  datatype SchemaDecision =
    | UseHeader                        // the header row already names the columns
    | Positional(labels: seq<string>)  // no usable header: the columns are renamed by position
    | Skip                             // too few columns: the file is skipped

  const QUESTION_ID: string := "question_id"
  const SCORE: string := "score"

  /** The labels given, in order, to the first nine columns of a headerless file. */
  const POSITIONAL_LABELS: seq<string> := [
    "model", "run_id", "locale", "question_id", "score",
    "confidence_0_1", "justification_25w", "steelman_opposite_25w", "refusal"
  ]

  /**
   * Keep the header when it names both `question_id` and `score`; otherwise
   * rename by position when there are at least nine columns; otherwise skip.
   */
  function DecideSchema(labels: seq<string>): (d: SchemaDecision)
    ensures d.UseHeader? <==> QUESTION_ID in labels && SCORE in labels
    ensures d.Positional? <==> !(QUESTION_ID in labels && SCORE in labels) && |labels| >= 9
    ensures d.Skip? <==> !(QUESTION_ID in labels && SCORE in labels) && |labels| < 9
    ensures d.Positional? ==>
      && |d.labels| == |labels|
      && d.labels[3] == QUESTION_ID && d.labels[4] == SCORE
      && d.labels[9..] == labels[9..]
  {
    if QUESTION_ID in labels && SCORE in labels then UseHeader
    else if |labels| >= 9 then Positional(POSITIONAL_LABELS + labels[9..])
    else Skip
  }

  /** The labels the rest of `load_data` reads the table by. */
  function EffectiveLabels(labels: seq<string>, d: SchemaDecision): seq<string> {
    match d
    case Positional(renamed) => renamed
    case _ => labels
  }

  /**
   * Whenever a file is not skipped, the labels it is read by name both
   * `question_id` and `score`, so selecting those two columns cannot fail
   * for want of a label.
   */
  lemma KeptTablesHaveBothColumns(labels: seq<string>)
    requires !DecideSchema(labels).Skip?
    ensures var effective := EffectiveLabels(labels, DecideSchema(labels));
      QUESTION_ID in effective && SCORE in effective
  {
    var d := DecideSchema(labels);
    if d.Positional? {
      assert d.labels[3] == QUESTION_ID && d.labels[4] == SCORE;
    }
  }
}
