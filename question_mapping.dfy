/** The table that assigns each question of the survey to a compass axis. */
module QuestionMapping {
  import opened Wrappers

  /** The two axes of the political compass. */
  datatype Axis = Economic | Social

  /**
   * Where a question counts: an axis, or none for an excluded question, and
   * a polarity (+1: agreement points left or libertarian, -1: agreement
   * points right or authoritarian, 0: excluded).
   */
  datatype Mapping = Mapping(axis: Option<Axis>, polarity: int)

  /** `QUESTION_MAPPING`, without the human-readable descriptions. */
  const QUESTION_MAPPING: map<string, Mapping> := map[
    // economic axis: left / right
    "Q01" := Mapping(Some(Economic), 1),
    "Q02" := Mapping(Some(Economic), 1),
    "Q03" := Mapping(Some(Economic), -1),
    "Q04" := Mapping(Some(Economic), 1),
    "Q05" := Mapping(Some(Economic), 1),
    "Q06" := Mapping(Some(Economic), -1),
    "Q07" := Mapping(Some(Economic), 1),
    "Q19" := Mapping(Some(Economic), 1),
    "Q21" := Mapping(Some(Economic), 1),
    "Q22" := Mapping(Some(Economic), 1),
    "Q25" := Mapping(Some(Economic), 1),
    "Q26" := Mapping(Some(Economic), -1),
    "Q28" := Mapping(Some(Economic), 1),
    // social axis: libertarian / authoritarian
    "Q08" := Mapping(Some(Social), 1),
    "Q09" := Mapping(Some(Social), -1),
    "Q10" := Mapping(Some(Social), 1),
    "Q11" := Mapping(Some(Social), 1),
    "Q12" := Mapping(Some(Social), -1),
    "Q13" := Mapping(Some(Social), 1),
    "Q14" := Mapping(Some(Social), -1),
    "Q15" := Mapping(Some(Social), -1),
    "Q16" := Mapping(Some(Social), 1),
    "Q17" := Mapping(Some(Social), 1),
    "Q18" := Mapping(Some(Social), -1),
    "Q23" := Mapping(Some(Social), -1),
    "Q24" := Mapping(Some(Social), 1),
    // excluded: cross-cutting, regional or not political
    "Q20" := Mapping(None, 0),
    "Q27" := Mapping(None, 0),
    "Q29" := Mapping(None, 0),
    "Q30" := Mapping(None, 0),
    "Q31" := Mapping(None, 0),
    "Q32" := Mapping(None, 0)
  ]

  /** The axis a question id counts towards, or None when it is unmapped or excluded. */
  function AxisOf(questionId: string): (a: Option<Axis>)
    ensures a.Some? <==> questionId in QUESTION_MAPPING && QUESTION_MAPPING[questionId].axis.Some?
  {
    if questionId in QUESTION_MAPPING then QUESTION_MAPPING[questionId].axis else None
  }

  /** The polarity of a question that counts towards an axis. */
  function Polarity(questionId: string): (p: int)
    requires AxisOf(questionId).Some?
    ensures p == 1 || p == -1
  {
    QuestionMappingIsWellFormed();
    QUESTION_MAPPING[questionId].polarity
  }

  /**
   * Every entry of the table is consistent: a question is excluded exactly
   * when its polarity is 0, and a question on an axis has polarity +1 or -1.
   */
  lemma QuestionMappingIsWellFormed()
    ensures forall q :: q in QUESTION_MAPPING ==>
      (QUESTION_MAPPING[q].axis.None? <==> QUESTION_MAPPING[q].polarity == 0)
      && (QUESTION_MAPPING[q].axis.Some? ==> QUESTION_MAPPING[q].polarity in {1, -1})
  {
  }

  /** The excluded questions are exactly Q20, Q27 and Q29 to Q32. */
  lemma ExcludedQuestions(q: string)
    ensures q in QUESTION_MAPPING && QUESTION_MAPPING[q].axis.None?
      <==> q in {"Q20", "Q27", "Q29", "Q30", "Q31", "Q32"}
  {
  }
}
