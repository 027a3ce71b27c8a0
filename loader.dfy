/**
 * `load_data`: every run file's (question, score) rows, tagged with the
 * model and run its file name gives, in one table.
 */
module Loader {
  import opened Wrappers
  import opened Strings
  import opened FileMetadata
  import opened Schema

  /**
   * A cell as the CSV reader gives it: missing wherever the reader reports
   * NaN (an empty field, a field past the end of a short record, or one of
   * the texts the reader takes for "not available", such as `NA`), or its
   * text together with its numeric reading, if it has one.
   */
  datatype Cell = Missing | Value(text: string, number: Option<real>)

  /**
   * A file as the CSV reader gives it: the labels of its first line and the
   * records after it. For a file without a header the first line of data
   * becomes the labels, so it is not among the records.
   */
  datatype Table = Table(labels: seq<string>, records: seq<seq<Cell>>)

  /** A file found in the input directory: its path and its contents, or None when reading it fails. */
  datatype CsvFile = CsvFile(path: string, contents: Option<Table>)

  /** A row of the combined table. */
  datatype LoadedRow = LoadedRow(questionId: string, score: Option<real>, model: string, run: nat)

  /** What `load_data` makes of one file. */
  datatype FileOutcome =
    | NotARun                     // the name is not that of a run file
    | Unreadable                  // reading the file failed; the error is reported and the file skipped
    | MissingColumns              // no usable header and fewer than nine columns
    | Loaded(rows: seq<LoadedRow>)

  /** Why `load_data` produces no table. */
  datatype LoadError = NoFiles | NoValidData

  /** The position of the first column labelled `name`. */
  function LabelIndex(labels: seq<string>, name: string): (r: Option<nat>)
    ensures r.Some? <==> name in labels
    ensures r.Some? ==> r.value < |labels| && labels[r.value] == name
    ensures r.Some? ==> forall j :: 0 <= j < r.value ==> labels[j] != name
  {
    if labels == [] then None
    else if labels[0] == name then Some(0)
    else match LabelIndex(labels[1..], name)
      case None => None
      case Some(k) => Some(k + 1)
  }

  /** The cell in column `k` of a record; a short record reads as missing there. */
  function CellAt(record: seq<Cell>, k: nat): Cell {
    if k < |record| then record[k] else Missing
  }

  /** The numeric reading of a `score` cell; a missing cell reads as no number. */
  function ScoreOf(c: Cell): Option<real> {
    match c
    case Missing => None
    case Value(_, n) => n
  }

  /**
   * What one record contributes to the table: nothing when its question id is
   * missing, otherwise one row with the question id stripped of surrounding
   * whitespace, the numeric reading of its score, and the file's model and run.
   */
  function RowFrom(record: seq<Cell>, qi: nat, si: nat, meta: Metadata): seq<LoadedRow> {
    match CellAt(record, qi)
    case Missing => []
    case Value(text, _) => [LoadedRow(Strip(text), ScoreOf(CellAt(record, si)), meta.model, meta.run)]
  }

  /** The rows of the records, in record order. */
  function ExtractRows(records: seq<seq<Cell>>, qi: nat, si: nat, meta: Metadata): seq<LoadedRow> {
    if records == [] then []
    else ExtractRows(records[..|records| - 1], qi, si, meta) + RowFrom(records[|records| - 1], qi, si, meta)
  }

  /** The body of the per-file loop of `load_data`. */
  function LoadFile(f: CsvFile): FileOutcome {
    match ParseFileMetadata(f.path)
    case None => NotARun
    case Some(meta) =>
      match f.contents
      case None => Unreadable
      case Some(table) => LoadTable(table, meta)
  }

  /** The part of the per-file loop that follows a successful read of a run file. */
  function LoadTable(table: Table, meta: Metadata): FileOutcome {
    var decision := DecideSchema(table.labels);
    if decision.Skip? then MissingColumns
    else
      var labels := EffectiveLabels(table.labels, decision);
      KeptTablesHaveBothColumns(table.labels);
      var qi := LabelIndex(labels, QUESTION_ID).value;
      var si := LabelIndex(labels, SCORE).value;
      Loaded(ExtractRows(table.records, qi, si, meta))
  }

  /** What happens to each file, in order. */
  function Outcomes(files: seq<CsvFile>): (r: seq<FileOutcome>)
    ensures |r| == |files|
    ensures forall i :: 0 <= i < |files| ==> r[i] == LoadFile(files[i])
  {
    seq(|files|, i requires 0 <= i < |files| => LoadFile(files[i]))
  }

  /** The tables of the files that load, in order. */
  function Frames(outcomes: seq<FileOutcome>): seq<seq<LoadedRow>> {
    if outcomes == [] then []
    else
      var last := outcomes[|outcomes| - 1];
      Frames(outcomes[..|outcomes| - 1]) + (if last.Loaded? then [last.rows] else [])
  }

  /** Frames grow by the table of each further file that loads. */
  lemma FramesOfPrefix(outcomes: seq<FileOutcome>, i: nat)
    requires i < |outcomes|
    ensures Frames(outcomes[..i + 1]) == Frames(outcomes[..i]) + (if outcomes[i].Loaded? then [outcomes[i].rows] else [])
  {
    assert outcomes[..i + 1][..i] == outcomes[..i];
  }

  /** The tables one after another (`pd.concat`). */
  function Concat(frames: seq<seq<LoadedRow>>): seq<LoadedRow> {
    if frames == [] then [] else Concat(frames[..|frames| - 1]) + frames[|frames| - 1]
  }

  /**
   * `load_data` over the files of the input directory, in sorted order: no
   * files at all, no file that loads, or the loaded tables concatenated.
   */
  method LoadData(files: seq<CsvFile>) returns (r: Result<seq<LoadedRow>, LoadError>)
    ensures files == [] ==> r == Err(NoFiles)
    ensures files != [] && Frames(Outcomes(files)) == [] ==> r == Err(NoValidData)
    ensures files != [] && Frames(Outcomes(files)) != [] ==> r == Ok(Concat(Frames(Outcomes(files))))
  {
    if |files| == 0 {
      return Err(NoFiles);
    }
    var allData: seq<seq<LoadedRow>> := [];
    ghost var outcomes := Outcomes(files);
    for i := 0 to |files|
      invariant allData == Frames(outcomes[..i])
    {
      var outcome := LoadFile(files[i]);
      FramesOfPrefix(outcomes, i);
      if outcome.Loaded? {
        allData := allData + [outcome.rows];
      }
    }
    assert outcomes[..|files|] == outcomes;
    if |allData| == 0 {
      return Err(NoValidData);
    }
    return Ok(Concat(allData));
  }

  // ---------------------------------------------------------------------------
  // Properties
  // ---------------------------------------------------------------------------

  /** No whitespace at either end. */
  predicate Trimmed(s: string) {
    |s| > 0 ==> !IsSpace(s[0]) && !IsSpace(s[|s| - 1])
  }

  /**
   * Every extracted row comes from a record with a question id, carries the
   * file's model and run, and has a stripped question id.
   */
  lemma {:induction false} ExtractRowsShape(records: seq<seq<Cell>>, qi: nat, si: nat, meta: Metadata)
    ensures |ExtractRows(records, qi, si, meta)| <= |records|
    ensures forall row :: row in ExtractRows(records, qi, si, meta) ==>
      row.model == meta.model && row.run == meta.run && Trimmed(row.questionId)
  {
    if records != [] {
      var record := records[|records| - 1];
      ExtractRowsShape(records[..|records| - 1], qi, si, meta);
      if CellAt(record, qi).Value? {
        StripShape(CellAt(record, qi).text);
      }
    }
  }

  /** Records without a question id are dropped, and every other record gives one row. */
  lemma {:induction false} ExtractRowsCount(records: seq<seq<Cell>>, qi: nat, si: nat, meta: Metadata)
    ensures |ExtractRows(records, qi, si, meta)| == |records| - MissingIds(records, qi)
  {
    if records != [] {
      ExtractRowsCount(records[..|records| - 1], qi, si, meta);
    }
  }

  /** The rows of a prefix of the records are a prefix of the rows of all of them. */
  lemma {:induction false} ExtractRowsPrefix(records: seq<seq<Cell>>, j: nat, qi: nat, si: nat, meta: Metadata)
    requires j <= |records|
    ensures ExtractRows(records[..j], qi, si, meta) <= ExtractRows(records, qi, si, meta)
    decreases |records|
  {
    if j < |records| {
      var init := records[..|records| - 1];
      assert init[..j] == records[..j];
      ExtractRowsPrefix(init, j, qi, si, meta);
    } else {
      assert records[..j] == records;
    }
  }

  /** The rows of the first `i + 1` records are those of the first `i` and then the row of record `i`, if any. */
  lemma ExtractRowsStep(records: seq<seq<Cell>>, i: nat, qi: nat, si: nat, meta: Metadata)
    requires i < |records|
    ensures ExtractRows(records[..i + 1], qi, si, meta) == ExtractRows(records[..i], qi, si, meta) + RowFrom(records[i], qi, si, meta)
  {
    assert records[..i + 1][..i] == records[..i];
  }

  /**
   * Record `i`, when its question id is present, gives the row at position
   * `i` less the number of earlier records without a question id: its
   * question id is the stripped text of its `question_id` cell, its score the
   * numeric reading of its `score` cell, and it carries the file's model and
   * run. Rows therefore come in record order.
   */
  lemma ExtractRowsAt(records: seq<seq<Cell>>, qi: nat, si: nat, meta: Metadata, i: nat)
    requires i < |records| && CellAt(records[i], qi).Value?
    ensures var k := i - MissingIds(records[..i], qi);
      && 0 <= k < |ExtractRows(records, qi, si, meta)|
      && ExtractRows(records, qi, si, meta)[k]
         == LoadedRow(Strip(CellAt(records[i], qi).text), ScoreOf(CellAt(records[i], si)), meta.model, meta.run)
  {
    var before := ExtractRows(records[..i], qi, si, meta);
    ExtractRowsCount(records[..i], qi, si, meta);
    ExtractRowsStep(records, i, qi, si, meta);
    ExtractRowsPrefix(records, i + 1, qi, si, meta);
    assert ExtractRows(records[..i + 1], qi, si, meta)[|before|] == RowFrom(records[i], qi, si, meta)[0];
  }

  /** The number of records whose question id is missing. */
  function MissingIds(records: seq<seq<Cell>>, qi: nat): (n: nat)
    ensures n <= |records|
  {
    if records == [] then 0
    else MissingIds(records[..|records| - 1], qi) + (if CellAt(records[|records| - 1], qi).Missing? then 1 else 0)
  }

  /** The three ways a file is skipped. */
  lemma SkippedFiles(f: CsvFile)
    ensures LoadFile(f).NotARun? <==> ParseFileMetadata(f.path).None?
    ensures LoadFile(f).Unreadable? <==> ParseFileMetadata(f.path).Some? && f.contents.None?
    ensures LoadFile(f).MissingColumns? <==>
      ParseFileMetadata(f.path).Some? && f.contents.Some? && DecideSchema(f.contents.value.labels).Skip?
  {
  }

  /** A file that loads is a run file, and all its rows carry that file's model and run. */
  lemma LoadedRowsCarryFileMetadata(f: CsvFile)
    requires LoadFile(f).Loaded?
    ensures ParseFileMetadata(f.path).Some? && f.contents.Some?
    ensures |LoadFile(f).rows| <= |f.contents.value.records|
    ensures forall row :: row in LoadFile(f).rows ==>
      && row.model == ParseFileMetadata(f.path).value.model
      && row.run == ParseFileMetadata(f.path).value.run
      && Trimmed(row.questionId)
  {
    var meta := ParseFileMetadata(f.path).value;
    var table := f.contents.value;
    var labels := EffectiveLabels(table.labels, DecideSchema(table.labels));
    KeptTablesHaveBothColumns(table.labels);
    ExtractRowsShape(table.records, LabelIndex(labels, QUESTION_ID).value, LabelIndex(labels, SCORE).value, meta);
  }

  /** The loaded tables are exactly those of the outcomes that load, in order. */
  lemma {:induction false} FramesExactly(outcomes: seq<FileOutcome>)
    ensures Frames(outcomes) == [] <==> forall i :: 0 <= i < |outcomes| ==> !outcomes[i].Loaded?
    ensures forall t :: t in Frames(outcomes) ==> Loaded(t) in outcomes
  {
    if outcomes != [] {
      var init := outcomes[..|outcomes| - 1];
      FramesExactly(init);
      forall i | 0 <= i < |init| ensures init[i] == outcomes[i] { }
    }
  }

  /** Splitting the files splits their tables at the same place. */
  lemma {:induction false} FramesSplit(xs: seq<FileOutcome>, ys: seq<FileOutcome>)
    ensures Frames(xs + ys) == Frames(xs) + Frames(ys)
    decreases |ys|
  {
    if ys == [] {
      assert xs + ys == xs;
    } else {
      var init := ys[..|ys| - 1];
      FramesSplit(xs, init);
      assert (xs + ys)[..|xs + ys| - 1] == xs + init;
    }
  }

  /** Concatenating two runs of tables is concatenating their concatenations. */
  lemma {:induction false} ConcatSplit(xs: seq<seq<LoadedRow>>, ys: seq<seq<LoadedRow>>)
    ensures Concat(xs + ys) == Concat(xs) + Concat(ys)
    decreases |ys|
  {
    if ys == [] {
      assert xs + ys == xs;
    } else {
      var init := ys[..|ys| - 1];
      ConcatSplit(xs, init);
      assert (xs + ys)[..|xs + ys| - 1] == xs + init;
    }
  }

  /**
   * A file that loads contributes its table to `all_data` right after the
   * tables of the earlier files that load.
   */
  lemma FrameOfLoadedFile(outcomes: seq<FileOutcome>, i: nat)
    requires i < |outcomes| && outcomes[i].Loaded?
    ensures |Frames(outcomes[..i])| < |Frames(outcomes)|
    ensures Frames(outcomes)[|Frames(outcomes[..i])|] == outcomes[i].rows
  {
    assert outcomes == outcomes[..i + 1] + outcomes[i + 1..];
    FramesSplit(outcomes[..i + 1], outcomes[i + 1..]);
    FramesOfPrefix(outcomes, i);
  }

  /**
   * The combined table holds the rows of the earlier files that load, then
   * the rows of a file that loads, then the rows of the later ones.
   */
  lemma CombinedTableAroundFile(outcomes: seq<FileOutcome>, i: nat)
    requires i < |outcomes| && outcomes[i].Loaded?
    ensures Concat(Frames(outcomes))
      == Concat(Frames(outcomes[..i])) + outcomes[i].rows + Concat(Frames(outcomes[i + 1..]))
  {
    var before, after := Frames(outcomes[..i]), Frames(outcomes[i + 1..]);
    assert outcomes == outcomes[..i + 1] + outcomes[i + 1..];
    FramesSplit(outcomes[..i + 1], outcomes[i + 1..]);
    FramesOfPrefix(outcomes, i);
    assert Frames(outcomes) == before + [outcomes[i].rows] + after;
    ConcatSplit(before + [outcomes[i].rows], after);
    assert Concat(before + [outcomes[i].rows]) == Concat(before) + outcomes[i].rows;
  }

  /** Every row of the combined table comes from one of the loaded tables. */
  lemma {:induction false} ConcatFrom(frames: seq<seq<LoadedRow>>)
    ensures forall row :: row in Concat(frames) ==> exists t :: t in frames && row in t
  {
    if frames != [] {
      ConcatFrom(frames[..|frames| - 1]);
    }
  }

  /** Every row of the combined table belongs to the table of one outcome that loaded. */
  lemma RowOfSomeOutcome(outcomes: seq<FileOutcome>, row: LoadedRow)
    requires row in Concat(Frames(outcomes))
    ensures exists i :: 0 <= i < |outcomes| && outcomes[i].Loaded? && row in outcomes[i].rows
  {
    ConcatFrom(Frames(outcomes));
    FramesExactly(outcomes);
    var t :| t in Frames(outcomes) && row in t;
    assert Loaded(t) in outcomes;
  }

  /**
   * Every row of the combined table carries the model and run of a run file
   * among the inputs and a stripped question id.
   */
  lemma CombinedRowsComeFromRunFiles(files: seq<CsvFile>, row: LoadedRow)
    requires row in Concat(Frames(Outcomes(files)))
    ensures exists i :: 0 <= i < |files| && ParseFileMetadata(files[i].path) == Some(Metadata(row.model, row.run))
    ensures Trimmed(row.questionId)
  {
    var outcomes := Outcomes(files);
    RowOfSomeOutcome(outcomes, row);
    var i :| 0 <= i < |outcomes| && outcomes[i].Loaded? && row in outcomes[i].rows;
    LoadedRowsCarryFileMetadata(files[i]);
  }

  /**
   * A run file with a proper header and no records still counts as loaded
   * (with an empty table), so it keeps `LoadData` from reporting that no
   * valid data was found.
   */
  lemma EmptyRunFileLoads(f: CsvFile)
    requires ParseFileMetadata(f.path).Some?
    requires f.contents.Some? && f.contents.value.records == []
    requires QUESTION_ID in f.contents.value.labels && SCORE in f.contents.value.labels
    ensures LoadFile(f) == Loaded([])
  {
    assert DecideSchema(f.contents.value.labels) == UseHeader;
  }

  /**
   * A run file whose header does not name both `question_id` and `score` but
   * has at least nine columns is read by position: question ids from the
   * fourth column (index 3) and scores from the fifth (index 4).
   */
  lemma HeaderlessReadsColumns3And4(f: CsvFile)
    requires ParseFileMetadata(f.path).Some? && f.contents.Some?
    requires !(QUESTION_ID in f.contents.value.labels && SCORE in f.contents.value.labels)
    requires |f.contents.value.labels| >= 9
    ensures LoadFile(f) == Loaded(ExtractRows(f.contents.value.records, 3, 4, ParseFileMetadata(f.path).value))
  {
    HeaderlessTable(f.contents.value, ParseFileMetadata(f.path).value);
  }

  /** `HeaderlessReadsColumns3And4` for the table that was read. */
  lemma HeaderlessTable(table: Table, meta: Metadata)
    requires !(QUESTION_ID in table.labels && SCORE in table.labels)
    requires |table.labels| >= 9
    ensures LoadTable(table, meta) == Loaded(ExtractRows(table.records, 3, 4, meta))
  {
    assert DecideSchema(table.labels) == Positional(POSITIONAL_LABELS + table.labels[9..]);
    PositionalIndices(table.labels);
  }

  /** After the positional rename, the first `question_id` label is at index 3 and the first `score` label at index 4. */
  lemma PositionalIndices(labels: seq<string>)
    requires |labels| >= 9
    ensures LabelIndex(POSITIONAL_LABELS + labels[9..], QUESTION_ID) == Some(3)
    ensures LabelIndex(POSITIONAL_LABELS + labels[9..], SCORE) == Some(4)
  {
    var renamed := POSITIONAL_LABELS + labels[9..];
    assert renamed[0] == "model" && renamed[1] == "run_id" && renamed[2] == "locale";
    assert renamed[3] == QUESTION_ID && renamed[4] == SCORE;
  }

  /** A run file whose header names both columns is read from the first column with each of those labels. */
  lemma HeaderReadsNamedColumns(f: CsvFile)
    requires ParseFileMetadata(f.path).Some? && f.contents.Some?
    requires QUESTION_ID in f.contents.value.labels && SCORE in f.contents.value.labels
    ensures var labels := f.contents.value.labels;
      LoadFile(f) == Loaded(ExtractRows(f.contents.value.records,
        LabelIndex(labels, QUESTION_ID).value, LabelIndex(labels, SCORE).value, ParseFileMetadata(f.path).value))
  {
  }
}
