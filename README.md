# Political compass analysis, modelled in Dafny

This project models the analysis step of the LLM political-compass
experiment (`visualisation/political_compass_analysis.py`). The step works
in four stages:

- **File names.** Each run of a model is stored in one CSV file whose name
  says which model answered and which run it was, e.g.
  `Grok_Run_2_(No_Memory).csv`. `_parse_file_metadata` recovers the pair
  (display name, run number), or rejects the file. `_pretty_model_name`
  turns the raw name into the display name.
- **Loading.** `load_data` reads every run file and decides how to read its
  columns: by its header, by position when the header is missing, or not at
  all. It keeps the `question_id` and `score` columns, tags each row with the
  model and run, and concatenates the files.
- **One model's position.** `calculate_compass_coordinates` uses the constant
  table `QUESTION_MAPPING`, which puts each question on the economic axis, the
  social axis or neither, with a polarity. It turns one model's (question,
  score) rows into an economic and a social coordinate. Each coordinate is
  the average of `(score - 4) * polarity` over the counted questions, scaled
  by 10/3.
- **All models.** `calculate_all_coordinates` runs that calculation once per
  model.

Modules, one per file:

| file | module | what it holds |
|---|---|---|
| `wrappers.dfy` | `Wrappers` | `Option` and `Result` |
| `strings.dfy` | `Strings` | the Python string operations the parser uses: `lower`, `split(sep)[0]`, `replace`, `re.sub(r'\s+', ' ', …)`, `strip` and `str.isspace` |
| `file_metadata.dfy` | `FileMetadata` | `_pretty_model_name`, `_parse_file_metadata` and their properties |
| `file_metadata_examples.dfy` | `FileMetadataExamples` | the documented file names and other worked examples |
| `schema.dfy` | `Schema` | the header / positional / skip decision of `load_data` |
| `question_mapping.dfy` | `QuestionMapping` | `QUESTION_MAPPING` |
| `compass.dfy` | `Compass` | `calculate_compass_coordinates` |
| `aggregation.dfy` | `Aggregation` | the per-model loop of `calculate_all_coordinates` |
| `loader.dfy` | `Loader` | the per-file decisions and the append loop of `load_data` |

Scores are exact `real`s. The loops of the source are `method`s proved
against recursive specification functions. The properties are proved
about those functions.

- **`CalculateCompassCoordinates`** is proved against `AxisSum`, `AxisCount`
  and `Coordinate`.
- **`CalculateAllCoordinates`** is proved against `UniqueModels`, `RowsOf`
  and `Position`.
- **`LoadData`** is proved against `LoadFile`, `Frames` and `Concat`.

To verify the project, give Dafny 4.11 all files together, with the default
options or with a resource limit:

    dafny verify *.dfy
    dafny verify --resource-limit 2000000 --verification-time-limit 0 --warn-contradictory-assumptions *.dfy

## Model

| member | source | states |
|---|---|---|
| Strings.Lower | visualisation/political_compass_analysis.py:100 | lower-casing keeps the length and maps each character on its own (ASCII letters to lower case) |
| Strings.Before | visualisation/political_compass_analysis.py:111 | `split(sep)[0]` is a prefix of the text that either is the whole text or is followed by `sep`, and no `sep` starts inside it |
| Strings.BeforeLeftmost | visualisation/political_compass_analysis.py:111 | `split(sep)[0]` ends exactly at the leftmost occurrence of `sep` |
| Strings.BeforeAbsent | visualisation/political_compass_analysis.py:111-112 | `split(sep)[0]` is the whole text when the first character of `sep` does not occur in it |
| Strings.ReplaceChar | visualisation/political_compass_analysis.py:84 | every `_` becomes a space, every other character stays, and the length is kept |
| Strings.Replace | visualisation/political_compass_analysis.py:85 | replacing `"( "` / `" )"` introduces no character that was in neither the text nor the replacement (what it replaces is stated by `ReplaceAfterPrefix`) |
| Strings.ReplaceAfterPrefix | visualisation/political_compass_analysis.py:85 | the scan is left to right and non-overlapping: when the first occurrence of the pattern in `x + pat + y` is the one after `x`, the result is `x`, the replacement, and then the replacement applied to `y` |
| Strings.ReplaceOnce | visualisation/political_compass_analysis.py:85 | a text with exactly one occurrence of the pattern has just that occurrence replaced |
| Strings.ReplaceAbsent | visualisation/political_compass_analysis.py:85 | replacing a pattern that does not occur leaves the text unchanged |
| Strings.TrimStart | visualisation/political_compass_analysis.py:86 | `lstrip` drops a prefix made only of whitespace and leaves text that does not start with whitespace |
| Strings.TrimEnd | visualisation/political_compass_analysis.py:86 | `rstrip` drops a suffix made only of whitespace and leaves text that does not end with whitespace |
| Strings.StripShape | visualisation/political_compass_analysis.py:86 | `strip` keeps a contiguous slice of its input with no whitespace at either end |
| Strings.CollapseShape | visualisation/political_compass_analysis.py:86 | `re.sub(r'\s+', ' ', …)` leaves no two adjacent whitespace characters and only plain spaces. Each result character is a space or comes from the input. The result is empty exactly when the input is, and starts with a space exactly when the input starts with whitespace |
| Strings.CollapseTidy | visualisation/political_compass_analysis.py:86 | text that has only single plain spaces is left unchanged by the whitespace collapse |
| Strings.Collapse | visualisation/political_compass_analysis.py:86 | `re.sub(r'\s+', ' ', …)`; its behaviour is stated by `CollapseIsSqueeze`, `CollapseKeepsNonSpaces`, `CollapseEnd`, `CollapseShape` and `CollapseTidy` |
| Strings.CollapseIsSqueeze | visualisation/political_compass_analysis.py:86 | the collapse equals an independent index-wise definition: each non-whitespace character is kept in order, the first character of each maximal whitespace run becomes one plain space, and the rest of the run is dropped |
| Strings.CollapseKeepsNonSpaces | visualisation/political_compass_analysis.py:86 | deleting all whitespace from the collapsed text and from the input gives the same text, so every non-whitespace character survives, in order |
| Strings.CollapseEnd | visualisation/political_compass_analysis.py:86 | a non-empty text collapses to a non-empty text that ends with whitespace exactly when the input does |
| Strings.Strip | visualisation/political_compass_analysis.py:86 | `strip()`, the composition of `lstrip` and `rstrip`; stated by `TrimStart`, `TrimEnd`, `StripShape` and `StripTidy` |
| Strings.StripTidy | visualisation/political_compass_analysis.py:86 | text with no whitespace at either end is left unchanged by `strip` |
| FileMetadata.PrettyModelName | visualisation/political_compass_analysis.py:82-87 | `_pretty_model_name`: underscores to spaces, one pass of each bracket replacement, whitespace collapse, strip. Stated by `PrettyModelNameIsClean`, `PrettyOfUnderscoreJoined`, `BracketSpacesExample` and `DoubleSpaceAfterBracketExample` |
| FileMetadata.PrettyModelNameIsClean | visualisation/political_compass_analysis.py:82-87 | a display name has no `_`, no whitespace other than plain spaces, no two adjacent whitespace characters and no whitespace at either end |
| FileMetadata.PrettyOfUnderscoreJoined | visualisation/political_compass_analysis.py:82-87 | for a name with no whitespace, no `_` at either end, no `__`, no `(_` and no `_)`, the display name is the raw name with each `_` turned into a space |
| FileMetadata.Basename | visualisation/political_compass_analysis.py:99 | `os.path.basename` returns the suffix after the last `/`; that suffix has no `/` in it |
| FileMetadata.Stem | visualisation/political_compass_analysis.py:99-100 | the basename without a final `.csv` in any letter case; stated by `StemOfComposed` and `CsvFileParsesAsStem` |
| FileMetadata.StemOfComposed | visualisation/political_compass_analysis.py:99-100 | a slash-free name followed by `.csv` in any letter case has the name as its stem |
| FileMetadata.NotCatalogWithUnderscore | visualisation/political_compass_analysis.py:103-104 | a stem containing `_` is never taken for the `questions` catalogue |
| FileMetadata.FindRunMarker | visualisation/political_compass_analysis.py:106-108 | the search finds the leftmost `_Run_` that is followed by a digit, or reports that there is none |
| FileMetadata.DigitRun | visualisation/political_compass_analysis.py:106 | the `(\d+)` group is the longest run of ASCII digits at that position |
| FileMetadata.DigitsValue | visualisation/political_compass_analysis.py:109 | `int()` of an ASCII digit string; stated by `DigitsRoundTrip` and `SingleDigitValue` |
| FileMetadata.DigitsRoundTrip | visualisation/political_compass_analysis.py:109 | `int` reads back the decimal digits of any natural number as that number |
| FileMetadata.ParseFileMetadata | visualisation/political_compass_analysis.py:90-116 | `_parse_file_metadata`: the stem of the basename is parsed; stated by `ParseFailsExactly`, `ParseAtFirstMarker`, `ParseCsvAtFirstMarker`, `ParseComposedName` and the worked examples |
| FileMetadata.ParseStem | visualisation/political_compass_analysis.py:102-116 | the parse after the directory and extension are removed: no result for the catalogue or without `_Run_<digit>`, otherwise the display name of the model part and the run number; stated by `ParseStemIs` and `ParseFailsExactly` |
| FileMetadata.ModelPart | visualisation/political_compass_analysis.py:111-113 | the text before the first `_Run_`, cut at the first `_(No`; stated by `Strings.Before`, `BeforeLeftmost` and `BeforeAbsent`, and used in `ParseAtFirstMarker` and `ParseComposedName` |
| FileMetadata.ParseFailsExactly | visualisation/political_compass_analysis.py:99-108 | parsing fails exactly when the stem is `questions` in some letter case, or when no `_Run_` followed by a digit occurs in it |
| FileMetadata.ParseAtFirstMarker | visualisation/political_compass_analysis.py:106-116 | on success, the run is the value of the digits after the leftmost `_Run_<digit>`. The name is the display form of the text before the first `_Run_`, cut at the first `_(No` |
| FileMetadata.ParseCsvAtFirstMarker | visualisation/political_compass_analysis.py:99-116 | the same, for a slash-free stem followed by a `.csv` extension in any case |
| FileMetadata.ParseComposedName | visualisation/political_compass_analysis.py:99-116 | `<name>_Run_<digits><rest>.csv` parses to the display form of `<name>` cut at `_(No`, together with the value of `<digits>`. The conditions are: `<name>` and `<rest>` hold no `/`; no `_Run_` starts inside `<name>`, even one that runs on into the marker (so `<name>` does not end in `_Run`); `<digits>` is a non-empty string of ASCII digits; `<rest>` does not start with a digit; the extension is `.csv` in any letter case |
| FileMetadataExamples.InstantExample | visualisation/political_compass_analysis.py:95 | `ChatGPT_Instant_5.2_Run_1_(No_M.csv` parses to (`ChatGPT Instant 5.2`, 1) |
| FileMetadataExamples.DeepThinkExample | visualisation/political_compass_analysis.py:96 | `DeepSeek_(DeepThink)_Run_3.csv` parses to (`DeepSeek (DeepThink)`, 3) |
| FileMetadataExamples.GrokExample | visualisation/political_compass_analysis.py:97 | `Grok_Run_2_(No_Memory).csv` parses to (`Grok`, 2) |
| FileMetadataExamples.CatalogExample | visualisation/political_compass_analysis.py:102-104 | `Questions.csv` is not a run file |
| FileMetadataExamples.FirstMarkerWithoutDigitExample | visualisation/political_compass_analysis.py:106-111 | `A_Run_x_Run_3.csv` parses to (`A`, 3): the name is cut at the first `_Run_`, while the run number is read after the second one |
| FileMetadataExamples.SkippedMarker | visualisation/political_compass_analysis.py:99-113 | `<name>_Run_<x>_Run_<digit>.csv` parses to model `<name>` and run `<digit>`. This holds for any name without `_`, `/` or whitespace and any single `<x>` that is neither a digit nor `/`: the name is cut at the first `_Run_`, while the number is read after the second |
| FileMetadataExamples.CatalogIsNotARun | visualisation/political_compass_analysis.py:99-104 | any slash-free stem that lower-cases to `questions`, followed by `.csv` in any case, is not a run file |
| FileMetadataExamples.BracketSpacesExample | visualisation/political_compass_analysis.py:82-87 | `A_(_B_)` is displayed as `A (B)`: the space inside each bracket is removed |
| FileMetadataExamples.DoubleSpaceAfterBracketExample | visualisation/political_compass_analysis.py:82-87 | `A_(__B)` is displayed as `A ( B)`: the single `"( "` replacement runs before the whitespace collapse, so one of the two spaces is left |
| FileMetadata.ParseStemIs | visualisation/political_compass_analysis.py:102-116 | once the stem is not the catalogue and its leftmost `_Run_<digit>` is at a given position, the result is the display form of the model part together with the value of the digits after that marker |
| Schema.DecideSchema | visualisation/political_compass_analysis.py:138-146 | the header is kept exactly when it names both `question_id` and `score`. Otherwise, with at least nine columns, the columns are renamed by position: same count, `question_id` at 3, `score` at 4, labels from index 9 kept. Otherwise the file is skipped |
| Schema.KeptTablesHaveBothColumns | visualisation/political_compass_analysis.py:138-148 | whenever a file is not skipped, the labels it is read by include both `question_id` and `score` |
| QuestionMapping.AxisOf | visualisation/political_compass_analysis.py:188 | a question counts exactly when it is in the table with an axis |
| QuestionMapping.Polarity | visualisation/political_compass_analysis.py:41-79 | a question that counts has polarity +1 or -1 |
| QuestionMapping.QuestionMappingIsWellFormed | visualisation/political_compass_analysis.py:41-79 | in every entry, the axis is missing exactly when the polarity is 0; a question with an axis has polarity ±1 |
| QuestionMapping.ExcludedQuestions | visualisation/political_compass_analysis.py:72-78 | the excluded questions are exactly Q20, Q27 and Q29 to Q32 |
| Compass.CalculateCompassCoordinates | visualisation/political_compass_analysis.py:170-206 | the accumulating loop returns, on each axis, the sum of the weights of the counted rows divided by their count and scaled by 10/3, or 0 when nothing counted |
| Compass.AxisSum | visualisation/political_compass_analysis.py:184-200 | the sum of `(score - 4) * polarity` over the rows counted on an axis; stated by `CalculateCompassCoordinates`, `AppendSplits`, `AxisSumBounded` and `SumAndCountPermutationInvariant` |
| Compass.AxisCount | visualisation/political_compass_analysis.py:184-200 | the number of rows counted on an axis; stated by `CalculateCompassCoordinates`, `AppendSplits`, `NoCountedRowsGiveZero` and `SumAndCountPermutationInvariant` |
| Compass.Coordinate | visualisation/political_compass_analysis.py:202-204 | the scaled average of an axis, or 0 when nothing counted; stated by `CalculateCompassCoordinates`, `CoordinatesBounded`, `CoordinatesPermutationInvariant` and `SingleEconomicAnswer` |
| Compass.AppendSplits | visualisation/political_compass_analysis.py:184-200 | the sums and counts of concatenated rows are the sums and counts of the parts added together |
| Compass.ExcludedRowChangesNothing | visualisation/political_compass_analysis.py:188 | a row whose question is unmapped or has no axis changes no sum and no count, wherever it is inserted |
| Compass.NoCountedRowsGiveZero | visualisation/political_compass_analysis.py:203-204 | an axis with no counted row has count 0 and coordinate exactly 0 |
| Compass.ExcludedOnlyIsOrigin | visualisation/political_compass_analysis.py:184-204 | empty input, or input of only unmapped or excluded questions, gives (0, 0) |
| Compass.WeightBounded | visualisation/political_compass_analysis.py:189-193 | a counted score in [1, 7] weighs between -3 and 3 |
| Compass.AxisSumBounded | visualisation/political_compass_analysis.py:184-200 | with counted scores in [1, 7], an axis sum lies within ±3 times its count |
| Compass.ScaledBounded | visualisation/political_compass_analysis.py:202-204 | the scaled average of terms in [-3, 3] lies in [-10, 10] |
| Compass.CoordinatesBounded | visualisation/political_compass_analysis.py:189-204 | with every counted score in [1, 7], both coordinates lie in [-10, 10] |
| Compass.SumAndCountPermutationInvariant | visualisation/political_compass_analysis.py:184-200 | sums and counts are the same for any reordering of the rows |
| Compass.CoordinatesPermutationInvariant | visualisation/political_compass_analysis.py:184-206 | the coordinates are the same for any reordering of the rows |
| Compass.SingleEconomicAnswer | visualisation/political_compass_analysis.py:188-204 | a single answer of 6 to Q01 gives 20/3 on the economic axis and 0 on the social one |
| Aggregation.UniqueModels | visualisation/political_compass_analysis.py:215 | the models listed are exactly those of the rows, each once |
| Aggregation.UniqueModelsInFirstAppearanceOrder | visualisation/political_compass_analysis.py:215 | models are listed in the order in which they first appear |
| Aggregation.RowsOf | visualisation/political_compass_analysis.py:216 | a model's rows are the (question, score) pairs of that model in the input, each kept as many times as it occurs there |
| Aggregation.Position | visualisation/political_compass_analysis.py:216-222 | one model's result row: its name and the coordinates of its rows; stated by `CalculateAllCoordinates`, `PositionDependsOnlyOnOwnRows` and `AllPositionsBounded` |
| Aggregation.PositionDependsOnlyOnOwnRows | visualisation/political_compass_analysis.py:216-217 | a model's position depends only on how many times each of its rows occurs: reordering the rows or changing other models' rows leaves it unchanged |
| Aggregation.CalculateAllCoordinates | visualisation/political_compass_analysis.py:209-224 | the loop gives one result row per listed model, in that order, holding the coordinates of that model's rows |
| Aggregation.OneRowPerModel | visualisation/political_compass_analysis.py:214-222 | the result names exactly the models of the input, each in one row |
| Aggregation.AllPositionsBounded | visualisation/political_compass_analysis.py:216-217 | when every averaged score of model `m` on a counted question lies in [1, 7], the coordinates of `m` lie in [-10, 10] |
| Loader.LabelIndex | visualisation/political_compass_analysis.py:148 | a column is found exactly when its label is present, and the first column with that label is the one found |
| Loader.ExtractRows | visualisation/political_compass_analysis.py:148-153 | the column selection, `dropna` on `question_id`, `strip` and the model/run tagging of one file; stated by `ExtractRowsAt`, `ExtractRowsPrefix`, `ExtractRowsShape` and `ExtractRowsCount` |
| Loader.ExtractRowsAt | visualisation/political_compass_analysis.py:148-153 | the record at position `i` with a question id gives the row at position `i` minus the number of earlier records without one. That row holds the stripped question-id text, the score cell's numeric reading and the file's model and run |
| Loader.ExtractRowsPrefix | visualisation/political_compass_analysis.py:148-153 | the rows of the first `j` records are a prefix of the rows of all records, so the rows keep the order of the records |
| Loader.ExtractRowsShape | visualisation/political_compass_analysis.py:148-153 | the extracted rows are no more than the records. Each carries the file's model and run and a question id with no whitespace at either end |
| Loader.ExtractRowsCount | visualisation/political_compass_analysis.py:149 | exactly the records with a missing question id are dropped |
| Loader.LoadFile | visualisation/political_compass_analysis.py:131-155 | the outcome of one file: not a run, unreadable, missing columns, or its rows; stated by `SkippedFiles`, `LoadedRowsCarryFileMetadata`, `EmptyRunFileLoads`, `HeaderReadsNamedColumns` and `HeaderlessReadsColumns3And4` |
| Loader.LoadTable | visualisation/political_compass_analysis.py:138-153 | the part of `LoadFile` after a successful read: the schema decision, then the rows; stated by `HeaderReadsNamedColumns` and `HeaderlessTable` |
| Loader.HeaderReadsNamedColumns | visualisation/political_compass_analysis.py:138-153 | a run file whose header names both `question_id` and `score` is read from the first columns with those labels |
| Loader.HeaderlessReadsColumns3And4 | visualisation/political_compass_analysis.py:138-153 | a run file without both labels and with at least nine columns is read positionally: the question id from the fourth column and the score from the fifth |
| Loader.HeaderlessTable | visualisation/political_compass_analysis.py:138-153 | the same positional reading, for a table already read and its parsed file name |
| Loader.SkippedFiles | visualisation/political_compass_analysis.py:131-146 | a file is skipped as not a run file, as unreadable, or for missing columns, exactly when its name does not parse, when reading it fails, or when the schema decision is to skip it |
| Loader.LoadedRowsCarryFileMetadata | visualisation/political_compass_analysis.py:131-155 | a file that loads is a run file, and every row it gives carries that file's model and run |
| Loader.Frames | visualisation/political_compass_analysis.py:126-155 | `all_data`: the tables of the files that load, in file order; stated by `FramesExactly`, `FrameOfLoadedFile` and `FramesSplit` |
| Loader.FramesSplit | visualisation/political_compass_analysis.py:126-155 | the tables of two runs of files placed one after the other are the tables of the first run followed by those of the second |
| Loader.FrameOfLoadedFile | visualisation/political_compass_analysis.py:155 | a file that loads contributes its rows to `all_data` at the position right after the tables of the earlier files that load |
| Loader.Concat | visualisation/political_compass_analysis.py:163 | `pd.concat`: the tables one after another; stated by `ConcatSplit` and `CombinedTableAroundFile` |
| Loader.ConcatSplit | visualisation/political_compass_analysis.py:163 | concatenating two runs of tables gives the concatenation of the first followed by that of the second |
| Loader.CombinedTableAroundFile | visualisation/political_compass_analysis.py:155-163 | the combined table is the rows of the earlier files that load, then the rows of a file that loads, then the rows of the later ones |
| Loader.LoadData | visualisation/political_compass_analysis.py:123-163 | no files gives the no-files error; no file that loads gives the no-valid-data error; otherwise the result is the loaded tables concatenated in file order |
| Loader.FramesExactly | visualisation/political_compass_analysis.py:155-161 | no table is collected exactly when no file loads, and every collected table is the table of a file that loaded |
| Loader.CombinedRowsComeFromRunFiles | visualisation/political_compass_analysis.py:148-163 | every combined row carries the (model, run) parsed from one of the input files and a stripped question id |
| Loader.EmptyRunFileLoads | visualisation/political_compass_analysis.py:148-161 | a run file with a proper header and no records still loads (with an empty table), so it prevents the no-valid-data error |

## Left out

- File discovery (`glob`, sorting), reading (`pd.read_csv`), logging
  (`print`), `os.makedirs` and CSV output.
  - `LoadData` takes the files already sorted, each with its contents as the
    CSV reader gives them, or None when reading fails.
  - Every reading error is modelled as that single `Unreadable` outcome. The
    error's text is not kept.
- `pd.to_numeric(errors='coerce')`. Each cell carries its numeric reading,
  if any, as input.
- `astype(str)`. A question-id cell carries its text as input.
- The group-by mean that comes before `calculate_all_coordinates`.
  `CalculateAllCoordinates` takes the averaged rows as input.
  - In the source those rows come out of the group-by sorted by model name
    in code-point order, where every upper-case ASCII letter comes before
    every lower-case one. "Order of first appearance" is that order there.
  - The pivot, `sort_values` and the renderers are not part of this model.
- NaN scores. The calculator does not skip a missing score; such a score
  would make that axis NaN. `Compass.Row` holds a present `real` score, and
  the model claims no skipping.
- Floating point. Scores, sums, averages and the factor 10/3 are exact reals.
- Non-ASCII digits and letters.
  - `FileMetadata.RunMarkerAt` and `DigitRun` accept only ASCII digits,
    although Python's `\d` also matches other Unicode decimal digits.
  - `Strings.Lower` lowers only ASCII letters. This is exact for the two
    comparisons it serves, against `.csv` and `questions`.
- Windows path separators. `Basename` splits at `/` only.
- Duplicate `question_id` or `score` labels after a positional rename. The
  source would then select several columns under one label. The model reads
  the first column with that label.
- Exceptions other than a failed read inside the per-file `try`, for example
  from the column selection on duplicated labels.
- The question descriptions of `QUESTION_MAPPING` are display text and are
  not modelled.

## Source behaviour the model reproduces

- A file without the expected header loses its first line. The comment at
  line 139 says that in such a file the first row is data. But the CSV
  reader has already taken that row as the header, and the positional
  rename replaces those labels without restoring the row. The model does
  the same: a `Loader.Table`'s `records` never hold the line the reader
  used as its header.
- `LoadData` reports that no valid data was found only when no file loaded.
  A run file with no rows still loads an empty table, so a directory of such
  files gives an empty combined table, not the error (see
  `Loader.EmptyRunFileLoads`).
