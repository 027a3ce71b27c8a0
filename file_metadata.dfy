/**
 * Recovering (model name, run number) from a run file's name:
 * `_pretty_model_name` and `_parse_file_metadata`.
 */
module FileMetadata {
  import opened Wrappers
  import opened Strings

  /** What a run file's name says: the display name of the model and the run number. */
  datatype Metadata = Metadata(model: string, run: nat)

  const RUN_MARKER: string := "_Run_"
  const NO_MARKER: string := "_(No"

  /** `_pretty_model_name`: underscores to spaces, tidy the inside of brackets, collapse whitespace, strip. */
  function PrettyModelName(raw: string): string {
    var spaced := ReplaceChar(raw, '_', ' ');
    var tidied := Replace(Replace(spaced, "( ", "("), " )", ")");
    Strip(Collapse(tidied))
  }

  /** `os.path.basename` on a POSIX path: the text after the last `/`. */
  function Basename(path: string): (r: string)
    ensures '/' !in r
    ensures |r| <= |path| && r == path[|path| - |r|..]
    ensures r == path || path[|path| - |r| - 1] == '/'
  {
    if path == [] then []
    else if path[|path| - 1] == '/' then []
    else Basename(path[..|path| - 1]) + [path[|path| - 1]]
  }

  predicate EndsWith(s: string, suffix: string) {
    |suffix| <= |s| && s[|s| - |suffix|..] == suffix
  }

  /** The file name without a trailing `.csv` in any letter case. */
  function Stem(path: string): string {
    var name := Basename(path);
    if EndsWith(Lower(name), ".csv") then name[..|name| - 4] else name
  }

  /** The question catalogue, which is not a run file. */
  predicate IsCatalog(stem: string) {
    Lower(stem) == "questions"
  }

  /** A match of the regular expression `_Run_(\d+)` begins at `i` (with ASCII digits). */
  predicate RunMarkerAt(s: string, i: nat) {
    OccursAt(s, RUN_MARKER, i) && i + 5 < |s| && IsAsciiDigit(s[i + 5])
  }

  /** `re.search(r'_Run_(\d+)', s)` from index `from`: the leftmost match, if any. */
  function FindRunMarker(s: string, from: nat): (r: Option<nat>)
    ensures r.Some? ==> from <= r.value && RunMarkerAt(s, r.value)
    ensures r.Some? ==> forall j :: from <= j < r.value ==> !RunMarkerAt(s, j)
    ensures r.None? ==> forall j :: from <= j ==> !RunMarkerAt(s, j)
    decreases |s| - from
  {
    if from + 5 >= |s| then None
    else if RunMarkerAt(s, from) then Some(from)
    else FindRunMarker(s, from + 1)
  }

  predicate AllDigits(d: string) {
    forall i :: 0 <= i < |d| ==> IsAsciiDigit(d[i])
  }

  /** The greedy `\d+` group: the longest run of ASCII digits starting at `j`. */
  function DigitRun(s: string, j: nat): (d: string)
    requires j <= |s|
    ensures j + |d| <= |s| && d == s[j..j + |d|]
    ensures AllDigits(d)
    ensures j + |d| == |s| || !IsAsciiDigit(s[j + |d|])
    decreases |s| - j
  {
    if j < |s| && IsAsciiDigit(s[j]) then [s[j]] + DigitRun(s, j + 1) else []
  }

  /** `int(d)` for a string of ASCII digits (leading zeros allowed). */
  function DigitsValue(d: string): nat
    requires AllDigits(d)
  {
    if d == [] then 0
    else DigitsValue(d[..|d| - 1]) * 10 + (d[|d| - 1] as int - '0' as int)
  }

  /** `str(n)`: the decimal digits of `n`, the inverse of `DigitsValue`. */
  function NatToDigits(n: nat): (d: string)
    ensures |d| > 0 && AllDigits(d)
  {
    var last := ('0' as int + n % 10) as char;
    if n < 10 then [last] else NatToDigits(n / 10) + [last]
  }

  /** `_parse_file_metadata`: the model's display name and the run number, or None for a file that is not a run. */
  function ParseFileMetadata(path: string): Option<Metadata> {
    ParseStem(Stem(path))
  }

  /** The part of `_parse_file_metadata` that follows the removal of the directory and the extension. */
  function ParseStem(stem: string): Option<Metadata> {
    if IsCatalog(stem) then None
    else match FindRunMarker(stem, 0)
      case None => None
      case Some(i) => Some(Metadata(PrettyModelName(ModelPart(stem)), DigitsValue(DigitRun(stem, i + 5))))
  }

  /** `stem.split('_Run_')[0].split('_(No')[0]`. */
  function ModelPart(stem: string): string {
    Before(Before(stem, RUN_MARKER), NO_MARKER)
  }

  // ---------------------------------------------------------------------------
  // Properties
  // ---------------------------------------------------------------------------

  /** Reading back the decimal digits of a number gives the number. */
  lemma {:induction false} DigitsRoundTrip(n: nat)
    ensures DigitsValue(NatToDigits(n)) == n
  {
    var d := NatToDigits(n);
    if n >= 10 {
      DigitsRoundTrip(n / 10);
      assert d[..|d| - 1] == NatToDigits(n / 10);
    }
  }

  /**
   * A pretty-printed model name contains no underscore, no whitespace other
   * than plain spaces, no two adjacent whitespace characters and no
   * whitespace at either end.
   */
  lemma PrettyModelNameIsClean(raw: string)
    ensures '_' !in PrettyModelName(raw)
    ensures NoDoubleSpace(PrettyModelName(raw))
    ensures OnlyPlainSpaces(PrettyModelName(raw))
    ensures var r := PrettyModelName(raw);
      |r| > 0 ==> !IsSpace(r[0]) && !IsSpace(r[|r| - 1])
  {
    var spaced := ReplaceChar(raw, '_', ' ');
    assert '_' !in spaced by {
      forall i | 0 <= i < |spaced| ensures spaced[i] != '_' { }
    }
    var tidied := Replace(Replace(spaced, "( ", "("), " )", ")");
    assert '_' !in tidied;
    var collapsed := Collapse(tidied);
    assert PrettyModelName(raw) == Strip(collapsed);
    CollapseShape(tidied);
    StripShape(collapsed);
    var a, b :| 0 <= a <= b <= |collapsed| && Strip(collapsed) == collapsed[a..b];
    SliceKeepsShape(collapsed, a, b, '_');
    assert PrettyModelName(raw) == collapsed[a..b];
  }

  /** The two ways of not being a run file: the catalogue, or a stem with no `_Run_` followed by a digit. */
  lemma ParseFailsExactly(path: string)
    ensures ParseFileMetadata(path).None? <==>
      IsCatalog(Stem(path)) || forall i :: 0 <= i ==> !RunMarkerAt(Stem(path), i)
  {
  }

  /**
   * A run file's name parses to the pretty-printed model part (the text before
   * the first `_Run_`, cut at the first `_(No`) and the value of the digits
   * after the leftmost `_Run_` that a digit follows.
   */
  lemma ParseAtFirstMarker(path: string, i: nat)
    requires !IsCatalog(Stem(path))
    requires RunMarkerAt(Stem(path), i)
    requires forall j :: 0 <= j < i ==> !RunMarkerAt(Stem(path), j)
    ensures ParseFileMetadata(path) == Some(Metadata(PrettyModelName(ModelPart(Stem(path))), DigitsValue(DigitRun(Stem(path), i + 5))))
  {
    FindsFirstMarker(Stem(path), i);
  }

  /** `ParseAtFirstMarker` for the stem, with the display name and the run number given by value. */
  lemma ParseStemIs(stem: string, i: nat, model: string, run: nat)
    requires !IsCatalog(stem)
    requires RunMarkerAt(stem, i)
    requires forall j :: 0 <= j < i ==> !RunMarkerAt(stem, j)
    requires PrettyModelName(ModelPart(stem)) == model
    requires DigitsValue(DigitRun(stem, i + 5)) == run
    ensures ParseStem(stem) == Some(Metadata(model, run))
  {
    FindsFirstMarker(stem, i);
  }

  /** The search for `_Run_<digit>` stops at the leftmost match. */
  lemma FindsFirstMarker(s: string, i: nat)
    requires RunMarkerAt(s, i)
    requires forall j :: 0 <= j < i ==> !RunMarkerAt(s, j)
    ensures FindRunMarker(s, 0) == Some(i)
  {
  }

  /** `ParseAtFirstMarker` for a slash-free stem followed by a `.csv` extension in any case. */
  lemma ParseCsvAtFirstMarker(stem: string, ext: string, i: nat)
    requires '/' !in stem && |ext| == 4 && Lower(ext) == ".csv"
    requires !IsCatalog(stem) && RunMarkerAt(stem, i)
    requires forall j :: 0 <= j < i ==> !RunMarkerAt(stem, j)
    ensures ParseFileMetadata(stem + ext) == Some(Metadata(
      PrettyModelName(Before(Before(stem, RUN_MARKER), NO_MARKER)),
      DigitsValue(DigitRun(stem, i + 5))))
  {
    StemOfComposed(stem, ext);
    ParseAtFirstMarker(stem + ext, i);
  }

  /**
   * A name built as `<name>_Run_<digits><rest>.csv` parses to the cleaned-up
   * `<name>` (cut at its first `_(No`) and the value of `<digits>`, provided
   * `<name>` holds no `_Run_` of its own and `<rest>` does not continue the
   * digit run. The extension may be written in any letter case.
   */
  lemma {:induction false} ParseComposedName(name: string, digits: string, rest: string, ext: string)
    requires '/' !in name && '/' !in rest
    requires forall j :: 0 <= j < |name| ==> !OccursAt(name + RUN_MARKER, RUN_MARKER, j)
    requires |digits| > 0 && AllDigits(digits)
    requires rest == [] || !IsAsciiDigit(rest[0])
    requires |ext| == 4 && Lower(ext) == ".csv"
    ensures ParseFileMetadata(name + RUN_MARKER + digits + rest + ext)
      == Some(Metadata(PrettyModelName(Before(name, NO_MARKER)), DigitsValue(digits)))
  {
    var stem := name + RUN_MARKER + digits + rest;
    StemOfComposed(stem, ext);
    NotCatalogWithUnderscore(stem, |name|);
    FirstMarkerOfComposed(name, digits, rest);
    DigitRunOfPrefix(stem, |name| + 5, digits, rest);
    assert ModelPart(stem) == Before(name, NO_MARKER);
  }

  /** A stem containing an underscore is never the catalogue. */
  lemma NotCatalogWithUnderscore(stem: string, k: nat)
    requires k < |stem| && stem[k] == '_'
    ensures !IsCatalog(stem)
  {
    assert Lower(stem)[k] == '_';
    assert '_' !in "questions";
  }

  /** A slash-free name ending in `.csv` (any case) has the name minus the extension as its stem. */
  lemma StemOfComposed(stem: string, ext: string)
    requires '/' !in stem
    requires |ext| == 4 && Lower(ext) == ".csv"
    ensures Stem(stem + ext) == stem
  {
    var path := stem + ext;
    assert '/' !in path;
    assert Basename(path) == path;
    var low := Lower(path);
    forall i | 0 <= i < 4 ensures low[|path| - 4..][i] == ".csv"[i] {
      assert low[|path| - 4 + i] == LowerChar(ext[i]) == Lower(ext)[i];
    }
    assert EndsWith(low, ".csv");
    assert path[..|path| - 4] == stem;
  }

  /** In `<name>_Run_<digits><rest>` the first `_Run_` and the first run marker both sit right after `<name>`. */
  lemma FirstMarkerOfComposed(name: string, digits: string, rest: string)
    requires forall j :: 0 <= j < |name| ==> !OccursAt(name + RUN_MARKER, RUN_MARKER, j)
    requires |digits| > 0
    requires AllDigits(digits)
    ensures var stem := name + RUN_MARKER + digits + rest;
      FindRunMarker(stem, 0) == Some(|name|) && Before(stem, RUN_MARKER) == name
      && stem[|name| + 5..] == digits + rest
  {
    var stem := name + RUN_MARKER + digits + rest;
    var k := |name|;
    assert stem[k..k + 5] == RUN_MARKER;
    assert stem[k + 5] == digits[0];
    assert RunMarkerAt(stem, k);
    var head := name + RUN_MARKER;
    assert stem == head + (digits + rest);
    forall j | 0 <= j < k ensures !OccursAt(stem, RUN_MARKER, j) {
      assert !OccursAt(head, RUN_MARKER, j);
      assert stem[j..j + 5] == head[j..j + 5];
    }
    assert FindRunMarker(stem, 0) == Some(k);
    assert Before(stem, RUN_MARKER) == name;
    assert stem[k + 5..] == digits + rest;
  }

  /** The greedy digit group at `j` is exactly `digits` when `rest` does not start with a digit. */
  lemma {:induction false} DigitRunOfPrefix(s: string, j: nat, digits: string, rest: string)
    requires j <= |s| && s[j..] == digits + rest
    requires AllDigits(digits)
    requires rest == [] || !IsAsciiDigit(rest[0])
    ensures DigitRun(s, j) == digits
    decreases |digits|
  {
    if digits == [] {
      assert rest == [] ==> j == |s|;
      assert rest != [] ==> s[j] == rest[0];
    } else {
      assert s[j] == digits[0];
      assert s[j + 1..] == digits[1..] + rest;
      DigitRunOfPrefix(s, j + 1, digits[1..], rest);
    }
  }

  /**
   * Words joined by single underscores, with no whitespace, no underscore at
   * either end, and no underscore just inside a bracket.
   */
  predicate IsUnderscoreJoined(raw: string) {
    && (|raw| > 0 ==> raw[0] != '_' && raw[|raw| - 1] != '_')
    && (forall i :: 0 <= i < |raw| ==> !IsSpace(raw[i]))
    && (forall i :: 0 < i < |raw| ==> !PairAt(raw, i, '_', '_') && !PairAt(raw, i, '(', '_') && !PairAt(raw, i, '_', ')'))
  }

  /** For an underscore-joined name, pretty-printing only turns the underscores into spaces. */
  lemma PrettyOfUnderscoreJoined(raw: string)
    requires IsUnderscoreJoined(raw)
    ensures PrettyModelName(raw) == ReplaceChar(raw, '_', ' ')
  {
    var spaced := ReplaceChar(raw, '_', ' ');
    SpacedIsTidy(raw);
    NoOccurrenceByPair(spaced, "( ");
    ReplaceAbsent(spaced, "( ", "(");
    NoOccurrenceByPair(spaced, " )");
    ReplaceAbsent(spaced, " )", ")");
    CollapseTidy(spaced);
    StripTidy(spaced);
  }

  /** Turning the underscores of an underscore-joined name into spaces gives single, inner, bracket-free spaces. */
  lemma SpacedIsTidy(raw: string)
    requires IsUnderscoreJoined(raw)
    ensures var spaced := ReplaceChar(raw, '_', ' ');
      && OnlyPlainSpaces(spaced) && NoDoubleSpace(spaced)
      && (|spaced| > 0 ==> !IsSpace(spaced[0]) && !IsSpace(spaced[|spaced| - 1]))
      && (forall i :: 0 < i < |spaced| ==> !PairAt(spaced, i, '(', ' ') && !PairAt(spaced, i, ' ', ')'))
  {
    var spaced := ReplaceChar(raw, '_', ' ');
    forall i | 0 <= i < |spaced| ensures IsSpace(spaced[i]) <==> raw[i] == '_' {
    }
    forall i | 0 < i < |spaced|
      ensures !DoubleSpaceAt(spaced, i) && !PairAt(spaced, i, '(', ' ') && !PairAt(spaced, i, ' ', ')')
    {
      assert !PairAt(raw, i, '_', '_') && !PairAt(raw, i, '(', '_') && !PairAt(raw, i, '_', ')');
    }
  }

  /** A one-digit string is worth its digit. */
  lemma SingleDigitValue(d: string)
    requires |d| == 1 && IsAsciiDigit(d[0])
    ensures DigitsValue(d) == d[0] as int - '0' as int
  {
    assert d[..0] == [];
  }

  /** When no `_` in `name` is followed by `R`, the first `_Run_` of `name + "_Run_"` is the appended one. */
  lemma NoMarkerInsideName(name: string)
    requires forall i :: 0 < i < |name| ==> !PairAt(name, i, '_', 'R')
    ensures forall j :: 0 <= j < |name| ==> !OccursAt(name + RUN_MARKER, RUN_MARKER, j)
  {
    var head := name + RUN_MARKER;
    forall j | 0 <= j < |name| ensures !OccursAt(head, RUN_MARKER, j) {
      assert head[j..j + 5][0] == head[j] && head[j..j + 5][1] == head[j + 1];
      if j + 1 < |name| {
        assert !PairAt(name, j + 1, '_', 'R');
        assert head[j] == name[j] && head[j + 1] == name[j + 1];
      } else {
        assert head[j + 1] == '_';
      }
    }
  }
}
