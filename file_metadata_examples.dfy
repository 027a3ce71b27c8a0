/** Worked examples of the filename parser, including the ones in its documentation. */
module FileMetadataExamples {
  import opened Wrappers
  import opened Strings
  import opened FileMetadata

  /** The first example in the documentation of `_parse_file_metadata`: a truncated `(No_M` marker after the run number. */
  lemma InstantExample()
    ensures ParseFileMetadata("ChatGPT_Instant_5.2" + "_Run_" + "1" + "_(No_M" + ".csv") == Some(Metadata("ChatGPT Instant 5.2", 1))
  {
    InstantName();
    assert RUN_MARKER == "_Run_";
    SingleDigitValue("1");
    ComposedExample("ChatGPT_Instant_5.2", "1", "_(No_M", "ChatGPT Instant 5.2");
  }

  /** `ChatGPT_Instant_5.2` meets the conditions of `ComposedExample`. */
  lemma InstantName()
    ensures var name := "ChatGPT_Instant_5.2";
      && IsUnderscoreJoined(name) && '/' !in name
      && (forall i :: 1 < i < |name| ==> !TripleAt(name, i, '_', '(', 'N'))
      && (forall i :: 0 < i < |name| ==> !PairAt(name, i, '_', 'R'))
      && ReplaceChar(name, '_', ' ') == "ChatGPT Instant 5.2"
  {
    InstantNameMarkers();
    InstantNameSpaced();
    InstantNameUnspaced();
  }

  /** `ChatGPT_Instant_5.2` holds no whitespace. */
  lemma InstantNameUnspaced()
    ensures var name := "ChatGPT_Instant_5.2";
      forall i :: 0 <= i < |name| ==> !IsSpace(name[i])
  {
  }

  /** `ChatGPT_Instant_5.2` with its underscores turned into spaces. */
  lemma InstantNameSpaced()
    ensures ReplaceChar("ChatGPT_Instant_5.2", '_', ' ') == "ChatGPT Instant 5.2"
  {
  }

  /** `ChatGPT_Instant_5.2` holds no `_(N` and no `_R`. */
  lemma InstantNameMarkers()
    ensures var name := "ChatGPT_Instant_5.2";
      && (forall i :: 1 < i < |name| ==> !TripleAt(name, i, '_', '(', 'N'))
      && (forall i :: 0 < i < |name| ==> !PairAt(name, i, '_', 'R'))
  {
  }

  /** The second documented example: brackets in the model name survive. */
  lemma DeepThinkExample()
    ensures ParseFileMetadata("DeepSeek_(DeepThink)" + "_Run_" + "3" + "" + ".csv") == Some(Metadata("DeepSeek (DeepThink)", 3))
  {
    DeepThinkName();
    assert RUN_MARKER == "_Run_";
    SingleDigitValue("3");
    ComposedExample("DeepSeek_(DeepThink)", "3", "", "DeepSeek (DeepThink)");
  }

  /** `DeepSeek_(DeepThink)` meets the conditions of `ComposedExample`. */
  lemma DeepThinkName()
    ensures var name := "DeepSeek_(DeepThink)";
      && IsUnderscoreJoined(name) && '/' !in name
      && (forall i :: 1 < i < |name| ==> !TripleAt(name, i, '_', '(', 'N'))
      && (forall i :: 0 < i < |name| ==> !PairAt(name, i, '_', 'R'))
      && ReplaceChar(name, '_', ' ') == "DeepSeek (DeepThink)"
  {
    DeepThinkNameMarkers();
    DeepThinkNameSpaced();
    DeepThinkNameUnspaced();
  }

  /** `DeepSeek_(DeepThink)` holds no whitespace. */
  lemma DeepThinkNameUnspaced()
    ensures var name := "DeepSeek_(DeepThink)";
      forall i :: 0 <= i < |name| ==> !IsSpace(name[i])
  {
  }

  /** `DeepSeek_(DeepThink)` with its underscores turned into spaces. */
  lemma DeepThinkNameSpaced()
    ensures ReplaceChar("DeepSeek_(DeepThink)", '_', ' ') == "DeepSeek (DeepThink)"
  {
  }

  /** `DeepSeek_(DeepThink)` holds no `_(N` and no `_R`. */
  lemma DeepThinkNameMarkers()
    ensures var name := "DeepSeek_(DeepThink)";
      && (forall i :: 1 < i < |name| ==> !TripleAt(name, i, '_', '(', 'N'))
      && (forall i :: 0 < i < |name| ==> !PairAt(name, i, '_', 'R'))
  {
  }

  /** The third documented example: a `(No_Memory)` marker after the run number. */
  lemma GrokExample()
    ensures ParseFileMetadata("Grok" + "_Run_" + "2" + "_(No_Memory)" + ".csv") == Some(Metadata("Grok", 2))
  {
    GrokName();
    assert RUN_MARKER == "_Run_";
    SingleDigitValue("2");
    ComposedExample("Grok", "2", "_(No_Memory)", "Grok");
  }

  /** `Grok` meets the conditions of `ComposedExample`. */
  lemma GrokName()
    ensures var name := "Grok";
      && IsUnderscoreJoined(name) && '/' !in name
      && (forall i :: 1 < i < |name| ==> !TripleAt(name, i, '_', '(', 'N'))
      && (forall i :: 0 < i < |name| ==> !PairAt(name, i, '_', 'R'))
      && ReplaceChar(name, '_', ' ') == "Grok"
  {
  }

  /** The question catalogue is not a run file, whatever the case of its name. */
  lemma CatalogExample()
    ensures ParseFileMetadata("Questions" + ".csv") == None
  {
    LowerCsv();
    assert Lower("Questions") == "questions";
    CatalogIsNotARun("Questions", ".csv");
  }

  /** A slash-free stem that lower-cases to `questions`, followed by `.csv` in any case, is not a run file. */
  lemma CatalogIsNotARun(stem: string, ext: string)
    requires '/' !in stem && |ext| == 4 && Lower(ext) == ".csv"
    requires Lower(stem) == "questions"
    ensures ParseFileMetadata(stem + ext) == None
  {
    StemOfComposed(stem, ext);
  }

  /**
   * The model part is cut at the first `_Run_` while the run number is read
   * after the first `_Run_` that a digit follows, so the two can come from
   * different markers.
   */
  lemma FirstMarkerWithoutDigitExample()
    ensures ParseFileMetadata("A" + "_Run_" + "x" + "_Run_" + "3" + ".csv") == Some(Metadata("A", 3))
  {
    assert RUN_MARKER == "_Run_";
    SingleDigitValue("3");
    SkippedMarker("A", "x", "3");
  }

  /** A slash-free stem followed by `.csv` parses as the stem alone. */
  lemma CsvFileParsesAsStem(stem: string)
    requires '/' !in stem
    ensures ParseFileMetadata(stem + ".csv") == ParseStem(stem)
  {
    LowerCsv();
    StemOfComposed(stem, ".csv");
  }

  /**
   * `<name>_Run_<x>_Run_<digit>.csv`, for a name with no underscore, slash or
   * whitespace and an `<x>` that is not a digit, parses to model `<name>` and
   * run `<digit>`: the name comes from the first `_Run_`, the number from the
   * second.
   */
  lemma {:induction false} SkippedMarker(name: string, x: string, digit: string)
    requires '_' !in name && '/' !in name && forall i :: 0 <= i < |name| ==> !IsSpace(name[i])
    requires |x| == 1 && x[0] != '/' && !IsAsciiDigit(x[0])
    requires |digit| == 1 && IsAsciiDigit(digit[0])
    ensures ParseFileMetadata(name + RUN_MARKER + x + RUN_MARKER + digit + ".csv") == Some(Metadata(name, DigitsValue(digit)))
  {
    var stem := name + RUN_MARKER + x + RUN_MARKER + digit;
    assert x == [x[0]] && digit == [digit[0]];
    SkippedMarkerIn(stem, name, x[0], digit[0]);
  }

  /** `SkippedMarker`, with the stem given by name. */
  lemma SkippedMarkerIn(stem: string, name: string, x: char, d: char)
    requires stem == name + RUN_MARKER + [x] + RUN_MARKER + [d]
    requires '_' !in name && '/' !in name && forall i :: 0 <= i < |name| ==> !IsSpace(name[i])
    requires x != '/' && !IsAsciiDigit(x) && IsAsciiDigit(d)
    ensures ParseFileMetadata(stem + ".csv") == Some(Metadata(name, DigitsValue([d])))
  {
    SkippedStemParses(stem, name, x, d);
    SkippedStemHasNoSlash(stem, name, x, d);
    CsvFileParsesAsStem(stem);
  }

  /** `<name>_Run_<x>_Run_<d>` has no slash when `<name>` and `<x>` have none. */
  lemma SkippedStemHasNoSlash(stem: string, name: string, x: char, d: char)
    requires stem == name + RUN_MARKER + [x] + RUN_MARKER + [d]
    requires '/' !in name && x != '/' && IsAsciiDigit(d)
    ensures '/' !in stem
  {
    forall i | 0 <= i < |stem| ensures stem[i] != '/' {
      if i < |name| {
        assert stem[i] == name[i];
      }
    }
  }

  /** The stem `<name>_Run_<x>_Run_<d>` parses to model `<name>` and run `<d>`. */
  lemma SkippedStemParses(stem: string, name: string, x: char, d: char)
    requires stem == name + RUN_MARKER + [x] + RUN_MARKER + [d]
    requires '_' !in name && forall i :: 0 <= i < |name| ==> !IsSpace(name[i])
    requires !IsAsciiDigit(x) && IsAsciiDigit(d)
    ensures ParseStem(stem) == Some(Metadata(name, DigitsValue([d])))
  {
    var k := |name| + 6;
    SkippedModelPart(stem, name, x, d);
    PlainNameIsPretty(name);
    assert DigitRun(stem, k + 5) == [d] by {
      assert stem[k + 5..] == [d] + [];
      DigitRunOfPrefix(stem, k + 5, [d], []);
    }
    NotCatalogWithUnderscore(stem, |name|);
    SecondMarkerIsFirstRunMarker(name, x, d);
    ParseStemIs(stem, k, name, DigitsValue([d]));
  }

  /** The model part of `<name>_Run_<x>_Run_<d>` is `<name>`. */
  lemma SkippedModelPart(stem: string, name: string, x: char, d: char)
    requires stem == name + RUN_MARKER + [x] + RUN_MARKER + [d]
    requires '_' !in name && !IsAsciiDigit(x) && IsAsciiDigit(d)
    ensures ModelPart(stem) == name
  {
    SecondMarkerIsFirstRunMarker(name, x, d);
    BeforeLeftmost(stem, RUN_MARKER, |name|);
    assert stem[..|name|] == name;
    BeforeAbsent(name, NO_MARKER);
  }

  /** A name with no underscore and no whitespace is its own display form. */
  lemma PlainNameIsPretty(name: string)
    requires '_' !in name && forall i :: 0 <= i < |name| ==> !IsSpace(name[i])
    ensures PrettyModelName(name) == name
  {
    PrettyOfUnderscoreJoined(name);
    assert ReplaceChar(name, '_', ' ') == name;
  }

  /**
   * In `<name>_Run_<x>_Run_<d>` the leftmost `_Run_` that a digit follows is the
   * second one, and no `_Run_` starts inside `<name>`.
   */
  lemma SecondMarkerIsFirstRunMarker(name: string, x: char, d: char)
    requires '_' !in name && !IsAsciiDigit(x) && IsAsciiDigit(d)
    ensures var stem := name + RUN_MARKER + [x] + RUN_MARKER + [d];
      && OccursAt(stem, RUN_MARKER, |name|)
      && (forall j :: 0 <= j < |name| ==> !OccursAt(stem, RUN_MARKER, j))
      && RunMarkerAt(stem, |name| + 6)
      && (forall j :: 0 <= j < |name| + 6 ==> !RunMarkerAt(stem, j))
  {
    var stem := name + RUN_MARKER + [x] + RUN_MARKER + [d];
    var n := |name|;
    assert stem[n..n + 5] == RUN_MARKER;
    assert stem[n + 6..n + 11] == RUN_MARKER && stem[n + 11] == d;
    forall j | 0 <= j < n ensures !OccursAt(stem, RUN_MARKER, j) {
      assert stem[j] == name[j];
      if j + 5 <= |stem| {
        assert stem[j..j + 5][0] == stem[j];
      }
    }
    forall j | n <= j < n + 6 ensures !RunMarkerAt(stem, j) {
      if j == n {
        assert stem[n + 5] == x;
      } else {
        assert stem[n + 1] == 'R' && stem[n + 2] == 'u' && stem[n + 3] == 'n' && stem[n + 4] == '_';
        assert stem[n + 5] == x && stem[n + 6] == '_' && stem[n + 7] == 'R';
        var w := stem[j..j + 5];
        assert w[0] == stem[j] && w[1] == stem[j + 1] && w[2] == stem[j + 2];
        assert w[0] != '_' || w[1] != 'R' || w[2] != 'u';
      }
    }
  }

  /**
   * `ParseComposedName` for an underscore-joined name with no `_(N` and no
   * `_R` in it, a one-digit run number and `.csv`: the display name is the
   * name with its underscores turned into spaces.
   */
  lemma {:induction false} ComposedExample(name: string, digit: string, rest: string, pretty: string)
    requires IsUnderscoreJoined(name) && '/' !in name && '/' !in rest
    requires forall i :: 1 < i < |name| ==> !TripleAt(name, i, '_', '(', 'N')
    requires forall i :: 0 < i < |name| ==> !PairAt(name, i, '_', 'R')
    requires |digit| == 1 && IsAsciiDigit(digit[0])
    requires rest == [] || !IsAsciiDigit(rest[0])
    requires ReplaceChar(name, '_', ' ') == pretty
    ensures ParseFileMetadata(name + RUN_MARKER + digit + rest + ".csv")
      == Some(Metadata(pretty, DigitsValue(digit)))
  {
    UnderscoreJoinedDisplay(name, pretty);
    ComposedCsvName(name, digit, rest);
  }

  /** An underscore-joined name with no `_(N` keeps all of itself as the model part, and displays with spaces. */
  lemma UnderscoreJoinedDisplay(name: string, pretty: string)
    requires IsUnderscoreJoined(name)
    requires forall i :: 1 < i < |name| ==> !TripleAt(name, i, '_', '(', 'N')
    requires ReplaceChar(name, '_', ' ') == pretty
    ensures PrettyModelName(Before(name, NO_MARKER)) == pretty
  {
    NoOccurrenceByTriple(name, NO_MARKER);
    PrettyOfUnderscoreJoined(name);
  }

  /** `ParseComposedName` with the `.csv` extension, for a name with no `_R` in it. */
  lemma ComposedCsvName(name: string, digit: string, rest: string)
    requires '/' !in name && '/' !in rest
    requires forall i :: 0 < i < |name| ==> !PairAt(name, i, '_', 'R')
    requires |digit| == 1 && IsAsciiDigit(digit[0])
    requires rest == [] || !IsAsciiDigit(rest[0])
    ensures ParseFileMetadata(name + RUN_MARKER + digit + rest + ".csv")
      == Some(Metadata(PrettyModelName(Before(name, NO_MARKER)), DigitsValue(digit)))
  {
    ComposedCsvNameMeetsRequires(name, digit);
    ParseComposedName(name, digit, rest, ".csv");
  }

  /** The conditions of `ParseComposedName` that `ComposedCsvName` does not take as given. */
  lemma ComposedCsvNameMeetsRequires(name: string, digit: string)
    requires forall i :: 0 < i < |name| ==> !PairAt(name, i, '_', 'R')
    requires |digit| == 1 && IsAsciiDigit(digit[0])
    ensures forall j :: 0 <= j < |name| ==> !OccursAt(name + RUN_MARKER, RUN_MARKER, j)
    ensures AllDigits(digit)
    ensures |".csv"| == 4 && Lower(".csv") == ".csv"
  {
    NoMarkerInsideName(name);
    LowerCsv();
  }

  /** The extension `.csv` is already in lower case. */
  lemma LowerCsv()
    ensures Lower(".csv") == ".csv"
  {
    assert Lower(".csv")[1] == LowerChar('c');
  }

  // ---------------------------------------------------------------------------
  // Spaces next to brackets: one pass of each replacement, then the collapse
  // ---------------------------------------------------------------------------

  /** A space inside each bracket is removed: `A_(_B_)` is displayed as `A (B)`. */
  lemma BracketSpacesExample()
    ensures PrettyModelName("A_(_B_)") == "A (B)"
  {
    BracketsSpaced();
    OpenBracketTidied();
    CloseBracketTidied();
    IsTidy("A (B)");
    DisplayedInSteps("A_(_B_)", "A ( B )", "A (B )", "A (B)");
  }

  /**
   * Two underscores after `(` become two spaces, of which the single
   * `"( "` replacement removes only the first: `A_(__B)` is displayed as
   * `A ( B)`, since the collapse of whitespace runs comes after it.
   */
  lemma DoubleSpaceAfterBracketExample()
    ensures PrettyModelName("A_(__B)") == "A ( B)"
  {
    BracketsSpaced();
    OpenBracketTidiedOnce();
    CloseBracketAbsent();
    IsTidy("A ( B)");
    DisplayedInSteps("A_(__B)", "A (  B)", "A ( B)", "A ( B)");
  }

  /** The underscore-to-space step on the two bracket examples. */
  lemma BracketsSpaced()
    ensures ReplaceChar("A_(_B_)", '_', ' ') == "A ( B )"
    ensures ReplaceChar("A_(__B)", '_', ' ') == "A (  B)"
  {
  }

  /** `"( "` occurs first right after `A `, and not at all in `B )`. */
  lemma OpenBracketTidied()
    ensures Replace("A ( B )", "( ", "(") == "A (B )"
  {
    NotAtByPair("A ( ", "( ", 0);
    NotAtByPair("A ( ", "( ", 1);
    assert !PairAt("B )", 1, '(', ' ') && !PairAt("B )", 2, '(', ' ');
    NoOccurrenceByPair("B )", "( ");
    ReplaceOnce("A ( B )", "A ", "( ", "B )", "(");
  }

  /** `" )"` occurs first at the end of `A (B )`. */
  lemma CloseBracketTidied()
    ensures Replace("A (B )", " )", ")") == "A (B)"
  {
    NotAtByPair("A (B )", " )", 0);
    NotAtByPair("A (B )", " )", 1);
    NotAtByPair("A (B )", " )", 2);
    NotAtByPair("A (B )", " )", 3);
    ReplaceOnce("A (B )", "A (B", " )", "", ")");
  }

  /** `"( "` occurs first right after `A `, and not in the ` B)` that follows it. */
  lemma OpenBracketTidiedOnce()
    ensures Replace("A (  B)", "( ", "(") == "A ( B)"
  {
    NotAtByPair("A ( ", "( ", 0);
    NotAtByPair("A ( ", "( ", 1);
    assert !PairAt(" B)", 1, '(', ' ') && !PairAt(" B)", 2, '(', ' ');
    NoOccurrenceByPair(" B)", "( ");
    ReplaceOnce("A (  B)", "A ", "( ", " B)", "(");
  }

  /** `" )"` does not occur in `A ( B)`. */
  lemma CloseBracketAbsent()
    ensures Replace("A ( B)", " )", ")") == "A ( B)"
  {
    var s := "A ( B)";
    forall i | 0 < i < |s| ensures !PairAt(s, i, ' ', ')') {
    }
    NoOccurrenceByPair(s, " )");
    ReplaceAbsent(s, " )", ")");
  }

  /** The two bracket examples' displays have single plain spaces only, and none at either end. */
  lemma IsTidy(s: string)
    requires s == "A (B)" || s == "A ( B)"
    ensures OnlyPlainSpaces(s) && NoDoubleSpace(s)
    ensures !IsSpace(s[0]) && !IsSpace(s[|s| - 1])
  {
    forall i | 0 < i < |s| ensures !DoubleSpaceAt(s, i) {
      assert s[i - 1] != ' ' || s[i] != ' ';
    }
  }

  /** The display name of `raw`, given the result of each replacement in turn, when the last one is already tidy. */
  lemma DisplayedInSteps(raw: string, spaced: string, afterOpen: string, afterClose: string)
    requires ReplaceChar(raw, '_', ' ') == spaced
    requires Replace(spaced, "( ", "(") == afterOpen
    requires Replace(afterOpen, " )", ")") == afterClose
    requires OnlyPlainSpaces(afterClose) && NoDoubleSpace(afterClose)
    requires |afterClose| > 0 ==> !IsSpace(afterClose[0]) && !IsSpace(afterClose[|afterClose| - 1])
    ensures PrettyModelName(raw) == afterClose
  {
    TidyIsDisplayed(afterClose);
  }

  /** Text with single plain spaces only and none at either end is displayed as it is. */
  lemma TidyIsDisplayed(s: string)
    requires OnlyPlainSpaces(s) && NoDoubleSpace(s)
    requires |s| > 0 ==> !IsSpace(s[0]) && !IsSpace(s[|s| - 1])
    ensures Strip(Collapse(s)) == s
  {
    CollapseTidy(s);
    StripTidy(s);
  }
}
