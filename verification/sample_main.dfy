/**
 The entry point of the sample text-statistics application: `process_data` and the
 exit codes of `main`. The file system and the console are parameters: whether a
 path exists, what reading it gives (nothing when `open` or `read` raises), and the
 report `main` prints on success.
 */
module SampleApp {
  import opened Optional
  import opened PyStrings
  import TextStats

  // ---------------------------------------------------------------------------
  // process_data

  /** The lines `process_data` counts: the stripped text split at newlines. */
  function Lines(data: string): seq<string> {
    SplitOn(Strip(data), '\n')
  }

  /** `process_data`: the result dictionary, its keys in insertion order. */
  function ProcessData(data: string): (result: seq<(string, int)>)
    ensures |result| == 3
    ensures result[0].0 == "line_count" && result[1].0 == "word_count" && result[2].0 == "char_count"
  {
    var lines := Lines(data);
    [("line_count", |lines|), ("word_count", WordCountSum(lines)), ("char_count", |data|)]
  }

  /**
   The counts of `process_data`: one line more than the newlines between the first
   and last non-blank characters (so at least one), every whitespace-separated word
   of the text, and the length of the raw text.
   */
  lemma ProcessDataCounts(data: string)
    ensures var r := ProcessData(data);
      && r[0].1 >= 1 && r[0].1 == 1 + Count(Strip(data), '\n')
      && r[1].1 == |Words(data)|
      && r[2].1 == |data|
  {
    var lines := Lines(data);
    WordCountSumIsWords(lines);
    WordsJoin(lines, '\n');
    JoinSplitOn(Strip(data), '\n');
    WordsStrip(data);
  }

  /** Blank text around the data changes neither the line count nor the word count. */
  lemma ProcessDataIgnoresPadding(a: string, data: string, b: string)
    requires AllSpace(a) && AllSpace(b)
    ensures ProcessData(a + data + b)[0] == ProcessData(data)[0]
    ensures ProcessData(a + data + b)[1] == ProcessData(data)[1]
    ensures ProcessData(a + data + b)[2].1 == |a| + |data| + |b|
  {
    StripPadding(a, data, b);
  }

  /**
   The sample app and the statistics helper count alike: `process_data`'s
   per-line word sum equals the word count of `calculate_statistics`, and so do
   the line and character counts.
   */
  lemma ProcessDataAgreesWithStatistics(data: string)
    ensures var r, s := ProcessData(data), TextStats.CalculateStatistics(data);
      r[0].1 == s.lineCount && r[1].1 == s.wordCount && r[2].1 == s.charCount
  {
    ProcessDataCounts(data);
  }

  // ---------------------------------------------------------------------------
  // main

  /** What a run of `main` ends with: its exit code, and the report it printed on success. */
  datatype Run = Run(exitCode: int, report: Option<string>)

  /**
   `main` with `argv` as `sys.argv` (the program name first). It fails with 1 when
   the input path is missing, does not exist, cannot be read or holds blank text;
   otherwise it prints the formatted counts and returns 0.
   */
  function Main(argv: seq<string>, fileExists: string -> bool, readFile: string -> Option<string>): (r: Run)
    ensures r.exitCode == 0 || r.exitCode == 1
    ensures r.report.Some? <==> r.exitCode == 0
    ensures r.exitCode == 0 <==>
      |argv| >= 2 && fileExists(argv[1]) && readFile(argv[1]).Some? && !AllSpace(readFile(argv[1]).value)
    ensures r.exitCode == 0 ==> r.report == Some(TextStats.FormatOutput(ProcessData(readFile(argv[1]).value)))
  {
    if |argv| < 2 then Run(1, None)
    else
      var inputFile := argv[1];
      if !fileExists(inputFile) then Run(1, None)
      else match readFile(inputFile)
        case None => Run(1, None)
        case Some(data) =>
          if !TextStats.ValidateInput(Some(data)) then Run(1, None)
          else Run(0, Some(TextStats.FormatOutput(ProcessData(data))))
  }

  /** A missing argument or a missing file fails before anything is read. */
  lemma MainRejectsMissingInput(argv: seq<string>, fileExists: string -> bool, readFile: string -> Option<string>)
    requires |argv| < 2 || !fileExists(argv[1])
    ensures Main(argv, fileExists, readFile) == Run(1, None)
  {
  }

  /**
   On success the report reads, line by line: the title, the rule, one line per
   entry of `process_data` on the file's text (line, word and character counts, in
   that order), and the rule again.
   */
  lemma MainReport(argv: seq<string>, fileExists: string -> bool, readFile: string -> Option<string>)
    ensures Main(argv, fileExists, readFile).exitCode == 0 ==>
      var r := ProcessData(readFile(argv[1]).value);
      var ls := SplitOn(Main(argv, fileExists, readFile).report.value, '\n');
      && |ls| == 6
      && ls[0] == TextStats.Title() && ls[1] == TextStats.Rule() && ls[5] == TextStats.Rule()
      && forall i :: 0 <= i < 3 ==> ls[i + 2] == TextStats.EntryText(r[i].0, r[i].1)
  {
    if Main(argv, fileExists, readFile).exitCode == 0 {
      var result := ProcessData(readFile(argv[1]).value);
      KeysOneLine(result);
      TextStats.FormatOutputLines(result);
    }
  }

  lemma KeysOneLine(result: seq<(string, int)>)
    requires |result| == 3
    requires result[0].0 == "line_count" && result[1].0 == "word_count" && result[2].0 == "char_count"
    ensures forall i :: 0 <= i < |result| ==> '\n' !in result[i].0
  {
    assert '\n' !in "line_count" && '\n' !in "word_count" && '\n' !in "char_count";
  }
}
