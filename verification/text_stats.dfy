/**
 The helpers of the sample text-statistics application: input validation, the
 report layout with its Title Case keys, and the integer statistics of a text.
 */
module TextStats {
  import opened Optional
  import opened PyStrings

  // ---------------------------------------------------------------------------
  // validate_input

  /**
   `validate_input`: `None`, the empty string and whitespace-only text are rejected.
   The check that the stripped text splits into at least one line never rejects.
   */
  function ValidateInput(data: Option<string>): (ok: bool)
    ensures ok <==> data.Some? && !AllSpace(data.value)
  {
    if data.None? || data.value == [] || Strip(data.value) == [] then false
    else
      var lines := SplitOn(Strip(data.value), '\n');
      if |lines| < 1 then false else true
  }

  // ---------------------------------------------------------------------------
  // Display keys

  /** Capitalises every word of a list. */
  function CapitalizeAll(ws: seq<string>): (r: seq<string>)
    ensures |r| == |ws| && forall i :: 0 <= i < |ws| ==> r[i] == Capitalize(ws[i])
  {
    seq(|ws|, i requires 0 <= i < |ws| => Capitalize(ws[i]))
  }

  /** `' '.join(word.capitalize() for word in key.split('_'))` */
  function DisplayKey(key: string): string {
    Join(CapitalizeAll(SplitOn(key, '_')), " ")
  }

  /**
   Title Case, character by character: an underscore becomes a space, a character
   at the start or just after an underscore is upper-cased, every other one is
   lower-cased.
   */
  function TitleChar(key: string, i: nat): char
    requires i < |key|
  {
    if key[i] == '_' then ' '
    else if i == 0 || key[i - 1] == '_' then UpperChar(key[i])
    else LowerChar(key[i])
  }

  function TitleCase(key: string): (r: string)
    ensures |r| == |key| && forall i :: 0 <= i < |key| ==> r[i] == TitleChar(key, i)
  {
    seq(|key|, i requires 0 <= i < |key| => TitleChar(key, i))
  }

  lemma TitleCaseWord(a: string)
    requires '_' !in a
    ensures TitleCase(a) == Capitalize(a)
  {
    if a != [] {
      var c := Capitalize(a);
      assert |c| == |a|;
      forall i | 0 <= i < |a| ensures TitleCase(a)[i] == c[i] {
        if i > 0 {
          assert c[i] == Lower(a[1..])[i - 1] == LowerChar(a[i]);
        }
      }
    }
  }

  lemma TitleCaseSplit(a: string, b: string)
    requires '_' !in a
    ensures TitleCase(a + "_" + b) == TitleCase(a) + " " + TitleCase(b)
  {
    var s := a + "_" + b;
    var l, r := TitleCase(s), TitleCase(a) + " " + TitleCase(b);
    assert |l| == |r|;
    forall i | 0 <= i < |s| ensures l[i] == r[i] {
      if i < |a| {
        assert s[i] == a[i];
        if i > 0 {
          assert s[i - 1] == a[i - 1];
        }
      } else if i > |a| {
        var j := i - |a| - 1;
        assert s[i] == b[j];
        if j > 0 {
          assert s[i - 1] == b[j - 1];
        }
      }
    }
  }

  /** Joining capitalised pieces with spaces is title-casing their join with underscores. */
  lemma {:induction false} JoinCapitalized(ps: seq<string>)
    requires |ps| >= 1
    requires forall i :: 0 <= i < |ps| ==> '_' !in ps[i]
    ensures Join(CapitalizeAll(ps), " ") == TitleCase(Join(ps, "_"))
    decreases |ps|
  {
    TitleCaseWord(ps[0]);
    if |ps| > 1 {
      JoinCapitalized(ps[1..]);
      assert CapitalizeAll(ps)[1..] == CapitalizeAll(ps[1..]);
      TitleCaseSplit(ps[0], Join(ps[1..], "_"));
    }
  }

  /**
   The display key is the key in Title Case: each underscore turned into a space,
   the first letter of every word upper-cased and the rest lower-cased.
   */
  lemma DisplayKeyIsTitleCase(key: string)
    ensures DisplayKey(key) == TitleCase(key)
  {
    JoinSplitOn(key, '_');
    JoinCapitalized(SplitOn(key, '_'));
  }

  /** A display key keeps the key's length, and has a line break exactly where the key has one. */
  lemma DisplayKeyLineBreaks(key: string)
    ensures |DisplayKey(key)| == |key|
    ensures forall i :: 0 <= i < |key| ==> (DisplayKey(key)[i] == '\n' <==> key[i] == '\n')
  {
    DisplayKeyIsTitleCase(key);
  }

  /**
   Title Case of two words joined by an underscore: both capitalised, joined by a
   space (`line_count` is shown as `Line Count`).
   */
  lemma DisplayKeyTwoWords(a: string, b: string)
    requires '_' !in a && '_' !in b
    ensures DisplayKey(a + "_" + b) == Capitalize(a) + " " + Capitalize(b)
  {
    DisplayKeyIsTitleCase(a + "_" + b);
    TitleCaseSplit(a, b);
    TitleCaseWord(a);
    TitleCaseWord(b);
  }

  // ---------------------------------------------------------------------------
  // format_output

  /** The rule above and below the entries: twenty `=`. */
  function Rule(): (r: string)
    ensures |r| == 20 && forall i :: 0 <= i < 20 ==> r[i] == '='
    ensures '\n' !in r
  {
    Repeat('=', 20)
  }

  /** The title line of the report. */
  function Title(): (r: string)
    ensures '\n' !in r
  {
    "Processing Results:"
  }

  /** The text of one entry's line, without its newline. */
  function EntryText(key: string, value: int): string {
    DisplayKey(key) + ": " + IntToString(value)
  }

  /** The entry lines in dictionary order, each ending in a newline, followed by the closing rule. */
  function Entries(result: seq<(string, int)>): string
    decreases |result|
  {
    if result == [] then Rule()
    else EntryText(result[0].0, result[0].1) + "\n" + Entries(result[1..])
  }

  /** `format_output`: the title line, a rule, one line per entry, and a rule with no newline after it. */
  function FormatOutput(result: seq<(string, int)>): string {
    Title() + "\n" + (Rule() + "\n" + Entries(result))
  }

  /** The report starts with its title and opening rule and ends with the closing rule. */
  lemma FormatOutputFrame(result: seq<(string, int)>)
    ensures var out := FormatOutput(result);
      && |out| >= 41
      && out[..41] == Title() + "\n" + Rule() + "\n"
      && out[|out| - 20..] == Rule()
  {
    EntriesEndWithRule(result);
    var out := FormatOutput(result);
    assert |Title()| == 19;
    assert out == (Title() + "\n" + Rule() + "\n") + Entries(result);
  }

  lemma {:induction false} EntriesEndWithRule(result: seq<(string, int)>)
    ensures |Entries(result)| >= 20 && Entries(result)[|Entries(result)| - 20..] == Rule()
    decreases |result|
  {
    if result != [] {
      EntriesEndWithRule(result[1..]);
      var head := EntryText(result[0].0, result[0].1) + "\n";
      assert Entries(result) == head + Entries(result[1..]);
    }
  }

  /** The text of an entry has no line break when its key has none. */
  lemma EntryTextOneLine(key: string, value: int)
    requires '\n' !in key
    ensures '\n' !in EntryText(key, value)
  {
    DisplayKeyLineBreaks(key);
    var t := EntryText(key, value);
    forall i | 0 <= i < |t| ensures t[i] != '\n' {
      if i < |key| {
        assert t[i] == DisplayKey(key)[i];
      } else if i >= |key| + 2 {
        assert t[i] == IntToString(value)[i - |key| - 2];
      }
    }
  }

  /** The lines of the entries, in dictionary order. */
  function EntryLines(result: seq<(string, int)>): (r: seq<string>)
    ensures |r| == |result| && forall i :: 0 <= i < |result| ==> r[i] == EntryText(result[i].0, result[i].1)
    decreases |result|
  {
    if result == [] then [] else [EntryText(result[0].0, result[0].1)] + EntryLines(result[1..])
  }

  lemma {:induction false} EntriesLines(result: seq<(string, int)>)
    requires forall i :: 0 <= i < |result| ==> '\n' !in result[i].0
    ensures SplitOn(Entries(result), '\n') == EntryLines(result) + [Rule()]
    decreases |result|
  {
    if result == [] {
      SplitOnNoSep(Rule(), '\n');
    } else {
      var head := EntryText(result[0].0, result[0].1);
      EntriesLines(result[1..]);
      EntryTextOneLine(result[0].0, result[0].1);
      LineThenLines(head, Entries(result[1..]), EntryLines(result[1..]) + [Rule()]);
    }
  }

  /** A line without a break, a newline, then text that splits into `lines`. */
  lemma LineThenLines(a: string, b: string, lines: seq<string>)
    requires '\n' !in a && SplitOn(b, '\n') == lines
    ensures SplitOn(a + "\n" + b, '\n') == [a] + lines
  {
    SplitOnCons(a, '\n', b);
  }

  /**
   Read line by line, the report is the title, the rule, exactly one `Key: value`
   line per entry in dictionary order, and the rule again.
   */
  lemma FormatOutputLines(result: seq<(string, int)>)
    requires forall i :: 0 <= i < |result| ==> '\n' !in result[i].0
    ensures var ls := SplitOn(FormatOutput(result), '\n');
      && |ls| == |result| + 3
      && ls[0] == Title() && ls[1] == Rule() && ls[|ls| - 1] == Rule()
      && forall i :: 0 <= i < |result| ==> ls[i + 2] == EntryText(result[i].0, result[i].1)
  {
    var body := Rule() + "\n" + Entries(result);
    var lines := EntryLines(result) + [Rule()];
    EntriesLines(result);
    SplitOnCons(Rule(), '\n', Entries(result));
    assert SplitOn(body, '\n') == [Rule()] + lines;
    SplitOnCons(Title(), '\n', body);
    assert SplitOn(FormatOutput(result), '\n') == [Title()] + ([Rule()] + lines);
  }

  // ---------------------------------------------------------------------------
  // calculate_statistics

  /**
   The integer parts of `calculate_statistics`: the counts, the total word length
   and the two divisors of the averages.
   */
  datatype Statistics = Statistics(
    lineCount: nat, wordCount: nat, charCount: nat, wordLengthSum: nat,
    lineDivisor: nat, wordDivisor: nat)

  function LengthSum(ws: seq<string>): nat
    decreases |ws|
  {
    if ws == [] then 0 else |ws[0]| + LengthSum(ws[1..])
  }

  /** Splitting the stripped text into lines and joining them with spaces keeps its words. */
  lemma LinesKeepWords(data: string)
    ensures Words(Join(SplitOn(Strip(data), '\n'), " ")) == Words(data)
  {
    var lines := SplitOn(Strip(data), '\n');
    WordsJoin(lines, ' ');
    WordsJoin(lines, '\n');
    JoinSplitOn(Strip(data), '\n');
    WordsStrip(data);
  }

  /**
   `calculate_statistics` without the float division: at least one line for every
   text (the empty text has one empty line), the words of the whole text, its raw
   length, and divisors that are never zero.
   */
  function CalculateStatistics(data: string): (s: Statistics)
    ensures s.lineCount >= 1 && s.lineCount == 1 + Count(Strip(data), '\n')
    ensures s.wordCount == |Words(data)|
    ensures s.charCount == |data|
    ensures s.wordLengthSum == LengthSum(Words(data))
    ensures s.lineDivisor >= 1 && s.lineDivisor == s.lineCount
    ensures s.wordDivisor >= 1 && (s.wordCount > 0 ==> s.wordDivisor == s.wordCount)
  {
    var lines := SplitOn(Strip(data), '\n');
    var words := Words(Join(lines, " "));
    LinesKeepWords(data);
    Statistics(|lines|, |words|, |data|, LengthSum(words),
               if |lines| > 1 then |lines| else 1,
               if |words| > 1 then |words| else 1)
  }
}
