/**
 Which walked files the ingestion keeps: the default ignore patterns, the patterns
 read from a `.lightragignore` file, and the filter that drops every path one of
 them matches.
 */
module IgnoreFile {
  import opened Optional
  import opened PyStrings
  import opened Glob
  import FileHelpers
  import Pathlib

  /** `DEFAULT_IGNORE_PATTERNS`, gitignore-like patterns matched with `fnmatch`. */
  const DefaultIgnorePatterns: seq<string> := [
    "**/.git/**",
    "**/.github/**",
    "**/__pycache__/**",
    "**/.venv/**",
    "**/node_modules/**",
    "**/.DS_Store",
    "**/*.pyc",
    "**/*.pyo",
    "**/*.pyd",
    "**/*.so",
    "**/*.dll",
    "**/*.exe",
    "**/*.bin"
  ]

  // ---------------------------------------------------------------------------
  // Reading the ignore file

  function Concat(ls: seq<string>): string
    decreases |ls|
  {
    if ls == [] then [] else ls[0] + Concat(ls[1..])
  }

  /** Length of the first line of `s`: up to and including the first newline, or all of `s`. */
  function FirstLineLength(s: string): (n: nat)
    ensures n <= |s| && (s != [] ==> n > 0)
    ensures forall k :: 0 <= k < n - 1 ==> s[k] != '\n'
    ensures n < |s| ==> s[n - 1] == '\n'
    decreases |s|
  {
    if s == [] then 0 else if s[0] == '\n' then 1 else 1 + FirstLineLength(s[1..])
  }

  /**
   The lines a text file yields when iterated: each ends with its newline, except
   possibly the last, and none is empty.
   */
  function FileLines(s: string): (lines: seq<string>)
    ensures Concat(lines) == s
    ensures forall i :: 0 <= i < |lines| ==> lines[i] != []
    ensures forall i, k :: 0 <= i < |lines| && 0 <= k < |lines[i]| - 1 ==> lines[i][k] != '\n'
    ensures forall i :: 0 <= i < |lines| - 1 ==> lines[i][|lines[i]| - 1] == '\n'
    decreases |s|
  {
    if s == [] then []
    else
      var n := FirstLineLength(s);
      var rest := FileLines(s[n..]);
      ConsLine(s, n, rest);
      [s[..n]] + rest
  }

  lemma ConcatCons(x: string, ls: seq<string>)
    ensures Concat([x] + ls) == x + Concat(ls)
  {
    assert ([x] + ls)[1..] == ls;
  }

  /** The first line of `s` in front of well-formed lines of the rest gives well-formed lines of `s`. */
  lemma ConsLine(s: string, n: nat, rest: seq<string>)
    requires s != [] && n == FirstLineLength(s) && Concat(rest) == s[n..]
    requires forall i :: 0 <= i < |rest| ==> rest[i] != []
    requires forall i, k :: 0 <= i < |rest| && 0 <= k < |rest[i]| - 1 ==> rest[i][k] != '\n'
    requires forall i :: 0 <= i < |rest| - 1 ==> rest[i][|rest[i]| - 1] == '\n'
    ensures var lines := [s[..n]] + rest;
      && Concat(lines) == s
      && (forall i :: 0 <= i < |lines| ==> lines[i] != [])
      && (forall i, k :: 0 <= i < |lines| && 0 <= k < |lines[i]| - 1 ==> lines[i][k] != '\n')
      && (forall i :: 0 <= i < |lines| - 1 ==> lines[i][|lines[i]| - 1] == '\n')
  {
    var first := s[..n];
    var lines := [first] + rest;
    ConcatCons(first, rest);
    assert first + s[n..] == s;
    if rest != [] {
      assert Concat(rest) == rest[0] + Concat(rest[1..]);
      assert n < |s|;
    }
    forall i | 0 < i < |lines| ensures lines[i] == rest[i - 1] {
    }
  }


  /** A line gives a pattern when it is not blank and its raw text does not start with `#`. */
  predicate GivesPattern(line: string) {
    Strip(line) != [] && !StartsWith(line, "#")
  }

  /** The list comprehension over the file's lines: stripped, blanks and comments dropped. */
  function ParseIgnoreLines(lines: seq<string>): (ps: seq<string>)
    ensures |ps| <= |lines|
    ensures forall p :: p in ps <==> exists i :: 0 <= i < |lines| && GivesPattern(lines[i]) && Strip(lines[i]) == p
    decreases |lines|
  {
    if lines == [] then []
    else
      var rest := ParseIgnoreLines(lines[1..]);
      assert forall i :: 1 <= i < |lines| ==> lines[i] == lines[1..][i - 1];
      if GivesPattern(lines[0]) then [Strip(lines[0])] + rest else rest
  }

  /** The parse keeps the order of the lines: parsing two halves and concatenating is parsing the whole. */
  lemma {:induction false} ParseIgnoreLinesAppend(a: seq<string>, b: seq<string>)
    ensures ParseIgnoreLines(a + b) == ParseIgnoreLines(a) + ParseIgnoreLines(b)
    decreases |a|
  {
    if a == [] {
      assert a + b == b;
    } else {
      assert (a + b)[1..] == a[1..] + b;
      ParseIgnoreLinesAppend(a[1..], b);
    }
  }

  /**
   Only the raw first character decides whether a line is a comment: an indented
   line gives its stripped text as a pattern even when that starts with `#`.
   */
  lemma IndentedLineIsAPattern(indent: string, p: string)
    requires indent != [] && AllSpace(indent)
    requires p != [] && !IsSpace(p[0]) && !IsSpace(p[|p| - 1])
    ensures ParseIgnoreLines([indent + p + "\n"]) == [p]
  {
    var line := indent + p + "\n";
    IndentedLineGivesPattern(indent, p);
    assert [line][1..] == [];
    assert ParseIgnoreLines([line]) == [Strip(line)] + ParseIgnoreLines([]);
  }

  lemma IndentedLineGivesPattern(indent: string, p: string)
    requires indent != [] && AllSpace(indent)
    requires p != [] && !IsSpace(p[0]) && !IsSpace(p[|p| - 1])
    ensures GivesPattern(indent + p + "\n") && Strip(indent + p + "\n") == p
  {
    StripIndentedLine(indent, p);
    var line := indent + p + "\n";
    assert line[0] == indent[0] && IsSpace(indent[0]);
  }

  lemma StripIndentedLine(indent: string, p: string)
    requires AllSpace(indent)
    requires p != [] && !IsSpace(p[0]) && !IsSpace(p[|p| - 1])
    ensures Strip(indent + p + "\n") == p
  {
    assert AllSpace("\n") by { assert IsSpace('\n'); }
    StripPadding(indent, p, "\n");
    StripTrimmed(p);
  }

  /** A line whose raw text starts with `#` gives nothing. */
  lemma CommentLineDropped(line: string)
    requires StartsWith(line, "#")
    ensures ParseIgnoreLines([line]) == []
  {
  }

  /**
   The patterns the ingestion runs with: a copy of the defaults, followed by the
   patterns of the ignore file when there is one.
   */
  function IgnorePatterns(ignoreFile: Option<string>): (ps: seq<string>)
    ensures |ps| >= |DefaultIgnorePatterns| && ps[..|DefaultIgnorePatterns|] == DefaultIgnorePatterns
    ensures ignoreFile.None? ==> ps == DefaultIgnorePatterns
    ensures forall p :: p in ps <==>
      p in DefaultIgnorePatterns ||
      (ignoreFile.Some? && exists line :: line in FileLines(ignoreFile.value) && GivesPattern(line) && Strip(line) == p)
  {
    match ignoreFile
    case None => DefaultIgnorePatterns
    case Some(text) =>
      var custom := ParseIgnoreLines(FileLines(text));
      assert (DefaultIgnorePatterns + custom)[..|DefaultIgnorePatterns|] == DefaultIgnorePatterns;
      DefaultIgnorePatterns + custom
  }

  // ---------------------------------------------------------------------------
  // The path filter

  /** The list comprehension in `process_codebase`: the paths no pattern matches, in walk order. */
  function KeptPaths(paths: seq<string>, patterns: seq<string>): (r: seq<string>)
    ensures |r| <= |paths|
    ensures forall x :: x in r <==> x in paths && !FileHelpers.ShouldIgnorePath(x, patterns)
    decreases |paths|
  {
    if paths == [] then []
    else
      var init, last := paths[..|paths| - 1], paths[|paths| - 1];
      assert paths == init + [last];
      if FileHelpers.ShouldIgnorePath(last, patterns) then KeptPaths(init, patterns)
      else KeptPaths(init, patterns) + [last]
  }

  /** The filter keeps the walk order: filtering two halves and concatenating is filtering the whole. */
  lemma {:induction false} KeptPathsAppend(a: seq<string>, b: seq<string>, patterns: seq<string>)
    ensures KeptPaths(a + b, patterns) == KeptPaths(a, patterns) + KeptPaths(b, patterns)
    decreases |b|
  {
    if b == [] {
      assert a + b == a;
    } else {
      var init, last := b[..|b| - 1], b[|b| - 1];
      assert a + b == (a + init) + [last];
      assert b == init + [last];
      KeptPathsAppend(a, init, patterns);
      KeptPathsSnoc(a + init, last, patterns);
      KeptPathsSnoc(init, last, patterns);
      var tail := if FileHelpers.ShouldIgnorePath(last, patterns) then [] else [last];
      var ka, ki := KeptPaths(a, patterns), KeptPaths(init, patterns);
      calc {
        KeptPaths(a + b, patterns);
        KeptPaths(a + init, patterns) + tail;
        (ka + ki) + tail;
        { assert (ka + ki) + tail == ka + (ki + tail); }
        ka + (ki + tail);
        ka + KeptPaths(b, patterns);
      }
    }
  }

  /** One more walked path is kept at the end, or dropped. */
  lemma KeptPathsSnoc(init: seq<string>, last: string, patterns: seq<string>)
    ensures KeptPaths(init + [last], patterns) ==
      KeptPaths(init, patterns) + (if FileHelpers.ShouldIgnorePath(last, patterns) then [] else [last])
  {
    var paths := init + [last];
    assert paths[..|paths| - 1] == init && paths[|paths| - 1] == last;
  }

  // ---------------------------------------------------------------------------
  // What the defaults ignore

  /** `**` matches every name. */
  lemma DoubleStarMatchesAll(name: string)
    ensures Match(name, "**")
  {
    DoubleStar(name, []);
    StarMatchesAll(name);
    assert ['*', '*'] + [] == "**";
    assert ['*'] + [] == "*";
  }

  // A pattern "**" + mid + "**" matches every path with the literal mid somewhere in it.
  lemma InsideDirectoryMatches(a: string, mid: string, b: string)
    requires IsLiteral(mid)
    ensures Match(a + mid + b, "**" + mid + "**")
  {
    DoubleStarMatchesAll(a);
    DoubleStarMatchesAll(b);
    MatchLiteral(mid, mid);
    MatchConcat(mid, mid, b, "**");
    MatchConcat(a, "**", mid + b, mid + "**");
    assert a + mid + b == a + (mid + b);
    assert "**" + mid + "**" == "**" + (mid + "**");
  }

  // A pattern "**/*." + e matches every path with a "/" somewhere before a name ending in "." + e.
  lemma SuffixPatternMatches(dir: string, name: string, e: string)
    requires IsLiteral(e)
    ensures Match(dir + "/" + name + "." + e, "**/*." + e)
  {
    var lit := "." + e;
    assert IsLiteral(lit) by {
      assert forall c :: c in lit ==> c == '.' || c in e;
    }
    SlashStarLiteral(dir, name, lit);
    assert dir + "/" + name + "." + e == dir + ("/" + (name + lit));
    assert "**/*." + e == "**" + ("/" + ("*" + lit));
  }

  lemma SlashStarLiteral(dir: string, name: string, lit: string)
    requires IsLiteral(lit)
    ensures Match(dir + ("/" + (name + lit)), "**" + ("/" + ("*" + lit)))
  {
    DoubleStarMatchesAll(dir);
    MatchLiteral("/", "/");
    StarLiteral(name + lit, lit);
    assert ['*'] + lit == "*" + lit;
    MatchConcat("/", "/", name + lit, "*" + lit);
    MatchConcat(dir, "**", "/" + (name + lit), "/" + ("*" + lit));
  }

  /**
   Compiled Python files are ignored wherever they sit below a directory, judged
   on the normal form of the path.
   */
  lemma CompiledPythonIgnored(path: string, dir: string, name: string, custom: seq<string>)
    ensures Pathlib.AsPosix(path) == dir + "/" + name + ".pyc" ==>
      FileHelpers.ShouldIgnorePath(path, DefaultIgnorePatterns + custom)
  {
    var q := dir + "/" + name + ".pyc";
    if Pathlib.AsPosix(path) == q {
      SuffixPatternMatches(dir, name, "pyc");
      assert dir + "/" + name + "." + "pyc" == q;
      assert (DefaultIgnorePatterns + custom)[6] == "**/*." + "pyc";
      FileHelpers.IgnoredByPattern(path, DefaultIgnorePatterns + custom, 6);
    }
  }

  /** A default pattern of the form `**<mid>**` ignores every path whose normal form contains `mid`. */
  lemma DefaultInsideDirectory(path: string, a: string, mid: string, b: string, custom: seq<string>, k: nat)
    requires IsLiteral(mid) && k < |DefaultIgnorePatterns| && DefaultIgnorePatterns[k] == "**" + mid + "**"
    ensures Pathlib.AsPosix(path) == a + mid + b ==> FileHelpers.ShouldIgnorePath(path, DefaultIgnorePatterns + custom)
  {
    if Pathlib.AsPosix(path) == a + mid + b {
      var ps := DefaultIgnorePatterns + custom;
      InsideDirectoryMatches(a, mid, b);
      assert ps[k] == "**" + mid + "**";
      FileHelpers.IgnoredByPattern(path, ps, k);
    }
  }

  /** Anything inside a `.git` directory is ignored, whatever patterns follow the defaults. */
  lemma GitDirectoryIgnored(path: string, a: string, b: string, custom: seq<string>)
    ensures Pathlib.AsPosix(path) == a + "/.git/" + b ==>
      FileHelpers.ShouldIgnorePath(path, DefaultIgnorePatterns + custom)
  {
    DefaultInsideDirectory(path, a, "/.git/", b, custom, 0);
  }

  /** Anything inside a `node_modules` directory is ignored, whatever patterns follow the defaults. */
  lemma DependenciesIgnored(path: string, a: string, b: string, custom: seq<string>)
    ensures Pathlib.AsPosix(path) == a + "/node_modules/" + b ==>
      FileHelpers.ShouldIgnorePath(path, DefaultIgnorePatterns + custom)
  {
    DefaultInsideDirectory(path, a, "/node_modules/", b, custom, 4);
  }
}
