/**
 The dispatch helpers of the ingestion POC: whether a path is ignored, and which
 loader, language parser and text splitter a file gets, chosen by its lower-cased
 extension. The LangChain objects are tags that record what they were built with.
 */
module FileHelpers {
  import opened Optional
  import opened PyStrings
  import opened Glob
  import opened Paths
  import Pathlib
  import FileMappings

  /** `os.path.splitext(path)[1].lower()`, the key every helper dispatches on. */
  function LowerExt(path: string): string {
    Lower(Ext(path))
  }

  // ---------------------------------------------------------------------------
  // should_ignore_path

  /**
   `should_ignore_path`: the path is brought to its `pathlib` normal form, the
   patterns are tried on it in order, and the first whole-path match ignores it.
   */
  function ShouldIgnorePath(path: string, patterns: seq<string>): (r: bool)
    ensures r <==> exists k :: 0 <= k < |patterns| && Match(Pathlib.AsPosix(path), patterns[k])
    decreases |patterns|
  {
    if patterns == [] then false
    else if Match(Pathlib.AsPosix(path), patterns[0]) then true
    else
      var rest := ShouldIgnorePath(path, patterns[1..]);
      assert forall k :: 1 <= k < |patterns| ==> patterns[k] == patterns[1..][k - 1];
      rest
  }

  /** One matching pattern is enough. */
  lemma IgnoredByPattern(path: string, patterns: seq<string>, k: nat)
    requires k < |patterns| && Match(Pathlib.AsPosix(path), patterns[k])
    ensures ShouldIgnorePath(path, patterns)
  {
  }

  /** No pattern, nothing ignored. */
  lemma NothingIgnoredWithoutPatterns(path: string)
    ensures !ShouldIgnorePath(path, [])
  {
  }

  /** Adding patterns can only turn "kept" into "ignored". */
  lemma IgnoreMonotone(path: string, ps: seq<string>, qs: seq<string>)
    requires forall p :: p in ps ==> p in qs
    ensures ShouldIgnorePath(path, ps) ==> ShouldIgnorePath(path, qs)
  {
    if ShouldIgnorePath(path, ps) {
      var k :| 0 <= k < |ps| && Match(Pathlib.AsPosix(path), ps[k]);
      assert ps[k] in qs;
      var j :| 0 <= j < |qs| && qs[j] == ps[k];
    }
  }

  /** The order of the patterns does not matter. */
  lemma IgnorePermutation(path: string, ps: seq<string>, qs: seq<string>)
    requires multiset(ps) == multiset(qs)
    ensures ShouldIgnorePath(path, ps) == ShouldIgnorePath(path, qs)
  {
    forall p | p in ps ensures p in qs {
      assert p in multiset(ps);
    }
    forall p | p in qs ensures p in ps {
      assert p in multiset(qs);
    }
    IgnoreMonotone(path, ps, qs);
    IgnoreMonotone(path, qs, ps);
  }

  /** A path and its normal form are ignored alike. */
  lemma IgnoreSeesNormalForm(path: string, patterns: seq<string>)
    ensures ShouldIgnorePath(Pathlib.AsPosix(path), patterns) == ShouldIgnorePath(path, patterns)
  {
    Pathlib.AsPosixIdempotent(path);
  }

  /**
   A relative path and the same path behind `./` are ignored alike: a file walked
   under `./codebase` meets the patterns as `codebase/...`.
   */
  lemma DotPrefixIgnoredAlike(path: string, patterns: seq<string>)
    requires path == [] || path[0] != '/'
    ensures ShouldIgnorePath("./" + path, patterns) == ShouldIgnorePath(path, patterns)
  {
    Pathlib.AsPosixDotPrefix(path);
  }

  // ---------------------------------------------------------------------------
  // get_file_loader

  /** The document loaders `get_file_loader` chooses from. */
  datatype LoaderKind = JsonLoader | MarkdownLoader | CsvLoader | TextLoader

  /** A loader for one file. */
  datatype Loader = Loader(kind: LoaderKind, path: string)

  /** The loader kind for a lower-cased extension. */
  function LoaderKindFor(ext: string): (k: LoaderKind)
    ensures k == JsonLoader <==> ext == ".json"
    ensures k == MarkdownLoader <==> ext == ".md" || ext == ".markdown"
    ensures k == CsvLoader <==> ext == ".csv"
    ensures k == TextLoader <==> ext !in {".json", ".md", ".markdown", ".csv"}
  {
    if ext == ".json" then JsonLoader
    else if ext in [".md", ".markdown"] then MarkdownLoader
    else if ext == ".csv" then CsvLoader
    else TextLoader
  }

  /**
   `get_file_loader`. A constructor that raises (the JSON loader needs the `jq`
   package, for instance) is caught and gives no loader; `failing` is the set of
   kinds whose constructor raises in the environment at hand.
   */
  function GetFileLoader(path: string, failing: set<LoaderKind>): (r: Option<Loader>)
    ensures r.None? <==> LoaderKindFor(LowerExt(path)) in failing
    ensures r.Some? ==> r.value.path == path && r.value.kind == LoaderKindFor(LowerExt(path))
  {
    var kind := LoaderKindFor(LowerExt(path));
    if kind in failing then None else Some(Loader(kind, path))
  }

  /** The extension is compared after lower-casing: `x.JSON` chooses like `x.json`. */
  lemma FileLoaderIgnoresCase(stem: string)
    requires stem != [] && stem[|stem| - 1] != '.' && stem[|stem| - 1] != '/'
    ensures GetFileLoader(stem + ".JSON", {}) == Some(Loader(JsonLoader, stem + ".JSON"))
  {
    UpperJsonExt(stem);
  }

  lemma UpperJsonExt(stem: string)
    requires stem != [] && stem[|stem| - 1] != '.' && stem[|stem| - 1] != '/'
    ensures LowerExt(stem + ".JSON") == ".json"
  {
    ExtOfAppended(stem, "JSON");
    assert stem + "." + "JSON" == stem + ".JSON";
    LowerDotJson();
  }

  lemma LowerDotJson()
    ensures Lower(".JSON") == ".json"
  {
  }

  /** A name without a dot has no extension and gets the text loader. */
  lemma FileLoaderWithoutExtension()
    ensures GetFileLoader("Makefile", {}) == Some(Loader(TextLoader, "Makefile"))
  {
    RFindAbsent("Makefile", '/');
    ExtNoDot("Makefile");
  }

  // ---------------------------------------------------------------------------
  // get_language_parser

  /** The name `LanguageParser` knows a table language by: it says `js` and `ts`. */
  function ParserName(language: string): (name: string)
    ensures language == "javascript" ==> name == "js"
    ensures language == "typescript" ==> name == "ts"
    ensures language != "javascript" && language != "typescript" ==> name == language
  {
    if language == "javascript" then "js" else if language == "typescript" then "ts" else language
  }

  /** What `get_language_parser` returns: a parser, or a generic loader built around one. */
  datatype LanguageTool =
    | Parser(language: string)
    | ParsingLoader(directory: string, globs: seq<string>, language: string)
  {
    function Language(): string {
      match this
      case Parser(l) => l
      case ParsingLoader(_, _, l) => l
    }
  }

  /**
   `get_language_parser`. The language comes from the extension table and is
   renamed for `LanguageParser`; `accepted` is the set of names its constructor
   accepts (it raises for the others, and the exception is caught). With
   `createLoader`, a missing directory or pattern list raises inside the same
   `try`, so the result is `None` as well.
   */
  function GetLanguageParser(path: string, createLoader: bool, directory: Option<string>,
                             globPatterns: Option<seq<string>>, accepted: set<string>): (r: Option<LanguageTool>)
    ensures r.Some? <==>
      FileMappings.GetLanguageForExtension(LowerExt(path)).Some?
      && ParserName(FileMappings.GetLanguageForExtension(LowerExt(path)).value) in accepted
      && (createLoader ==> directory.Some? && globPatterns.Some?)
    ensures r.Some? ==> r.value.Language() == ParserName(FileMappings.GetLanguageForExtension(LowerExt(path)).value)
    ensures r.Some? && !createLoader ==> r.value.Parser?
    ensures r.Some? && createLoader ==>
      r.value.ParsingLoader? && r.value.directory == directory.value && r.value.globs == globPatterns.value
  {
    match FileMappings.GetLanguageForExtension(LowerExt(path))
    case None => None
    case Some(language) =>
      var name := ParserName(language);
      if name !in accepted then None
      else if !createLoader then Some(Parser(name))
      else if directory.None? || globPatterns.None? then None
      else Some(ParsingLoader(directory.value, globPatterns.value, name))
  }

  /** Renaming for `LanguageParser` never merges two languages of the table. */
  lemma ParserNamesDistinct(i: nat, j: nat)
    requires i < |FileMappings.LanguageToExtensions| && j < |FileMappings.LanguageToExtensions|
    requires i != j
    ensures ParserName(FileMappings.LanguageToExtensions[i].language) != ParserName(FileMappings.LanguageToExtensions[j].language)
  {
    var T := FileMappings.LanguageToExtensions;
    FileMappings.LanguagesDistinct();
    assert FileMappings.Languages(T)[i] == T[i].language && FileMappings.Languages(T)[j] == T[j].language;
    NoLanguageIsAParserName();
  }

  /** The renamed parser names `js` and `ts` are not themselves languages of the table. */
  lemma NoLanguageIsAParserName()
    ensures forall k :: 0 <= k < |FileMappings.LanguageToExtensions| ==>
      FileMappings.LanguageToExtensions[k].language != "js" && FileMappings.LanguageToExtensions[k].language != "ts"
  {
  }

  /**
   A file whose lower-cased extension is listed under a language gets a parser for
   that language's parser name, provided `LanguageParser` accepts it.
   */
  lemma ParserForListedExtension(path: string, i: nat, e: string, accepted: set<string>)
    requires i < |FileMappings.LanguageToExtensions| && e in FileMappings.LanguageToExtensions[i].extensions
    requires LowerExt(path) == "." + e
    requires ParserName(FileMappings.LanguageToExtensions[i].language) in accepted
    ensures GetLanguageParser(path, false, None, None, accepted) ==
      Some(Parser(ParserName(FileMappings.LanguageToExtensions[i].language)))
  {
    FileMappings.LanguageForListedExtension(i, e);
  }

  /** With `createLoader` and no directory or no patterns, there is never a result. */
  lemma MissingLoaderArguments(path: string, directory: Option<string>, globPatterns: Option<seq<string>>, accepted: set<string>)
    requires directory.None? || globPatterns.None?
    ensures GetLanguageParser(path, true, directory, globPatterns, accepted) == None
  {
  }

  // ---------------------------------------------------------------------------
  // get_text_splitter

  /** The members of LangChain's `Language` enum that `get_text_splitter` uses. */
  datatype SplitterLanguage =
    | JS | TS | Python | Java | Cpp | CSharp | Go | Ruby | Rust | Php | Scala | Swift
    | Markdown | Html | Css | Sql

  /** A text splitter and the sizes it was built with. */
  datatype Splitter =
    | JsonSplitter(size: int, overlap: int)
    | LanguageSplitter(language: SplitterLanguage, size: int, overlap: int)
    | GenericSplitter(size: int, overlap: int)

  /** The default `chunk_size` and `chunk_overlap` of `get_text_splitter`. */
  const DefaultChunkSize: int := 1000
  const DefaultChunkOverlap: int := 100

  /** `language_splitter_map`; `.json` is present but mapped to `None`. */
  const LanguageSplitterMap: map<string, Option<SplitterLanguage>> := map[
    ".js" := Some(JS), ".jsx" := Some(JS), ".ts" := Some(TS), ".tsx" := Some(TS),
    ".py" := Some(Python), ".java" := Some(Java),
    ".c" := Some(Cpp), ".cpp" := Some(Cpp), ".h" := Some(Cpp), ".hpp" := Some(Cpp),
    ".cs" := Some(CSharp), ".go" := Some(Go), ".rb" := Some(Ruby), ".rs" := Some(Rust),
    ".php" := Some(Php), ".scala" := Some(Scala), ".swift" := Some(Swift),
    ".md" := Some(Markdown), ".markdown" := Some(Markdown),
    ".html" := Some(Html), ".htm" := Some(Html), ".css" := Some(Css), ".sql" := Some(Sql),
    ".json" := None
  ]

  /**
   `get_text_splitter`: the JSON splitter for `.json`, a language splitter for the
   other keys of the map, the generic splitter for everything else; the sizes are
   passed through unchanged.
   */
  function GetTextSplitter(path: string, chunkSize: int, chunkOverlap: int): (r: Splitter)
    ensures r.size == chunkSize && r.overlap == chunkOverlap
    ensures r.JsonSplitter? <==> LowerExt(path) == ".json"
    ensures r.LanguageSplitter? <==> LowerExt(path) in LanguageSplitterMap && LowerExt(path) != ".json"
    ensures r.LanguageSplitter? ==> LanguageSplitterMap[LowerExt(path)] == Some(r.language)
  {
    var ext := LowerExt(path);
    if ext == ".json" then JsonSplitter(chunkSize, chunkOverlap)
    else
      var language := if ext in LanguageSplitterMap then LanguageSplitterMap[ext] else None;
      match language
      case Some(l) => LanguageSplitter(l, chunkSize, chunkOverlap)
      case None => GenericSplitter(chunkSize, chunkOverlap)
  }

  /** Data and text formats outside the map get the generic splitter. */
  lemma GenericSplitterFormats(path: string, size: int, overlap: int)
    requires LowerExt(path) in {".txt", ".yaml", ".yml", ".csv", ".toml", ""}
    ensures GetTextSplitter(path, size, overlap) == GenericSplitter(size, overlap)
  {
    var ext := LowerExt(path);
    if ext in {".txt", ".csv"} {
      ShortFormatsUnmapped(ext);
    } else {
      LongFormatsUnmapped(ext);
    }
  }

  lemma ShortFormatsUnmapped(ext: string)
    requires ext in {".txt", ".csv"}
    ensures ext !in LanguageSplitterMap
  {
  }

  lemma LongFormatsUnmapped(ext: string)
    requires ext in {".yaml", ".yml", ".toml", ""}
    ensures ext !in LanguageSplitterMap
  {
  }

  /** Called without sizes, `get_text_splitter` builds chunks of 1000 characters overlapping by 100. */
  lemma DefaultSplitterSizes(path: string)
    ensures GetTextSplitter(path, DefaultChunkSize, DefaultChunkOverlap).size == 1000
    ensures GetTextSplitter(path, DefaultChunkSize, DefaultChunkOverlap).overlap == 100
  {
  }
}
