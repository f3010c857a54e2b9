/**
 The older dispatch helpers defined in `lightrag_poc.py` itself, which the
 ingestion entry point of that file uses: a fixed extension switch for loaders,
 parsers and splitters, with no lookup in the language table. `should_ignore_path`
 there is the same code as in `file_helpers.py` and is `FileHelpers.ShouldIgnorePath`.
 */
module LegacyHelpers {
  import opened Optional
  import opened PyStrings
  import opened Paths
  import FileHelpers
  import FileMappings

  // ---------------------------------------------------------------------------
  // get_file_loader

  datatype LoaderKind = PythonLoader | TextLoader | CsvLoader

  datatype Loader = Loader(kind: LoaderKind, path: string)

  /** The loader the `if`/`elif` chain picks: JSON and Markdown are read as plain text. */
  function LoaderKindFor(ext: string): (k: LoaderKind)
    ensures k == PythonLoader <==> ext == ".py"
    ensures k == CsvLoader <==> ext == ".csv"
    ensures k == TextLoader <==> ext != ".py" && ext != ".csv"
  {
    if ext == ".py" then PythonLoader
    else if ext == ".json" then TextLoader
    else if ext == ".md" then TextLoader
    else if ext == ".csv" then CsvLoader
    else TextLoader
  }

  /**
   `get_file_loader`: when the chosen constructor raises, a text loader is tried
   instead, and only when that raises too is there no loader. `failing` is the set
   of kinds whose constructor raises.
   */
  function GetFileLoader(path: string, failing: set<LoaderKind>): (r: Option<Loader>)
    ensures r.None? <==> LoaderKindFor(FileHelpers.LowerExt(path)) in failing && TextLoader in failing
    ensures r.Some? ==> r.value.path == path
    ensures r.Some? ==>
      r.value.kind == (if LoaderKindFor(FileHelpers.LowerExt(path)) in failing then TextLoader
                       else LoaderKindFor(FileHelpers.LowerExt(path)))
  {
    var kind := LoaderKindFor(FileHelpers.LowerExt(path));
    if kind !in failing then Some(Loader(kind, path))
    else if TextLoader !in failing then Some(Loader(TextLoader, path))
    else None
  }

  /** With every constructor working, the loader is never missing. */
  lemma LoaderAlwaysFound(path: string)
    ensures GetFileLoader(path, {}).Some?
  {
  }

  // ---------------------------------------------------------------------------
  // get_language_parser

  /** The `Language` members the older parser helper uses. */
  datatype ParserLanguage = Python | JS | TS

  /** A `LanguageParser` and its `parser_threshold`. */
  datatype Parser = Parser(language: ParserLanguage, threshold: int)

  /** `get_language_parser`: Python, JavaScript and TypeScript sources only, with threshold 0. */
  function GetLanguageParser(path: string): (r: Option<Parser>)
    ensures r.Some? ==> r.value.threshold == 0
    ensures r.Some? && r.value.language == Python <==> FileHelpers.LowerExt(path) == ".py"
    ensures r.Some? && r.value.language == JS <==> FileHelpers.LowerExt(path) in {".js", ".jsx"}
    ensures r.Some? && r.value.language == TS <==> FileHelpers.LowerExt(path) in {".ts", ".tsx"}
    ensures r.None? <==> FileHelpers.LowerExt(path) !in {".py", ".js", ".jsx", ".ts", ".tsx"}
  {
    var ext := FileHelpers.LowerExt(path);
    var threshold := 0;
    if ext == ".py" then Some(Parser(Python, threshold))
    else if ext in [".js", ".jsx", ".ts", ".tsx"] then
      Some(Parser(if ext in [".js", ".jsx"] then JS else TS, threshold))
    else None
  }

  /** The table language that the newer helper would look up for each older parser language. */
  function TableLanguage(l: ParserLanguage): string {
    match l
    case Python => "python"
    case JS => "javascript"
    case TS => "typescript"
  }

  /** The lower-cased extension is empty or starts with a dot. */
  lemma LowerExtShape(path: string)
    ensures var ext := FileHelpers.LowerExt(path); ext == [] || ext[0] == '.'
  {
    var e := Ext(path);
    assert e == [] || e[0] == '.';
    assert |Lower(e)| == |e|;
    if e != [] {
      assert Lower(e)[0] == LowerChar(e[0]);
    }
  }

  /**
   The older parser helper and the language table agree: it picks Python,
   JavaScript or TypeScript for a file exactly when the table files the file's
   extension under `python`, `javascript` or `typescript`.
   */
  lemma ParserAgreesWithTable(path: string, l: ParserLanguage)
    ensures (GetLanguageParser(path).Some? && GetLanguageParser(path).value.language == l) <==>
      FileMappings.GetLanguageForExtension(FileHelpers.LowerExt(path)) == Some(TableLanguage(l))
  {
    var ext := FileHelpers.LowerExt(path);
    LowerExtShape(path);
    var clean := FileMappings.CleanExtension(ext);
    if ext == [] {
      assert clean == [];
    } else {
      assert StartsWith(ext, ".");
      assert ext == "." + clean;
    }
    match l
    case Python =>
      FileMappings.PythonExtensions(ext);
      DottedName(ext, clean, "py");
      assert "." + "py" == ".py";
    case JS =>
      FileMappings.JavaScriptExtensions(ext);
      DottedName(ext, clean, "js");
      DottedName(ext, clean, "jsx");
      assert "." + "js" == ".js" && "." + "jsx" == ".jsx";
      assert ext in {".js", ".jsx"} <==> ext == ".js" || ext == ".jsx";
    case TS =>
      FileMappings.TypeScriptExtensions(ext);
      DottedName(ext, clean, "ts");
      DottedName(ext, clean, "tsx");
      assert "." + "ts" == ".ts" && "." + "tsx" == ".tsx";
      assert ext in {".ts", ".tsx"} <==> ext == ".ts" || ext == ".tsx";
  }

  /** An extension and its cleaned form name the same file type: `.` + e is the extension exactly when e is its cleaned form. */
  lemma DottedName(ext: string, clean: string, e: string)
    requires ext == [] ==> clean == []
    requires ext != [] ==> ext == "." + clean
    requires e != []
    ensures ext == "." + e <==> clean == e
  {
    if ext == "." + e {
      assert clean == ext[1..] == e;
    }
  }

  // ---------------------------------------------------------------------------
  // get_text_splitter

  datatype SplitterKind = PythonCodeSplitter | MarkdownSplitter | RecursiveSplitter

  datatype Splitter = Splitter(kind: SplitterKind, size: int, overlap: int)

  const ChunkSize: int := 1000
  const ChunkOverlap: int := 200

  /** `get_text_splitter`: Python and Markdown get their own splitter, the rest the recursive one; always 1000 and 200. */
  function GetTextSplitter(path: string): (r: Splitter)
    ensures r.size == 1000 && r.overlap == 200
    ensures r.kind == PythonCodeSplitter <==> FileHelpers.LowerExt(path) == ".py"
    ensures r.kind == MarkdownSplitter <==> FileHelpers.LowerExt(path) == ".md"
  {
    var ext := FileHelpers.LowerExt(path);
    if ext == ".py" then Splitter(PythonCodeSplitter, ChunkSize, ChunkOverlap)
    else if ext == ".md" then Splitter(MarkdownSplitter, ChunkSize, ChunkOverlap)
    else if ext == ".json" then Splitter(RecursiveSplitter, ChunkSize, ChunkOverlap)
    else Splitter(RecursiveSplitter, ChunkSize, ChunkOverlap)
  }
}
