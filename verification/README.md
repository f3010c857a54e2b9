# lightrag-poc ingestion helpers and sample app, in Dafny

This project models the file-handling core of the LightRAG proof of concept: the
part that filters the walked files of a codebase, groups them, and picks a loader,
parser and splitter for each group. Which files a parser-branch loader then reads
from disk is decided by LangChain, not by this code, and is not modelled (see
"Left out"). It also models the small text-statistics sample application that
ships as test input.

The ingestion core covers:

- **Tables.** The extension and language tables (`file_mappings.py`): the forward
  table, its inverse, the glob patterns, and the three lookups.
- **Newer helpers** (`file_helpers.py`): `should_ignore_path`, `get_file_loader`,
  `get_language_parser` and `get_text_splitter`.
- **Older helpers.** `lightrag_poc.py` defines its own copies of the same helpers
  with a fixed extension switch, and its entry point uses those.
- **Ignore patterns.** The default patterns, the `.lightragignore` parse and the
  path filter.
- **Grouping.** The two nested dict-of-lists groupings of `process_code_files`
  (by lower-cased extension, then by directory).
- **Chunks.** The `File:/Type:/Language:` header of every chunk, and the
  find-or-merge of chunks into `file_chunks`.

The sample app covers `validate_input`, `format_output` and `calculate_statistics`
(`codebase/utils.py`), plus `main` and `process_data`. `codebase/main.py` and
`codebase/python-examples/main.py` are the same file line for line. One model
(`SampleApp`) serves both, so a row citing either copy states the same thing of
the other.

Everything is pure functions over immutable data. Python's string and path
primitives are defined in their own modules, restricted to what the code uses:

- `PyStrings`: `strip`, `split(sep)`, `split()`, `join`, ASCII `lower` and
  `capitalize`, `str(int)`.
- `Paths`: `os.path.splitext` and `os.path.dirname`.
- `Pathlib`: `pathlib.Path(p).as_posix()`, the normal form ignore patterns are
  matched against.
- `Glob`: `fnmatch` with `*` and `?`.
- `Optional`: a shared `Option` type.

LangChain objects become tags that record what they were built with. Anything the
code only observes from outside becomes a parameter:

- the set of loader constructors that raise;
- the parser names `LanguageParser` accepts;
- whether the input file exists, and what reading it gives;
- each loaded document's source, text and metadata.

Python's dicts keep insertion order. A dict of lists is therefore a sequence of
`Bucket(key, items)` entries with find-or-append.

Two behaviours of the code look surprising but follow from it directly:

- The `len(lines) < 1` test in `validate_input` can never fail, because `split`
  always gives at least one piece. `TextStats.ValidateInput` states the condition
  that results.
- The `#` test in the `.lightragignore` parse looks at the raw line, not the
  stripped one. So an indented `#` line becomes a pattern, as
  `IgnoreFile.IndentedLineIsAPattern` shows.

## Model

| member | source | states |
|---|---|---|
| `FileMappings.InvertTableSound` | lightrag_poc/file_mappings.py:38-41 | the derived extension dictionary has exactly the listed extensions as keys, and maps each key to a language that lists it |
| `FileMappings.InvertTableExact` | lightrag_poc/file_mappings.py:38-41 | when no extension is listed twice, every listed extension maps to the language it is listed under (no overwrite happens) |
| `FileMappings.AssignLanguageSpec` | lightrag_poc/file_mappings.py:40-41 | the inner derivation loop assigns the language to each of its extensions and leaves every other key as it was |
| `FileMappings.AllExtensionsMembers` | lightrag_poc/file_mappings.py:39-40 | the flattened extension list holds exactly the extensions of some table entry |
| `FileMappings.AllExtensionsDistinct` | lightrag_poc/file_mappings.py:11-35 | lists without repeats that pairwise share nothing flatten to a list without repeats |
| `FileMappings.TableAsMapExact` | lightrag_poc/file_mappings.py:11-35 | with distinct languages, the table as a dictionary has exactly the table's languages as keys, each mapped to its own list |
| `FileMappings.ExtensionsDistinct` | lightrag_poc/file_mappings.py:11-35 | no extension is listed twice in `LANGUAGE_TO_EXTENSIONS`, within one list or across two |
| `FileMappings.LanguagesDistinct` | lightrag_poc/file_mappings.py:11-35 | no language is listed twice, and `"other"` is not one of them |
| `FileMappings.ExtensionsLowerAlpha` | lightrag_poc/file_mappings.py:11-35 | every listed extension is a non-empty run of lower-case letters, with no dot |
| `FileMappings.ExtensionToLanguageDomain` | lightrag_poc/file_mappings.py:37-41 | `EXTENSION_TO_LANGUAGE` has exactly the listed extensions as keys, and every value is a key of the forward table |
| `FileMappings.LanguageForExtension` | lightrag_poc/file_mappings.py:52-64 | the lookup answers `l` if and only if the extension, less one optional leading dot, is listed under `l` |
| `FileMappings.LanguageForListedExtension` | lightrag_poc/file_mappings.py:62-64 | a listed extension, with or without its dot, finds the language it is listed under |
| `FileMappings.LeadingDotOptional` | lightrag_poc/file_mappings.py:63 | `"." + e` and `e` find the same language when `e` does not itself start with a dot |
| `FileMappings.LanguageForExtensionIsLowerCase` | lightrag_poc/file_mappings.py:63-64 | a successful lookup was given lower-case letters only, after one optional dot |
| `FileMappings.UnknownSpellings` | lightrag_poc/file_mappings.py:63-64 | `PY`, `.PY`, `..py` and the empty extension find nothing: no case folding, and only one dot is removed |
| `FileMappings.SwiftIsUnknown` | lightrag_poc/file_mappings.py:11-35 | `.swift` has no language in the table |
| `FileMappings.ExtensionsForLanguage` | lightrag_poc/file_mappings.py:66-76 | each table language gets its own extension list back; any other name, `"other"` included, gets the empty list |
| `FileMappings.GlobPatternsForLanguage` | lightrag_poc/file_mappings.py:43-50 | a language's patterns are its extensions behind `**/*.`, in order; `"other"` gets the catch-all `**/*.*`; names outside the table get none |
| `FileMappings.OtherIsCatchAllOnly` | lightrag_poc/file_mappings.py:49-50 | `"other"` has only the catch-all pattern, no extensions, and no extension looks up to it |
| `FileMappings.PythonExtensions` | lightrag_poc/file_mappings.py:12 | an extension looks up to `python` if and only if it is `py`, with or without a dot |
| `FileMappings.JavaScriptExtensions` | lightrag_poc/file_mappings.py:13 | an extension looks up to `javascript` if and only if it is `js` or `jsx` |
| `FileMappings.TypeScriptExtensions` | lightrag_poc/file_mappings.py:14 | an extension looks up to `typescript` if and only if it is `ts` or `tsx` |
| `FileHelpers.ShouldIgnorePath` | lightrag_poc/file_helpers.py:27-36 | a path is ignored if and only if some pattern matches the whole of its `pathlib` normal form |
| `FileHelpers.IgnoredByPattern` | lightrag_poc/file_helpers.py:32-34 | one pattern anywhere in the list that matches the normal form ignores the path |
| `FileHelpers.IgnoreSeesNormalForm` | lightrag_poc/file_helpers.py:30 | a path and its normal form are ignored alike |
| `FileHelpers.DotPrefixIgnoredAlike` | lightrag_poc/file_helpers.py:30 | a relative path behind `./` is ignored exactly when the path itself is, so files walked under the default root `./codebase` meet the patterns as `codebase/...` |
| `FileHelpers.NothingIgnoredWithoutPatterns` | lightrag_poc.py:120-129 | with no patterns nothing is ignored (the copy in `lightrag_poc.py` is the same code as the one in `file_helpers.py`, and both are `FileHelpers.ShouldIgnorePath`) |
| `FileHelpers.IgnoreMonotone` | lightrag_poc/file_helpers.py:32-36 | more patterns can only ignore more paths |
| `FileHelpers.IgnorePermutation` | lightrag_poc/file_helpers.py:32-36 | the order of the patterns does not change the answer |
| `FileHelpers.LoaderKindFor` | lightrag_poc/file_helpers.py:44-57 | JSON loader for `.json` only, Markdown for `.md`/`.markdown` only, CSV for `.csv` only, the text loader for every other extension |
| `FileHelpers.GetFileLoader` | lightrag_poc/file_helpers.py:38-60 | no loader exactly when the chosen constructor raises; otherwise a loader of the chosen kind for the given path |
| `FileHelpers.FileLoaderIgnoresCase` | lightrag_poc/file_helpers.py:40 | any `stem.JSON` gets the JSON loader: the extension is lower-cased first |
| `FileHelpers.FileLoaderWithoutExtension` | lightrag_poc/file_helpers.py:55-57 | `Makefile` has no extension and gets the text loader |
| `FileHelpers.ParserName` | lightrag_poc/file_helpers.py:83-88 | `javascript` becomes `js`, `typescript` becomes `ts`, every other name is kept |
| `FileHelpers.GetLanguageParser` | lightrag_poc/file_helpers.py:62-108 | a result exactly when the table knows the extension, the renamed language is accepted, and, with `create_loader`, both directory and patterns are given; it carries the renamed language and, as a loader, the directory and patterns given |
| `FileHelpers.ParserNamesDistinct` | lightrag_poc/file_helpers.py:85-88 | the renaming never makes two table languages the same parser name |
| `FileHelpers.ParserForListedExtension` | lightrag_poc/file_helpers.py:77-93 | a file with a listed extension gets a parser for its language's parser name when that name is accepted |
| `FileHelpers.MissingLoaderArguments` | lightrag_poc/file_helpers.py:95-97 | with `create_loader` and no directory or no patterns there is no result |
| `FileHelpers.GetTextSplitter` | lightrag_poc/file_helpers.py:110-181 | the JSON splitter for `.json` only, a language splitter with the map's language for the other map keys, the generic splitter otherwise; the sizes are passed through |
| `FileHelpers.GenericSplitterFormats` | lightrag_poc/file_helpers.py:180-181 | `.txt`, `.yaml`, `.yml`, `.csv`, `.toml` and no extension get the generic splitter |
| `FileHelpers.DefaultSplitterSizes` | lightrag_poc/file_helpers.py:110 | called with the default sizes, every splitter is built with chunks of 1000 and an overlap of 100 |
| `LegacyHelpers.LoaderKindFor` | lightrag_poc.py:136-158 | the Python loader for `.py` only, the CSV loader for `.csv` only, the text loader for everything else, JSON and Markdown included |
| `LegacyHelpers.GetFileLoader` | lightrag_poc.py:131-166 | a raising constructor falls back to the text loader; there is no loader only when the text loader raises too |
| `LegacyHelpers.LoaderAlwaysFound` | lightrag_poc.py:157-158 | with every constructor working there is always a loader |
| `LegacyHelpers.GetLanguageParser` | lightrag_poc.py:168-188 | Python for `.py` only, JS for `.js`/`.jsx` only, TS for `.ts`/`.tsx` only, nothing for any other extension; the threshold is always 0 |
| `LegacyHelpers.ParserAgreesWithTable` | lightrag_poc.py:176-185 | the older parser helper picks Python, JS or TS exactly when the language table files the extension under `python`, `javascript` or `typescript` |
| `LegacyHelpers.GetTextSplitter` | lightrag_poc.py:190-212 | the Python splitter for `.py` only, the Markdown splitter for `.md` only, the recursive one otherwise; always size 1000 and overlap 200 |
| `IgnoreFile.FileLines` | lightrag_poc.py:448-449 | iterating a text file gives non-empty lines that concatenate back to the text, each ending in its only newline except perhaps the last |
| `IgnoreFile.ParseIgnoreLines` | lightrag_poc.py:449 | a pattern is kept if and only if it is the stripped text of a non-blank line that does not start with `#` |
| `IgnoreFile.ParseIgnoreLinesAppend` | lightrag_poc.py:449 | parsing keeps line order: parsing two halves and concatenating is parsing the whole |
| `IgnoreFile.IndentedLineIsAPattern` | lightrag_poc.py:449 | an indented line gives its stripped text as a pattern, even when that text starts with `#`, because the `#` test looks at the raw line |
| `IgnoreFile.CommentLineDropped` | lightrag_poc.py:449 | a line starting with `#` gives no pattern |
| `IgnoreFile.IgnorePatterns` | lightrag_poc.py:444-450 | the patterns begin with the defaults unchanged; without an ignore file they are the defaults; otherwise each extra one comes from a kept line of the file |
| `IgnoreFile.KeptPaths` | lightrag_poc.py:345-348 | a path is kept if and only if it was walked and no pattern matches it |
| `IgnoreFile.KeptPathsAppend` | lightrag_poc.py:345-348 | the filter keeps walk order: filtering two halves and concatenating is filtering the whole |
| `IgnoreFile.DoubleStarMatchesAll` | lightrag_poc.py:48 | `**` matches every path |
| `IgnoreFile.InsideDirectoryMatches` | lightrag_poc.py:48-52 | `**` + literal + `**` matches every path containing that literal |
| `IgnoreFile.SuffixPatternMatches` | lightrag_poc.py:54-60 | `**/*.` + e matches every path with a `/` before a name ending in `.` + e |
| `IgnoreFile.CompiledPythonIgnored` | lightrag_poc.py:54 | a path whose normal form is `dir/name.pyc` is ignored, whatever custom patterns follow the defaults |
| `IgnoreFile.GitDirectoryIgnored` | lightrag_poc.py:48 | a path whose normal form contains `/.git/` is ignored, whatever custom patterns follow |
| `IgnoreFile.DependenciesIgnored` | lightrag_poc.py:52 | a path whose normal form contains `/node_modules/` is ignored, whatever custom patterns follow |
| `Glob.MatchStar` | lightrag_poc/file_helpers.py:33 | a leading `*` matches exactly when some suffix of the name matches the rest of the pattern |
| `Glob.DoubleStar` | lightrag_poc.py:48 | `**` matches exactly what a single `*` matches |
| `Glob.MatchLiteral` | lightrag_poc/file_helpers.py:33 | a pattern without wildcards matches only the identical name |
| `Glob.StarLiteral` | lightrag_poc.py:54 | `*` followed by a literal matches exactly the names ending in that literal |
| `Glob.MatchConcat` | lightrag_poc/file_helpers.py:33 | matches compose over concatenation |
| `Paths.SplitExt` | lightrag_poc/file_helpers.py:40 | stem and extension concatenate to the path; the extension is empty or a dot followed by neither `/` nor `.`; it is non-empty exactly when the base name has a `.` with some character other than `.` before it |
| `Paths.ExtOfAppended` | lightrag_poc.py:225 | appending `.e` to an ordinary stem gives extension `.e` |
| `Paths.ExtNoDot` | lightrag_poc.py:225 | a base name without a dot has no extension |
| `Paths.ExtHiddenFile` | lightrag_poc.py:225 | a base name whose only dot is its first character (`.bashrc`) has no extension |
| `Paths.ExtOfDots` | lightrag_poc/file_helpers.py:40 | only the last dot starts the extension (`a..py` has `.py`), and a base name of dots before its last dot has none (`..x`) |
| `Paths.Dirname` | lightrag_poc.py:239 | the directory is a prefix of the path |
| `Paths.DirnameOfName` | lightrag_poc.py:239 | a name without `/` has directory `""` |
| `Paths.DirnameOfJoin` | lightrag_poc.py:239 | the directory of `dir/name` is `dir` |
| `Pathlib.KeepParts` | lightrag_poc/file_helpers.py:30 | the parts kept are exactly the non-empty parts other than `.`, and a list of such parts is kept whole |
| `Pathlib.PathRoot` | lightrag_poc.py:123 | the root is `//` for exactly two leading slashes, `/` for one or three and more, and empty exactly for a relative path |
| `Pathlib.AsPosix` | lightrag_poc/file_helpers.py:30 | the normal form is never empty, and it starts with `/` exactly when the path is absolute |
| `Pathlib.AsPosixNormalises` | lightrag_poc/file_helpers.py:30 | the normal form has the same root and the same kept parts as the path |
| `Pathlib.AsPosixIdempotent` | lightrag_poc.py:123 | normalising twice is normalising once |
| `Pathlib.AsPosixOfParts` | lightrag_poc/file_helpers.py:30 | a relative path of kept parts joined by single slashes is already in normal form |
| `Pathlib.AsPosixDotPrefix` | lightrag_poc.py:123 | a leading `./` disappears from a relative path |
| `Pathlib.WalkedUnderDot` | lightrag_poc.py:339-341 | a file walked under a root `./d` is matched as `d/...` |
| `Grouping.FindKey` | lightrag_poc.py:275 | the position found is the first entry with that key, and there is none exactly when no entry has it |
| `Grouping.AddToBucket` | lightrag_poc.py:274-279 | find-or-append adds one entry only for a new key, at the end, and keeps the existing keys in place; keys stay distinct, no entry is empty, and the total grows by one |
| `Grouping.AddToBucketLookup` | lightrag_poc.py:276-279 | the value lands at the end of its key's list, and every other key's list is unchanged |
| `Grouping.Select` | lightrag_poc.py:226-228 | exactly the values with the given key |
| `Grouping.GroupByShape` | lightrag_poc.py:223-228 | the grouping has one bucket per key, none empty, and every input value is in it |
| `Grouping.GroupByContents` | lightrag_poc.py:223-228 | the bucket of a key holds exactly the values with that key, in input order |
| `Grouping.GroupByKeys` | lightrag_poc.py:226-227 | there is a bucket for a key if and only if some value has that key |
| `Grouping.GroupByOrder` | lightrag_poc.py:231 | buckets are iterated in the order their keys first occur in the input |
| `Grouping.PathInExactlyOneBucket` | lightrag_poc.py:223-228 | every value is in exactly one bucket: the one of its own key |
| `Grouping.GroupFiles` | lightrag_poc.py:223-242 | extensions are distinct; under each one the directory buckets are non-empty (the `if not files` guard never fires) and distinct, and each holds exactly the walked paths with its extension and directory, in walk order; every walked path lies in the bucket of its own extension and directory |
| `Grouping.ParserDecisionUniform` | lightrag_poc.py:244-248 | deciding on `files[0]` decides for the whole bucket: every file in it gets the same parser answer |
| `Chunks.ChunkRoundTrip` | lightrag_poc.py:272 | when the header fields have no line break, the chunk text reads back to its path, content type, language and content |
| `Chunks.ChunkTextInjective` | lightrag_poc.py:312 | two chunks with one-line header fields have the same text only if they are the same chunk |
| `Chunks.TextLanguageOfPath` | lightrag_poc.py:309 | the text branch's language is `txt` without an extension, else the lower-cased extension minus its dot, with no dot or slash in it |
| `Chunks.BranchesAgreeOnLanguage` | lightrag_poc.py:268-269 | without parser metadata both branches name a file by its extension minus the dot; the content type is `text` in one branch and `code` in the other |
| `Chunks.TextChunkRoundTrip` | lightrag_poc.py:305-312 | a text-branch chunk reads back to its relative path, type `text`, its language and its content |
| `Chunks.MergeDocumentsSpec` | lightrag_poc.py:263-279 | merging documents keeps existing entries in place, keeps sources distinct, leaves no entry empty and keeps every chunk |
| `Chunks.ChunksOf` | lightrag_poc.py:274-279 | the chunks of a source are exactly the texts of the documents with that source, and there are at most as many as documents |
| `Chunks.MergeDocumentsLookup` | lightrag_poc.py:274-279 | a source's entry is its old chunks followed by its documents' chunks, in load order |
| `Chunks.AppendTextEntrySpec` | lightrag_poc.py:315-316 | the text branch adds an entry only when the file gave chunks, keeps every chunk, files exactly them under a new source, and changes no other source |
| `TextStats.ValidateInput` | codebase/utils.py:6-26 | valid if and only if there is text and it is not all whitespace; the line-count check never rejects |
| `TextStats.DisplayKeyIsTitleCase` | codebase/utils.py:43-44 | the display key is the key with each `_` turned into a space, the first letter of each word upper-cased and the rest lower-cased |
| `TextStats.DisplayKeyLineBreaks` | codebase/utils.py:44 | the display key has the key's length and a line break exactly where the key has one |
| `TextStats.DisplayKeyTwoWords` | codebase/utils.py:43-44 | `a_b` is shown as the capitalised words joined by a space (`line_count` as `Line Count`) |
| `TextStats.Rule` | codebase/utils.py:40 | the rule is twenty `=` and has no line break |
| `TextStats.FormatOutputFrame` | codebase/utils.py:39-47 | the report starts with the title and the rule, each followed by a newline, and ends with the rule, with no newline after it |
| `TextStats.FormatOutputLines` | codebase/utils.py:39-49 | read line by line, the report is the title, the rule, one `Key: value` line per entry in dict order, and the rule again |
| `TextStats.CalculateStatistics` | codebase/utils.py:51-73 | at least one line (one more than the newlines inside the stripped text), the words of the whole text, its raw length, the total word length, and divisors that are never zero |
| `SampleApp.ProcessData` | codebase/main.py:49-67 | three entries, keyed `line_count`, `word_count`, `char_count` in that order |
| `SampleApp.ProcessDataCounts` | codebase/python-examples/main.py:60-65 | one line more than the newlines inside the stripped text (so at least one), every whitespace-separated word of the text, and the raw length |
| `SampleApp.ProcessDataIgnoresPadding` | codebase/main.py:60-63 | whitespace around the text changes neither the line count nor the word count |
| `SampleApp.ProcessDataAgreesWithStatistics` | codebase/python-examples/main.py:59-65 | `process_data` and `calculate_statistics` give the same line, word and character counts |
| `SampleApp.Main` | codebase/main.py:9-47 | exit code 0 or 1; 0 if and only if an argument is given, the file exists, it can be read and its text is not blank; on 0 the printed report is the formatted `process_data` result, and on 1 nothing is reported |
| `SampleApp.MainRejectsMissingInput` | codebase/python-examples/main.py:15-24 | a missing argument or a missing file fails with 1 before anything is read |
| `SampleApp.MainReport` | codebase/python-examples/main.py:37-43 | on success the report has six lines: the title, the rule, the line, word and character entries in that order, and the rule |
| `PyStrings.Strip` | codebase/utils.py:17 | the stripped text is empty exactly for whitespace-only text; otherwise it is the slice from the first to the last non-whitespace character |
| `PyStrings.StripPadding` | codebase/utils.py:21 | whitespace around a text does not change its stripped form |
| `PyStrings.SplitOn` | codebase/utils.py:21 | one piece more than the separators, none containing the separator |
| `PyStrings.JoinSplitOn` | codebase/utils.py:61-62 | joining the pieces with the separator gives the text back |
| `PyStrings.SplitOnJoin` | codebase/utils.py:61-62 | splitting a join of separator-free pieces gives the pieces back |
| `PyStrings.WordsStrip` | codebase/utils.py:62 | stripping a text does not change its words |
| `PyStrings.WordsJoin` | codebase/utils.py:62 | the words of lines joined by whitespace are the words of each line, in order |
| `PyStrings.WordCountSumIsWords` | codebase/main.py:63 | the per-line word counts add up to the number of words of all the lines |
| `PyStrings.ParseIntToString` | codebase/utils.py:45 | the printed integer is non-empty and parses back to the integer |

## Left out

- Printing and logging are not modelled (`print` calls, the usage and error messages). Only the exit codes and the report text `main` prints on success are kept.
- The averages of `calculate_statistics` (`avg_line_length`, `avg_word_length`) are float divisions. `TextStats.CalculateStatistics` returns their numerators and divisors instead. `format_output` is modelled for integer values only, so the `str()` rendering of floats is left out too.
- LangChain's loaders, parsers and splitters are foreign code. They are tags recording their arguments. What a loader loads and how a splitter cuts text are parameters: the documents handed to `Chunks.MergeDocuments`, and the chunk list handed to `Chunks.AppendTextEntry`.
- The parser branch of `process_code_files` (lightrag_poc.py:251-257) is not modelled, not even as a tag. It calls `GenericLoader.from_filesystem(dir_path_abs, glob="*", suffixes=[file_ext], ...)`, which reads from disk every file directly inside the bucket's directory whose suffix equals the lower-cased extension. It does not read the bucket's own file list. So the model's filter and grouping do not bound what that branch ingests:
  - a file that `IgnoreFile.KeptPaths` drops is still loaded when a kept file with the same extension sits in the same directory. For example, with `codebase/secrets.py` in `.lightragignore` and `codebase/app.py` kept, the `.py` bucket of `./codebase` reloads `secrets.py`;
  - a file whose suffix differs from the bucket's key in case, such as `A.PY` in the `.py` bucket, is not loaded.
- File system access is not modelled: `os.walk`, `os.path.exists`, `open`, `os.path.relpath` and `os.path.abspath`. Walked paths and relative paths are plain inputs. `pathlib.Path(...).as_posix()` is modelled (`Pathlib.AsPosix`) for POSIX systems only; Windows drives and `\` separators are left out.
- `Glob`: `fnmatch` bracket classes (`[abc]`, `[!x]`) and the `os.path.normcase` step are not modelled. No pattern of the code uses brackets, and `normcase` changes nothing on POSIX.
- Case mapping is ASCII only. `str.lower` and `str.capitalize` change only ASCII letters; Unicode case mapping is left out. `str.isspace` is modelled with Python's full set of whitespace characters.
- Newline translation when reading files (`\r\n` to `\n`) is not modelled. Files are taken to contain `\n` line ends already.
- The async driver of `process_code_files` is not modelled: its `try`/`except` around loading, the progress messages, and the loop that glues the grouping to the branches. The pieces it runs are modelled one by one.
- The rest of the application is not part of this model, because it only calls the core: the RAG store, embeddings, the LLM client, configuration, `lightrag_poc/main.py`, `lightrag_poc/codebase_processor.py`, and the query loop of `lightrag_poc.py`.
- Paths.Dirname: its contract states only that the directory is a prefix of the path. The exact value is stated by `Paths.DirnameOfJoin` and `Paths.DirnameOfName`, for the path shapes the walk produces.
- `Chunks.ParsedChunk` takes the metadata values as strings. A parser that reports a `Language` enum member would print its own representation in the header, and that is not modelled.
