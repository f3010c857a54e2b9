/**
 The chunks `process_code_files` hands to the RAG store. Each chunk's text starts
 with a header naming its file, content type and language. The chunks are
 collected per source file in `file_chunks`, a list of `(path, chunks)` entries.
 */
module Chunks {
  import opened Optional
  import opened PyStrings
  import opened Grouping
  import Paths
  import FileHelpers

  /** The four parts an enhanced chunk is built from. */
  datatype Chunk = Chunk(source: string, contentType: string, language: string, content: string)

  /**
   The f-string `File: {rel_path}\nType: {content_type}\nLanguage: {language}\n\n{content}`,
   grouped line by line.
   */
  function ChunkText(c: Chunk): string {
    "File: " + c.source + "\n" + ("Type: " + c.contentType + "\n" + ("Language: " + c.language + "\n" + ("\n" + c.content)))
  }

  /** A header field can be read back only when it has no line break. */
  predicate OneLine(s: string) {
    '\n' !in s
  }

  predicate HeaderFieldsOneLine(c: Chunk) {
    OneLine(c.source) && OneLine(c.contentType) && OneLine(c.language)
  }

  // ---------------------------------------------------------------------------
  // Reading a header back

  /** Where the first line of `s` ends: the position of its first newline, or `|s|`. */
  function LineEnd(s: string): (n: nat)
    ensures n <= |s|
    ensures forall k :: 0 <= k < n ==> s[k] != '\n'
    ensures n < |s| ==> s[n] == '\n'
    decreases |s|
  {
    if s == [] then 0 else if s[0] == '\n' then 0 else 1 + LineEnd(s[1..])
  }

  lemma {:induction false} LineEndOf(v: string, rest: string)
    requires OneLine(v)
    ensures LineEnd(v + "\n" + rest) == |v|
    decreases |v|
  {
    if v != [] {
      assert (v + "\n" + rest)[1..] == v[1..] + "\n" + rest;
      LineEndOf(v[1..], rest);
    }
  }

  /** `prefix` followed by the rest of a line: that rest, and what follows its newline. */
  function TakeField(s: string, prefix: string): Option<(string, string)> {
    if StartsWith(s, prefix) then
      var t := s[|prefix|..];
      var n := LineEnd(t);
      if n < |t| then Some((t[..n], t[n + 1..])) else None
    else None
  }

  lemma TakeFieldOf(prefix: string, v: string, rest: string)
    requires OneLine(v)
    ensures TakeField(prefix + v + "\n" + rest, prefix) == Some((v, rest))
  {
    var s := prefix + v + "\n" + rest;
    assert s[..|prefix|] == prefix;
    assert s[|prefix|..] == v + "\n" + rest;
    LineEndOf(v, rest);
    assert (v + "\n" + rest)[..|v|] == v;
    assert (v + "\n" + rest)[|v| + 1..] == rest;
  }

  /** Splits an enhanced chunk back into its header fields and its content. */
  function ParseChunk(text: string): Option<Chunk> {
    match TakeField(text, "File: ")
    case None => None
    case Some((source, r1)) =>
      match TakeField(r1, "Type: ")
      case None => None
      case Some((contentType, r2)) =>
        match TakeField(r2, "Language: ")
        case None => None
        case Some((language, r3)) =>
          if StartsWith(r3, "\n") then Some(Chunk(source, contentType, language, r3[1..])) else None
  }

  /** The header is unambiguous: when its fields have no line break, the chunk text gives them back, and the content too. */
  lemma ChunkRoundTrip(c: Chunk)
    requires HeaderFieldsOneLine(c)
    ensures ParseChunk(ChunkText(c)) == Some(c)
  {
    var r3 := "\n" + c.content;
    var r2 := "Language: " + c.language + "\n" + r3;
    var r1 := "Type: " + c.contentType + "\n" + r2;
    TakeFieldOf("File: ", c.source, r1);
    ParseFieldsAfterFile(c, r1, r2, r3);
  }

  lemma ParseFieldsAfterFile(c: Chunk, r1: string, r2: string, r3: string)
    requires HeaderFieldsOneLine(c)
    requires r3 == "\n" + c.content
    requires r2 == "Language: " + c.language + "\n" + r3
    requires r1 == "Type: " + c.contentType + "\n" + r2
    requires TakeField(ChunkText(c), "File: ") == Some((c.source, r1))
    ensures ParseChunk(ChunkText(c)) == Some(c)
  {
    TakeFieldOf("Type: ", c.contentType, r2);
    TakeFieldOf("Language: ", c.language, r3);
    assert StartsWith(r3, "\n") && r3[1..] == c.content;
  }

  /** Two chunks with one-line header fields have the same text only when they are the same chunk. */
  lemma ChunkTextInjective(c: Chunk, d: Chunk)
    requires HeaderFieldsOneLine(c) && HeaderFieldsOneLine(d)
    requires ChunkText(c) == ChunkText(d)
    ensures c == d
  {
    ChunkRoundTrip(c);
    ChunkRoundTrip(d);
  }

  // ---------------------------------------------------------------------------
  // The chunks of the two branches

  /** Python's `ext[1:]`: everything after the first character, or nothing. */
  function DropFirst(s: string): string {
    if s == [] then [] else s[1..]
  }

  /** The text branch's language: the extension without its dot, or `txt` for a file without one. */
  function TextLanguage(ext: string): string {
    if ext != [] then DropFirst(ext) else "txt"
  }

  /** A chunk of the text branch: content type `text`. */
  function TextChunk(relPath: string, ext: string, content: string): Chunk {
    Chunk(relPath, "text", TextLanguage(ext), content)
  }

  /**
   A chunk of the parser branch: content type and language come from the document's
   metadata, defaulting to `code` and to the extension without its dot.
   */
  function ParsedChunk(relPath: string, ext: string, metadata: map<string, string>, content: string): Chunk {
    Chunk(relPath,
          if "content_type" in metadata then metadata["content_type"] else "code",
          if "language" in metadata then metadata["language"] else DropFirst(ext),
          content)
  }

  /**
   For a file with an extension, the text branch's language is the lower-cased
   extension without its dot: a name with no dot and no slash in it.
   */
  lemma TextLanguageOfPath(path: string)
    ensures var ext := FileHelpers.LowerExt(path);
      if ext == [] then TextLanguage(ext) == "txt"
      else "." + TextLanguage(ext) == ext && '.' !in TextLanguage(ext) && '/' !in TextLanguage(ext)
  {
    var e := Paths.Ext(path);
    var ext := FileHelpers.LowerExt(path);
    assert |ext| == |e| && forall i :: 0 <= i < |e| ==> ext[i] == LowerChar(e[i]);
    if e != [] {
      assert e[0] == '.' && '/' !in e && '.' !in e[1..];
      assert ext[0] == '.';
      forall i | 1 <= i < |ext| ensures ext[i] != '.' && ext[i] != '/' {
        assert e[1..][i - 1] == e[i];
      }
      assert ext == [ext[0]] + ext[1..];
    }
  }

  /**
   The two branches label a file with an extension alike when the parser reports no
   language: both name the extension without its dot. They differ in content type.
   */
  lemma BranchesAgreeOnLanguage(relPath: string, ext: string, content: string)
    requires ext != []
    ensures TextChunk(relPath, ext, content).language == ParsedChunk(relPath, ext, map[], content).language
    ensures TextChunk(relPath, ext, content).contentType == "text"
    ensures ParsedChunk(relPath, ext, map[], content).contentType == "code"
  {
  }

  /** A text-branch chunk of a walked file reads back to its path, its extension and its content. */
  lemma TextChunkRoundTrip(relPath: string, path: string, content: string)
    requires OneLine(relPath) && OneLine(FileHelpers.LowerExt(path))
    ensures var ext := FileHelpers.LowerExt(path);
      ParseChunk(ChunkText(TextChunk(relPath, ext, content))) ==
        Some(Chunk(relPath, "text", if ext == [] then "txt" else ext[1..], content))
  {
    var ext := FileHelpers.LowerExt(path);
    var c := TextChunk(relPath, ext, content);
    TextLanguageOfPath(path);
    assert OneLine(c.language) by {
      if ext != [] {
        assert forall i :: 0 <= i < |c.language| ==> c.language[i] == ext[i + 1];
      }
    }
    ChunkRoundTrip(c);
  }

  // ---------------------------------------------------------------------------
  // file_chunks

  /** The chunk texts of the documents whose source is `s`, in load order. */
  function ChunksOf(docs: seq<(string, string)>, s: string): (r: seq<string>)
    ensures |r| <= |docs|
    ensures forall c :: c in r <==> exists i :: 0 <= i < |docs| && docs[i] == (s, c)
    decreases |docs|
  {
    if docs == [] then []
    else
      var rest := ChunksOf(docs[1..], s);
      assert forall i :: 1 <= i < |docs| ==> docs[i] == docs[1..][i - 1];
      (if docs[0].0 == s then [docs[0].1] else []) + rest
  }

  /**
   The parser branch over the documents of one loader, each a `(source, chunk text)`
   pair: every chunk is merged into the entry of its source, found or created.
   */
  function MergeDocuments(fileChunks: seq<Bucket>, docs: seq<(string, string)>): seq<Bucket>
    decreases |docs|
  {
    if docs == [] then fileChunks
    else MergeDocuments(AddToBucket(fileChunks, docs[0].0, docs[0].1), docs[1..])
  }

  /**
   Merging keeps one entry per source: each source's entry gains exactly the chunks
   of its documents, in load order, existing entries stay in place, no entry is
   left empty, and every chunk is kept.
   */
  lemma {:induction false} MergeDocumentsSpec(fileChunks: seq<Bucket>, docs: seq<(string, string)>)
    ensures var r := MergeDocuments(fileChunks, docs);
      && |r| >= |fileChunks|
      && (forall i :: 0 <= i < |fileChunks| ==> r[i].key == fileChunks[i].key)
      && (DistinctKeys(fileChunks) ==> DistinctKeys(r))
      && (NoEmptyBucket(fileChunks) ==> NoEmptyBucket(r))
      && Total(r) == Total(fileChunks) + |docs|
    decreases |docs|
  {
    if docs != [] {
      MergeDocumentsSpec(AddToBucket(fileChunks, docs[0].0, docs[0].1), docs[1..]);
    }
  }

  /** The entry of source `s` after merging is its old chunks followed by the chunks its documents gave, in order. */
  lemma {:induction false} MergeDocumentsLookup(fileChunks: seq<Bucket>, docs: seq<(string, string)>, s: string)
    ensures Lookup(MergeDocuments(fileChunks, docs), s) == Lookup(fileChunks, s) + ChunksOf(docs, s)
    decreases |docs|
  {
    if docs != [] {
      var next := AddToBucket(fileChunks, docs[0].0, docs[0].1);
      AddToBucketLookup(fileChunks, docs[0].0, docs[0].1, s);
      MergeDocumentsLookup(next, docs[1..], s);
    }
  }

  /** The text branch's step: an entry is appended for the file only when it gave at least one chunk. */
  function AppendTextEntry(fileChunks: seq<Bucket>, path: string, chunks: seq<string>): seq<Bucket> {
    if chunks != [] then fileChunks + [Bucket(path, chunks)] else fileChunks
  }

  /**
   The text branch never adds an empty entry, and for a file that has no entry yet
   it keeps one entry per source and files exactly the file's chunks under it.
   */
  lemma AppendTextEntrySpec(fileChunks: seq<Bucket>, path: string, chunks: seq<string>)
    ensures var r := AppendTextEntry(fileChunks, path, chunks);
      && (NoEmptyBucket(fileChunks) ==> NoEmptyBucket(r))
      && Total(r) == Total(fileChunks) + |chunks|
      && (FindKey(fileChunks, path).None? ==> Lookup(r, path) == chunks)
      && (FindKey(fileChunks, path).None? && DistinctKeys(fileChunks) ==> DistinctKeys(r))
      && (forall s :: s != path ==> Lookup(r, s) == Lookup(fileChunks, s))
  {
    var r := AppendTextEntry(fileChunks, path, chunks);
    if chunks != [] {
      assert r[..|r| - 1] == fileChunks;
      if FindKey(fileChunks, path).None? {
        FindKeyFirst(r, path, |fileChunks|);
      }
      forall s | s != path ensures Lookup(r, s) == Lookup(fileChunks, s) {
        FindKeyAgrees(fileChunks, r, s);
      }
    }
  }
}
