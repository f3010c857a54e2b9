/**
 The extension and language tables of the ingestion POC: the forward table from
 language to extensions, the inverse derived from it, the glob patterns derived
 from it, and the three lookups over them.
 */
module FileMappings {
  import opened Optional
  import opened PyStrings

  /** One item of the language table: a language and its extensions, without dots. */
  datatype Entry = Entry(language: string, extensions: seq<string>)

  /** `LANGUAGE_TO_EXTENSIONS`, items in declaration order. */
  const LanguageToExtensions: seq<Entry> := [
    Entry("python", ["py"]),
    Entry("javascript", ["js", "jsx"]),
    Entry("typescript", ["ts", "tsx"]),
    Entry("java", ["java"]),
    Entry("go", ["go"]),
    Entry("ruby", ["rb"]),
    Entry("php", ["php"]),
    Entry("c", ["c", "h"]),
    Entry("cpp", ["cpp", "hpp", "cc"]),
    Entry("csharp", ["cs"]),
    Entry("rust", ["rs"]),
    Entry("kotlin", ["kt"]),
    Entry("scala", ["scala"]),
    Entry("lua", ["lua"]),
    Entry("perl", ["pl"]),
    Entry("elixir", ["ex", "exs"]),
    Entry("sql", ["sql"]),
    Entry("cobol", ["cbl", "cob"]),
    Entry("markdown", ["md", "markdown"]),
    Entry("json", ["json"]),
    Entry("yaml", ["yaml", "yml"]),
    Entry("text", ["txt"]),
    Entry("csv", ["csv"])
  ]

  /** The languages of a table, in order. */
  function Languages(t: seq<Entry>): seq<string> {
    seq(|t|, i requires 0 <= i < |t| => t[i].language)
  }

  /** Every extension of a table, in the order the derivation loop visits them. */
  function AllExtensions(t: seq<Entry>): seq<string>
    decreases |t|
  {
    if t == [] then [] else AllExtensions(t[..|t| - 1]) + t[|t| - 1].extensions
  }

  /** The inner loop of the derivation: assign `language` to each of `exts`, in order. */
  function AssignLanguage(m: map<string, string>, language: string, exts: seq<string>): map<string, string>
    decreases |exts|
  {
    if exts == [] then m else AssignLanguage(m, language, exts[..|exts| - 1])[exts[|exts| - 1] := language]
  }

  /** The derivation loop of `EXTENSION_TO_LANGUAGE`: later assignments overwrite earlier ones. */
  function InvertTable(t: seq<Entry>): map<string, string>
    decreases |t|
  {
    if t == [] then map[] else AssignLanguage(InvertTable(t[..|t| - 1]), t[|t| - 1].language, t[|t| - 1].extensions)
  }

  /** A table as a dictionary from language to extensions; a repeated language keeps its last list. */
  function TableAsMap(t: seq<Entry>): map<string, seq<string>>
    decreases |t|
  {
    if t == [] then map[] else TableAsMap(t[..|t| - 1])[t[|t| - 1].language := t[|t| - 1].extensions]
  }

  // The list comprehension `[f"**/*.{ext}" for ext in exts]`.
  function GlobsFor(exts: seq<string>): seq<string> {
    seq(|exts|, i requires 0 <= i < |exts| => "**/*." + exts[i])
  }

  /** The pattern the catch-all language `"other"` is given. */
  const CatchAllGlob: string := "**/*.*"

  /** `LANGUAGE_TO_EXTENSIONS` as the dictionary the lookups consult. */
  const ExtensionsByLanguage: map<string, seq<string>> := TableAsMap(LanguageToExtensions)

  /** `EXTENSION_TO_LANGUAGE` */
  const ExtensionToLanguage: map<string, string> := InvertTable(LanguageToExtensions)

  /** `LANGUAGE_TO_GLOB_PATTERNS`: one pattern per extension, plus the catch-all `"other"`. */
  const LanguageToGlobPatterns: map<string, seq<string>> :=
    (map l | l in ExtensionsByLanguage :: GlobsFor(ExtensionsByLanguage[l]))["other" := [CatchAllGlob]]

  /** The extension with one leading dot removed, if it has one. */
  function CleanExtension(extension: string): string {
    if StartsWith(extension, ".") then extension[1..] else extension
  }

  /** `get_language_for_extension`: one leading dot is optional. */
  function GetLanguageForExtension(extension: string): Option<string> {
    var clean := CleanExtension(extension);
    if clean in ExtensionToLanguage then Some(ExtensionToLanguage[clean]) else None
  }

  /** `get_extensions_for_language` */
  function GetExtensionsForLanguage(language: string): seq<string> {
    if language in ExtensionsByLanguage then ExtensionsByLanguage[language] else []
  }

  /** `get_glob_patterns_for_language` */
  function GetGlobPatternsForLanguage(language: string): seq<string> {
    if language in LanguageToGlobPatterns then LanguageToGlobPatterns[language] else []
  }

  // ---------------------------------------------------------------------------
  // The derivations, for any table

  predicate DistinctStrings(xs: seq<string>) {
    forall i, j :: 0 <= i < j < |xs| ==> xs[i] != xs[j]
  }

  lemma {:induction false} AssignLanguageSpec(m: map<string, string>, language: string, exts: seq<string>)
    ensures AssignLanguage(m, language, exts).Keys == m.Keys + set e | e in exts
    ensures forall e :: e in exts ==> AssignLanguage(m, language, exts)[e] == language
    ensures forall e :: e in m && e !in exts ==> AssignLanguage(m, language, exts)[e] == m[e]
    decreases |exts|
  {
    if exts != [] {
      var init := exts[..|exts| - 1];
      AssignLanguageSpec(m, language, init);
      assert exts == init + [exts[|exts| - 1]];
    }
  }

  lemma {:induction false} AllExtensionsMembers(t: seq<Entry>)
    ensures forall e :: e in AllExtensions(t) <==> exists i :: 0 <= i < |t| && e in t[i].extensions
    decreases |t|
  {
    if t != [] {
      var init := t[..|t| - 1];
      AllExtensionsMembers(init);
      forall e ensures e in AllExtensions(t) <==> exists i :: 0 <= i < |t| && e in t[i].extensions {
        if e in AllExtensions(init) {
          var i :| 0 <= i < |init| && e in init[i].extensions;
          assert e in t[i].extensions;
        }
        if exists i :: 0 <= i < |t| && e in t[i].extensions {
          var i :| 0 <= i < |t| && e in t[i].extensions;
          if i < |init| { assert e in init[i].extensions; }
        }
      }
    }
  }

  /** The inverse holds exactly the extensions of the table, each mapped to a language whose list holds it. */
  lemma {:induction false} InvertTableSound(t: seq<Entry>)
    ensures InvertTable(t).Keys == set e | e in AllExtensions(t)
    ensures forall e :: e in InvertTable(t) ==>
      exists i :: 0 <= i < |t| && t[i].language == InvertTable(t)[e] && e in t[i].extensions
    decreases |t|
  {
    if t != [] {
      var init, last := t[..|t| - 1], t[|t| - 1];
      InvertTableSound(init);
      AssignLanguageSpec(InvertTable(init), last.language, last.extensions);
      var m := InvertTable(t);
      forall e | e in m
        ensures exists i :: 0 <= i < |t| && t[i].language == m[e] && e in t[i].extensions
      {
        if e in last.extensions {
          assert t[|t| - 1] == last;
        } else {
          var i :| 0 <= i < |init| && init[i].language == InvertTable(init)[e] && e in init[i].extensions;
          assert t[i] == init[i];
        }
      }
    }
  }

  /** A list without repeats splits into two lists without repeats that share nothing. */
  lemma DistinctSplit(xs: seq<string>, ys: seq<string>)
    requires DistinctStrings(xs + ys)
    ensures DistinctStrings(xs)
    ensures forall x :: x in xs ==> x !in ys
  {
    forall a, b | 0 <= a < b < |xs| ensures xs[a] != xs[b] {
      assert (xs + ys)[a] == xs[a] && (xs + ys)[b] == xs[b];
    }
    forall x | x in xs ensures x !in ys {
      var a :| 0 <= a < |xs| && xs[a] == x;
      forall b | 0 <= b < |ys| ensures ys[b] != x {
        assert (xs + ys)[a] == x && (xs + ys)[|xs| + b] == ys[b];
      }
    }
  }

  /** Two lists without repeats that share nothing concatenate to a list without repeats. */
  lemma DistinctAppend(xs: seq<string>, ys: seq<string>)
    requires DistinctStrings(xs) && DistinctStrings(ys)
    requires forall x :: x in xs ==> x !in ys
    ensures DistinctStrings(xs + ys)
  {
    forall a, b | 0 <= a < b < |xs + ys| ensures (xs + ys)[a] != (xs + ys)[b] {
      if a < |xs| <= b {
        assert (xs + ys)[a] in xs && (xs + ys)[b] == ys[b - |xs|];
      }
    }
  }

  /** The extension lists of two entries share no extension. */
  predicate ListsDisjoint(t: seq<Entry>, i: nat, j: nat)
    requires i < |t| && j < |t|
  {
    forall a, b :: 0 <= a < |t[i].extensions| && 0 <= b < |t[j].extensions| ==>
      t[i].extensions[a] != t[j].extensions[b]
  }

  /** Lists that repeat nothing and pairwise share nothing flatten to a list without repeats. */
  lemma {:induction false} AllExtensionsDistinct(t: seq<Entry>)
    requires forall i :: 0 <= i < |t| ==> DistinctStrings(t[i].extensions)
    requires forall i, j :: 0 <= i < j < |t| ==> ListsDisjoint(t, i, j)
    ensures DistinctStrings(AllExtensions(t))
    decreases |t|
  {
    if t != [] {
      var init, last := t[..|t| - 1], t[|t| - 1];
      assert forall i, j :: 0 <= i < j < |init| ==> ListsDisjoint(init, i, j) by {
        forall i, j | 0 <= i < j < |init| ensures ListsDisjoint(init, i, j) {
          assert init[i] == t[i] && init[j] == t[j] && ListsDisjoint(t, i, j);
        }
      }
      AllExtensionsDistinct(init);
      AllExtensionsMembers(init);
      forall x | x in AllExtensions(init) ensures x !in last.extensions {
        var i :| 0 <= i < |init| && x in init[i].extensions;
        var a :| 0 <= a < |t[i].extensions| && t[i].extensions[a] == x;
        assert init[i] == t[i] && ListsDisjoint(t, i, |t| - 1);
      }
      DistinctAppend(AllExtensions(init), last.extensions);
    }
  }

  /** With no extension listed twice, the inverse sends every listed extension to its own language. */
  lemma {:induction false} InvertTableExact(t: seq<Entry>)
    requires DistinctStrings(AllExtensions(t))
    ensures forall i, e :: 0 <= i < |t| && e in t[i].extensions ==>
      e in InvertTable(t) && InvertTable(t)[e] == t[i].language
    decreases |t|
  {
    if t != [] {
      var init, last := t[..|t| - 1], t[|t| - 1];
      DistinctSplit(AllExtensions(init), last.extensions);
      InvertTableExact(init);
      AllExtensionsMembers(init);
      AssignLanguageSpec(InvertTable(init), last.language, last.extensions);
      forall i, e | 0 <= i < |t| && e in t[i].extensions
        ensures e in InvertTable(t) && InvertTable(t)[e] == t[i].language
      {
        if i < |init| {
          assert t[i] == init[i];
          assert e in AllExtensions(init);
        }
      }
    }
  }

  /** With no language listed twice, the dictionary returns each language's own list. */
  lemma {:induction false} TableAsMapExact(t: seq<Entry>)
    requires DistinctStrings(Languages(t))
    ensures forall l :: l in TableAsMap(t) <==> l in Languages(t)
    ensures forall i :: 0 <= i < |t| ==>
      t[i].language in TableAsMap(t) && TableAsMap(t)[t[i].language] == t[i].extensions
    decreases |t|
  {
    if t != [] {
      var init := t[..|t| - 1];
      assert DistinctStrings(Languages(init)) by {
        forall a, b | 0 <= a < b < |init| ensures Languages(init)[a] != Languages(init)[b] {
          assert Languages(t)[a] == Languages(init)[a] && Languages(t)[b] == Languages(init)[b];
        }
      }
      TableAsMapExact(init);
      forall i | 0 <= i < |t|
        ensures t[i].language in TableAsMap(t) && TableAsMap(t)[t[i].language] == t[i].extensions
      {
        if i < |init| {
          assert Languages(t)[i] != Languages(t)[|t| - 1];
          assert t[i] == init[i];
        }
      }
      assert Languages(t) == Languages(init) + [t[|t| - 1].language];
    }
  }

  // ---------------------------------------------------------------------------
  // Facts about the concrete table, by evaluation

  lemma EntriesDisjointFrom0()
    ensures forall i, j :: 0 <= i < 4 && i < j < |LanguageToExtensions| ==> ListsDisjoint(LanguageToExtensions, i, j)
  {
  }

  lemma EntriesDisjointFrom4()
    ensures forall i, j :: 4 <= i < 10 && i < j < |LanguageToExtensions| ==> ListsDisjoint(LanguageToExtensions, i, j)
  {
  }

  lemma EntriesDisjointFrom10()
    ensures forall i, j :: 10 <= i < 23 && i < j < |LanguageToExtensions| ==> ListsDisjoint(LanguageToExtensions, i, j)
  {
  }

  /** No extension is listed twice in `LANGUAGE_TO_EXTENSIONS`, within one list or across two. */
  lemma ExtensionsDistinct()
    ensures DistinctStrings(AllExtensions(LanguageToExtensions))
  {
    assert forall i :: 0 <= i < |LanguageToExtensions| ==> DistinctStrings(LanguageToExtensions[i].extensions);
    EntriesDisjointFrom0();
    EntriesDisjointFrom4();
    EntriesDisjointFrom10();
    AllExtensionsDistinct(LanguageToExtensions);
  }

  /** No language is listed twice, and none of them is the catch-all `"other"`. */
  lemma LanguagesDistinct()
    ensures DistinctStrings(Languages(LanguageToExtensions))
    ensures "other" !in Languages(LanguageToExtensions)
  {
    LanguagesDistinctFrom(0, 8);
    LanguagesDistinctFrom(8, 16);
    LanguagesDistinctFrom(16, 23);
    assert forall i :: 0 <= i < |LanguageToExtensions| ==> LanguageToExtensions[i].language != "other";
  }

  lemma LanguagesDistinctFrom(lo: nat, hi: nat)
    requires (lo, hi) in {(0, 8), (8, 16), (16, 23)}
    ensures forall i, j :: lo <= i < hi && i < j < |LanguageToExtensions| ==>
      LanguageToExtensions[i].language != LanguageToExtensions[j].language
  {
  }

  /** A non-empty run of lower-case ASCII letters. */
  predicate LowerAlpha(s: string) {
    s != [] && forall k :: 0 <= k < |s| ==> 'a' <= s[k] <= 'z'
  }

  lemma ExtensionsLowerAlphaFrom0()
    ensures forall i, a :: 0 <= i < 12 && 0 <= a < |LanguageToExtensions[i].extensions| ==>
      LowerAlpha(LanguageToExtensions[i].extensions[a])
  {
  }

  lemma ExtensionsLowerAlphaFrom12()
    ensures forall i, a :: 12 <= i < |LanguageToExtensions| && 0 <= a < |LanguageToExtensions[i].extensions| ==>
      LowerAlpha(LanguageToExtensions[i].extensions[a])
  {
  }

  /** Every listed extension is a non-empty run of lower-case letters: no dot, no capital. */
  lemma ExtensionsLowerAlpha()
    ensures forall e :: e in AllExtensions(LanguageToExtensions) ==> LowerAlpha(e)
  {
    ExtensionsLowerAlphaFrom0();
    ExtensionsLowerAlphaFrom12();
    AllExtensionsMembers(LanguageToExtensions);
    forall e | e in AllExtensions(LanguageToExtensions) ensures LowerAlpha(e) {
      var i :| 0 <= i < |LanguageToExtensions| && e in LanguageToExtensions[i].extensions;
      var a :| 0 <= a < |LanguageToExtensions[i].extensions| && LanguageToExtensions[i].extensions[a] == e;
    }
  }

  // ---------------------------------------------------------------------------
  // The lookups

  /** `EXTENSION_TO_LANGUAGE` is defined on exactly the listed extensions, and its values are languages of the table. */
  lemma ExtensionToLanguageDomain()
    ensures ExtensionToLanguage.Keys == set e | e in AllExtensions(LanguageToExtensions)
    ensures forall e :: e in ExtensionToLanguage ==> ExtensionToLanguage[e] in ExtensionsByLanguage
  {
    var T := LanguageToExtensions;
    InvertTableSound(T);
    LanguagesDistinct();
    TableAsMapExact(T);
    forall e | e in ExtensionToLanguage ensures ExtensionToLanguage[e] in ExtensionsByLanguage {
      var i :| 0 <= i < |T| && T[i].language == ExtensionToLanguage[e] && e in T[i].extensions;
      assert Languages(T)[i] == T[i].language;
    }
  }

  /**
   The lookup answers `l` exactly when the extension, less one optional dot, is
   listed under `l`.
   */
  lemma LanguageForExtension(extension: string, language: string)
    ensures GetLanguageForExtension(extension) == Some(language) <==>
      exists i :: 0 <= i < |LanguageToExtensions| && LanguageToExtensions[i].language == language
        && CleanExtension(extension) in LanguageToExtensions[i].extensions
  {
    var T := LanguageToExtensions;
    var clean := CleanExtension(extension);
    InvertTableSound(T);
    ExtensionsDistinct();
    InvertTableExact(T);
    AllExtensionsMembers(T);
    if exists i :: 0 <= i < |T| && T[i].language == language && clean in T[i].extensions {
      var i :| 0 <= i < |T| && T[i].language == language && clean in T[i].extensions;
      assert ExtensionToLanguage[clean] == language;
    }
  }

  /** Every listed extension, written with or without its dot, finds the language it is listed under. */
  lemma LanguageForListedExtension(i: nat, e: string)
    requires i < |LanguageToExtensions| && e in LanguageToExtensions[i].extensions
    ensures GetLanguageForExtension(e) == Some(LanguageToExtensions[i].language)
    ensures GetLanguageForExtension("." + e) == Some(LanguageToExtensions[i].language)
  {
    AllExtensionsMembers(LanguageToExtensions);
    ExtensionsLowerAlpha();
    assert e[0] != '.';
    assert ("." + e)[1..] == e;
    LanguageForExtension(e, LanguageToExtensions[i].language);
    LanguageForExtension("." + e, LanguageToExtensions[i].language);
  }

  /** The leading dot is optional: it is removed once, and only when the rest does not start with one. */
  lemma LeadingDotOptional(e: string)
    requires !StartsWith(e, ".")
    ensures GetLanguageForExtension("." + e) == GetLanguageForExtension(e)
  {
    assert ("." + e)[1..] == e;
  }

  /**
   A lookup that succeeds was given a run of lower-case letters, after one
   optional dot: a capital letter, a second dot or an empty extension finds nothing.
   */
  lemma LanguageForExtensionIsLowerCase(extension: string)
    ensures GetLanguageForExtension(extension).Some? ==> LowerAlpha(CleanExtension(extension))
  {
    InvertTableSound(LanguageToExtensions);
    ExtensionsLowerAlpha();
  }

  /** Lookups are case-sensitive and strip at most one dot. */
  lemma UnknownSpellings()
    ensures GetLanguageForExtension("PY") == None
    ensures GetLanguageForExtension(".PY") == None
    ensures GetLanguageForExtension("..py") == None
    ensures GetLanguageForExtension("") == None
  {
    LanguageForExtensionIsLowerCase("PY");
    LanguageForExtensionIsLowerCase(".PY");
    LanguageForExtensionIsLowerCase("..py");
    LanguageForExtensionIsLowerCase("");
    assert !StartsWith("PY", ".") by { assert "PY"[0] == 'P'; }
    assert CleanExtension("PY") == "PY" && "PY"[0] == 'P';
    assert CleanExtension(".PY") == "PY" by { assert StartsWith(".PY", "."); }
    assert CleanExtension("..py") == ".py" && ".py"[0] == '.' by { assert StartsWith("..py", "."); }
  }

  /** Swift has a text splitter of its own but no entry in the language table. */
  lemma SwiftIsUnknown()
    ensures GetLanguageForExtension(".swift") == None
  {
    var T := LanguageToExtensions;
    assert forall i :: 0 <= i < |T| ==> "swift" !in T[i].extensions;
    assert ".swift"[1..] == "swift";
    forall l ensures GetLanguageForExtension(".swift") != Some(l) {
      LanguageForExtension(".swift", l);
    }
  }

  /** Each language of the table gets its own list back; anything else, `"other"` included, gets `[]`. */
  lemma ExtensionsForLanguage(language: string)
    ensures forall i :: 0 <= i < |LanguageToExtensions| && LanguageToExtensions[i].language == language ==>
      GetExtensionsForLanguage(language) == LanguageToExtensions[i].extensions
    ensures language !in Languages(LanguageToExtensions) ==> GetExtensionsForLanguage(language) == []
    ensures GetExtensionsForLanguage("other") == []
  {
    var T := LanguageToExtensions;
    LanguagesDistinct();
    TableAsMapExact(T);
    forall i | 0 <= i < |T| && T[i].language == language
      ensures GetExtensionsForLanguage(language) == T[i].extensions
    {
      assert Languages(T)[i] == T[i].language;
    }
  }

  // The patterns of a language are its extensions, each behind the prefix "**/*.",
  // in the same order; "other" has the single catch-all pattern, and any other
  // language outside the table has none.
  lemma GlobPatternsForLanguage(language: string)
    ensures language != "other" ==>
      var exts, globs := GetExtensionsForLanguage(language), GetGlobPatternsForLanguage(language);
      |globs| == |exts| && forall k :: 0 <= k < |exts| ==> globs[k] == "**/*." + exts[k]
    ensures GetGlobPatternsForLanguage("other") == ["**/*.*"]
    ensures language != "other" && language !in Languages(LanguageToExtensions) ==>
      GetGlobPatternsForLanguage(language) == []
  {
    LanguagesDistinct();
    TableAsMapExact(LanguageToExtensions);
  }

  /** The catch-all `"other"` has a pattern but no extension, and no extension finds it. */
  lemma OtherIsCatchAllOnly(extension: string)
    ensures GetGlobPatternsForLanguage("other") == [CatchAllGlob]
    ensures GetExtensionsForLanguage("other") == []
    ensures GetLanguageForExtension(extension) != Some("other")
  {
    LanguagesDistinct();
    ExtensionsForLanguage("other");
    LanguageForExtension(extension, "other");
    forall i | 0 <= i < |LanguageToExtensions| ensures LanguageToExtensions[i].language != "other" {
      assert Languages(LanguageToExtensions)[i] == LanguageToExtensions[i].language;
    }
  }

  /** The extensions filed under `python`. */
  lemma PythonExtensions(extension: string)
    ensures GetLanguageForExtension(extension) == Some("python") <==> CleanExtension(extension) == "py"
  {
    var T := LanguageToExtensions;
    LanguageForExtension(extension, "python");
    assert forall i :: 0 <= i < |T| && T[i].language == "python" ==> T[i].extensions == ["py"];
    assert T[0].language == "python";
  }

  /** The extensions filed under `javascript`. */
  lemma JavaScriptExtensions(extension: string)
    ensures GetLanguageForExtension(extension) == Some("javascript") <==> CleanExtension(extension) == "js" || CleanExtension(extension) == "jsx"
  {
    var T := LanguageToExtensions;
    LanguageForExtension(extension, "javascript");
    assert forall i :: 0 <= i < |T| && T[i].language == "javascript" ==> T[i].extensions == ["js", "jsx"];
    assert T[1].language == "javascript";
  }

  /** The extensions filed under `typescript`. */
  lemma TypeScriptExtensions(extension: string)
    ensures GetLanguageForExtension(extension) == Some("typescript") <==> CleanExtension(extension) == "ts" || CleanExtension(extension) == "tsx"
  {
    var T := LanguageToExtensions;
    LanguageForExtension(extension, "typescript");
    assert forall i :: 0 <= i < |T| && T[i].language == "typescript" ==> T[i].extensions == ["ts", "tsx"];
    assert T[2].language == "typescript";
  }
}
