/** The server's state: the stored definitions, the open documents and the
    key and file-name settings, with the handlers that change them. */
module Backend {
  import opened Wrappers
  import opened TextUtil
  import opened Definitions
  import opened TreeSitterHelper

  /** What the parser and the query engine hand back for a file's text. */
  datatype ParsedFile = ParsedFile(text: string, tree: seq<SyntaxNode>, matches: seq<seq<Capture>>)

  /** A translation file as `read_translation` sees it: its path, its file
      name, its extension, and its parsed contents or `None` when it could
      not be read. */
  datatype SourceFile = SourceFile(path: string, fileName: string, extension: Option<string>, contents: Option<ParsedFile>)

  /** Why a file contributed nothing: reading failed, or its structure is
      not one the server understands. */
  datatype ReadError = Unreadable | InvalidTranslationFileStructure

  /** An open editor document: URI, language id, version and text. */
  datatype OpenDocument = OpenDocument(uri: string, languageId: string, version: int, text: string)

  /** The parser's output is a tree whose `translation_value` captures are
      value nodes (the source panics otherwise). */
  predicate Parseable(f: SourceFile)
  {
    f.contents.Some? ==>
      WellFormed(f.contents.value.tree, f.contents.value.text) &&
      CapturesValid(f.contents.value.tree, f.contents.value.text, f.contents.value.matches)
  }

  /** The language the file-name `details` expression captures, if any. */
  function FileLanguage(details: Option<string -> Option<string>>, fileName: string): Option<string>
  {
    match details
    case None => None
    case Some(re) => re(fileName)
  }

  /** Every definition of `definitions`, moved to `file`. */
  function Tagged(definitions: seq<Definition>, file: TranslationFile): seq<Definition>
  {
    seq(|definitions|, k requires 0 <= k < |definitions| => definitions[k].(file := Some(file)))
  }

  /** What reading `f` yields: an error, or the file's definitions, each
      tagged with the file's path and file-name language. The query is the
      intended one (`IntendedQuerySource`), so a YAML file loads too. */
  function Loaded(f: SourceFile, config: KeyConfig, details: Option<string -> Option<string>>): (r: Result<seq<Definition>, ReadError>)
    requires Parseable(f)
    ensures r == Err(Unreadable) <==> f.contents.None?
    ensures r.Ok? <==> f.contents.Some? && f.extension.Some? && LanguageByExtension(f.extension.value).Some?
    ensures r.Ok? ==> forall k :: 0 <= k < |r.value| ==>
              r.value[k].file == Some(TranslationFile(f.path, FileLanguage(details, f.fileName)))
  {
    if f.contents.None? then Err(Unreadable)
    else if f.extension.None? || LanguageByExtension(f.extension.value).None? || IntendedQuerySource(f.extension.value).None? then
      Err(InvalidTranslationFileStructure)
    else
      var p := f.contents.value;
      ValueNodesValid(p.tree, p.text, p.matches);
      Ok(Tagged(ParsedDefinitions(p.tree, p.text, ValueNodes(p.matches), config), TranslationFile(f.path, FileLanguage(details, f.fileName))))
  }

  /** `read_translation` as written: `None` where the `unwrap` of
      `Query::new` (src/tree_sitter_helper.rs:37) fails on the query source
      `get_query_source_by_language` returns, otherwise what `Loaded` gives. */
  function LoadedAsWritten(f: SourceFile, config: KeyConfig, details: Option<string -> Option<string>>): Option<Result<seq<Definition>, ReadError>>
    requires Parseable(f)
  {
    if f.contents.Some? && f.extension.Some? && QuerySourceByLanguage(f.extension.value).Some?
       && !QueryAccepted(QuerySourceByLanguage(f.extension.value).value)
    then None
    else Some(Loaded(f, config, details))
  }

  /** As written, reading any YAML file that can be read fails at the query,
      while reading any other file gives what `Loaded` gives. */
  lemma YamlReadPanics(f: SourceFile, config: KeyConfig, details: Option<string -> Option<string>>)
    requires Parseable(f)
    ensures LoadedAsWritten(f, config, details).None? <==>
              f.contents.Some? && f.extension.Some? && LanguageByExtension(f.extension.value) == Some(Yaml)
    ensures LoadedAsWritten(f, config, details).Some? ==> LoadedAsWritten(f, config, details).value == Loaded(f, config, details)
  {
    if f.extension.Some? {
      var ext := f.extension.value;
      if LanguageByExtension(ext) == Some(Yaml) {
        YamlQueryRejected(ext);
      } else if LanguageByExtension(ext) == Some(Json) {
        assert QuerySourceByLanguage(ext) == Some(BundledFile("./queries/json.scm"));
      }
    }
  }

  /** The definitions stored after reading `files` in order into an empty
      list: each file's definitions go in front of those read before. */
  function AfterReads(files: seq<SourceFile>, config: KeyConfig, details: Option<string -> Option<string>>): seq<Definition>
    requires forall f <- files :: Parseable(f)
    decreases |files|
  {
    if files == [] then []
    else
      var last := Loaded(files[|files| - 1], config, details);
      (if last.Ok? then last.value else []) + AfterReads(files[..|files| - 1], config, details)
  }

  /** `d` is tagged with one of `files`: its path and file-name language. */
  predicate FromOneOf(d: Definition, files: seq<SourceFile>, details: Option<string -> Option<string>>)
  {
    exists i :: 0 <= i < |files| && d.file == Some(TranslationFile(files[i].path, FileLanguage(details, files[i].fileName)))
  }

  lemma FromOneOfPrefix(d: Definition, files: seq<SourceFile>, n: nat, details: Option<string -> Option<string>>)
    requires n <= |files| && FromOneOf(d, files[..n], details)
    ensures FromOneOf(d, files, details)
  {
    var i :| 0 <= i < n && d.file == Some(TranslationFile(files[..n][i].path, FileLanguage(details, files[..n][i].fileName)));
    assert files[..n][i] == files[i];
  }

  /** Every stored definition comes from one of the files read, and carries
      that file's path and file-name language. */
  lemma {:induction false} AfterReadsProvenance(files: seq<SourceFile>, config: KeyConfig, details: Option<string -> Option<string>>)
    requires forall f <- files :: Parseable(f)
    ensures forall k :: 0 <= k < |AfterReads(files, config, details)| ==> FromOneOf(AfterReads(files, config, details)[k], files, details)
    decreases |files|
  {
    if files != [] {
      var n := |files| - 1;
      var init := files[..n];
      assert forall f <- init :: f in files;
      var earlier := AfterReads(init, config, details);
      AfterReadsProvenance(init, config, details);
      var last := Loaded(files[n], config, details);
      var front := if last.Ok? then last.value else [];
      var all := AfterReads(files, config, details);
      assert all == front + earlier;
      forall k | 0 <= k < |all|
        ensures FromOneOf(all[k], files, details)
      {
        if k < |front| {
          assert all[k] == front[k];
          assert all[k].file == Some(TranslationFile(files[n].path, FileLanguage(details, files[n].fileName)));
        } else {
          assert all[k] == earlier[k - |front|];
          FromOneOfPrefix(all[k], files, n, details);
        }
      }
    } else {
      assert AfterReads(files, config, details) == [];
    }
  }

  /** Files that all fail to load leave the list empty. */
  lemma {:induction false} AfterReadsAllFailed(files: seq<SourceFile>, config: KeyConfig, details: Option<string -> Option<string>>)
    requires forall f <- files :: Parseable(f)
    requires forall i :: 0 <= i < |files| ==> Loaded(files[i], config, details).Err?
    ensures AfterReads(files, config, details) == []
    decreases |files|
  {
    if files != [] {
      var n := |files| - 1;
      assert forall f <- files[..n] :: f in files;
      AfterReadsAllFailed(files[..n], config, details);
    }
  }

  /** `get_translation_files_from_config` after glob expansion: the included
      files that are not excluded, in their order; nothing is excluded when
      no exclude patterns are configured. */
  function FilesFromConfig(includes: seq<string>, excludes: Option<seq<string>>): (r: seq<string>)
    ensures forall f :: f in r <==> f in includes && (excludes.Some? ==> f !in excludes.value)
    ensures excludes.None? ==> r == includes
  {
    var excluded := excludes.GetOr([]);
    Filter(includes, (f: string) => f !in excluded)
  }

  /** A successful read yields the parsed definitions moved to the file. */
  lemma LoadedIsTagged(f: SourceFile, config: KeyConfig, details: Option<string -> Option<string>>, parsed: seq<Definition>)
    requires Parseable(f) && f.contents.Some? && f.extension.Some? && LanguageByExtension(f.extension.value).Some?
    requires DefinitionsFor(parsed, f.contents.value.tree, f.contents.value.text, ValueNodes(f.contents.value.matches), config)
    ensures Loaded(f, config, details) == Ok(Tagged(parsed, TranslationFile(f.path, FileLanguage(details, f.fileName))))
  {
    var p := f.contents.value;
    DefinitionsForUnique(parsed, p.tree, p.text, ValueNodes(p.matches), config);
  }

  /** The loop of `read_translation` that sets the file of every new
      definition. */
  method TagDefinitions(definitions: seq<Definition>, file: TranslationFile) returns (r: seq<Definition>)
    ensures |r| == |definitions|
    ensures forall k :: 0 <= k < |r| ==> r[k].file == Some(file)
    ensures r == Tagged(definitions, file)
  {
    r := definitions;
    var i := 0;
    while i < |r|
      invariant 0 <= i <= |r| == |definitions|
      invariant forall k :: 0 <= k < i ==> r[k] == definitions[k].(file := Some(file))
      invariant forall k :: i <= k < |r| ==> r[k] == definitions[k]
    {
      r := r[i := r[i].(file := Some(file))];
      i := i + 1;
    }
  }

  class Backend {
    var definitions: seq<Definition>
    var documents: seq<OpenDocument>
    var keyConfig: KeyConfig
    var fileNameDetails: Option<string -> Option<string>>

    /** A server with nothing stored and the default settings. */
    constructor()
      ensures definitions == [] && documents == []
      ensures keyConfig == KeyConfig(None, None) && fileNameDetails == None
    {
      definitions := [];
      documents := [];
      keyConfig := KeyConfig(None, None);
      fileNameDetails := None;
    }

    /** `read_translation`: on success the file's definitions, tagged with
        the file, go in front of the stored ones; on any error the stored
        list is left as it was. */
    method ReadTranslation(f: SourceFile) returns (r: Result<(), ReadError>)
      requires Parseable(f)
      modifies this
      ensures r.Err? <==> Loaded(f, keyConfig, fileNameDetails).Err?
      ensures r.Err? ==> r.error == Loaded(f, keyConfig, fileNameDetails).error && definitions == old(definitions)
      ensures r.Ok? ==> definitions == Loaded(f, keyConfig, fileNameDetails).value + old(definitions)
      ensures documents == old(documents) && keyConfig == old(keyConfig) && fileNameDetails == old(fileNameDetails)
    {
      if f.contents.None? {
        return Err(Unreadable);
      }
      var contents := f.contents.value;
      if f.extension.None? {
        return Err(InvalidTranslationFileStructure);
      }
      var language := LanguageByExtension(f.extension.value);
      var querySource := IntendedQuerySource(f.extension.value);
      if language.None? || querySource.None? {
        return Err(InvalidTranslationFileStructure);
      }
      var parsed := ParseTranslationStructure(contents.text, contents.tree, contents.matches, keyConfig);
      var translationFile := TranslationFile(f.path, FileLanguage(fileNameDetails, f.fileName));
      var newDefinitions := TagDefinitions(parsed.value, translationFile);
      LoadedIsTagged(f, keyConfig, fileNameDetails, parsed.value);
      definitions := newDefinitions + definitions;
      return Ok(());
    }

    /** `fetch_translations`, after the file list is known: the settings
        are replaced, the stored list is emptied, and every file is read in
        turn; the result does not depend on what was stored before. */
    method FetchTranslations(files: seq<SourceFile>, config: KeyConfig, details: Option<string -> Option<string>>)
      requires forall f <- files :: Parseable(f)
      modifies this
      ensures keyConfig == config && fileNameDetails == details
      ensures definitions == AfterReads(files, config, details)
      ensures documents == old(documents)
    {
      keyConfig := config;
      fileNameDetails := details;
      definitions := [];
      var i := 0;
      while i < |files|
        invariant 0 <= i <= |files|
        invariant keyConfig == config && fileNameDetails == details && documents == old(documents)
        invariant forall f <- files[..i] :: f in files
        invariant definitions == AfterReads(files[..i], config, details)
      {
        assert files[..i + 1][..i] == files[..i];
        var _ := ReadTranslation(files[i]);
        i := i + 1;
      }
      assert files[..i] == files;
    }

    /** `did_open`: the document is appended, even when one with the same
        URI is already open. */
    method DidOpen(doc: OpenDocument)
      modifies this
      ensures documents == old(documents) + [doc]
      ensures definitions == old(definitions) && keyConfig == old(keyConfig) && fileNameDetails == old(fileNameDetails)
    {
      documents := documents + [doc];
    }

    /** `did_close`: every document with the URI goes, the others stay in
        their order. */
    method DidClose(uri: string)
      modifies this
      ensures documents == Filter(old(documents), (d: OpenDocument) => d.uri != uri)
      ensures forall d :: d in documents <==> d in old(documents) && d.uri != uri
      ensures definitions == old(definitions) && keyConfig == old(keyConfig) && fileNameDetails == old(fileNameDetails)
    {
      documents := Filter(documents, (d: OpenDocument) => d.uri != uri);
    }
  }
}
