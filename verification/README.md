# lsp-translations in Dafny

A model of the core of `lsp-translations`. This language server reads
translation files (JSON and YAML) into a list of *definitions*, one per
translation value. Each definition has a dotted key path, an optional cleaned
key, an optional language and the value's text. The server answers hover and
completion requests from that list and keeps the editor's open documents.

The model has eight modules:

- `Wrappers`: `Option` and `Result`.
- `TextUtil`: split, join, filter, reverse and ASCII upper-casing.
- `LineBreaks`: the line-start table of a text, `compute_line_offsets`, as a specification function and as the source's scanning loop.
- `LspDocument`: `FullTextDocument`, a class over its text, version and cached line table.
  - `offset_at` and `position_at` with its binary search.
  - `update`, with its in-place patch of the cached table.
- `StringHelper`: the translation-key locator. Its regular expression is written as a leftmost-first scanner beside a declarative statement of what a match is.
- `Definitions`: the `Definition` record and its accessors.
  - Both equality relations, the language and the flag.
  - The printable value, the hover table and completion de-duplication.
- `TreeSitterHelper`: the steps of `parse_translation_structure` that follow parsing, over an abstract syntax tree given as a node array, and a list of query captures.
  - The string-content search.
  - The key path of a value node.
  - The cleaned key and the language of a path.
  - The definitions built from the captures.
- `Backend`: the server state, as a class holding the stored definitions and the open documents.
  - `read_translation`, `fetch_translations`, `did_open`, `did_close`.
  - The exclude filter of the translation-file list.

Every loop of the source that changes state is a `method` with a `while` or `for` loop, proved against a specification function. `Vec::retain` in `did_close` is one assignment of the filtered list. The properties the source promises are proved as lemmas about those functions.

External code is passed in as a function parameter:

- the user's key and file-name regular expressions;
- `country_emoji::flag`;
- the tree-sitter parser and query engine.

## Model

| member | source | states |
|---|---|---|
| TextUtil.Split | src/main.rs:748-751 | `str::split`: the parts hold no separator, and joining them gives the text back |
| TextUtil.JoinSplit | src/main.rs:748-751 | joining the parts of a split gives back the original text |
| TextUtil.SplitJoin | src/main.rs:404-410 | splitting a join of separator-free parts gives back exactly those parts |
| TextUtil.Filter | src/main.rs:566-570 | `retain`/`filter`: keeps exactly the elements satisfying the predicate; nothing when none does; the whole list when all do |
| TextUtil.FilterConcat | src/main.rs:566-570 | filtering commutes with concatenation, so relative order is kept |
| TextUtil.ReverseConcat | src/main.rs:760 | `Vec::reverse` of a concatenation is the reversed second part followed by the reversed first part |
| TextUtil.ReverseInvolutive | src/main.rs:760 | reversing twice gives the list back, and the first element of a reversed list is the last of the input |
| TextUtil.ToUpperIdempotent | src/main.rs:750-755 | ASCII `to_uppercase` leaves no lower-case letter, upper-casing twice is upper-casing once, and a text is unchanged exactly when it holds no lower-case letter |
| TextUtil.ToUpperConcat | src/main.rs:750-755 | upper-casing distributes over concatenation, so each `-` part of an upper-cased tag is the upper-cased part |
| LineBreaks.LineOffsetsShape | src/lsp_document.rs:183-214 | the line table starts with the offset exactly when at line start; it is strictly increasing and stays within `[offset, offset+len]`; it holds `offset+p` exactly for the break ends `p`, where `"\r\n"` counts once |
| LineBreaks.BreakEndsProps | src/lsp_document.rs:198-212 | the break ends listed up to `n` are exactly the positions after a lone `\r`, a lone `\n` or a `"\r\n"`, strictly increasing |
| LineBreaks.FullTableIsLineTable | src/lsp_document.rs:156-161 | the table of a whole text starts at 0, increases strictly and ends within the text |
| LineBreaks.ComputeLineOffsets | src/lsp_document.rs:183-214 | the scanning loop returns exactly the specified line table, for either start flag and any offset |
| LineBreaks.BreakEndsConcat | src/lsp_document.rs:198-212 | cutting a text where no `"\r\n"` straddles the cut splits its break ends into those of the two halves, the second shifted |
| LspDocument.GetWellformedRange | src/lsp_document.rs:216-224 | the result's start is not after its end, and a range already in order is returned unchanged |
| LspDocument.WellformedRangeSameEnds | src/lsp_document.rs:216-224 | the same two endpoints come back, swapped exactly when start is after end |
| LspDocument.WellformedRangeIdempotent | src/lsp_document.rs:216-224 | normalising twice is normalising once |
| LspDocument.IncrementalAndFullExclusive | src/lsp_document.rs:148-154 | no change is both incremental and full; without a range length, a change is exactly one of the two |
| LspDocument.OffsetIn | src/lsp_document.rs:162-180 | a line past the table gives the text length; otherwise line start plus character when that does not pass the next line's start, exactly the next line's start when it does, and the line start when a stale table puts the next line's start before it |
| LspDocument.PositionIn | src/lsp_document.rs:105-130 | the clamped offset lies on the returned line, and that line's start plus the character is the clamped offset |
| LspDocument.LineOfUnique | src/lsp_document.rs:118-126 | in an increasing table at most one line holds an offset, so the binary search's answer is determined |
| LspDocument.OffsetPositionRoundTrip | src/lsp_document.rs:105-180 | `offset_at(position_at(o)) == o` for every offset within the text |
| LspDocument.PositionOffsetRoundTrip | src/lsp_document.rs:105-180 | `position_at(offset_at(p)) == p` for every position inside a line |
| LspDocument.OffsetInMonotone | src/lsp_document.rs:36-39 | the two ends of a well-formed range map to offsets in order |
| LspDocument.TransformOffsetToByteOffset | src/lsp_document.rs:88-104 | with one unit per character, the byte range is the character range and selects the same slices |
| LspDocument.ChangeOffsets | src/lsp_document.rs:36-39 | the replaced offsets are in order and within the text |
| LspDocument.SpliceText | src/lsp_document.rs:41-44 | the new text keeps the text before the start offset and after the end offset, with the change text in between |
| LspDocument.RebuildReplaces | src/lsp_document.rs:59-73 | rebuilding replaces exactly the entries of the replaced lines with the added ones |
| LspDocument.ShiftMovesTail | src/lsp_document.rs:74-79 | the shift moves exactly the entries after the edit |
| LspDocument.TableOfThree | src/lsp_document.rs:183-214 | the table of three joined pieces is `[0]` followed by the break ends of each piece, shifted |
| LspDocument.PatchAtOffsets | src/lsp_document.rs:47-79 | patching the old table at the edit's lines gives the table of the new text |
| LspDocument.CutsOfFit | src/lsp_document.rs:36-48 | a fitting change cuts the text at `offset_at` of its ends, on the lines the range names |
| LspDocument.PatchTable | src/lsp_document.rs:59-79 | the table update (overwrite or rebuild, then shift) computes the specified patch |
| LspDocument.RebuildTable | src/lsp_document.rs:59-73 | the overwrite loop, or the slice rebuild, gives the specified rebuilt table |
| LspDocument.ShiftTable | src/lsp_document.rs:74-79 | the shift loop moves every entry from the given index by `diff` and no other |
| LspDocument.PatchEdit | src/lsp_document.rs:47-79 | on a fitting edit, the patched table is the table of the new text |
| LspDocument.PatchedTable | src/lsp_document.rs:47-79 | the table left by a patch is never empty and keeps its first entry |
| LspDocument.Step | src/lsp_document.rs:33-85 | an incremental change gets through exactly when its offsets, the overwrite index and every shifted entry are defined on the table held, and leaves a cached table; a full change gives its text and no cache; any other change leaves the state |
| LspDocument.RunPrefix | src/lsp_document.rs:32-86 | when all changes get through, so does every prefix of them |
| LspDocument.IncrementalFitting | src/lsp_document.rs:34-79 | a fitting change on the text's own table gets through, at the offsets of `offset_at`, and the patched table is the table of the spliced text |
| LspDocument.StepFitting | src/lsp_document.rs:33-85 | a fitting change on a current table gives the specified new text and keeps the table current |
| LspDocument.RunFitting | src/lsp_document.rs:32-86 | fitting changes on a current table all get through, give `ApplyChanges` of the text and keep the table current |
| LspDocument.PatchPastLineEnd | src/lsp_document.rs:38-79 | as written: inserting `"x"` at line 0, character 5 of `"a\nb"` caches `[0, 3]`, while the table of `"a\nxb"` is `[0, 2]` |
| LspDocument.SpliceAndPatch | src/lsp_document.rs:34-79 | the text is spliced at the offsets read from the table held and that table is patched at the range's lines; on the text's own table and a fitting change, the result is the spliced text and its exact table |
| LspDocument.SpliceAndPatchAtOffsetLines | src/lsp_document.rs:34-79 | corrected: patching at the lines that hold the two offsets gives the spliced text and its exact table for every range, positions past a line end included |
| LspDocument.FullTextDocument.constructor | src/lsp_document.rs:21-30 | the fields are as given, nothing is cached, and the state is current |
| LspDocument.FullTextDocument.GetLineOffsets | src/lsp_document.rs:156-161 | returns the cache when present; otherwise computes the table of the whole text from 0 and caches it |
| LspDocument.FullTextDocument.OffsetAt | src/lsp_document.rs:162-180 | the clamped offset of the position over the table held, which is the text's own when it is current; the text and version are unchanged |
| LspDocument.FullTextDocument.PositionAt | src/lsp_document.rs:105-143 | an empty table held gives line 0 and the clamped offset, any other gives a line whose range holds the clamped offset and the character within it, and a current table gives the one line holding it |
| LspDocument.FullTextDocument.LineCount | src/lsp_document.rs:145-147 | the length of the table held; on a current table, the number of lines of the text |
| LspDocument.FullTextDocument.ApplyIncremental | src/lsp_document.rs:34-79 | the text is spliced at the offsets read from the table held, and the cache becomes the patched table; when the table was current and the change fits, that is the table of the new text |
| LspDocument.FullTextDocument.ApplyChange | src/lsp_document.rs:33-85 | the new text and cache are one `Step`: incremental splice and patched cache, full text and empty cache, otherwise unchanged; the version is set |
| LspDocument.FullTextDocument.Update | src/lsp_document.rs:32-86 | the new text and cache are the changes run in order (`Run`); fitting changes on a current table give `ApplyChanges` and keep it current; the version is set only when some change was processed |
| StringHelper.AltKeySound | src/string_helper.rs:33-40 | one alternative's scan finds a key exactly when that prefix is followed by a non-empty, line-break-free key and a closing quote |
| StringHelper.MatchWithSound | src/string_helper.rs:33-40 | the alternation tries the prefixes in table order and finds a match at a position exactly when one exists there |
| StringHelper.FirstMatchSound | src/string_helper.rs:44 | the scanner's match is a match, and no match starts before it |
| StringHelper.FirstMatchIsLeftmost | src/string_helper.rs:44 | the scanner returns the leftmost match, and it is unique at its start |
| StringHelper.MatchAtUnique | src/string_helper.rs:33-40 | lazy `.+?` with alternation order: at most one match starts at a position |
| StringHelper.FindTranslationKeyByPosition | src/string_helper.rs:43-54 | a returned key is non-empty and holds no line break |
| StringHelper.FindTranslationKeySpec | src/string_helper.rs:43-54 | returns the leftmost match's key text exactly when `pos` is in its half-open key range, otherwise `None` |
| StringHelper.FindTranslationKeyNoMatch | src/string_helper.rs:43-54 | text without any match gives `None` at every position |
| StringHelper.LaterMatchIgnored | src/string_helper.rs:44 | a position inside a later call's key gives `None` |
| StringHelper.TwoCallsMatches | src/string_helper.rs:6-16 | `translate('a');translate('b')` has a match at 0 and another at 15 |
| StringHelper.SecondCallNotFound | src/string_helper.rs:43-54 | as written: at offset 26, inside the second key, the locator returns `None` |
| StringHelper.MatchHoldingSound | src/string_helper.rs:33-40 | the scan over successive non-overlapping matches returns a match of the expression |
| StringHelper.FindTranslationKeyInAnyCall | src/string_helper.rs:43-54 | corrected locator: a returned key is non-empty |
| StringHelper.InAnyCallSound | src/string_helper.rs:43-54 | corrected locator: the key returned is that of a match whose key range holds `pos` |
| StringHelper.InAnyCallExtendsFirst | src/string_helper.rs:43-54 | corrected locator: wherever the first-match locator finds a key, it finds the same key |
| StringHelper.SecondCallFoundInAnyCall | src/string_helper.rs:43-54 | corrected locator: at offset 26 of the two-call text it returns `"b"` |
| Definitions.Identifier | src/main.rs:731-734 | the cleaned key when there is one, the key otherwise |
| Definitions.EqualsKey | src/main.rs:721-728 | `def == s` holds exactly when the identifier equals `s` |
| Definitions.Equals | src/main.rs:712-719 | `self == other` compares cleaned keys when `self` has one, with `other`'s `None` unequal, and keys otherwise |
| Definitions.EqualsReflexive | src/main.rs:712-719 | every definition equals itself |
| Definitions.EqualsNotSymmetric | src/main.rs:712-719 | equal keys without and with a cleaned key: `a == b` but not `b == a` |
| Definitions.Language | src/main.rs:736-741 | the definition's own language first, else its file's language |
| Definitions.FlagCandidatesOrder | src/main.rs:748-760 | after the reverse, candidates are `"US"` (only for `EN`), then the full upper-cased tag, then the `-` parts upper-cased, last part first; this is the code's order, although the comment at line 759 puts the full tag first |
| Definitions.FirstFlag | src/main.rs:762-769 | a returned flag is some candidate's flag; `None` exactly when no candidate has a flag |
| Definitions.FirstFlagIsFirst | src/main.rs:762-769 | the flag returned is that of the first candidate that has one |
| Definitions.GetFlag | src/main.rs:744-770 | the loop returns the specified flag; no language gives no flag |
| Definitions.EnShowsUsFlag | src/tests/definition.rs:4-14 | language `en` shows the `US` flag whenever that exists |
| Definitions.EscapeDebug | src/main.rs:775 | the escaped text holds no line break |
| Definitions.ReplaceBarConcat | src/main.rs:775 | the bar replacement distributes over concatenation |
| Definitions.PrintableValue | src/main.rs:772-776 | the printable value holds no line break |
| Definitions.PrintableConcat | src/main.rs:775 | the printable text of a concatenation is the concatenation of the printable texts |
| Definitions.PrintableBarAndNewline | src/tests/definition.rs:16-43 | between plain parts, a `\|` in the value prints as a backslash and a bar, and a line break as a backslash and `n` |
| Definitions.PrintableRoundTrip | src/main.rs:772-776 | reading the escapes back gives the original value |
| Definitions.PrintablePlain | src/tests/definition.rs:45-56 | a value with no character needing an escape (Arabic text included) is printed as it is |
| Definitions.EscapedCharShape | src/main.rs:775 | a character needing no escape prints as itself, any other as a backslash and a character that reads back as it; `\|` prints as a backslash and a bar, a line break as a backslash and `n` |
| Definitions.DetailByKey | src/main.rs:376-420 | `None` exactly when no stored definition equals the key; otherwise the header and one row per match, in stored order |
| Definitions.TableLines | src/main.rs:395-417 | the table splits into the two header lines followed by one line per row |
| Definitions.DetailLines | src/main.rs:376-420 | with flags and languages free of line breaks, the hover text's lines are the header lines and then one row per matching definition |
| Definitions.HoverWithoutLanguage | src/tests/hover_per_language_file.rs:118 | two definitions of a key without a language give `\|translation\|`, `\|-`, then `\|value` per definition |
| Definitions.UniqueByIdentifier | src/main.rs:604 | every kept definition comes from the list and has an identifier not already seen |
| Definitions.Completion | src/main.rs:604-619 | one item per unique definition; each item's label equals its inserted text |
| Definitions.UniqueDistinct | src/main.rs:604 | the kept definitions have pairwise distinct identifiers |
| Definitions.UniqueKeeps | src/main.rs:604 | every identifier not already seen is represented among the kept definitions |
| Definitions.UniqueIsFirstOccurrences | src/main.rs:604 | `unique_by` equals an independent first-occurrence filter built from the end of the list |
| Definitions.CompletionSpec | src/main.rs:590-622 | the completion labels are the identifiers of the first occurrences, in order, pairwise distinct, and cover every stored identifier |
| TreeSitterHelper.LanguageByExtension | src/tree_sitter_helper.rs:9-15 | `json` gives the JSON grammar; `yaml` and `yml` give YAML; anything else, `php` included, gives `None` |
| TreeSitterHelper.QuerySourceByLanguage | src/tree_sitter_helper.rs:17-23 | `Some` for exactly the extensions that have a grammar; for YAML it is the literal path text |
| TreeSitterHelper.YamlQueryRejected | src/tree_sitter_helper.rs:17-37 | as written: the YAML query source is a text that `Query::new` rejects at its first character |
| TreeSitterHelper.IntendedQuerySource | src/tree_sitter_helper.rs:17-23 | corrected: a query source exactly for the extensions with a grammar, always accepted, and the same as written for JSON |
| TreeSitterHelper.NodeText | src/tree_sitter_helper.rs:63 | a node's text is the slice of the source text at its range |
| TreeSitterHelper.FirstContent | src/tree_sitter_helper.rs:117-141 | a result is a string-content node among the visited ones; `None` exactly when none is |
| TreeSitterHelper.GetStringContent | src/tree_sitter_helper.rs:117-141 | corrected: the sibling loop, recursing into `plain_scalar` children other than the node itself, returns the first string-content node of the depth-first visit |
| TreeSitterHelper.LoneScalarNeverReturns | src/tree_sitter_helper.rs:117-134 | as written: on a childless `plain_scalar` the search recurses on the same node, and no step budget is enough |
| TreeSitterHelper.LoneScalarFindsNothing | src/tree_sitter_helper.rs:117-141 | corrected: the same tree gives `None` |
| TreeSitterHelper.RenderJoins | src/tree_sitter_helper.rs:90-95 | with non-empty segments the path is the segments joined by `"."`; it is empty exactly when there are none |
| TreeSitterHelper.RenderSplits | src/tree_sitter_helper.rs:90-95 | segments free of dots are read back by splitting the path at its dots |
| TreeSitterHelper.GetPathForNode | src/tree_sitter_helper.rs:74-106 | the walk to the root returns the key texts of the `pair` nodes on the way, outermost first, dot-separated |
| TreeSitterHelper.CleanedKeyForPath | src/tree_sitter_helper.rs:143-149 | `None` without a filter; otherwise what the filter captures in the path with line breaks removed |
| TreeSitterHelper.CleanedKeyIgnoresNewlines | src/tree_sitter_helper.rs:146 | removing line breaks from the path first does not change the cleaned key |
| TreeSitterHelper.LanguageForPath | src/tree_sitter_helper.rs:151-158 | `None` without a details expression; otherwise its `language` capture in the path |
| TreeSitterHelper.MakeDefinition | src/tree_sitter_helper.rs:56-64 | key is the node's path, value is the node's text, and there is no file |
| TreeSitterHelper.ValueNodesValid | src/tree_sitter_helper.rs:46-55 | every `translation_value` capture collected is a node the source can turn into a definition |
| TreeSitterHelper.ParsedDefinitions | src/tree_sitter_helper.rs:46-66 | one definition per collected node, in order |
| TreeSitterHelper.DefinitionsForUnique | src/tree_sitter_helper.rs:46-66 | the definitions matching a node list are determined by it |
| TreeSitterHelper.ParseTranslationStructure | src/tree_sitter_helper.rs:25-72 | always `Some`; exactly one definition per `translation_value` capture, in match-then-capture order |
| Backend.Loaded | src/main.rs:310-372 | corrected: with the intended bundled YAML query, `Unreadable` exactly when reading fails, success exactly when the extension has a grammar, and every loaded definition tagged with the file's path and file-name language |
| Backend.YamlReadPanics | src/tree_sitter_helper.rs:17-37 | as written: a readable YAML file fails at the query's `unwrap`, and any other file reads as `Loaded` says |
| Backend.AfterReadsProvenance | src/main.rs:228-241 | every definition stored by a fetch carries the path and file-name language of one of the files read |
| Backend.AfterReadsAllFailed | src/main.rs:228-241 | if every file fails to load, a fetch leaves the list empty |
| Backend.FilesFromConfig | src/main.rs:139-148 | a file is kept exactly when it is included and not excluded; with no excludes configured, the list is unchanged |
| Backend.LoadedIsTagged | src/main.rs:356-361 | a successful read yields the parsed definitions, each moved to the file |
| Backend.TagDefinitions | src/main.rs:356-358 | the loop sets the file of every new definition and changes nothing else |
| Backend.Backend.constructor | src/main.rs:175-183 | a new server has no definitions and no documents, and default settings |
| Backend.Backend.ReadTranslation | src/main.rs:310-372 | with the intended YAML query, on error the stored list is unchanged, and on success it becomes the file's tagged definitions followed by the old list |
| Backend.Backend.FetchTranslations | src/main.rs:203-248 | settings replaced; the list emptied and refilled from the files in order, independent of what was stored before |
| Backend.Backend.DidOpen | src/main.rs:532-541 | the document is appended, even if one with the same URI is open |
| Backend.Backend.DidClose | src/main.rs:561-570 | every document with the URI is removed; the others stay, in order |

## Left out

- The LSP transport and the async handlers: `initialize`, configuration reading, capability registration, client logging and `main`. They are I/O over tower-lsp.
- The `Arc<Mutex<Cell<…>>>` state and the `try_lock` failure paths. Their point is concurrency. `Definitions.DetailByKey` and `Definitions.Completion` take the stored list as a parameter.
- Glob expansion, `to_file_path`, `is_file`, `unique` and `fs::read_to_string`. These are filesystem I/O.
  - `Backend.FilesFromConfig` takes the expanded include and exclude lists.
  - A `SourceFile` carries its contents, or `None` when it cannot be read, and its extension as a field.
- The tree-sitter parser, its query engine and the C grammars. These are foreign code.
  - The model receives the syntax tree as a node array with parent, children, key field and range.
  - It receives the query's matches as lists of named captures.
  - The query text for JSON is kept only as a reference to its bundled file.
- The user's regular expressions and `country_emoji::flag`. These are external libraries, modelled as uninterpreted functions from text to an optional capture.
- `escape_debug` beyond the characters `\0 \t \r \n \\ ' "`. Its escaping of other non-printable or non-ASCII characters (`\u{…}`) is not modelled.
- Unicode `to_uppercase`: the model upper-cases ASCII letters only.
- UTF-16 positions and the byte/character conversion. Text is a sequence of characters and offsets count characters.
- 32- and 64-bit integer widths (`u32` lines, the `i32` diff in `update`). Integers are unbounded.
- `get_editing_range`, `is_editing_position`, `TRANSLATION_BEGIN_CHARS`, `TRANSLATION_KEY_DIVIDER` and the `completion` handler's editing range. These are not defined in src/string_helper.rs.
- src/full_text_document.rs, a thin wrapper around an external text index. `Backend.OpenDocument` keeps only its fields.
- `did_change`, which calls into that external index.
- The `None` arm of `read_translation`'s match on `parse_translation_structure`. It is dead because that function always returns `Some`, which `TreeSitterHelper.ParseTranslationStructure` proves.
- Debug output (`dbg!`, `println!`, `eprintln!`).
- TreeSitterHelper.GetStringContent: does not recurse into a childless `plain_scalar`; see Findings.
- TreeSitterHelper.QueryAccepted: takes the bundled query files to be valid queries and judges a literal query by its first character only. Tree-sitter's query parser is foreign code.
- TreeSitterHelper.GetPathForNode: requires every `pair` on the way to the root to have a key with string content. The source panics on `unwrap` otherwise.
- TreeSitterHelper.ParseTranslationStructure: requires valid captures (`CapturesValid`), for the same reason.
- Backend.Backend.ReadTranslation: requires the parsed file to be valid (`Parseable`), for the same reason.
- LspDocument.FullTextDocument.ApplyChange: requires that the source gets through the change (`Step` is `Some`). Excluded are an overwrite past the table's end, where the source panics (line 61), and a shifted entry below zero, which the source's `as usize` wraps around (line 77).
- LspDocument.FullTextDocument.ApplyIncremental: requires the same (`IncrementalDefined`).
- LspDocument.FullTextDocument.Update: requires the same of every change in turn (`Run` is `Some`).
- LspDocument.FullTextDocument.PositionAt: requires the first entry of a non-empty table held to lie at or before the clamped offset. Otherwise the source fails at `low - 1` (line 126); only a stale table can cause that.
- LspDocument.SpliceAndPatchAtOffsetLines: still requires that no `"\r\n"` is split or formed at the edges of the edit.
- LineBreaks.ComputeLineOffsets: uses a `nat` offset where the source has `usize`.

## Findings

| source | as written | input that shows it | evidently intended | confidence | as-written member | corrected member |
|---|---|---|---|---|---|---|
| src/string_helper.rs:43-54 | only the first match of the expression in the whole text is examined (`captures`), so a key in any later call is never found | text `translate('a');translate('b')`, position 26 (the `b`): returns `None` | the key of the call whose key range holds the position, here `"b"`, as the test at src/tests/string_helper.rs:41-58 expects | not executed | StringHelper.SecondCallNotFound | StringHelper.SecondCallFoundInAnyCall |
| src/lsp_document.rs:38-79 | the table is patched at the lines the range names, while `offset_at` clamps a position past the end of its line onto the start of the next line | text `"a\nb"`, insert `"x"` at line 0, character 5: the cached table becomes `[0, 3]` | the cached table is the table of the new text `"a\nxb"`, `[0, 2]` | not executed | LspDocument.PatchPastLineEnd | LspDocument.SpliceAndPatchAtOffsetLines |
| src/tree_sitter_helper.rs:117-134 | when `goto_first_child` finds no child the cursor stays on the node, and a `plain_scalar` there is searched again with the same argument | a `plain_scalar` node without children: unbounded recursion | a node without children holds no string content, so the search returns `None` | not executed | TreeSitterHelper.LoneScalarNeverReturns | TreeSitterHelper.GetStringContent |
| src/tree_sitter_helper.rs:17-37 | for `yaml` and `yml` the query source is the path text `"./queries/yaml.scm"`, not the file's contents; `Query::new` rejects a query opening with `.`, so the `unwrap` at line 37 fails | any readable `.yaml` or `.yml` file | the contents of the bundled `queries/yaml.scm`, read like `json.scm`, so YAML files load, as src/tests/completion_yml.rs expects | not executed | Backend.YamlReadPanics | Backend.Loaded |
