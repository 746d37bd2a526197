/** The translation indexer of src/tree_sitter_helper.rs. The parser and the
    query engine are foreign code: the model receives the syntax tree they
    build (an arena of nodes, each naming its parent, its children in order,
    its `key` field and its byte range) and the captures of the query, match
    by match. The configured key expressions are functions. Offsets count
    characters. */
module TreeSitterHelper {
  import opened Wrappers
  import opened TextUtil
  import opened Definitions

  // ----- grammar and query per extension -----

  /** The two grammars the indexer knows. */
  datatype Grammar = Json | Yaml

  /** Where the query text comes from: the bundled `json.scm` file, or a
      literal string used as the query itself. */
  datatype QuerySource = BundledFile(path: string) | Literal(text: string)

  /** `get_language_by_extension`: `json`, and `yaml` or `yml`. */
  function LanguageByExtension(ext: string): (r: Option<Grammar>)
    ensures r == Some(Json) <==> ext == "json"
    ensures r == Some(Yaml) <==> ext == "yaml" || ext == "yml"
    ensures r.None? <==> ext !in {"json", "yaml", "yml"}
  {
    match ext
    case "json" => Some(Json)
    case "yaml" => Some(Yaml)
    case "yml" => Some(Yaml)
    case _ => None
  }

  /** `get_query_source_by_language`: for yaml the "source" is the path text
      itself, not the file's contents. */
  function QuerySourceByLanguage(ext: string): (r: Option<QuerySource>)
    ensures r.Some? <==> LanguageByExtension(ext).Some?
    ensures LanguageByExtension(ext) == Some(Yaml) ==> r == Some(Literal("./queries/yaml.scm"))
  {
    match ext
    case "json" => Some(BundledFile("./queries/json.scm"))
    case "yaml" => Some(Literal("./queries/yaml.scm"))
    case "yml" => Some(Literal("./queries/yaml.scm"))
    case _ => None
  }

  /** Whether a character can begin a query text. Tree-sitter's query syntax
      allows white space and `;` comments before the first pattern, and a
      pattern opens with `(`, `[`, `"`, `_` or an identifier character (a
      letter, a digit or `-`); any other first character is a syntax error. */
  predicate OpensQuery(c: char)
  {
    c == ' ' || c == '\t' || c == '\r' || c == '\n' || c == ';' ||
    c == '(' || c == '[' || c == '"' || c == '_' || c == '-' ||
    ('a' <= c <= 'z') || ('A' <= c <= 'Z') || ('0' <= c <= '9')
  }

  /** Whether `Query::new` gets past the start of a query source. The
      bundled query files are taken to be valid queries; of a literal text
      only the first character is judged. */
  predicate QueryAccepted(src: QuerySource)
  {
    match src
    case BundledFile(_) => true
    case Literal(t) => |t| > 0 && OpensQuery(t[0])
  }

  /** As written, the YAML query source is the path text itself, which opens
      with `.`: `Query::new` rejects it and the `unwrap` at line 37 fails. */
  lemma YamlQueryRejected(ext: string)
    requires LanguageByExtension(ext) == Some(Yaml)
    ensures QuerySourceByLanguage(ext).Some?
    ensures !QueryAccepted(QuerySourceByLanguage(ext).value)
  {
    assert QuerySourceByLanguage(ext).value.text[0] == '.';
  }

  /** The query source the YAML grammar evidently needs: the bundled
      `yaml.scm` file, read like `json.scm`. */
  function IntendedQuerySource(ext: string): (r: Option<QuerySource>)
    ensures r.Some? <==> LanguageByExtension(ext).Some?
    ensures r.Some? ==> QueryAccepted(r.value)
    ensures LanguageByExtension(ext) == Some(Json) ==> r == QuerySourceByLanguage(ext)
  {
    match ext
    case "json" => Some(BundledFile("./queries/json.scm"))
    case "yaml" => Some(BundledFile("./queries/yaml.scm"))
    case "yml" => Some(BundledFile("./queries/yaml.scm"))
    case _ => None
  }

  // ----- the syntax tree -----

  /** One node of the syntax tree. */
  datatype SyntaxNode = SyntaxNode(
    kind: string,
    parent: Option<nat>,
    children: seq<nat>,
    keyField: Option<nat>,
    startByte: nat,
    endByte: nat)

  /** Node `n` is placed as in a tree: its parent comes before it, its
      children after it, its `key` field is one of its children and its range
      lies in the text. */
  predicate NodeFits(tree: seq<SyntaxNode>, text: string, n: nat)
    requires n < |tree|
  {
    var node := tree[n];
    (node.parent.Some? ==> node.parent.value < n) &&
    (forall j :: 0 <= j < |node.children| ==> n < node.children[j] < |tree|) &&
    (node.keyField.Some? ==> node.keyField.value in node.children) &&
    node.startByte <= node.endByte <= |text|
  }

  predicate WellFormed(tree: seq<SyntaxNode>, text: string)
  {
    forall n :: 0 <= n < |tree| ==> NodeFits(tree, text, n)
  }

  /** The text a node spans. */
  function NodeText(tree: seq<SyntaxNode>, text: string, n: nat): (s: string)
    requires WellFormed(tree, text) && n < |tree|
    ensures |s| == tree[n].endByte - tree[n].startByte
  {
    assert NodeFits(tree, text, n);
    text[tree[n].startByte..tree[n].endByte]
  }

  // ----- string content of a key -----

  /** `STRING_CONTENT_KINDS`. */
  const StringContentKinds: seq<string> := ["string_content", "string_scalar", "single_quote_scalar", "double_quote_scalar"]

  predicate IsContent(tree: seq<SyntaxNode>, n: nat)
    requires n < |tree|
  {
    tree[n].kind in StringContentKinds
  }

  /** The nodes the sibling cursor visits: the children, or the node itself
      when `goto_first_child` finds none and the cursor stays put. */
  function Candidates(tree: seq<SyntaxNode>, n: nat): seq<nat>
    requires n < |tree|
  {
    if tree[n].children == [] then [n] else tree[n].children
  }

  /** The order in which the search looks at nodes: each candidate, and
      right after a `plain_scalar` candidate everything below it. */
  function Dfs(tree: seq<SyntaxNode>, text: string, n: nat): (r: seq<nat>)
    requires WellFormed(tree, text) && n < |tree|
    ensures forall j :: 0 <= j < |r| ==> n <= r[j] < |tree|
    decreases |tree| - n, 1, 0
  {
    assert NodeFits(tree, text, n);
    DfsList(tree, text, n, Candidates(tree, n))
  }

  function DfsList(tree: seq<SyntaxNode>, text: string, n: nat, cs: seq<nat>): (r: seq<nat>)
    requires WellFormed(tree, text) && n < |tree|
    requires forall j :: 0 <= j < |cs| ==> n <= cs[j] < |tree|
    ensures forall j :: 0 <= j < |r| ==> n <= r[j] < |tree|
    decreases |tree| - n, 0, |cs| + 1
  {
    if cs == [] then []
    else
      var c := cs[0];
      [c] + Below(tree, text, n, c) + DfsList(tree, text, n, cs[1..])
  }

  /** What the search looks at right after candidate `c` of `n`: the nodes
      below a `plain_scalar`, nothing below any other kind. */
  function Below(tree: seq<SyntaxNode>, text: string, n: nat, c: nat): (r: seq<nat>)
    requires WellFormed(tree, text) && n <= c < |tree|
    ensures forall j :: 0 <= j < |r| ==> n <= r[j] < |tree|
    decreases |tree| - n, 0, 0
  {
    if tree[c].kind == "plain_scalar" && c != n then Dfs(tree, text, c) else []
  }

  /** The first string-content node of a list. */
  function FirstContent(tree: seq<SyntaxNode>, ns: seq<nat>): (r: Option<nat>)
    requires forall j :: 0 <= j < |ns| ==> ns[j] < |tree|
    ensures r.Some? ==> r.value in ns && IsContent(tree, r.value)
    ensures r.None? <==> forall j :: 0 <= j < |ns| ==> !IsContent(tree, ns[j])
    decreases |ns|
  {
    if ns == [] then None
    else if IsContent(tree, ns[0]) then Some(ns[0])
    else
      var r := FirstContent(tree, ns[1..]);
      assert forall j :: 1 <= j < |ns| ==> ns[j] == ns[1..][j - 1];
      r
  }

  lemma {:induction false} FirstContentConcat(tree: seq<SyntaxNode>, a: seq<nat>, b: seq<nat>)
    requires forall j :: 0 <= j < |a| ==> a[j] < |tree|
    requires forall j :: 0 <= j < |b| ==> b[j] < |tree|
    ensures FirstContent(tree, a + b) == if FirstContent(tree, a).Some? then FirstContent(tree, a) else FirstContent(tree, b)
    decreases |a|
  {
    if a == [] {
      assert a + b == b;
    } else {
      FirstContentConcat(tree, a[1..], b);
      assert (a + b)[0] == a[0];
      assert (a + b)[1..] == a[1..] + b;
    }
  }

  /** One step of the search: a content candidate is the answer, then what
      lies below it, then the candidates after it. */
  lemma SearchStep(tree: seq<SyntaxNode>, text: string, n: nat, cs: seq<nat>, k: nat)
    requires WellFormed(tree, text) && n < |tree| && k < |cs|
    requires forall j :: 0 <= j < |cs| ==> n <= cs[j] < |tree|
    ensures var c := cs[k];
            var below := Below(tree, text, n, c);
            FirstContent(tree, DfsList(tree, text, n, cs[k..])) ==
              if IsContent(tree, c) then Some(c)
              else if FirstContent(tree, below).Some? then FirstContent(tree, below)
              else FirstContent(tree, DfsList(tree, text, n, cs[k + 1..]))
  {
    var c := cs[k];
    var below := Below(tree, text, n, c);
    var rest := DfsList(tree, text, n, cs[k + 1..]);
    assert DfsList(tree, text, n, cs[k..]) == [c] + below + rest by {
      assert cs[k..][0] == c && cs[k..][1..] == cs[k + 1..];
    }
    FirstContentConcat(tree, [c] + below, rest);
    FirstContentConcat(tree, [c], below);
  }

  /** `get_string_content_from_string`: the first string-content node in
      the search order below `n`. A `plain_scalar` without children is
      skipped where the source would recurse on the same node forever. */
  method GetStringContent(tree: seq<SyntaxNode>, text: string, n: nat) returns (r: Option<nat>)
    requires WellFormed(tree, text) && n < |tree|
    ensures r == FirstContent(tree, Dfs(tree, text, n))
    decreases |tree| - n
  {
    assert NodeFits(tree, text, n);
    var cs := Candidates(tree, n);
    var k := 0;
    while k < |cs|
      invariant 0 <= k <= |cs|
      invariant FirstContent(tree, Dfs(tree, text, n)) == FirstContent(tree, DfsList(tree, text, n, cs[k..]))
    {
      var c := cs[k];
      SearchStep(tree, text, n, cs, k);
      if IsContent(tree, c) {
        return Some(c);
      }
      if tree[c].kind == "plain_scalar" && c != n {
        var result := GetStringContent(tree, text, c);
        if result.Some? {
          return result;
        }
      }
      k := k + 1;
    }
    return None;
  }

  /** The search as the source writes it, with a step budget: `None` when
      the budget runs out. The source recurses into every `plain_scalar`
      candidate, the node itself included, so a childless `plain_scalar`
      is searched again with the same argument. */
  function SearchAsWritten(tree: seq<SyntaxNode>, text: string, n: nat, fuel: nat): Option<Option<nat>>
    requires WellFormed(tree, text) && n < |tree|
    decreases fuel, 0, 0
  {
    assert NodeFits(tree, text, n);
    if fuel == 0 then None else ScanAsWritten(tree, text, Candidates(tree, n), fuel - 1)
  }

  function ScanAsWritten(tree: seq<SyntaxNode>, text: string, cs: seq<nat>, fuel: nat): Option<Option<nat>>
    requires WellFormed(tree, text)
    requires forall j :: 0 <= j < |cs| ==> cs[j] < |tree|
    decreases fuel, 1, |cs|
  {
    if cs == [] then Some(None)
    else
      var c := cs[0];
      if IsContent(tree, c) then Some(Some(c))
      else if tree[c].kind == "plain_scalar" then
        match SearchAsWritten(tree, text, c, fuel)
        case None => None
        case Some(Some(x)) => Some(Some(x))
        case Some(None) => ScanAsWritten(tree, text, cs[1..], fuel)
      else ScanAsWritten(tree, text, cs[1..], fuel)
  }

  /** A tree holding one `plain_scalar` without children. */
  const LoneScalar: seq<SyntaxNode> := [SyntaxNode("plain_scalar", None, [], None, 0, 0)]

  /** As written, the search of a childless `plain_scalar` never returns:
      every budget runs out. */
  lemma {:induction false} LoneScalarNeverReturns(fuel: nat)
    ensures WellFormed(LoneScalar, "")
    ensures SearchAsWritten(LoneScalar, "", 0, fuel).None?
    decreases fuel
  {
    assert NodeFits(LoneScalar, "", 0);
    if fuel > 0 {
      LoneScalarNeverReturns(fuel - 1);
      assert Candidates(LoneScalar, 0) == [0];
      assert !IsContent(LoneScalar, 0);
    }
  }

  /** The search this model uses ends on the same tree, finding nothing. */
  lemma LoneScalarFindsNothing()
    ensures WellFormed(LoneScalar, "")
    ensures FirstContent(LoneScalar, Dfs(LoneScalar, "", 0)) == None
  {
    assert NodeFits(LoneScalar, "", 0);
    assert Candidates(LoneScalar, 0) == [0];
    assert Below(LoneScalar, "", 0, 0) == [];
    assert DfsList(LoneScalar, "", 0, [0][1..]) == [];
    assert Dfs(LoneScalar, "", 0) == [0];
    assert !IsContent(LoneScalar, 0);
  }

  // ----- key path -----

  /** The segment a `pair` node adds: the text of the string content of its
      `key` child; `None` where the source's `unwrap` would fail. */
  function Segment(tree: seq<SyntaxNode>, text: string, n: nat): Option<string>
    requires WellFormed(tree, text) && n < |tree|
  {
    assert NodeFits(tree, text, n);
    match tree[n].keyField
    case None => None
    case Some(k) =>
      match FirstContent(tree, Dfs(tree, text, k))
      case None => None
      case Some(c) => Some(NodeText(tree, text, c))
  }

  /** The segments of the `pair` nodes from the root down to `n`, outermost
      first; `None` when one of them has none. */
  function SegmentsTo(tree: seq<SyntaxNode>, text: string, n: nat): Option<seq<string>>
    requires WellFormed(tree, text) && n < |tree|
    decreases n
  {
    assert NodeFits(tree, text, n);
    var above := if tree[n].parent.Some? then SegmentsTo(tree, text, tree[n].parent.value) else Some([]);
    if tree[n].kind != "pair" then above
    else match (above, Segment(tree, text, n))
      case (Some(a), Some(s)) => Some(a + [s])
      case _ => None
  }

  /** How `get_path_for_node` strings segments together: each segment goes
      in front, followed by a dot when the path so far is not empty. */
  function Render(segments: seq<string>): string
    decreases |segments|
  {
    if segments == [] then ""
    else
      var rest := Render(segments[1..]);
      segments[0] + (if rest != "" then "." else "") + rest
  }

  /** With non-empty segments the path is the segments joined by dots; it is
      empty when there is no segment. */
  lemma {:induction false} RenderJoins(segments: seq<string>)
    requires forall i :: 0 <= i < |segments| ==> segments[i] != ""
    ensures Render(segments) == Join(segments, '.')
    ensures Render(segments) == "" <==> segments == []
    decreases |segments|
  {
    if |segments| > 1 {
      RenderJoins(segments[1..]);
      assert Render(segments[1..]) != "" by {
        assert segments[1..][0] == segments[1];
      }
    }
  }

  /** Segments that are non-empty and hold no dot can be read back by
      splitting the path at its dots. */
  lemma RenderSplits(segments: seq<string>)
    requires |segments| >= 1
    requires forall i :: 0 <= i < |segments| ==> segments[i] != "" && '.' !in segments[i]
    ensures Split(Render(segments), '.') == segments
  {
    RenderJoins(segments);
    SplitJoin(segments, '.');
  }

  /** The segments of the nodes above `n`: none at the root. */
  function Above(tree: seq<SyntaxNode>, text: string, n: nat): seq<string>
    requires WellFormed(tree, text) && n < |tree|
  {
    assert NodeFits(tree, text, n);
    if tree[n].parent.Some? then SegmentsTo(tree, text, tree[n].parent.value).GetOr([]) else []
  }

  /** What visiting node `n` contributes: nothing unless it is a `pair`,
      whose key then has string content that is added below the segments
      of the nodes above. */
  lemma PathStep(tree: seq<SyntaxNode>, text: string, n: nat)
    requires WellFormed(tree, text) && n < |tree| && SegmentsTo(tree, text, n).Some?
    ensures tree[n].parent.Some? ==> tree[n].parent.value < n && SegmentsTo(tree, text, tree[n].parent.value).Some?
    ensures tree[n].kind != "pair" ==> SegmentsTo(tree, text, n).value == Above(tree, text, n)
    ensures tree[n].kind == "pair" ==>
              tree[n].keyField.Some? && tree[n].keyField.value < |tree| &&
              FirstContent(tree, Dfs(tree, text, tree[n].keyField.value)).Some? &&
              SegmentsTo(tree, text, n).value ==
                Above(tree, text, n) + [NodeText(tree, text, FirstContent(tree, Dfs(tree, text, tree[n].keyField.value)).value)]
  {
    assert NodeFits(tree, text, n);
  }

  /** One step of the walk up: the segments still to be rendered at `cur`
      followed by those already rendered, `below`, are the segments above
      `cur` followed by `below` grown by what `cur` contributes. */
  lemma PathAdvance(tree: seq<SyntaxNode>, text: string, start: nat, cur: nat, below: seq<string>)
    requires WellFormed(tree, text) && start < |tree| && cur < |tree|
    requires SegmentsTo(tree, text, start).Some? && SegmentsTo(tree, text, cur).Some?
    requires SegmentsTo(tree, text, start).value == SegmentsTo(tree, text, cur).value + below
    ensures tree[cur].parent.Some? ==> tree[cur].parent.value < cur && SegmentsTo(tree, text, tree[cur].parent.value).Some?
    ensures tree[cur].parent.Some? ==> Above(tree, text, cur) == SegmentsTo(tree, text, tree[cur].parent.value).value
    ensures tree[cur].parent.None? ==> Above(tree, text, cur) == []
    ensures tree[cur].kind != "pair" ==> SegmentsTo(tree, text, start).value == Above(tree, text, cur) + below
    ensures tree[cur].kind == "pair" ==>
              tree[cur].keyField.Some? && tree[cur].keyField.value < |tree| &&
              FirstContent(tree, Dfs(tree, text, tree[cur].keyField.value)).Some? &&
              var segment := NodeText(tree, text, FirstContent(tree, Dfs(tree, text, tree[cur].keyField.value)).value);
              SegmentsTo(tree, text, start).value == Above(tree, text, cur) + ([segment] + below) &&
              Render([segment] + below) == segment + (if Render(below) != "" then "." else "") + Render(below)
  {
    PathStep(tree, text, cur);
    if tree[cur].kind == "pair" {
      var segment := NodeText(tree, text, FirstContent(tree, Dfs(tree, text, tree[cur].keyField.value)).value);
      PrependSegment(SegmentsTo(tree, text, start).value, Above(tree, text, cur), segment, below);
    }
  }

  /** Moving a segment from the part still to render to the front of the
      rendered part keeps the whole and renders as `get_path_for_node`
      builds its string. */
  lemma PrependSegment(all: seq<string>, above: seq<string>, segment: string, below: seq<string>)
    requires all == (above + [segment]) + below
    ensures all == above + ([segment] + below)
    ensures Render([segment] + below) == segment + (if Render(below) != "" then "." else "") + Render(below)
  {
    assert ([segment] + below)[1..] == below;
  }

  /** `get_path_for_node`: from the value node up to the root, every `pair`
      puts the text of its key in front of the path. */
  method GetPathForNode(tree: seq<SyntaxNode>, text: string, start: nat) returns (path: string)
    requires WellFormed(tree, text) && start < |tree|
    requires SegmentsTo(tree, text, start).Some?
    ensures path == Render(SegmentsTo(tree, text, start).value)
  {
    var cur: nat := start;
    path := "";
    ghost var below: seq<string> := [];
    while true
      invariant cur < |tree| && SegmentsTo(tree, text, cur).Some?
      invariant SegmentsTo(tree, text, start).value == SegmentsTo(tree, text, cur).value + below
      invariant path == Render(below)
      decreases cur
    {
      PathAdvance(tree, text, start, cur, below);
      var node := tree[cur];
      if node.kind == "pair" {
        var content := GetStringContent(tree, text, node.keyField.value);
        var segment := NodeText(tree, text, content.value);
        path := segment + (if path != "" then "." else "") + path;
        below := [segment] + below;
      }
      if node.parent.None? {
        assert [] + below == below;
        return;
      }
      cur := node.parent.value;
    }
  }

  // ----- cleaned key and language -----

  /** The key settings: the filter and details expressions, each as the
      function from a text to the capture it yields (group 1 of the filter,
      the `language` group of the details). */
  datatype KeyConfig = KeyConfig(filter: Option<string -> Option<string>>, details: Option<string -> Option<string>>)

  /** `path.replace("\n", "")`. */
  function WithoutNewlines(s: string): string
  {
    Filter(s, (c: char) => c != '\n')
  }

  /** `get_cleaned_key_for_path`: nothing without a filter, otherwise what
      the filter captures in the path with its line breaks removed. */
  function CleanedKeyForPath(path: string, config: KeyConfig): (r: Option<string>)
    ensures config.filter.None? ==> r.None?
  {
    match config.filter
    case None => None
    case Some(filter) => filter(WithoutNewlines(path))
  }

  /** Line breaks in the path make no difference to the cleaned key. */
  lemma CleanedKeyIgnoresNewlines(path: string, config: KeyConfig)
    ensures CleanedKeyForPath(WithoutNewlines(path), config) == CleanedKeyForPath(path, config)
  {
    var p := WithoutNewlines(path);
    assert forall i :: 0 <= i < |p| ==> p[i] != '\n';
  }

  /** `get_language_for_path`: nothing without a details expression,
      otherwise what it captures in the path as it is. */
  function LanguageForPath(path: string, config: KeyConfig): (r: Option<string>)
    ensures config.details.None? ==> r.None?
  {
    match config.details
    case None => None
    case Some(details) => details(path)
  }

  // ----- definitions from captures -----

  /** One capture of a query match: its name and the node it captured. */
  datatype Capture = Capture(name: string, node: nat)

  /** A node the source can turn into a definition: it exists and every
      `pair` above it has a key with string content. */
  predicate ValueNode(tree: seq<SyntaxNode>, text: string, n: nat)
  {
    WellFormed(tree, text) && n < |tree| && SegmentsTo(tree, text, n).Some?
  }

  predicate CapturesValid(tree: seq<SyntaxNode>, text: string, matches: seq<seq<Capture>>)
  {
    forall i, j :: 0 <= i < |matches| && 0 <= j < |matches[i]| && matches[i][j].name == "translation_value" ==>
      ValueNode(tree, text, matches[i][j].node)
  }

  /** The `translation_value` nodes of one match, in capture order. */
  function ValueNodesOf(captures: seq<Capture>): seq<nat>
    decreases |captures|
  {
    if captures == [] then []
    else
      var last := captures[|captures| - 1];
      ValueNodesOf(captures[..|captures| - 1]) + (if last.name == "translation_value" then [last.node] else [])
  }

  /** The `translation_value` nodes of all matches, match after match. */
  function ValueNodes(matches: seq<seq<Capture>>): seq<nat>
    decreases |matches|
  {
    if matches == [] then []
    else ValueNodes(matches[..|matches| - 1]) + ValueNodesOf(matches[|matches| - 1])
  }

  /** The definition the source pushes for a value node. */
  function MakeDefinition(tree: seq<SyntaxNode>, text: string, n: nat, config: KeyConfig): (d: Definition)
    requires ValueNode(tree, text, n)
    ensures d.key == Render(SegmentsTo(tree, text, n).value)
    ensures d.value == NodeText(tree, text, n) && d.file.None?
  {
    var path := Render(SegmentsTo(tree, text, n).value);
    Definition(path, CleanedKeyForPath(path, config), None, LanguageForPath(path, config), NodeText(tree, text, n))
  }

  /** `definitions` holds one definition per node of `nodes`, in order, and
      each of those nodes is a value node. */
  predicate DefinitionsFor(definitions: seq<Definition>, tree: seq<SyntaxNode>, text: string, nodes: seq<nat>, config: KeyConfig)
  {
    |definitions| == |nodes| &&
    forall k :: 0 <= k < |nodes| ==> ValueNode(tree, text, nodes[k]) && definitions[k] == MakeDefinition(tree, text, nodes[k], config)
  }

  /** The definitions of `nodes`, one per node, in order. */
  function ParsedDefinitions(tree: seq<SyntaxNode>, text: string, nodes: seq<nat>, config: KeyConfig): (r: seq<Definition>)
    requires forall k :: 0 <= k < |nodes| ==> ValueNode(tree, text, nodes[k])
    ensures DefinitionsFor(r, tree, text, nodes, config)
  {
    seq(|nodes|, k requires 0 <= k < |nodes| => MakeDefinition(tree, text, nodes[k], config))
  }

  /** Only one list of definitions corresponds to a list of nodes. */
  lemma DefinitionsForUnique(definitions: seq<Definition>, tree: seq<SyntaxNode>, text: string, nodes: seq<nat>, config: KeyConfig)
    requires DefinitionsFor(definitions, tree, text, nodes, config)
    ensures forall k :: 0 <= k < |nodes| ==> ValueNode(tree, text, nodes[k])
    ensures definitions == ParsedDefinitions(tree, text, nodes, config)
  {
  }

  /** Taking one more capture adds its node when it is a value. */
  lemma ValueNodesOfStep(captures: seq<Capture>, j: nat)
    requires j < |captures|
    ensures ValueNodesOf(captures[..j + 1]) ==
              ValueNodesOf(captures[..j]) + (if captures[j].name == "translation_value" then [captures[j].node] else [])
  {
    assert captures[..j + 1][..j] == captures[..j];
  }

  /** Taking one more match adds its value nodes. */
  lemma ValueNodesStep(matches: seq<seq<Capture>>, i: nat)
    requires i < |matches|
    ensures ValueNodes(matches[..i + 1]) == ValueNodes(matches[..i]) + ValueNodesOf(matches[i])
  {
    assert matches[..i + 1][..i] == matches[..i];
  }

  /** Every node collected from valid captures is a value node. */
  lemma {:induction false} ValueNodesValid(tree: seq<SyntaxNode>, text: string, matches: seq<seq<Capture>>)
    requires CapturesValid(tree, text, matches)
    ensures forall k :: 0 <= k < |ValueNodes(matches)| ==> ValueNode(tree, text, ValueNodes(matches)[k])
    decreases |matches|
  {
    if matches != [] {
      var n := |matches| - 1;
      assert CapturesValid(tree, text, matches[..n]) by {
        assert forall a :: 0 <= a < n ==> matches[..n][a] == matches[a];
      }
      ValueNodesValid(tree, text, matches[..n]);
      ValueNodesOfValid(tree, text, matches[n]);
    }
  }

  lemma {:induction false} ValueNodesOfValid(tree: seq<SyntaxNode>, text: string, captures: seq<Capture>)
    requires forall j :: 0 <= j < |captures| && captures[j].name == "translation_value" ==> ValueNode(tree, text, captures[j].node)
    ensures forall k :: 0 <= k < |ValueNodesOf(captures)| ==> ValueNode(tree, text, ValueNodesOf(captures)[k])
    decreases |captures|
  {
    if captures != [] {
      var n := |captures| - 1;
      assert forall a :: 0 <= a < n ==> captures[..n][a] == captures[a];
      ValueNodesOfValid(tree, text, captures[..n]);
    }
  }

  /** Pushing the definition of one more node keeps the correspondence. */
  lemma DefinitionsForSnoc(definitions: seq<Definition>, tree: seq<SyntaxNode>, text: string, nodes: seq<nat>, n: nat, config: KeyConfig)
    requires ValueNode(tree, text, n)
    requires DefinitionsFor(definitions, tree, text, nodes, config)
    ensures DefinitionsFor(definitions + [MakeDefinition(tree, text, n, config)], tree, text, nodes + [n], config)
  {
    var ns := nodes + [n];
    assert forall k :: 0 <= k < |nodes| ==> ns[k] == nodes[k];
  }

  /** One capture of the inner loop: a value capture pushes the definition
      of its node, any other capture pushes nothing. */
  lemma CaptureStep(definitions: seq<Definition>, tree: seq<SyntaxNode>, text: string, before: seq<nat>,
                    captures: seq<Capture>, j: nat, config: KeyConfig)
    requires j < |captures|
    requires captures[j].name == "translation_value" ==> ValueNode(tree, text, captures[j].node)
    requires DefinitionsFor(definitions, tree, text, before + ValueNodesOf(captures[..j]), config)
    ensures captures[j].name == "translation_value" ==>
              DefinitionsFor(definitions + [MakeDefinition(tree, text, captures[j].node, config)], tree, text,
                             before + ValueNodesOf(captures[..j + 1]), config)
    ensures captures[j].name != "translation_value" ==>
              DefinitionsFor(definitions, tree, text, before + ValueNodesOf(captures[..j + 1]), config)
  {
    ValueNodesOfStep(captures, j);
    var nodes := before + ValueNodesOf(captures[..j]);
    if captures[j].name == "translation_value" {
      DefinitionsForSnoc(definitions, tree, text, nodes, captures[j].node, config);
      assert before + ValueNodesOf(captures[..j + 1]) == nodes + [captures[j].node];
    } else {
      assert before + ValueNodesOf(captures[..j + 1]) == nodes;
    }
  }

  /** `parse_translation_structure`, after the parser and the query engine:
      one definition per `translation_value` capture, in match-then-capture
      order; always `Some`. */
  method ParseTranslationStructure(text: string, tree: seq<SyntaxNode>, matches: seq<seq<Capture>>, config: KeyConfig)
    returns (r: Option<seq<Definition>>)
    requires WellFormed(tree, text) && CapturesValid(tree, text, matches)
    ensures r.Some?
    ensures DefinitionsFor(r.value, tree, text, ValueNodes(matches), config)
  {
    var definitions: seq<Definition> := [];
    var i := 0;
    while i < |matches|
      invariant 0 <= i <= |matches|
      invariant DefinitionsFor(definitions, tree, text, ValueNodes(matches[..i]), config)
    {
      var captures := matches[i];
      ValueNodesStep(matches, i);
      ghost var before := ValueNodes(matches[..i]);
      var j := 0;
      while j < |captures|
        invariant 0 <= j <= |captures|
        invariant DefinitionsFor(definitions, tree, text, before + ValueNodesOf(captures[..j]), config)
      {
        var capture := captures[j];
        assert capture.name == "translation_value" ==> ValueNode(tree, text, capture.node);
        CaptureStep(definitions, tree, text, before, captures, j, config);
        if capture.name == "translation_value" {
          var node := capture.node;
          var path := GetPathForNode(tree, text, node);
          var d := Definition(path, CleanedKeyForPath(path, config), None, LanguageForPath(path, config), NodeText(tree, text, node));
          definitions := definitions + [d];
        }
        j := j + 1;
      }
      assert captures[..j] == captures;
      i := i + 1;
    }
    assert matches[..i] == matches;
    return Some(definitions);
  }
}
