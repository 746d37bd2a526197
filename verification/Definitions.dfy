/** The translation records of src/main.rs and what the server derives from
    them: identity, language, flag, the escaped value, the hover table and
    the completion list. The flag lookup (`country_emoji::flag`) is a
    function parameter. */
module Definitions {
  import opened Wrappers
  import opened TextUtil

  /** `TranslationFile`: a loaded file and the language its name gives. */
  datatype TranslationFile = TranslationFile(path: string, language: Option<string>)

  /** `Definition`: one translation found in a file. */
  datatype Definition = Definition(
    key: string,
    cleanedKey: Option<string>,
    file: Option<TranslationFile>,
    language: Option<string>,
    value: string)

  // ----- identity -----

  /** `get_identifier`: the cleaned key when there is one, else the key. */
  function Identifier(d: Definition): (id: string)
    ensures d.cleanedKey.Some? ==> id == d.cleanedKey.value
    ensures d.cleanedKey.None? ==> id == d.key
  {
    d.cleanedKey.GetOr(d.key)
  }

  /** `PartialEq<String> for Definition`: a definition equals a string
      exactly when its identifier does. */
  function EqualsKey(d: Definition, s: string): (b: bool)
    ensures b <==> Identifier(d) == s
  {
    match d.cleanedKey
    case Some(cleaned) => cleaned == s
    case None => d.key == s
  }

  /** `PartialEq for Definition`: the left side's cleaned key decides what
      is compared. */
  function Equals(self: Definition, other: Definition): (b: bool)
    ensures self.cleanedKey.Some? && other.cleanedKey.None? ==> !b
    ensures self.cleanedKey.Some? == other.cleanedKey.Some? ==> (b <==> Identifier(self) == Identifier(other))
    ensures self.cleanedKey.None? ==> (b <==> self.key == other.key)
  {
    match self.cleanedKey
    case Some(_) => self.cleanedKey == other.cleanedKey
    case None => self.key == other.key
  }

  /** Every definition equals itself. */
  lemma EqualsReflexive(d: Definition)
    ensures Equals(d, d)
  {
  }

  /** The relation is not symmetric: a definition without a cleaned key
      equals one with the same key and a cleaned key, but not the other way
      round. */
  lemma EqualsNotSymmetric(a: Definition, b: Definition)
    requires a.cleanedKey.None? && b.cleanedKey.Some? && a.key == b.key
    ensures Equals(a, b) && !Equals(b, a)
  {
  }

  // ----- language and flag -----

  /** `get_language`: the definition's own language wins over its file's. */
  function Language(d: Definition): (r: Option<string>)
    ensures d.language.Some? ==> r == d.language
    ensures d.language.None? ==> r == (if d.file.Some? then d.file.value.language else None)
  {
    if d.language.Some? then d.language
    else if d.file.Some? then d.file.value.language
    else None
  }

  /** The country codes `get_flag` tries, built as it builds them: the
      upper-cased `-`-separated parts, then the whole upper-cased tag, then
      `US` when the tag is `EN`; the list is then reversed. */
  function FlagCandidates(language: string): seq<string>
  {
    var parts := Split(language, '-');
    var upper := Uppers(parts);
    var whole := ToUpper(language);
    Reverse(upper + [whole] + (if whole == "EN" then ["US"] else []))
  }

  /** The upper-cased parts, in the order given. */
  function Uppers(parts: seq<string>): (r: seq<string>)
    ensures |r| == |parts|
  {
    seq(|parts|, i requires 0 <= i < |parts| => ToUpper(parts[i]))
  }

  /** Reversing the built list puts its last entries first. */
  lemma ReversedCandidates(upper: seq<string>, whole: string, us: seq<string>)
    requires |us| <= 1
    ensures Reverse(upper + [whole] + us) == us + [whole] + Reverse(upper)
  {
    ReverseConcat(upper + [whole], us);
    ReverseConcat(upper, [whole]);
    assert Reverse(us) == us;
    assert Reverse([whole]) == [whole];
  }

  /** The order that results: `US` first for `EN`, then the whole tag, then
      the parts from last to first. */
  lemma FlagCandidatesOrder(language: string)
    ensures var parts := Split(language, '-');
            var whole := ToUpper(language);
            FlagCandidates(language) == (if whole == "EN" then ["US"] else []) + [whole] + Reverse(Uppers(parts))
  {
    var whole := ToUpper(language);
    ReversedCandidates(Uppers(Split(language, '-')), whole, if whole == "EN" then ["US"] else []);
  }

  /** The first candidate the lookup knows a flag for. */
  function FirstFlag(candidates: seq<string>, flag: string -> Option<string>): (r: Option<string>)
    ensures r.Some? ==> exists i :: 0 <= i < |candidates| && flag(candidates[i]) == r
    ensures r.None? <==> forall i :: 0 <= i < |candidates| ==> flag(candidates[i]).None?
    decreases |candidates|
  {
    if candidates == [] then None
    else if flag(candidates[0]).Some? then flag(candidates[0])
    else
      var r := FirstFlag(candidates[1..], flag);
      assert forall i :: 1 <= i < |candidates| ==> candidates[i] == candidates[1..][i - 1];
      r
  }

  /** Every candidate before the chosen one has no flag. */
  lemma {:induction false} FirstFlagIsFirst(candidates: seq<string>, flag: string -> Option<string>, k: nat)
    requires k < |candidates| && flag(candidates[k]).Some?
    requires forall i :: 0 <= i < k ==> flag(candidates[i]).None?
    ensures FirstFlag(candidates, flag) == flag(candidates[k])
    decreases k
  {
    if k > 0 {
      FirstFlagIsFirst(candidates[1..], flag, k - 1);
    }
  }

  /** The flag `get_flag` would return. */
  function Flag(d: Definition, flag: string -> Option<string>): Option<string>
  {
    match Language(d)
    case None => None
    case Some(language) => FirstFlag(FlagCandidates(language), flag)
  }

  /** `get_flag`: no language, no flag; otherwise the candidates are tried in
      order and the first flag found is returned. */
  method GetFlag(d: Definition, flag: string -> Option<string>) returns (r: Option<string>)
    ensures r == Flag(d, flag)
    ensures Language(d).None? ==> r.None?
  {
    var language := Language(d);
    if language.None? {
      return None;
    }
    var lang := language.value;
    var parts := Split(lang, '-');
    var possible := Uppers(parts);
    possible := possible + [ToUpper(lang)];
    if ToUpper(lang) == "EN" {
      possible := possible + ["US"];
    }
    possible := Reverse(possible);
    assert possible == FlagCandidates(lang);
    var k := 0;
    while k < |possible|
      invariant 0 <= k <= |possible|
      invariant forall i :: 0 <= i < k ==> flag(possible[i]).None?
    {
      var f := flag(possible[k]);
      if f.Some? {
        FirstFlagIsFirst(possible, flag, k);
        return f;
      }
      k := k + 1;
    }
    return None;
  }

  /** For the tag `en`, a known `US` flag is what is shown. */
  lemma EnShowsUsFlag(d: Definition, flag: string -> Option<string>)
    requires Language(d) == Some("en") && flag("US").Some?
    ensures Flag(d, flag) == flag("US")
  {
    FlagCandidatesOrder("en");
    var cs := FlagCandidates("en");
    assert ToUpper("en") == "EN";
    assert cs[0] == "US";
    FirstFlagIsFirst(cs, flag, 0);
  }

  // ----- printable value -----

  /** `char::escape_debug` for the characters it escapes with a backslash;
      every other character is kept. */
  function EscapeDebugChar(c: char): string
  {
    match c
    case '\0' => "\\0"
    case '\t' => "\\t"
    case '\r' => "\\r"
    case '\n' => "\\n"
    case '\\' => "\\\\"
    case '\'' => "\\'"
    case '"' => "\\\""
    case _ => [c]
  }

  /** `str::escape_debug`, character by character. */
  function EscapeDebug(s: string): (r: string)
    ensures '\n' !in r
    decreases |s|
  {
    if s == [] then [] else EscapeDebugChar(s[0]) + EscapeDebug(s[1..])
  }

  /** `replace("|", "\\|")`. */
  function ReplaceBar(s: string): (r: string)
    ensures '\n' !in s ==> '\n' !in r
    decreases |s|
  {
    if s == [] then [] else (if s[0] == '|' then "\\|" else [s[0]]) + ReplaceBar(s[1..])
  }

  lemma {:induction false} ReplaceBarConcat(a: string, b: string)
    ensures ReplaceBar(a + b) == ReplaceBar(a) + ReplaceBar(b)
    decreases |a|
  {
    if a == [] {
      assert a + b == b;
    } else {
      var head := if a[0] == '|' then "\\|" else [a[0]];
      var tail := a[1..];
      assert ReplaceBar(a + b) == head + ReplaceBar(tail + b) by {
        assert (a + b)[0] == a[0] && (a + b)[1..] == tail + b;
      }
      assert ReplaceBar(a) == head + ReplaceBar(tail);
      ReplaceBarConcat(tail, b);
      assert head + (ReplaceBar(tail) + ReplaceBar(b)) == (head + ReplaceBar(tail)) + ReplaceBar(b);
    }
  }

  /** `get_printable_value`: the value escaped so that it fits in one cell of
      a markdown table; it never holds a line break. */
  function PrintableValue(d: Definition): (r: string)
    ensures '\n' !in r
  {
    ReplaceBar(EscapeDebug(d.value))
  }

  /** Reading back a backslash escape. */
  function UnescapeChar(c: char): char
  {
    match c
    case '0' => '\0'
    case 't' => '\t'
    case 'r' => '\r'
    case 'n' => '\n'
    case _ => c
  }

  /** Undoes the escaping: a backslash and the character after it stand for
      one character. */
  function Unescape(s: string): string
    decreases |s|
  {
    if s == [] then []
    else if s[0] == '\\' && |s| >= 2 then [UnescapeChar(s[1])] + Unescape(s[2..])
    else [s[0]] + Unescape(s[1..])
  }

  /** Text without a bar is left alone by the replacement. */
  lemma {:induction false} ReplaceBarNoBar(s: string)
    requires '|' !in s
    ensures ReplaceBar(s) == s
    decreases |s|
  {
    if s != [] {
      ReplaceBarNoBar(s[1..]);
      assert s == [s[0]] + s[1..];
    }
  }

  /** One character as `get_printable_value` prints it: a character that
      needs no escaping is kept; any other becomes a backslash and a letter
      that reads back as it. In particular a bar prints as `\|` and a line
      break as `\n`. */
  lemma EscapedCharShape(c: char)
    ensures var e := ReplaceBar(EscapeDebugChar(c));
            && (Plain(c) ==> e == [c])
            && (!Plain(c) ==> |e| == 2 && e[0] == '\\' && UnescapeChar(e[1]) == c)
            && (c == '|' ==> e == "\\|")
            && (c == '\n' ==> e == "\\n")
  {
    var e := EscapeDebugChar(c);
    if c == '|' {
      assert e == [c];
      assert ReplaceBar(e) == "\\|" + ReplaceBar([]);
    } else {
      assert '|' !in e;
      ReplaceBarNoBar(e);
    }
  }

  /** The escaping loses nothing: reading it back gives the value. */
  lemma {:induction false} PrintableRoundTrip(v: string)
    ensures Unescape(ReplaceBar(EscapeDebug(v))) == v
    decreases |v|
  {
    if v != [] {
      var c := v[0];
      var e := ReplaceBar(EscapeDebugChar(c));
      var rest := ReplaceBar(EscapeDebug(v[1..]));
      ReplaceBarConcat(EscapeDebugChar(c), EscapeDebug(v[1..]));
      assert ReplaceBar(EscapeDebug(v)) == e + rest;
      PrintableRoundTrip(v[1..]);
      EscapedCharShape(c);
      if Plain(c) {
        assert (e + rest)[1..] == rest;
      } else {
        assert (e + rest)[2..] == rest;
      }
      assert v == [c] + v[1..];
    }
  }

  /** A character that neither the escaping nor the bar replacement touches. */
  predicate Plain(c: char)
  {
    c != '\0' && c != '\t' && c != '\r' && c != '\n' && c != '\\' && c != '\'' && c != '"' && c != '|'
  }

  /** A value without characters that need escaping is printed as it is
      (letters of any script included). */
  lemma {:induction false} PrintablePlain(v: string)
    requires forall i :: 0 <= i < |v| ==> Plain(v[i])
    ensures ReplaceBar(EscapeDebug(v)) == v
    decreases |v|
  {
    if v != [] {
      PrintablePlain(v[1..]);
      var rest := EscapeDebug(v[1..]);
      assert EscapeDebugChar(v[0]) == [v[0]];
      assert EscapeDebug(v) == [v[0]] + rest;
      assert ([v[0]] + rest)[0] == v[0] && ([v[0]] + rest)[1..] == rest;
      assert ReplaceBar([v[0]] + rest) == [v[0]] + ReplaceBar(rest);
      assert v == [v[0]] + v[1..];
    }
  }

  lemma {:induction false} EscapeDebugConcat(a: string, b: string)
    ensures EscapeDebug(a + b) == EscapeDebug(a) + EscapeDebug(b)
    decreases |a|
  {
    if a == [] {
      assert a + b == b;
    } else {
      assert (a + b)[0] == a[0] && (a + b)[1..] == a[1..] + b;
      EscapeDebugConcat(a[1..], b);
    }
  }

  /** The printable text of a concatenation is the printable texts of its parts, one after the other. */
  lemma PrintableConcat(a: string, b: string)
    ensures ReplaceBar(EscapeDebug(a + b)) == ReplaceBar(EscapeDebug(a)) + ReplaceBar(EscapeDebug(b))
  {
    EscapeDebugConcat(a, b);
    ReplaceBarConcat(EscapeDebug(a), EscapeDebug(b));
  }

  /** A bar or a line break between two plain pieces prints as `\|` or `\n`,
      and the pieces print as they are. */
  lemma PrintableBarAndNewline(d: Definition, u: string, w: string)
    requires forall i :: 0 <= i < |u| ==> Plain(u[i])
    requires forall i :: 0 <= i < |w| ==> Plain(w[i])
    ensures d.value == u + "|" + w ==> PrintableValue(d) == u + "\\|" + w
    ensures d.value == u + "\n" + w ==> PrintableValue(d) == u + "\\n" + w
  {
    PrintablePlain(u);
    PrintablePlain(w);
    forall c | c == '|' || c == '\n'
      ensures ReplaceBar(EscapeDebug(u + [c] + w)) == u + ReplaceBar(EscapeDebugChar(c)) + w
    {
      PrintableConcat(u + [c], w);
      PrintableConcat(u, [c]);
      assert [c][1..] == [];
      assert EscapeDebug([c]) == EscapeDebugChar(c);
      assert ReplaceBar(EscapeDebug(u + [c])) == u + ReplaceBar(EscapeDebugChar(c));
    }
    EscapedCharShape('|');
    EscapedCharShape('\n');
  }


  // ----- hover detail -----

  /** The flag shown in a row whose definition has none. */
  const PlaceholderFlag: string := "\U{1F3F4}\U{E0062}\U{E0073}\U{E0062}\U{E0070}\U{E007F}"

  /** The stored definitions equal to `key`, in stored order. */
  function SameKey(definitions: seq<Definition>, key: string): seq<Definition>
  {
    Filter(definitions, (d: Definition) => EqualsKey(d, key))
  }

  /** One row of the table: `flag|**language**|value` in the wide layout,
      `|value` in the narrow one. */
  function Row(d: Definition, wide: bool, flag: string -> Option<string>): string
  {
    if wide then Flag(d, flag).GetOr(PlaceholderFlag) + "|" + "**" + Language(d).GetOr("") + "**" + "|" + PrintableValue(d)
    else "|" + PrintableValue(d)
  }

  /** The header lines of the two layouts. */
  function HeaderLines(wide: bool): seq<string>
  {
    if wide then ["flag|language|translation", "-|-|-"] else ["|translation|", "|-"]
  }

  /** The header of the two layouts, as the source spells it. */
  function Header(wide: bool): string
  {
    if wide then "flag|language|translation\n-|-|-" else "|translation|\n|-"
  }

  /** The header is its two lines joined by a line break, neither holding one. */
  lemma HeaderIsLines(wide: bool)
    ensures |HeaderLines(wide)| == 2
    ensures Header(wide) == Join(HeaderLines(wide), '\n')
    ensures forall i :: 0 <= i < 2 ==> '\n' !in HeaderLines(wide)[i]
  {
    var h := HeaderLines(wide);
    assert Join(h, '\n') == h[0] + "\n" + h[1];
  }

  /** Text made of lines joined by line breaks splits back into them. */
  lemma LinesOfJoined(header: seq<string>, rows: seq<string>)
    requires |header| >= 1 && |rows| >= 1
    requires forall i :: 0 <= i < |header| ==> '\n' !in header[i]
    requires forall i :: 0 <= i < |rows| ==> '\n' !in rows[i]
    ensures Split(Join(header, '\n') + "\n" + Join(rows, '\n'), '\n') == header + rows
  {
    JoinConcat(header, rows, '\n');
    SplitJoin(header + rows, '\n');
  }

  /** Whether the wide layout is used: some matching definition has a
      language or a flag. */
  predicate Wide(same: seq<Definition>, flag: string -> Option<string>)
  {
    (exists d :: d in same && Flag(d, flag).Some?) || (exists d :: d in same && Language(d).Some?)
  }

  /** The rows of the table, one per matching definition, in stored order. */
  function Rows(same: seq<Definition>, wide: bool, flag: string -> Option<string>): (rows: seq<string>)
    ensures |rows| == |same|
  {
    seq(|same|, i requires 0 <= i < |same| => Row(same[i], wide, flag))
  }

  /** The table: the header, a line break, the rows separated by line breaks. */
  function Table(same: seq<Definition>, wide: bool, flag: string -> Option<string>): string
  {
    Header(wide) + "\n" + Join(Rows(same, wide, flag), '\n')
  }

  /** `get_definition_detail_by_key`: nothing when no definition equals the
      key, otherwise a markdown table with one row per matching definition. */
  function DetailByKey(definitions: seq<Definition>, key: string, flag: string -> Option<string>): (r: Option<string>)
    ensures r.None? <==> forall i :: 0 <= i < |definitions| ==> !EqualsKey(definitions[i], key)
    ensures r.Some? ==> var same := SameKey(definitions, key); r.value == Table(same, Wide(same, flag), flag)
  {
    var same := SameKey(definitions, key);
    if |same| == 0 then None
    else Some(Table(same, Wide(same, flag), flag))
  }

  /** Two definitions of one key without a language both match the key,
      select the narrow layout and print their values as they are. */
  lemma TwoPlainRows(key: string, v1: string, v2: string, flag: string -> Option<string>)
    requires forall i :: 0 <= i < |v1| ==> Plain(v1[i])
    requires forall i :: 0 <= i < |v2| ==> Plain(v2[i])
    ensures var definitions := [Definition(key, None, None, None, v1), Definition(key, None, None, None, v2)];
            SameKey(definitions, key) == definitions && !Wide(definitions, flag) &&
            Rows(definitions, false, flag) == ["|" + v1, "|" + v2]
  {
    var definitions := [Definition(key, None, None, None, v1), Definition(key, None, None, None, v2)];
    assert forall d :: d in definitions ==> Language(d).None? && Flag(d, flag).None?;
    PrintablePlain(v1);
    PrintablePlain(v2);
  }

  /** Two definitions of one key without a language give the narrow table,
      one `|value` row each, in stored order. */
  lemma HoverWithoutLanguage(key: string, v1: string, v2: string, flag: string -> Option<string>)
    requires forall i :: 0 <= i < |v1| ==> Plain(v1[i])
    requires forall i :: 0 <= i < |v2| ==> Plain(v2[i])
    ensures DetailByKey([Definition(key, None, None, None, v1), Definition(key, None, None, None, v2)], key, flag)
            == Some(Join(["|translation|", "|-", "|" + v1, "|" + v2], '\n'))
  {
    TwoPlainRows(key, v1, v2, flag);
    var rows := ["|" + v1, "|" + v2];
    HeaderIsLines(false);
    JoinConcat(HeaderLines(false), rows, '\n');
    assert HeaderLines(false) + rows == ["|translation|", "|-", "|" + v1, "|" + v2];
  }

  /** A row holds no line break when its flag and language hold none. */
  lemma RowOneLine(d: Definition, wide: bool, flag: string -> Option<string>)
    requires '\n' !in Flag(d, flag).GetOr(PlaceholderFlag)
    requires '\n' !in Language(d).GetOr("")
    ensures '\n' !in Row(d, wide, flag)
  {
  }

  /** Read line by line, a table is its two header lines followed by its
      rows, as long as no row holds a line break. */
  lemma TableLines(same: seq<Definition>, wide: bool, flag: string -> Option<string>)
    requires |same| > 0
    requires forall i :: 0 <= i < |same| ==> '\n' !in Row(same[i], wide, flag)
    ensures Split(Table(same, wide, flag), '\n') == HeaderLines(wide) + Rows(same, wide, flag)
  {
    HeaderIsLines(wide);
    LinesOfJoined(HeaderLines(wide), Rows(same, wide, flag));
  }

  /** Read line by line, the hover text is its two header lines followed by
      one row per matching definition, in stored order, as long as no flag
      and no language holds a line break. */
  lemma DetailLines(definitions: seq<Definition>, key: string, flag: string -> Option<string>)
    requires exists i :: 0 <= i < |definitions| && EqualsKey(definitions[i], key)
    requires forall c :: '\n' !in flag(c).GetOr("")
    requires forall i :: 0 <= i < |definitions| ==> '\n' !in Language(definitions[i]).GetOr("")
    ensures var same := SameKey(definitions, key);
            var wide := Wide(same, flag);
            Split(DetailByKey(definitions, key, flag).value, '\n') == HeaderLines(wide) + Rows(same, wide, flag)
  {
    var same := SameKey(definitions, key);
    var wide := Wide(same, flag);
    forall i | 0 <= i < |same|
      ensures '\n' !in Row(same[i], wide, flag)
    {
      var d := same[i];
      assert d in definitions;
      RowOneLine(d, wide, flag);
    }
    TableLines(same, wide, flag);
  }

  // ----- completion -----

  /** A completion item: what the list shows and what is inserted. */
  datatype CompletionItem = CompletionItem(labelText: string, newText: string)

  /** `unique_by(get_identifier)`: the definitions whose identifier has not
      been seen, earlier in the list or in `seen`. */
  function UniqueByIdentifier(definitions: seq<Definition>, seen: set<string>): (r: seq<Definition>)
    ensures forall i :: 0 <= i < |r| ==> r[i] in definitions && Identifier(r[i]) !in seen
    decreases |definitions|
  {
    if definitions == [] then []
    else
      var d := definitions[0];
      if Identifier(d) in seen then UniqueByIdentifier(definitions[1..], seen)
      else [d] + UniqueByIdentifier(definitions[1..], seen + {Identifier(d)})
  }

  /** The items of the completion list. */
  function Completion(definitions: seq<Definition>): (items: seq<CompletionItem>)
    ensures |items| == |UniqueByIdentifier(definitions, {})|
    ensures forall i :: 0 <= i < |items| ==> items[i].labelText == items[i].newText
  {
    var unique := UniqueByIdentifier(definitions, {});
    seq(|unique|, i requires 0 <= i < |unique| =>
      CompletionItem(Identifier(unique[i]), unique[i].cleanedKey.GetOr(unique[i].key)))
  }

  /** No identifier is kept twice. */
  lemma {:induction false} UniqueDistinct(definitions: seq<Definition>, seen: set<string>)
    ensures forall i, j :: 0 <= i < j < |UniqueByIdentifier(definitions, seen)| ==>
              Identifier(UniqueByIdentifier(definitions, seen)[i]) != Identifier(UniqueByIdentifier(definitions, seen)[j])
    decreases |definitions|
  {
    if definitions != [] {
      var d := definitions[0];
      if Identifier(d) in seen {
        UniqueDistinct(definitions[1..], seen);
        assert UniqueByIdentifier(definitions, seen) == UniqueByIdentifier(definitions[1..], seen);
      } else {
        UniqueDistinct(definitions[1..], seen + {Identifier(d)});
        assert UniqueByIdentifier(definitions, seen) == [d] + UniqueByIdentifier(definitions[1..], seen + {Identifier(d)});
      }
    }
  }

  /** Every identifier not in `seen` is kept. */
  lemma {:induction false} UniqueKeeps(definitions: seq<Definition>, seen: set<string>, k: nat)
    requires k < |definitions| && Identifier(definitions[k]) !in seen
    ensures exists i :: 0 <= i < |UniqueByIdentifier(definitions, seen)| &&
                        Identifier(UniqueByIdentifier(definitions, seen)[i]) == Identifier(definitions[k])
    decreases k
  {
    var d := definitions[0];
    var r := UniqueByIdentifier(definitions, seen);
    if Identifier(definitions[k]) == Identifier(d) {
      assert r == [d] + UniqueByIdentifier(definitions[1..], seen + {Identifier(d)});
      assert Identifier(r[0]) == Identifier(definitions[k]);
    } else {
      var isNew := Identifier(d) !in seen;
      var seen' := if isNew then seen + {Identifier(d)} else seen;
      var rest := UniqueByIdentifier(definitions[1..], seen');
      assert r == (if isNew then [d] else []) + rest;
      assert definitions[k] == definitions[1..][k - 1];
      UniqueKeeps(definitions[1..], seen', k - 1);
      var i :| 0 <= i < |rest| && Identifier(rest[i]) == Identifier(definitions[k]);
      var off := if isNew then 1 else 0;
      assert r[off + i] == rest[i];
    }
  }

  /** The identifiers of a list. */
  function Identifiers(definitions: seq<Definition>): set<string>
  {
    set i | 0 <= i < |definitions| :: Identifier(definitions[i])
  }

  /** The reference: walking the list from the end, a definition is kept
      when no earlier one (nor `seen`) has its identifier. */
  function FirstOccurrences(definitions: seq<Definition>, seen: set<string>): seq<Definition>
    decreases |definitions|
  {
    if definitions == [] then []
    else
      var init := definitions[..|definitions| - 1];
      var last := definitions[|definitions| - 1];
      FirstOccurrences(init, seen) + (if Identifier(last) in seen + Identifiers(init) then [] else [last])
  }

  /** Appending one definition extends the de-duplicated list by it exactly
      when its identifier is new. */
  lemma {:induction false} UniqueSnoc(a: seq<Definition>, x: Definition, seen: set<string>)
    ensures UniqueByIdentifier(a + [x], seen) ==
              UniqueByIdentifier(a, seen) + (if Identifier(x) in seen + Identifiers(a) then [] else [x])
    decreases |a|
  {
    if a == [] {
      assert Identifiers(a) == {};
    } else {
      var h := a[0];
      var t := a[1..];
      assert (a + [x])[1..] == t + [x];
      assert Identifiers(a) == {Identifier(h)} + Identifiers(t) by {
        forall id | id in Identifiers(a) ensures id in {Identifier(h)} + Identifiers(t) {
          var i :| 0 <= i < |a| && Identifier(a[i]) == id;
          if i > 0 { assert a[i] == t[i - 1]; }
        }
        forall id | id in Identifiers(t) ensures id in Identifiers(a) {
          var i :| 0 <= i < |t| && Identifier(t[i]) == id;
          assert t[i] == a[i + 1];
        }
      }
      if Identifier(h) in seen {
        UniqueSnoc(t, x, seen);
      } else {
        UniqueSnoc(t, x, seen + {Identifier(h)});
      }
    }
  }

  /** `unique_by` keeps, in stored order, the first definition of every
      identifier. */
  lemma {:induction false} UniqueIsFirstOccurrences(definitions: seq<Definition>, seen: set<string>)
    ensures UniqueByIdentifier(definitions, seen) == FirstOccurrences(definitions, seen)
    decreases |definitions|
  {
    if definitions != [] {
      var init := definitions[..|definitions| - 1];
      var last := definitions[|definitions| - 1];
      UniqueIsFirstOccurrences(init, seen);
      UniqueSnoc(init, last, seen);
      assert init + [last] == definitions;
    }
  }

  /** The completion list: one item per distinct identifier, the first
      definition of each in stored order, no identifier twice and none
      missing. */
  lemma CompletionSpec(definitions: seq<Definition>)
    ensures var items := Completion(definitions);
            var first := FirstOccurrences(definitions, {});
            |items| == |first| &&
            (forall i :: 0 <= i < |items| ==> items[i].labelText == Identifier(first[i])) &&
            (forall i, j :: 0 <= i < j < |items| ==> items[i].labelText != items[j].labelText) &&
            (forall k :: 0 <= k < |definitions| ==>
               exists i :: 0 <= i < |items| && items[i].labelText == Identifier(definitions[k]))
  {
    var items := Completion(definitions);
    var unique := UniqueByIdentifier(definitions, {});
    UniqueIsFirstOccurrences(definitions, {});
    UniqueDistinct(definitions, {});
    forall k | 0 <= k < |definitions|
      ensures exists i :: 0 <= i < |items| && items[i].labelText == Identifier(definitions[k])
    {
      UniqueKeeps(definitions, {}, k);
      var i :| 0 <= i < |unique| && Identifier(unique[i]) == Identifier(definitions[k]);
      assert items[i].labelText == Identifier(unique[i]);
    }
  }
}
