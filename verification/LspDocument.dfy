/** An open text document that keeps its text and a cached line-start table
    up to date under edits (src/lsp_document.rs, `FullTextDocument`).

    Offsets count characters and the model has one unit per character, so a
    character offset and a byte offset coincide. The `usize`, `u32`, `i32` and
    `i64` widths are not modelled: all integers are unbounded. */
module LspDocument {
  import opened Wrappers
  import opened LineBreaks

  /** A zero-based line and a character within it. */
  datatype Position = Position(line: nat, character: nat)

  datatype Range = Range(start: Position, end: Position)

  /** `TextDocumentContentChangeEvent`: a ranged edit, or the whole new text. */
  datatype ContentChange = ContentChange(range: Option<Range>, rangeLength: Option<nat>, text: string)

  /** `a` comes strictly before `b` in (line, character) order. */
  predicate Before(a: Position, b: Position)
  {
    a.line < b.line || (a.line == b.line && a.character < b.character)
  }

  function Min(a: int, b: int): int { if a <= b then a else b }

  function Max(a: int, b: int): int { if a >= b then a else b }

  /** `get_wellformed_range`: the same two endpoints, start first. */
  function GetWellformedRange(range: Range): (r: Range)
    ensures !Before(r.end, r.start)
    ensures !Before(range.end, range.start) ==> r == range
  {
    var start := range.start;
    var end := range.end;
    if start.line > end.line || (start.line == end.line && start.character > end.character) then
      Range(end, start)
    else
      range
  }

  /** The wellformed range keeps both endpoints of the original one. */
  lemma WellformedRangeSameEnds(range: Range)
    ensures multiset{GetWellformedRange(range).start, GetWellformedRange(range).end} == multiset{range.start, range.end}
    ensures Before(range.end, range.start) ==> GetWellformedRange(range) == Range(range.end, range.start)
  {
  }

  lemma WellformedRangeIdempotent(range: Range)
    ensures GetWellformedRange(GetWellformedRange(range)) == GetWellformedRange(range)
  {
  }

  /** `is_incremental`: the change carries a range. */
  predicate IsIncremental(change: ContentChange)
  {
    change.range.Some?
  }

  /** `is_full`: the change carries neither a range nor a range length. */
  predicate IsFull(change: ContentChange)
  {
    change.rangeLength.None? && change.range.None?
  }

  lemma IncrementalAndFullExclusive(change: ContentChange)
    ensures !(IsIncremental(change) && IsFull(change))
    ensures change.rangeLength.None? ==> (IsIncremental(change) <==> !IsFull(change))
  {
  }

  /** The offset where line `line + 1` starts, or the end of the text after the last line. */
  function NextLineStart(table: seq<nat>, textLen: nat, line: nat): nat
    requires line < |table|
  {
    if line + 1 < |table| then table[line + 1] else textLen
  }

  /** What `offset_at` computes from a line-start table: a position past the
      last line is the end of the text; otherwise line start plus character,
      cut down to the next line's start when it passes it, and never below
      the line start (which wins when a stale table has the next line start
      before it). */
  function OffsetIn(table: seq<nat>, textLen: nat, p: Position): (o: nat)
    ensures p.line >= |table| ==> o == textLen
    ensures p.line < |table| ==> table[p.line] <= o
    ensures p.line < |table| && table[p.line] <= NextLineStart(table, textLen, p.line) ==>
              o <= NextLineStart(table, textLen, p.line)
    ensures p.line < |table| && table[p.line] + p.character <= NextLineStart(table, textLen, p.line) ==>
              o == table[p.line] + p.character
    ensures p.line < |table| && table[p.line] <= NextLineStart(table, textLen, p.line) < table[p.line] + p.character ==>
              o == NextLineStart(table, textLen, p.line)
    ensures p.line < |table| && NextLineStart(table, textLen, p.line) < table[p.line] ==> o == table[p.line]
  {
    if p.line >= |table| then textLen
    else
      var lineOffset := table[p.line];
      Max(Min(lineOffset + p.character, NextLineStart(table, textLen, p.line)), lineOffset)
  }

  /** `line` is the line holding offset `o`: it starts at or before `o`, and
      the next line (if any) starts after `o`. */
  predicate IsLineOf(table: seq<int>, o: int, line: nat)
  {
    line < |table| && table[line] <= o && (line + 1 == |table| || o < table[line + 1])
  }

  /** A linear search for the line holding `o`, starting at line `k`. */
  function LineFrom(table: seq<nat>, o: nat, k: nat): (line: nat)
    requires k < |table| && table[k] <= o
    ensures k <= line && IsLineOf(table, o, line)
    decreases |table| - k
  {
    if k + 1 < |table| && table[k + 1] <= o then LineFrom(table, o, k + 1) else k
  }

  /** In an increasing table, at most one line holds a given offset. */
  lemma LineOfUnique(table: seq<int>, o: int, a: nat, b: nat)
    requires StrictlyIncreasing(table)
    requires IsLineOf(table, o, a) && IsLineOf(table, o, b)
    ensures a == b
  {
  }

  /** What `position_at` computes: the offset is clamped to the text, and the
      result is the line holding it and the distance from that line's start. */
  function PositionIn(table: seq<nat>, textLen: nat, offset: nat): (p: Position)
    requires |table| >= 1 && table[0] == 0
    ensures IsLineOf(table, Min(offset, textLen), p.line)
    ensures table[p.line] + p.character == Min(offset, textLen)
  {
    var o := Min(offset, textLen);
    var line := LineFrom(table, o, 0);
    Position(line, o - table[line])
  }

  /** `offset_at(position_at(o)) == o` for every offset within the text. */
  lemma OffsetPositionRoundTrip(t: string, o: nat)
    requires o <= |t|
    ensures var table := LineOffsets(t, true, 0);
            OffsetIn(table, |t|, PositionIn(table, |t|, o)) == o
  {
    var table := LineOffsets(t, true, 0);
    FullTableIsLineTable(t);
    var p := PositionIn(table, |t|, o);
    assert table[p.line] + p.character <= NextLineStart(table, |t|, p.line);
  }

  /** `position_at(offset_at(p)) == p` for every position that lies inside a
      line of the text (on the last line, its end counts too). */
  lemma PositionOffsetRoundTrip(t: string, p: Position)
    requires var table := LineOffsets(t, true, 0);
             p.line < |table| &&
             (table[p.line] + p.character < NextLineStart(table, |t|, p.line) ||
              (p.line + 1 == |table| && table[p.line] + p.character <= |t|))
    ensures var table := LineOffsets(t, true, 0);
            PositionIn(table, |t|, OffsetIn(table, |t|, p)) == p
  {
    var table := LineOffsets(t, true, 0);
    FullTableIsLineTable(t);
    var o := OffsetIn(table, |t|, p);
    assert o == table[p.line] + p.character;
    var q := PositionIn(table, |t|, o);
    LineOfUnique(table, o, p.line, q.line);
  }

  /** `transform_offset_to_byte_offset`: the byte offsets of two character
      offsets. With one unit per character they are the offsets themselves,
      and the slices they delimit are the same text. */
  function TransformOffsetToByteOffset(text: string, startOffset: nat, endOffset: nat): (r: (nat, nat))
    requires startOffset <= endOffset <= |text|
    ensures r.0 <= r.1 <= |text|
    ensures text[..r.0] == text[..startOffset] && text[r.0..r.1] == text[startOffset..endOffset]
    ensures r == (startOffset, endOffset)
  {
    var startByte := |text[..startOffset]|;
    (startByte, |text[startOffset..endOffset]| + startByte)
  }

  /** The ends of a well-formed range are in order as offsets too. */
  lemma OffsetInMonotone(t: string, a: Position, b: Position)
    requires !Before(b, a)
    ensures var table := LineOffsets(t, true, 0);
            OffsetIn(table, |t|, a) <= OffsetIn(table, |t|, b)
  {
    var table := LineOffsets(t, true, 0);
    FullTableIsLineTable(t);
    if a.line < b.line && b.line < |table| {
      assert NextLineStart(table, |t|, a.line) <= table[b.line];
    }
  }

  /** The offsets `update` computes for an incremental change (lines 36-39):
      `offset_at` of the ends of the well-formed range, read from whatever
      table the document holds, current or not. */
  function OffsetsIn(table: seq<nat>, textLen: nat, range: Range): (nat, nat)
  {
    var r := GetWellformedRange(range);
    (OffsetIn(table, textLen, r.start), OffsetIn(table, textLen, r.end))
  }

  /** The character offsets an incremental change replaces when the table is
      the table of the text: in order, and within the text. */
  function ChangeOffsets(t: string, range: Range): (se: (nat, nat))
    ensures se.0 <= se.1 <= |t|
  {
    var r := GetWellformedRange(range);
    OffsetInMonotone(t, r.start, r.end);
    FullTableIsLineTable(t);
    OffsetsIn(LineOffsets(t, true, 0), |t|, range)
  }

  /** The text after an incremental change: the replaced slice becomes `x`
      and everything around it is kept. */
  function SpliceText(t: string, range: Range, x: string): (n: string)
    ensures var s, e := ChangeOffsets(t, range).0, ChangeOffsets(t, range).1;
            |n| == |t| - (e - s) + |x| &&
            n[..s] == t[..s] && n[s..s + |x|] == x && n[s + |x|..] == t[e..]
  {
    var s, e := ChangeOffsets(t, range).0, ChangeOffsets(t, range).1;
    t[..s] + x + t[e..]
  }

  /** The text after one change, as `update` applies it. A change that is
      neither incremental nor full leaves the text as it is. */
  function ApplyChangeText(t: string, change: ContentChange): string
  {
    if IsIncremental(change) then SpliceText(t, change.range.value, change.text)
    else if IsFull(change) then change.text
    else t
  }

  /** The text after a list of changes, applied in order. */
  function ApplyChanges(t: string, changes: seq<ContentChange>): string
    decreases |changes|
  {
    if changes == [] then t
    else ApplyChangeText(ApplyChanges(t, changes[..|changes| - 1]), changes[|changes| - 1])
  }

  /** The conditions under which the source's table patch is right: the
      range's lines exist, each end lies inside the line it names (not
      clamped), and neither the old text nor the new one has a `"\r\n"`
      straddling an edge of the edit. */
  ghost predicate IncrementalFits(t: string, range: Range, x: string)
  {
    var table := LineOffsets(t, true, 0);
    var r := GetWellformedRange(range);
    var s, e := ChangeOffsets(t, range).0, ChangeOffsets(t, range).1;
    && r.end.line < |table|
    && (r.start.line + 1 < |table| ==> s < table[r.start.line + 1])
    && (r.end.line + 1 < |table| ==> e < table[r.end.line + 1])
    && NoCrlfAt(t, s) && NoCrlfAt(t, e)
    && NoCrlfJoin(t[..s], x) && NoCrlfJoin(t[..s] + x, t[e..])
  }

  ghost predicate ChangeFits(t: string, change: ContentChange)
  {
    IsIncremental(change) ==> IncrementalFits(t, change.range.value, change.text)
  }

  /** Every change fits the text it is applied to. */
  ghost predicate ChangesFit(t: string, changes: seq<ContentChange>)
  {
    forall i :: 0 <= i < |changes| ==> ChangeFits(ApplyChanges(t, changes[..i]), changes[i])
  }

  /** The table `update` leaves behind after an incremental change (lines
      59-79 of the source): the replaced lines' entries are rebuilt, then
      every later entry moves by the change in length. */
  function PatchLineOffsets(table: seq<int>, startLine: nat, endLine: nat, add: seq<int>, diff: int): seq<int>
    requires |table| >= 1 && startLine <= endLine
    requires endLine - startLine == |add| && |add| > 0 ==> startLine + |add| < |table|
  {
    ShiftFrom(RebuildLineOffsets(table, startLine, endLine, add), startLine + 1 + |add|, diff)
  }

  /** Lines 59-73 of the source: when as many entries are added as lines were
      replaced, they overwrite the old entries in place; otherwise the table is
      cut after the start line and before the entry following the end line,
      and the new entries are put in between. */
  function RebuildLineOffsets(table: seq<int>, startLine: nat, endLine: nat, add: seq<int>): seq<int>
    requires |table| >= 1 && startLine <= endLine
    requires endLine - startLine == |add| && |add| > 0 ==> startLine + |add| < |table|
  {
    if endLine - startLine == |add| then
      seq(|table|, j requires 0 <= j < |table| =>
        if startLine + 1 <= j < startLine + 1 + |add| then add[j - startLine - 1] else table[j])
    else
      table[..Min(startLine, |table| - 1) + 1] + add + table[Min(endLine, |table| - 1) + 1..]
  }

  /** Lines 74-79 of the source: every entry from index `from` on moves by `diff`. */
  function ShiftFrom(table: seq<int>, from: nat, diff: int): seq<int>
  {
    if diff == 0 then table
    else seq(|table|, j requires 0 <= j < |table| => if j >= from then table[j] + diff else table[j])
  }

  /** The source gets through an incremental change made with `table`
      without panicking: the offsets are in order and within the text (the
      slices of lines 41-44), and an in-place overwrite stays inside the table
      (line 61). No shifted entry may drop below zero either, where the
      source would wrap it around (line 77). */
  predicate IncrementalDefined(text: string, table: seq<nat>, range: Range, x: string)
  {
    var r := GetWellformedRange(range);
    var s, e := OffsetsIn(table, |text|, range).0, OffsetsIn(table, |text|, range).1;
    var add := LineOffsets(x, false, s);
    && |table| >= 1 && s <= e <= |text|
    && (r.end.line - r.start.line == |add| && |add| > 0 ==> r.start.line + |add| < |table|)
    && NonNegative(PatchLineOffsets(table, r.start.line, r.end.line, add, |x| - (e - s)))
  }

  predicate NonNegative(s: seq<int>)
  {
    forall j :: 0 <= j < |s| ==> s[j] >= 0
  }

  /** Neither the rebuild nor the shift touches the first entry of a table. */
  lemma PatchKeepsFirst(table: seq<int>, startLine: nat, endLine: nat, add: seq<int>, diff: int)
    requires |table| >= 1 && startLine <= endLine
    requires endLine - startLine == |add| && |add| > 0 ==> startLine + |add| < |table|
    ensures var p := PatchLineOffsets(table, startLine, endLine, add, diff);
            |p| >= 1 && p[0] == table[0]
  {
    var rebuilt := RebuildLineOffsets(table, startLine, endLine, add);
    assert |rebuilt| >= 1 && rebuilt[0] == table[0];
  }

  /** The table `update` leaves after an incremental change made with
      `table` (lines 47-79): patched at the lines the range names, whether or
      not those lines hold the offsets. Its first entry never moves. */
  function PatchedTable(text: string, table: seq<nat>, range: Range, x: string): (patched: seq<nat>)
    requires IncrementalDefined(text, table, range, x)
    ensures |patched| >= 1 && patched[0] == table[0]
  {
    var r := GetWellformedRange(range);
    var s, e := OffsetsIn(table, |text|, range).0, OffsetsIn(table, |text|, range).1;
    var p := PatchLineOffsets(table, r.start.line, r.end.line, LineOffsets(x, false, s), |x| - (e - s));
    PatchKeepsFirst(table, r.start.line, r.end.line, LineOffsets(x, false, s), |x| - (e - s));
    p
  }

  /** `PatchedTable` at given offsets, unfolded. */
  lemma PatchedTableAt(text: string, table: seq<nat>, range: Range, x: string, s: nat, e: nat)
    requires IncrementalDefined(text, table, range, x) && OffsetsIn(table, |text|, range) == (s, e)
    ensures PatchedTable(text, table, range, x) ==
            PatchLineOffsets(table, GetWellformedRange(range).start.line, GetWellformedRange(range).end.line,
                             LineOffsets(x, false, s), |x| - (e - s))
  {
  }

  /** The part of a document that `update` changes: its text and the cached table. */
  datatype DocState = DocState(text: string, lineOffset: Option<seq<nat>>)

  /** The table `offset_at` reads: the cached one, or else the table of the
      text, which `get_line_offsets` computes and caches. */
  function TableOf(st: DocState): seq<nat>
  {
    if st.lineOffset.Some? then st.lineOffset.value else LineOffsets(st.text, true, 0)
  }

  /** The cached table, when there is one, is the table of the text. */
  predicate Fresh(st: DocState)
  {
    st.lineOffset.Some? ==> st.lineOffset.value == LineOffsets(st.text, true, 0)
  }

  /** One iteration of `update` (lines 33-84) on the text and the cache, or
      `None` where the source panics (or wraps a shifted entry around). An
      incremental change reads its offsets from the table held, which may be
      out of date, and patches that table; a full change drops it. */
  function Step(st: DocState, change: ContentChange): (r: Option<DocState>)
    ensures IsIncremental(change) ==>
              (r.Some? <==> IncrementalDefined(st.text, TableOf(st), change.range.value, change.text))
    ensures !IsIncremental(change) ==> r.Some?
    ensures r.Some? && IsIncremental(change) ==> r.value.lineOffset.Some?
    ensures IsFull(change) ==> r == Some(DocState(change.text, None))
    ensures !IsIncremental(change) && !IsFull(change) ==> r == Some(st)
  {
    if IsIncremental(change) then
      var table := TableOf(st);
      if IncrementalDefined(st.text, table, change.range.value, change.text) then
        var se := OffsetsIn(table, |st.text|, change.range.value);
        Some(DocState(st.text[..se.0] + change.text + st.text[se.1..],
                      Some(PatchedTable(st.text, table, change.range.value, change.text))))
      else None
    else if IsFull(change) then Some(DocState(change.text, None))
    else Some(st)
  }

  /** The changes applied in order, or `None` once one of them panics. */
  function Run(st: DocState, changes: seq<ContentChange>): Option<DocState>
    decreases |changes|
  {
    if changes == [] then Some(st)
    else
      var mid := Run(st, changes[..|changes| - 1]);
      if mid.None? then None else Step(mid.value, changes[|changes| - 1])
  }

  /** When the changes run through, so does every prefix of them. */
  lemma {:induction false} RunPrefix(st: DocState, changes: seq<ContentChange>, i: nat)
    requires i <= |changes| && Run(st, changes).Some?
    ensures Run(st, changes[..i]).Some?
    decreases |changes|
  {
    if i < |changes| {
      assert changes[..|changes| - 1][..i] == changes[..i];
      RunPrefix(st, changes[..|changes| - 1], i);
    } else {
      assert changes[..i] == changes;
    }
  }

  /** A change that fits a text, made with the table of that text: the source
      gets through it, the offsets are those of `ChangeOffsets`, and the
      patched table is the table of the spliced text. */
  lemma IncrementalFitting(t: string, range: Range, x: string)
    requires IncrementalFits(t, range, x)
    ensures IncrementalDefined(t, LineOffsets(t, true, 0), range, x)
    ensures OffsetsIn(LineOffsets(t, true, 0), |t|, range) == ChangeOffsets(t, range)
    ensures PatchedTable(t, LineOffsets(t, true, 0), range, x) == LineOffsets(SpliceText(t, range, x), true, 0)
  {
    var table := LineOffsets(t, true, 0);
    var r := GetWellformedRange(range);
    var s, e := CutsOfFit(t, range, x);
    var add := LineOffsets(x, false, s);
    var u := t[..s] + x + t[e..];
    assert OffsetsIn(table, |t|, range) == (s, e);
    assert && (r.end.line - r.start.line == |add| && |add| > 0 ==> r.start.line + |add| < |table|)
           && PatchLineOffsets(table, r.start.line, r.end.line, add, |x| - (e - s)) == LineOffsets(u, true, 0) by {
      PatchAtOffsets(t, s, e, x, r.start.line, r.end.line);
    }
    DefinedAt(t, table, range, x, s, e);
    PatchedTableAt(t, table, range, x, s, e);
  }

  /** The conditions of `IncrementalDefined` at given offsets. */
  lemma DefinedAt(text: string, table: seq<nat>, range: Range, x: string, s: nat, e: nat)
    requires OffsetsIn(table, |text|, range) == (s, e)
    requires |table| >= 1 && s <= e <= |text|
    requires var r, add := GetWellformedRange(range), LineOffsets(x, false, s);
             && (r.end.line - r.start.line == |add| && |add| > 0 ==> r.start.line + |add| < |table|)
             && NonNegative(PatchLineOffsets(table, r.start.line, r.end.line, add, |x| - (e - s)))
    ensures IncrementalDefined(text, table, range, x)
  {
  }

  /** A fitting change on a document whose table is current gives the text
      `ApplyChangeText` describes and keeps the table current. */
  lemma StepFitting(st: DocState, change: ContentChange)
    requires Fresh(st) && ChangeFits(st.text, change)
    ensures Step(st, change).Some?
    ensures Step(st, change).value.text == ApplyChangeText(st.text, change)
    ensures Fresh(Step(st, change).value)
    ensures IsIncremental(change) ==>
              Step(st, change).value.lineOffset == Some(LineOffsets(Step(st, change).value.text, true, 0))
  {
    if IsIncremental(change) {
      assert TableOf(st) == LineOffsets(st.text, true, 0);
      IncrementalFitting(st.text, change.range.value, change.text);
    }
  }

  /** Changes that each fit, applied to a document whose table is current:
      the source gets through all of them, the text is `ApplyChanges` of them
      and the table stays current. */
  lemma {:induction false} RunFitting(st: DocState, changes: seq<ContentChange>)
    requires Fresh(st) && ChangesFit(st.text, changes)
    ensures Run(st, changes).Some?
    ensures Run(st, changes).value.text == ApplyChanges(st.text, changes)
    ensures Fresh(Run(st, changes).value)
    decreases |changes|
  {
    if changes != [] {
      var init := changes[..|changes| - 1];
      assert ChangesFit(st.text, init) by {
        forall i | 0 <= i < |init|
          ensures ChangeFits(ApplyChanges(st.text, init[..i]), init[i])
        {
          assert init[..i] == changes[..i] && init[i] == changes[i];
        }
      }
      RunFitting(st, init);
      assert changes[..|changes| - 1] == init;
      StepFitting(Run(st, init).value, changes[|changes| - 1]);
    }
  }

  /** The source's patch on a position past the end of its line: inserting
      `"x"` at line 0, character 5 of `"a\nb"`. `offset_at` clamps that
      position to offset 2, the start of line 1, while the patch still works
      on line 0; so the cached entry of line 1 moves to 3, although line 1 of
      the new text `"a\nxb"` still starts at 2. */
  lemma PatchPastLineEnd()
    ensures Step(DocState("a\nb", None), ContentChange(Some(Range(Position(0, 5), Position(0, 5))), None, "x"))
            == Some(DocState("a\nxb", Some([0, 3])))
    ensures LineOffsets("a\nxb", true, 0) == [0, 2]
  {
    var t, x := "a\nb", "x";
    var r := Range(Position(0, 5), Position(0, 5));
    TablesPastLineEnd();
    assert OffsetsIn([0, 2], 3, r) == (2, 2);
    assert PatchLineOffsets([0, 2], 0, 0, [], 1) == [0, 3] by {
      assert RebuildLineOffsets([0, 2], 0, 0, []) == [0, 2];
    }
    assert t[..2] + x + t[2..] == "a\nxb";
  }

  /** The tables in `PatchPastLineEnd`: those of `"a\nb"` and `"a\nxb"`, and
      the (empty) list of breaks in `"x"`. */
  lemma TablesPastLineEnd()
    ensures LineOffsets("a\nb", true, 0) == [0, 2]
    ensures LineOffsets("x", false, 2) == []
    ensures LineOffsets("a\nxb", true, 0) == [0, 2]
  {
    var t, x, u := "a\nb", "x", "a\nxb";
    assert BreakEnds(t, 3, 0) == [2] by {
      assert BreakEnds(t, 0, 0) == [];
      assert !IsBreakEnd(t, 1) && IsBreakEnd(t, 2) && !IsBreakEnd(t, 3);
    }
    assert BreakEnds(x, 1, 2) == [] by {
      assert BreakEnds(x, 0, 2) == [];
      assert !IsBreakEnd(x, 1);
    }
    assert BreakEnds(u, 4, 0) == [2] by {
      assert BreakEnds(u, 0, 0) == [];
      assert !IsBreakEnd(u, 1) && IsBreakEnd(u, 2) && !IsBreakEnd(u, 3) && !IsBreakEnd(u, 4);
    }
  }


  /** When the replaced lines hold exactly the entries `em`, rebuilding puts
      `add` in their place. */
  lemma RebuildReplaces(ea: seq<int>, em: seq<int>, eb: seq<int>, add: seq<int>)
    ensures var table := [0] + ea + em + eb;
            RebuildLineOffsets(table, |ea|, |ea| + |em|, add) == [0] + ea + add + eb
  {
    var table := [0] + ea + em + eb;
    var r := RebuildLineOffsets(table, |ea|, |ea| + |em|, add);
    if |em| == |add| {
      assert forall j :: 0 <= j < |table| ==> r[j] == ([0] + ea + add + eb)[j];
    } else {
      assert table[..|ea| + 1] == [0] + ea;
      assert table[Min(|ea| + |em|, |table| - 1) + 1..] == eb;
    }
  }

  /** Shifting the tail of a table moves exactly the entries after the edit. */
  lemma ShiftMovesTail(head: seq<int>, eb: seq<int>, eb2: seq<int>, diff: int)
    requires |eb2| == |eb|
    requires forall k :: 0 <= k < |eb| ==> eb2[k] == eb[k] + diff
    ensures ShiftFrom(head + eb, |head|, diff) == head + eb2
  {
    if diff == 0 {
      assert eb == eb2;
    } else {
      var r := ShiftFrom(head + eb, |head|, diff);
      assert forall j :: 0 <= j < |r| ==> r[j] == (head + eb2)[j];
    }
  }

  /** The table of a text made of three pieces, none of whose joins splits
      a `"\r\n"`: the first line, the breaks of each piece in turn. */
  lemma TableOfThree(a: string, m: string, b: string)
    requires NoCrlfJoin(a, m) && NoCrlfJoin(a + m, b)
    ensures LineOffsets(a + m + b, true, 0) ==
            [0] + BreakEnds(a, |a|, 0) + BreakEnds(m, |m|, |a|) + BreakEnds(b, |b|, |a| + |m|)
  {
    BreakEndsConcat(a, m, 0);
    BreakEndsConcat(a + m, b, 0);
  }

  /** Cutting where no `"\r\n"` straddles leaves no `"\r\n"` across the cut. */
  lemma CutHasNoCrlfJoin(t: string, p: nat)
    requires p <= |t| && NoCrlfAt(t, p)
    ensures NoCrlfJoin(t[..p], t[p..])
  {
    if p > 0 && p < |t| {
      assert t[..p][p - 1] == t[p - 1] && t[p..][0] == t[p];
    }
  }

  /** In a table whose first `k` entries are at most `o` and whose other
      entries exceed it, offset `o` lies on line `k - 1`. */
  lemma LineOfCut(table: seq<int>, o: int, k: nat, line: nat)
    requires 1 <= k <= |table|
    requires forall i :: 0 <= i < k ==> table[i] <= o
    requires forall i :: k <= i < |table| ==> o < table[i]
    requires IsLineOf(table, o, line)
    ensures line == k - 1
  {
  }

  /** The table of `a + m + b` cut into its parts: the breaks of `a`, those
      of `m` and those of `b`, each after the offset its piece starts at. */
  lemma PartsOfTable(a: string, m: string, b: string) returns (ea: seq<nat>, em: seq<nat>, eb: seq<nat>)
    requires NoCrlfJoin(a, m) && NoCrlfJoin(a + m, b)
    ensures LineOffsets(a + m + b, true, 0) == [0] + ea + em + eb
    ensures ea == BreakEnds(a, |a|, 0) && em == BreakEnds(m, |m|, |a|) && eb == BreakEnds(b, |b|, |a| + |m|)
    ensures forall i :: 0 <= i < |ea| ==> ea[i] <= |a|
    ensures forall i :: 0 <= i < |em| ==> |a| < em[i] <= |a| + |m|
    ensures forall i :: 0 <= i < |eb| ==> |a| + |m| < eb[i]
  {
    ea, em, eb := BreakEnds(a, |a|, 0), BreakEnds(m, |m|, |a|), BreakEnds(b, |b|, |a| + |m|);
    TableOfThree(a, m, b);
    BreakEndsBounds(a, |a|, 0);
    BreakEndsBounds(m, |m|, |a|);
    BreakEndsBounds(b, |b|, |a| + |m|);
  }

  /** The old table is `[0]` followed by the entries at most `s`, those in
      `(s, e]` and those beyond `e`; the new table keeps the first part, has
      `add` in place of the second, and the third moved by `diff`. */
  ghost predicate EditCut(table: seq<int>, newTable: seq<int>, add: seq<int>,
                          ea: seq<int>, em: seq<int>, eb: seq<int>, eb2: seq<int>, s: int, e: int, diff: int)
  {
    && table == [0] + ea + em + eb && newTable == [0] + ea + add + eb2 && 0 <= s <= e
    && (forall i :: 0 <= i < |ea| ==> ea[i] <= s)
    && (forall i :: 0 <= i < |em| ==> s < em[i] <= e)
    && (forall i :: 0 <= i < |eb| ==> e < eb[i])
    && |eb2| == |eb| && (forall k :: 0 <= k < |eb| ==> eb2[k] == eb[k] + diff)
  }

  /** The tables of the old text `t` and of the new text, where `t[s..e]` is
      replaced by `x`, each cut into its parts: the breaks before `s`, those
      in the replaced or inserted piece, and those after it, which sit
      `|x| - (e - s)` further on in the new text. */
  lemma TablesOfEdit(t: string, s: nat, e: nat, x: string)
    returns (ea: seq<nat>, em: seq<nat>, eb: seq<nat>, eb2: seq<nat>)
    requires s <= e <= |t| && NoCrlfAt(t, s) && NoCrlfAt(t, e)
    requires NoCrlfJoin(t[..s], x) && NoCrlfJoin(t[..s] + x, t[e..])
    ensures EditCut(LineOffsets(t, true, 0), LineOffsets(t[..s] + x + t[e..], true, 0), LineOffsets(x, false, s),
                    ea, em, eb, eb2, s, e, |x| - (e - s))
  {
    SlicesAtCuts(t, s, e);
    var a, m, b := t[..s], t[s..e], t[e..];
    ea, em, eb := PartsOfTable(a, m, b);
    var ex;
    ea, ex, eb2 := PartsOfTable(a, x, b);
    assert LineOffsets(x, false, s) == ex;
    BreakEndsRebase(b, |b|, |a| + |m|, |a| + |x|);
    forall k | 0 <= k < |eb|
      ensures eb2[k] == eb[k] + (|x| - (e - s))
    {
      assert eb2[k] == eb[k] - (|a| + |m|) + (|a| + |x|);
    }
  }

  /** In a table made of `[0]`, entries at most `s`, entries in `(s, e]` and
      entries beyond `e`, the lines holding `s` and `e` are the last lines of
      the first two parts. */
  lemma LinesOfParts(table: seq<int>, ea: seq<int>, em: seq<int>, eb: seq<int>,
                     s: int, e: int, startLine: nat, endLine: nat)
    requires table == [0] + ea + em + eb && 0 <= s <= e
    requires forall i :: 0 <= i < |ea| ==> ea[i] <= s
    requires forall i :: 0 <= i < |em| ==> s < em[i] <= e
    requires forall i :: 0 <= i < |eb| ==> e < eb[i]
    requires IsLineOf(table, s, startLine) && IsLineOf(table, e, endLine)
    ensures startLine == |ea| && endLine == |ea| + |em|
  {
    var ka, km := 1 + |ea|, 1 + |ea| + |em|;
    forall i | 0 <= i < |table|
      ensures i < ka ==> table[i] <= s
      ensures ka <= i ==> s < table[i]
      ensures i < km ==> table[i] <= e
      ensures km <= i ==> e < table[i]
    {
      if i == 0 {
      } else if i < ka {
        assert table[i] == ea[i - 1];
      } else if i < km {
        assert table[i] == em[i - ka];
      } else {
        assert table[i] == eb[i - km];
      }
    }
    LineOfCut(table, s, ka, startLine);
    LineOfCut(table, e, km, endLine);
  }

  /** The patch on a table cut into the entries before the edit, those it
      replaces and those after it: the replaced entries become `add`, and
      the later ones become `eb2`, which lists the same breaks seen from
      offset `o2` instead of `o1`. */
  lemma PatchOfParts(table: seq<int>, newTable: seq<int>, ea: seq<int>, em: seq<int>, eb: seq<int>,
                     add: seq<int>, eb2: seq<int>, startLine: nat, endLine: nat, o1: int, o2: int, diff: int)
    requires table == [0] + ea + em + eb && newTable == [0] + ea + add + eb2
    requires startLine == |ea| && endLine == |ea| + |em| && diff == o2 - o1
    requires |eb2| == |eb| && forall k :: 0 <= k < |eb| ==> eb2[k] == eb[k] - o1 + o2
    ensures startLine <= endLine
    ensures endLine - startLine == |add| && |add| > 0 ==> startLine + |add| < |table|
    ensures PatchLineOffsets(table, startLine, endLine, add, diff) == newTable
  {
    var head := [0] + ea + add;
    RebuildReplaces(ea, em, eb, add);
    ShiftMovesTail(head, eb, eb2, diff);
  }

  /** `LinesOfParts` and `PatchOfParts` together: the range's lines are the
      cut points, so the patch turns the old table into the new one. */
  lemma PatchAtTables(table: seq<int>, newTable: seq<int>, add: seq<int>,
                      ea: seq<int>, em: seq<int>, eb: seq<int>, eb2: seq<int>,
                      s: int, e: int, diff: int, startLine: nat, endLine: nat)
    requires EditCut(table, newTable, add, ea, em, eb, eb2, s, e, diff)
    requires IsLineOf(table, s, startLine) && IsLineOf(table, e, endLine)
    ensures startLine <= endLine
    ensures endLine - startLine == |add| && |add| > 0 ==> startLine + |add| < |table|
    ensures PatchLineOffsets(table, startLine, endLine, add, diff) == newTable
  {
    LinesOfParts(table, ea, em, eb, s, e, startLine, endLine);
    PatchOfParts(table, newTable, ea, em, eb, add, eb2, startLine, endLine, e, e + diff, diff);
  }

  /** A change that fits cuts the text at offsets `s <= e`, on the lines its
      range names, where no `"\r\n"` is split or formed. */
  lemma CutsOfFit(t: string, range: Range, x: string) returns (s: nat, e: nat)
    requires IncrementalFits(t, range, x)
    ensures (s, e) == ChangeOffsets(t, range) && s <= e <= |t|
    ensures SpliceText(t, range, x) == t[..s] + x + t[e..]
    ensures NoCrlfAt(t, s) && NoCrlfAt(t, e)
    ensures NoCrlfJoin(t[..s], x) && NoCrlfJoin(t[..s] + x, t[e..])
    ensures IsLineOf(LineOffsets(t, true, 0), s, GetWellformedRange(range).start.line)
    ensures IsLineOf(LineOffsets(t, true, 0), e, GetWellformedRange(range).end.line)
  {
    var r := GetWellformedRange(range);
    s, e := ChangeOffsets(t, range).0, ChangeOffsets(t, range).1;
    var table := LineOffsets(t, true, 0);
    assert IsLineOf(table, s, r.start.line);
    assert IsLineOf(table, e, r.end.line);
  }

  /** Replacing the slice `t[s..e]` by `x`, where no `"\r\n"` is split or
      formed at either edge and the given lines are the lines holding `s` and
      `e`: the patched table is the table of the new text. */
  lemma PatchAtOffsets(t: string, s: nat, e: nat, x: string, startLine: nat, endLine: nat)
    requires s <= e <= |t| && NoCrlfAt(t, s) && NoCrlfAt(t, e)
    requires NoCrlfJoin(t[..s], x) && NoCrlfJoin(t[..s] + x, t[e..])
    requires IsLineOf(LineOffsets(t, true, 0), s, startLine) && IsLineOf(LineOffsets(t, true, 0), e, endLine)
    ensures startLine <= endLine
    ensures endLine - startLine == |LineOffsets(x, false, s)| && |LineOffsets(x, false, s)| > 0 ==>
              startLine + |LineOffsets(x, false, s)| < |LineOffsets(t, true, 0)|
    ensures PatchLineOffsets(LineOffsets(t, true, 0), startLine, endLine, LineOffsets(x, false, s), |x| - (e - s))
              == LineOffsets(t[..s] + x + t[e..], true, 0)
  {
    var ea, em, eb, eb2 := TablesOfEdit(t, s, e, x);
    PatchAtTables(LineOffsets(t, true, 0), LineOffsets(t[..s] + x + t[e..], true, 0), LineOffsets(x, false, s),
                  ea, em, eb, eb2, s, e, |x| - (e - s), startLine, endLine);
  }

  /** Cutting `t` at `s <= e`, where no `"\r\n"` is split, gives three
      pieces that join back to `t` without forming a new `"\r\n"`. */
  lemma SlicesAtCuts(t: string, s: nat, e: nat)
    requires s <= e <= |t| && NoCrlfAt(t, s) && NoCrlfAt(t, e)
    ensures t == t[..s] + t[s..e] + t[e..]
    ensures |t[..s]| == s && |t[s..e]| == e - s
    ensures NoCrlfJoin(t[..s], t[s..e]) && NoCrlfJoin(t[..s] + t[s..e], t[e..])
  {
    var a, m, b := t[..s], t[s..e], t[e..];
    assert t[..e] == a + m;
    assert t == a + m + b;
    CutHasNoCrlfJoin(t[..e], s);
    assert t[..e][..s] == a && t[..e][s..] == m;
    CutHasNoCrlfJoin(t, e);
  }

  /** Lines 56-79 of the source, on the table `update` holds: the breaks of
      the inserted text are listed from its start offset, the replaced lines'
      entries are overwritten in place or cut out and replaced by them, then
      every entry after the added ones moves by the change in length. */
  method PatchTable(lineOffsets: seq<int>, startLine: nat, endLine: nat,
                    startOffset: nat, endOffset: nat, changeText: string)
    returns (patched: seq<int>)
    requires |lineOffsets| >= 1 && startLine <= endLine
    requires endLine - startLine == |LineOffsets(changeText, false, startOffset)| &&
             |LineOffsets(changeText, false, startOffset)| > 0 ==>
               startLine + |LineOffsets(changeText, false, startOffset)| < |lineOffsets|
    ensures patched == PatchLineOffsets(lineOffsets, startLine, endLine, LineOffsets(changeText, false, startOffset),
                                        |changeText| - (endOffset - startOffset))
  {
    var addLineOffsets := ComputeLineOffsets(changeText, false, Some(startOffset));
    assert addLineOffsets == LineOffsets(changeText, false, startOffset);
    var diff := |changeText| - (endOffset - startOffset);
    patched := RebuildTable(lineOffsets, startLine, endLine, addLineOffsets);
    patched := ShiftTable(patched, startLine + 1 + |addLineOffsets|, diff);
  }

  /** Lines 59-73 of the source: when as many entries are added as lines were
      replaced, they overwrite the old ones one by one; otherwise the table
      is cut and the added entries are put in between. */
  method RebuildTable(lineOffsets: seq<int>, startLine: nat, endLine: nat, addLineOffsets: seq<int>)
    returns (patched: seq<int>)
    requires |lineOffsets| >= 1 && startLine <= endLine
    requires endLine - startLine == |addLineOffsets| && |addLineOffsets| > 0 ==> startLine + |addLineOffsets| < |lineOffsets|
    ensures patched == RebuildLineOffsets(lineOffsets, startLine, endLine, addLineOffsets)
  {
    var addLen := |addLineOffsets|;
    patched := lineOffsets;
    if endLine - startLine == addLen {
      for i := 0 to addLen
        invariant |patched| == |lineOffsets|
        invariant forall j :: 0 <= j < |patched| ==>
                    patched[j] == if startLine + 1 <= j < startLine + 1 + i then addLineOffsets[j - startLine - 1] else lineOffsets[j]
      {
        patched := patched[i + startLine + 1 := addLineOffsets[i]];
      }
    } else {
      patched := patched[..Min(startLine, |patched| - 1) + 1] + addLineOffsets + patched[Min(endLine, |patched| - 1) + 1..];
    }
  }

  /** Lines 74-79 of the source: unless the length is unchanged, every entry
      from index `from` on moves by `diff`. */
  method ShiftTable(table: seq<int>, from: nat, diff: int) returns (shifted: seq<int>)
    ensures shifted == ShiftFrom(table, from, diff)
  {
    shifted := table;
    if diff != 0 {
      var i := from;
      while i < |shifted|
        invariant |shifted| == |table|
        invariant forall j :: 0 <= j < |shifted| ==>
                    shifted[j] == if from <= j < i then table[j] + diff else table[j]
      {
        shifted := shifted[i := shifted[i] + diff];
        i := i + 1;
      }
    }
  }

  /** Lines 59-79 of the source where the change cuts the text at offsets
      `startOffset <= endOffset` on the lines `startLine` and `endLine`, and
      no `"\r\n"` is split or formed: the patched table is the table of the
      spliced text. */
  method PatchEdit(text: string, lineOffsets: seq<nat>, startLine: nat, endLine: nat,
                   startOffset: nat, endOffset: nat, changeText: string)
    returns (newTable: seq<nat>)
    requires lineOffsets == LineOffsets(text, true, 0)
    requires startOffset <= endOffset <= |text| && NoCrlfAt(text, startOffset) && NoCrlfAt(text, endOffset)
    requires NoCrlfJoin(text[..startOffset], changeText) && NoCrlfJoin(text[..startOffset] + changeText, text[endOffset..])
    requires IsLineOf(lineOffsets, startOffset, startLine) && IsLineOf(lineOffsets, endOffset, endLine)
    ensures newTable == LineOffsets(text[..startOffset] + changeText + text[endOffset..], true, 0)
  {
    PatchAtOffsets(text, startOffset, endOffset, changeText, startLine, endLine);
    var patched := PatchTable(lineOffsets, startLine, endLine, startOffset, endOffset, changeText);
    newTable := patched;
  }

  /** Lines 34-79 of the source on a text and the table the document holds,
      current or not: the range's ends become offsets as `offset_at` reads
      them from that table, the text is spliced there, and the table is
      patched at the lines the range names. When the table is the text's own
      and the change fits, the result is the spliced text and its table. */
  method SpliceAndPatch(text: string, lineOffsets: seq<nat>, changeRange: Range, changeText: string)
    returns (newText: string, newTable: seq<nat>)
    requires IncrementalDefined(text, lineOffsets, changeRange, changeText)
    ensures var se := OffsetsIn(lineOffsets, |text|, changeRange);
            newText == text[..se.0] + changeText + text[se.1..]
    ensures newTable == PatchedTable(text, lineOffsets, changeRange, changeText)
    ensures lineOffsets == LineOffsets(text, true, 0) && IncrementalFits(text, changeRange, changeText) ==>
              newText == SpliceText(text, changeRange, changeText) && newTable == LineOffsets(newText, true, 0)
  {
    var range := GetWellformedRange(changeRange);
    var startOffset := OffsetIn(lineOffsets, |text|, range.start);
    var endOffset := OffsetIn(lineOffsets, |text|, range.end);
    assert OffsetsIn(lineOffsets, |text|, changeRange) == (startOffset, endOffset);
    var byteOffsets := TransformOffsetToByteOffset(text, startOffset, endOffset);
    newText := text[..byteOffsets.0] + changeText + text[byteOffsets.1..];
    var patched := PatchTable(lineOffsets, range.start.line, range.end.line, startOffset, endOffset, changeText);
    PatchedTableAt(text, lineOffsets, changeRange, changeText, startOffset, endOffset);
    assert patched == PatchedTable(text, lineOffsets, changeRange, changeText);
    newTable := patched;
    if lineOffsets == LineOffsets(text, true, 0) && IncrementalFits(text, changeRange, changeText) {
      IncrementalFitting(text, changeRange, changeText);
    }
  }

  /** The patch made at the lines that hold the two offsets instead of the
      lines the range names. On the text's own table, and where no `"\r\n"`
      is split or formed at the edges of the edit, it yields the table of the
      spliced text for every range, including positions past the end of
      their line or past the last line. */
  method SpliceAndPatchAtOffsetLines(text: string, lineOffsets: seq<nat>, changeRange: Range, changeText: string)
    returns (newText: string, newTable: seq<nat>)
    requires lineOffsets == LineOffsets(text, true, 0)
    requires var se := ChangeOffsets(text, changeRange);
             && NoCrlfAt(text, se.0) && NoCrlfAt(text, se.1)
             && NoCrlfJoin(text[..se.0], changeText) && NoCrlfJoin(text[..se.0] + changeText, text[se.1..])
    ensures newText == SpliceText(text, changeRange, changeText)
    ensures newTable == LineOffsets(newText, true, 0)
  {
    var range := GetWellformedRange(changeRange);
    var startOffset := OffsetIn(lineOffsets, |text|, range.start);
    var endOffset := OffsetIn(lineOffsets, |text|, range.end);
    assert (startOffset, endOffset) == ChangeOffsets(text, changeRange);
    FullTableIsLineTable(text);
    var startLine := LineFrom(lineOffsets, startOffset, 0);
    var endLine := LineFrom(lineOffsets, endOffset, 0);
    newText := text[..startOffset] + changeText + text[endOffset..];
    newTable := PatchEdit(text, lineOffsets, startLine, endLine, startOffset, endOffset, changeText);
  }

  /** `FullTextDocument`: a document's identity, version, text and the lazily
      computed line-start table, which `update` patches in place and which
      can fall out of step with the text. */
  class FullTextDocument {
    var uri: string
    var languageId: string
    var version: int
    var text: string
    var lineOffset: Option<seq<nat>>

    /** The text and the cached table. */
    function State(): DocState
      reads this
    {
      DocState(text, lineOffset)
    }

    /** A cached table is never empty and starts at 0: a computed table puts
        0 first, and a patch never moves the first entry. */
    predicate Valid()
      reads this
    {
      lineOffset.Some? ==> |lineOffset.value| >= 1 && lineOffset.value[0] == 0
    }

    /** `new`: nothing is cached yet. */
    constructor (uri: string, languageId: string, version: int, text: string)
      ensures Valid() && Fresh(State())
      ensures this.uri == uri && this.languageId == languageId
      ensures this.version == version && this.text == text
      ensures lineOffset == None
    {
      this.uri := uri;
      this.languageId := languageId;
      this.version := version;
      this.text := text;
      this.lineOffset := None;
    }

    /** `get_line_offsets`: the cached table, computing the table of the text
        and caching it first when there is none. */
    method GetLineOffsets() returns (table: seq<nat>)
      modifies this
      ensures table == TableOf(old(State())) && lineOffset == Some(table)
      ensures old(Valid()) ==> Valid()
      ensures old(Fresh(State())) ==> Fresh(State())
      ensures text == old(text) && version == old(version)
      ensures uri == old(uri) && languageId == old(languageId)
    {
      if lineOffset.None? {
        var computed := ComputeLineOffsets(text, true, None);
        FullTableIsLineTable(text);
        lineOffset := Some(computed);
      }
      table := lineOffset.value;
    }

    /** `offset_at`: the offset of a position, clamped into its line of the
        table held; with a current table, the offset in the text. */
    method OffsetAt(position: Position) returns (offset: nat)
      modifies this
      ensures lineOffset == Some(TableOf(old(State())))
      ensures offset == OffsetIn(TableOf(old(State())), |text|, position)
      ensures old(Valid()) ==> Valid()
      ensures old(Fresh(State())) ==> Fresh(State()) && offset == OffsetIn(LineOffsets(text, true, 0), |text|, position)
      ensures text == old(text) && version == old(version)
      ensures uri == old(uri) && languageId == old(languageId)
    {
      var lineOffsets := GetLineOffsets();
      if position.line >= |lineOffsets| {
        return |text|;
      }
      var lineOffset := lineOffsets[position.line];
      var nextLineOffset := if position.line + 1 < |lineOffsets| then lineOffsets[position.line + 1] else |text|;
      offset := Max(Min(lineOffset + position.character, nextLineOffset), lineOffset);
    }

    /** `position_at`: a line of the table held whose range covers the
        (clamped) offset, found by binary search, and the distance from that
        line's start; with a current table, the one line holding the offset.
        An empty table gives line 0 and the offset itself. The source fails
        at `low - 1` when the first entry lies after the offset, which only a
        stale table can cause. */
    method PositionAt(offset: nat) returns (p: Position)
      requires var table := TableOf(State()); |table| == 0 || table[0] <= Min(offset, |text|)
      modifies this
      ensures lineOffset == Some(TableOf(old(State())))
      ensures old(Valid()) ==> Valid()
      ensures |TableOf(old(State()))| == 0 ==> p == Position(0, Min(offset, |text|))
      ensures var table := TableOf(old(State()));
              |table| > 0 ==> IsLineOf(table, Min(offset, |text|), p.line) && table[p.line] + p.character == Min(offset, |text|)
      ensures old(Fresh(State())) ==> Fresh(State()) && p == PositionIn(LineOffsets(text, true, 0), |text|, offset)
      ensures text == old(text) && version == old(version)
      ensures uri == old(uri) && languageId == old(languageId)
    {
      var o := Min(offset, |text|);
      var lineOffsets := GetLineOffsets();
      var low, high := 0, |lineOffsets|;
      if high == 0 {
        return Position(0, o);
      }
      while low < high
        invariant 0 <= low <= high <= |lineOffsets|
        invariant low == 0 || lineOffsets[low - 1] <= o
        invariant high == |lineOffsets| || o < lineOffsets[high]
        decreases high - low
      {
        var mid := low + (high - low) / 2;
        if lineOffsets[mid] > o {
          high := mid;
        } else {
          low := mid + 1;
        }
      }
      var line := low - 1;
      p := Position(line, o - lineOffsets[line]);
      if old(Fresh(State())) {
        FullTableIsLineTable(text);
        LineOfUnique(lineOffsets, o, line, PositionIn(lineOffsets, |text|, offset).line);
      }
    }

    /** `line_count`: the number of entries of the table held. */
    method LineCount() returns (n: nat)
      modifies this
      ensures n == |TableOf(old(State()))| && lineOffset == Some(TableOf(old(State())))
      ensures old(Valid()) ==> Valid()
      ensures old(Fresh(State())) ==> Fresh(State()) && n == |LineOffsets(text, true, 0)|
      ensures text == old(text) && version == old(version)
      ensures uri == old(uri) && languageId == old(languageId)
    {
      var lineOffsets := GetLineOffsets();
      n := |lineOffsets|;
    }

    /** One incremental change (lines 34-79 of the source): the offsets are
        read from the table held, the text is spliced there, and the table is
        patched in place rather than recomputed. When the table was current
        and the change fits, the patched table is the table of the new text. */
    method ApplyIncremental(changeRange: Range, changeText: string)
      requires Valid()
      requires IncrementalDefined(text, TableOf(State()), changeRange, changeText)
      modifies this
      ensures Valid()
      ensures var se := OffsetsIn(TableOf(old(State())), |old(text)|, changeRange);
              text == old(text)[..se.0] + changeText + old(text)[se.1..]
      ensures lineOffset == Some(PatchedTable(old(text), TableOf(old(State())), changeRange, changeText))
      ensures old(Fresh(State())) && IncrementalFits(old(text), changeRange, changeText) ==>
                text == SpliceText(old(text), changeRange, changeText) && lineOffset == Some(LineOffsets(text, true, 0))
      ensures version == old(version)
      ensures uri == old(uri) && languageId == old(languageId)
    {
      var lineOffsets := GetLineOffsets();
      var newText, table := SpliceAndPatch(text, lineOffsets, changeRange, changeText);
      text := newText;
      lineOffset := Some(table);
    }

    /** One iteration of `update`: an incremental change splices the text and
        patches the table, a full change replaces the text and drops the
        table, any other change leaves both; the version is set in each case. */
    method ApplyChange(change: ContentChange, version: int)
      requires Valid() && Step(State(), change).Some?
      modifies this
      ensures Valid()
      ensures Some(State()) == Step(old(State()), change)
      ensures this.version == version
      ensures uri == old(uri) && languageId == old(languageId)
    {
      if IsIncremental(change) {
        ApplyIncremental(change.range.value, change.text);
      } else if IsFull(change) {
        text := change.text;
        lineOffset := None;
      }
      this.version := version;
    }

    /** `update`: the changes are applied in order, and the version is set
        once per change (an empty list leaves it as it was). Changes that
        each fit, on a document whose table is current, give the text
        `ApplyChanges` describes and keep the table current. */
    method Update(changes: seq<ContentChange>, version: int)
      requires Valid() && Run(State(), changes).Some?
      modifies this
      ensures Valid()
      ensures Some(State()) == Run(old(State()), changes)
      ensures this.version == if changes == [] then old(this.version) else version
      ensures old(Fresh(State())) && ChangesFit(old(text), changes) ==>
                Fresh(State()) && text == ApplyChanges(old(text), changes)
      ensures uri == old(uri) && languageId == old(languageId)
    {
      for i := 0 to |changes|
        invariant Valid()
        invariant Some(State()) == Run(old(State()), changes[..i])
        invariant this.version == if i == 0 then old(this.version) else version
        invariant uri == old(uri) && languageId == old(languageId)
      {
        RunPrefix(old(State()), changes, i + 1);
        assert changes[..i + 1][..i] == changes[..i];
        ApplyChange(changes[i], version);
      }
      assert changes[..|changes|] == changes;
      if old(Fresh(State())) && ChangesFit(old(text), changes) {
        RunFitting(old(State()), changes);
      }
    }
  }
}
