/** The line-start table of a text (src/lsp_document.rs, `compute_line_offsets`).

    A line break is `"\r\n"`, a lone `'\r'` or a lone `'\n'`; a table entry is the
    offset just after a break. Offsets count characters: the model has one
    unit per character. */
module LineBreaks {
  import opened Wrappers

  /** `p` is the position just after a line break of `t`. A `'\r'` directly
      followed by `'\n'` is not a break end by itself: the pair ends after the `'\n'`. */
  predicate IsBreakEnd(t: string, p: int)
    requires 1 <= p <= |t|
  {
    t[p - 1] == '\n' || (t[p - 1] == '\r' && (p == |t| || t[p] != '\n'))
  }

  /** `offset + p` for every break end `p` of `t` in `(0, n]`, in increasing order. */
  function BreakEnds(t: string, n: nat, offset: nat): seq<nat>
    requires n <= |t|
    decreases n
  {
    if n == 0 then [] else BreakEnds(t, n - 1, offset) + (if IsBreakEnd(t, n) then [offset + n] else [])
  }

  /** What `compute_line_offsets(text, is_at_line_start, Some(offset))` returns. */
  function LineOffsets(t: string, atLineStart: bool, offset: nat): seq<nat>
  {
    (if atLineStart then [offset] else []) + BreakEnds(t, |t|, offset)
  }

  predicate StrictlyIncreasing(s: seq<int>)
  {
    forall i, j :: 0 <= i < j < |s| ==> s[i] < s[j]
  }

  /** `BreakEnds` lists exactly the break ends up to `n`, strictly increasing. */
  lemma {:induction false} BreakEndsProps(t: string, n: nat, offset: nat)
    requires n <= |t|
    ensures StrictlyIncreasing(BreakEnds(t, n, offset))
    ensures forall i :: 0 <= i < |BreakEnds(t, n, offset)| ==>
              offset + 1 <= BreakEnds(t, n, offset)[i] <= offset + n
    ensures forall p :: 1 <= p <= n ==> (offset + p in BreakEnds(t, n, offset) <==> IsBreakEnd(t, p))
    decreases n
  {
    if n > 0 {
      BreakEndsProps(t, n - 1, offset);
    }
  }

  /** The shape of the table `compute_line_offsets` returns: it starts with
      `offset` exactly when `atLineStart`, is strictly increasing, stays within
      `[offset, offset + |t|]`, and after the optional first entry holds
      `offset + p` for exactly the break ends `p` of `t` (so `"\r\n"` counts once). */
  lemma LineOffsetsShape(t: string, atLineStart: bool, offset: nat)
    ensures var r := LineOffsets(t, atLineStart, offset);
      && StrictlyIncreasing(r)
      && (forall i :: 0 <= i < |r| ==> offset <= r[i] <= offset + |t|)
      && (atLineStart <==> (|r| > 0 && r[0] == offset))
      && (forall p :: 1 <= p <= |t| ==> (offset + p in r <==> IsBreakEnd(t, p)))
  {
    BreakEndsProps(t, |t|, offset);
  }

  /** The line-start table of a whole text: starts at 0, strictly increasing,
      and never beyond the end of the text. */
  predicate IsLineTable(L: seq<int>, textLen: nat)
  {
    |L| >= 1 && L[0] == 0 && StrictlyIncreasing(L)
    && forall i :: 0 <= i < |L| ==> 0 <= L[i] <= textLen
  }

  lemma FullTableIsLineTable(t: string)
    ensures IsLineTable(LineOffsets(t, true, 0), |t|)
  {
    LineOffsetsShape(t, true, 0);
  }

  /** `compute_line_offsets`: one forward scan that consumes `"\r\n"` as one break.
      The entries pushed after the optional leading `offset` are gathered in
      `ends` and appended to it at the end. */
  method ComputeLineOffsets(text: string, isAtLineStart: bool, textOffset: Option<nat>)
    returns (result: seq<nat>)
    ensures result == LineOffsets(text, isAtLineStart, textOffset.GetOr(0))
  {
    var offset := if textOffset.Some? then textOffset.value else 0;
    var ends: seq<nat> := [];
    var i := 0;
    while i < |text|
      invariant 0 <= i <= |text|
      invariant ends == BreakEnds(text, i, offset)
      invariant 0 < i < |text| ==> !(text[i - 1] == '\r' && text[i] == '\n')
    {
      var ch := text[i];
      if ch == '\r' || ch == '\n' {
        if ch == '\r' && i + 1 < |text| && text[i + 1] == '\n' {
          assert BreakEnds(text, i + 1, offset) == BreakEnds(text, i, offset);
          i := i + 1;
        }
        assert BreakEnds(text, i + 1, offset) == BreakEnds(text, i, offset) + [offset + i + 1];
        ends := ends + [offset + i + 1];
      } else {
        assert BreakEnds(text, i + 1, offset) == BreakEnds(text, i, offset);
      }
      i := i + 1;
    }
    result := (if isAtLineStart then [offset] else []) + ends;
  }

  /** A `"\r\n"` does not straddle position `p` of `t`. */
  predicate NoCrlfAt(t: string, p: int)
  {
    !(0 < p < |t| && t[p - 1] == '\r' && t[p] == '\n')
  }

  /** No `"\r\n"` is formed where `u` and `v` meet. */
  predicate NoCrlfJoin(u: string, v: string)
  {
    !(|u| > 0 && |v| > 0 && u[|u| - 1] == '\r' && v[0] == '\n')
  }

  /** Below the join point, the break ends of `u + v` are those of `u`. */
  lemma {:induction false} BreakEndsPrefix(u: string, v: string, n: nat, offset: nat)
    requires n <= |u|
    requires NoCrlfJoin(u, v)
    ensures BreakEnds(u + v, n, offset) == BreakEnds(u, n, offset)
    decreases n
  {
    if n > 0 {
      BreakEndsPrefix(u, v, n - 1, offset);
      assert IsBreakEnd(u + v, n) == IsBreakEnd(u, n);
    }
  }

  /** Above the join point, the break ends of `u + v` are those of `v`, shifted by `|u|`. */
  lemma {:induction false} BreakEndsSuffix(u: string, v: string, q: nat, offset: nat)
    requires q <= |v|
    requires NoCrlfJoin(u, v)
    ensures BreakEnds(u + v, |u| + q, offset) == BreakEnds(u, |u|, offset) + BreakEnds(v, q, offset + |u|)
    decreases q
  {
    if q == 0 {
      BreakEndsPrefix(u, v, |u|, offset);
    } else {
      BreakEndsSuffix(u, v, q - 1, offset);
      assert IsBreakEnd(u + v, |u| + q) == IsBreakEnd(v, q);
    }
  }

  /** Cutting a text where no `"\r\n"` straddles the cut splits its break ends. */
  lemma BreakEndsConcat(u: string, v: string, offset: nat)
    requires NoCrlfJoin(u, v)
    ensures BreakEnds(u + v, |u + v|, offset) == BreakEnds(u, |u|, offset) + BreakEnds(v, |v|, offset + |u|)
  {
    BreakEndsSuffix(u, v, |v|, offset);
  }

  /** Moving the starting offset moves every entry by the same amount. */
  lemma {:induction false} BreakEndsRebase(t: string, n: nat, o1: nat, o2: nat)
    requires n <= |t|
    ensures |BreakEnds(t, n, o2)| == |BreakEnds(t, n, o1)|
    ensures forall k :: 0 <= k < |BreakEnds(t, n, o1)| ==>
              BreakEnds(t, n, o2)[k] == BreakEnds(t, n, o1)[k] - o1 + o2
    decreases n
  {
    if n > 0 {
      BreakEndsRebase(t, n - 1, o1, o2);
    }
  }

  /** Every entry of `BreakEnds(t, n, offset)` lies in `[offset + 1, offset + n]`. */
  lemma {:induction false} BreakEndsBounds(t: string, n: nat, offset: nat)
    requires n <= |t|
    ensures forall i :: 0 <= i < |BreakEnds(t, n, offset)| ==>
              offset + 1 <= BreakEnds(t, n, offset)[i] <= offset + n
    decreases n
  {
    if n > 0 {
      BreakEndsBounds(t, n - 1, offset);
    }
  }
}
