/** The translation-key locator (src/string_helper.rs): a key is the text
    between one of seven call prefixes and the nearest closing quote on the
    same line. The regular expression `{begin}(.+?){end}` is written out as a
    leftmost-first scanner, beside a declarative statement of what a match is;
    lemmas tie the two together. Offsets count characters. */
module StringHelper {
  import opened Wrappers

  /** `TRANSLATION_BEGIN`: the prefixes that open a translation call, in the
      order the alternation tries them. */
  const TranslationBegin: seq<string> :=
    ["translate('", "translate(\"", "translate(`", " t('", " t(\"", "(t('", "(t(\""]

  /** `TRANSLATION_END`: any of these closes a key, whatever opened it. Each
      is one character long, so the table is kept as characters. */
  const TranslationEnd: seq<char> := ['\'', '"', '`']

  /** A match of the expression: where it starts, and the half-open range of
      its key (capture group 1). */
  datatype KeyMatch = KeyMatch(start: nat, keyStart: nat, keyEnd: nat)

  /** `w` occurs in `text` at offset `k`. */
  predicate HasAt(text: string, k: nat, w: string)
  {
    k + |w| <= |text| && text[k..k + |w|] == w
  }

  /** One of the closing quotes occurs at `k`. */
  predicate EndAt(text: string, k: nat)
  {
    k < |text| && text[k] in TranslationEnd
  }

  /** `.` does not match a newline: `text[a..b]` holds none. */
  predicate NoNewline(text: string, a: nat, b: nat)
  {
    forall m :: a <= m < b ==> m < |text| && text[m] != '\n'
  }

  /** `(.+?){end}` from `q`: the key `text[q..c]` is non-empty, on one line,
      followed by a closing quote, and no shorter key is. */
  predicate ClosesAt(text: string, q: nat, c: nat)
  {
    q < c < |text| && NoNewline(text, q, c) && EndAt(text, c) &&
    forall c' :: q < c' < c ==> !EndAt(text, c')
  }

  /** Some key starts at `q`. */
  ghost predicate KeyFrom(text: string, q: nat)
  {
    exists c :: ClosesAt(text, q, c)
  }

  /** Alternative `i` of the prefix group matches at `p` and a key closes after it. */
  ghost predicate AltMatches(text: string, p: nat, i: nat)
  {
    i < |TranslationBegin| && HasAt(text, p, TranslationBegin[i]) && KeyFrom(text, p + |TranslationBegin[i]|)
  }

  /** `m` is the match the expression reports at `m.start` through
      alternative `i`: every earlier alternative fails there, and the key is
      the shortest one after the prefix. */
  ghost predicate MatchVia(text: string, m: KeyMatch, i: nat)
  {
    i < |TranslationBegin| && HasAt(text, m.start, TranslationBegin[i]) &&
    m.keyStart == m.start + |TranslationBegin[i]| && ClosesAt(text, m.keyStart, m.keyEnd) &&
    forall j :: 0 <= j < i ==> !AltMatches(text, m.start, j)
  }

  /** `m` is the match the expression reports when it is tried at `m.start`. */
  ghost predicate MatchAt(text: string, m: KeyMatch)
  {
    exists i :: MatchVia(text, m, i)
  }

  /** The scan for the closing quote of a key that starts before `k`: it
      tries `k`, `k + 1`, ... and gives up at a newline or the end. */
  function CloseFrom(text: string, k: nat): (r: Option<nat>)
    requires 0 < k
    ensures r.Some? ==> k <= r.value < |text| && NoNewline(text, k - 1, r.value)
    decreases |text| - k
  {
    if k >= |text| then None
    else if text[k - 1] == '\n' then None
    else if EndAt(text, k) then Some(k)
    else CloseFrom(text, k + 1)
  }

  /** Started right after the key's first character, the scan finds the
      shortest key, and finds nothing exactly when there is no key. */
  lemma {:induction false} CloseFromSound(text: string, q: nat, k: nat)
    requires q < k && NoNewline(text, q, k - 1) && forall c' :: q < c' < k ==> !EndAt(text, c')
    ensures CloseFrom(text, k).Some? ==> ClosesAt(text, q, CloseFrom(text, k).value)
    ensures CloseFrom(text, k).None? ==> forall c :: !ClosesAt(text, q, c)
    decreases |text| - k
  {
    if k < |text| && text[k - 1] != '\n' && !EndAt(text, k) {
      CloseFromSound(text, q, k + 1);
    } else if k < |text| && text[k - 1] == '\n' {
      forall c | q < c
        ensures !ClosesAt(text, q, c)
      {
        if c < k {
          assert !EndAt(text, c);
        } else {
          assert !NoNewline(text, q, c) by {
            assert q <= k - 1 < c && text[k - 1] == '\n';
          }
        }
      }
    }
  }

  /** The key after alternative `i` at `p`, if it matches there. */
  function AltKey(text: string, p: nat, i: nat): (r: Option<nat>)
    requires i < |TranslationBegin|
    ensures r.Some? ==> p + |TranslationBegin[i]| < r.value < |text|
    ensures r.Some? ==> NoNewline(text, p + |TranslationBegin[i]|, r.value)
  {
    if HasAt(text, p, TranslationBegin[i]) then CloseFrom(text, p + |TranslationBegin[i]| + 1)
    else None
  }

  /** The key is found exactly when the alternative matches, and it is the
      shortest one. */
  lemma AltKeySound(text: string, p: nat, i: nat)
    requires i < |TranslationBegin|
    ensures AltKey(text, p, i).Some? <==> AltMatches(text, p, i)
    ensures AltKey(text, p, i).Some? ==> ClosesAt(text, p + |TranslationBegin[i]|, AltKey(text, p, i).value)
  {
    var q := p + |TranslationBegin[i]|;
    CloseFromSound(text, q, q + 1);
  }

  /** The alternation tried at `p` from alternative `i` on, first one first. */
  function MatchWith(text: string, p: nat, i: nat): (r: Option<KeyMatch>)
    ensures r.Some? ==> r.value.start == p < r.value.keyStart < r.value.keyEnd < |text|
    ensures r.Some? ==> NoNewline(text, r.value.keyStart, r.value.keyEnd)
    decreases |TranslationBegin| - i
  {
    if i >= |TranslationBegin| then None
    else match AltKey(text, p, i) {
      case Some(c) => Some(KeyMatch(p, p + |TranslationBegin[i]|, c))
      case None => MatchWith(text, p, i + 1)
    }
  }

  /** What the alternation finds is a match, and when it finds none, no
      alternative matches at `p`. */
  lemma {:induction false} MatchWithSound(text: string, p: nat, i: nat)
    requires forall j :: 0 <= j < i ==> !AltMatches(text, p, j)
    ensures MatchWith(text, p, i).Some? ==> MatchAt(text, MatchWith(text, p, i).value)
    ensures MatchWith(text, p, i).None? ==> forall j :: 0 <= j < |TranslationBegin| ==> !AltMatches(text, p, j)
    decreases |TranslationBegin| - i
  {
    if i < |TranslationBegin| {
      AltKeySound(text, p, i);
      match AltKey(text, p, i) {
        case Some(c) =>
          assert MatchVia(text, KeyMatch(p, p + |TranslationBegin[i]|, c), i);
        case None =>
          MatchWithSound(text, p, i + 1);
      }
    }
  }

  /** No match of the expression starts at `p`. */
  ghost predicate NoMatchStartsAt(text: string, p: nat)
  {
    forall j :: 0 <= j < |TranslationBegin| ==> !AltMatches(text, p, j)
  }

  /** `Regex::captures` from `p`: the leftmost start where the expression
      matches, and the match it reports there. */
  function FirstMatch(text: string, p: nat): (r: Option<KeyMatch>)
    ensures r.Some? ==> p <= r.value.start < r.value.keyStart < r.value.keyEnd < |text|
    ensures r.Some? ==> NoNewline(text, r.value.keyStart, r.value.keyEnd)
    decreases |text| - p
  {
    if p >= |text| then None
    else match MatchWith(text, p, 0) {
      case Some(m) => Some(m)
      case None => FirstMatch(text, p + 1)
    }
  }

  /** What `captures` reports is a match, and no match starts between `p`
      and it; when it reports nothing, no match starts at or after `p`. */
  lemma {:induction false} FirstMatchSound(text: string, p: nat)
    ensures FirstMatch(text, p).Some? ==> MatchAt(text, FirstMatch(text, p).value)
    ensures FirstMatch(text, p).Some? ==> forall p' :: p <= p' < FirstMatch(text, p).value.start ==> NoMatchStartsAt(text, p')
    ensures FirstMatch(text, p).None? ==> forall p' :: p <= p' ==> NoMatchStartsAt(text, p')
    decreases |text| - p
  {
    if p >= |text| {
      NothingPastEnd(text, p);
    } else {
      MatchWithSound(text, p, 0);
      if MatchWith(text, p, 0).None? {
        FirstMatchSound(text, p + 1);
        assert NoMatchStartsAt(text, p);
        var r := FirstMatch(text, p + 1);
        assert FirstMatch(text, p) == r;
        var end := if r.Some? then r.value.start else |text| + 1;
        forall p' | p <= p' < end
          ensures NoMatchStartsAt(text, p')
        {
          if p' != p {
            assert p + 1 <= p';
          }
        }
        if r.None? {
          NothingPastEnd(text, |text| + 1);
        }
      }
    }
  }

  /** No prefix fits at or after the end of the text. */
  lemma NothingPastEnd(text: string, p: nat)
    requires p >= |text|
    ensures forall p' :: p <= p' ==> NoMatchStartsAt(text, p')
  {
    forall p', j | p <= p' && 0 <= j < |TranslationBegin|
      ensures !AltMatches(text, p', j)
    {
      assert |TranslationBegin[j]| > 0;
    }
  }

  /** A match through alternative `i` means that alternative matches. */
  lemma MatchViaAlt(text: string, m: KeyMatch, i: nat)
    requires MatchVia(text, m, i)
    ensures AltMatches(text, m.start, i)
  {
    assert ClosesAt(text, m.start + |TranslationBegin[i]|, m.keyEnd);
  }

  /** At one start the alternative and the key are determined: two matches
      starting at the same offset are the same match. */
  lemma MatchAtUnique(text: string, m1: KeyMatch, m2: KeyMatch)
    requires MatchAt(text, m1) && MatchAt(text, m2) && m1.start == m2.start
    ensures m1 == m2
  {
    var i1 :| MatchVia(text, m1, i1);
    var i2 :| MatchVia(text, m2, i2);
    MatchViaAlt(text, m1, i1);
    MatchViaAlt(text, m2, i2);
    assert i1 == i2;
    ClosesAtUnique(text, m1.keyStart, m1.keyEnd, m2.keyEnd);
  }

  /** The shortest key is unique. */
  lemma ClosesAtUnique(text: string, q: nat, c1: nat, c2: nat)
    requires ClosesAt(text, q, c1) && ClosesAt(text, q, c2)
    ensures c1 == c2
  {
  }

  /** `captures` finds every text that has a match: the reported one starts
      no later than any match, and is the match at its own start. */
  lemma FirstMatchIsLeftmost(text: string, p: nat, m: KeyMatch)
    requires MatchAt(text, m) && p <= m.start
    ensures FirstMatch(text, p).Some?
    ensures FirstMatch(text, p).value.start <= m.start
    ensures FirstMatch(text, p).value.start == m.start ==> FirstMatch(text, p).value == m
  {
    FirstMatchSound(text, p);
    var i :| MatchVia(text, m, i);
    MatchViaAlt(text, m, i);
    assert !NoMatchStartsAt(text, m.start);
    var r := FirstMatch(text, p);
    if r.Some? && r.value.start == m.start {
      MatchAtUnique(text, r.value, m);
    }
  }

  /** `find_translation_key_by_position`: the key of the first match, when
      `pos` lies in its half-open range; `None` otherwise. */
  function FindTranslationKeyByPosition(text: string, pos: nat): (r: Option<string>)
    ensures r.Some? ==> 0 < |r.value| && '\n' !in r.value
  {
    match FirstMatch(text, 0) {
      case None => None
      case Some(m) =>
        if m.keyStart <= pos < m.keyEnd then
          assert forall k :: 0 <= k < |text[m.keyStart..m.keyEnd]| ==> text[m.keyStart..m.keyEnd][k] == text[m.keyStart + k];
          Some(text[m.keyStart..m.keyEnd])
        else None
    }
  }

  /** The leftmost match of the expression in `text`. */
  ghost predicate LeftmostMatch(text: string, m: KeyMatch)
  {
    MatchAt(text, m) && forall m' :: MatchAt(text, m') ==> m.start <= m'.start
  }

  /** The locator in terms of the expression alone: it returns `key` exactly
      when the leftmost match's key range holds `pos` and `key` is the text
      in that range. */
  lemma FindTranslationKeySpec(text: string, pos: nat, m: KeyMatch)
    requires LeftmostMatch(text, m)
    ensures FindTranslationKeyByPosition(text, pos) ==
              if m.keyStart <= pos < m.keyEnd then Some(text[m.keyStart..m.keyEnd]) else None
  {
    FirstMatchIsLeftmost(text, 0, m);
    FirstMatchSound(text, 0);
    var r := FirstMatch(text, 0).value;
    assert MatchAt(text, r);
    assert m.start <= r.start;
  }

  /** With no match anywhere there is no key, at any position. */
  lemma FindTranslationKeyNoMatch(text: string, pos: nat)
    requires forall m :: !MatchAt(text, m)
    ensures FindTranslationKeyByPosition(text, pos) == None
  {
    FirstMatchSound(text, 0);
  }

  /** A position in the key of a match after the first is never found: only
      the first match is looked at. */
  lemma LaterMatchIgnored(text: string, first: KeyMatch, later: KeyMatch, pos: nat)
    requires LeftmostMatch(text, first) && MatchAt(text, later) && first.keyEnd <= later.keyStart
    requires later.keyStart <= pos < later.keyEnd
    ensures FindTranslationKeyByPosition(text, pos) == None
  {
    FindTranslationKeySpec(text, pos, first);
  }

  /** Two calls on one line. */
  const TwoCalls: string := "translate('a');translate('b')"

  /** The two matches of `TwoCalls`. */
  lemma TwoCallsMatches(text: string)
    requires text == TwoCalls
    ensures MatchVia(text, KeyMatch(0, 11, 12), 0)
    ensures MatchVia(text, KeyMatch(15, 26, 27), 0)
  {
    assert text[0..11] == TranslationBegin[0];
    assert text[15..26] == TranslationBegin[0];
  }

  /** In `TwoCalls` the second key, `b`, is a match of its own at 15, after
      the first match at 0, and yet the locator finds nothing at its offset. */
  lemma SecondCallNotFound(text: string)
    requires text == TwoCalls
    ensures LeftmostMatch(text, KeyMatch(0, 11, 12))
    ensures MatchAt(text, KeyMatch(15, 26, 27)) && text[26] == 'b'
    ensures FindTranslationKeyByPosition(text, 26) == None
  {
    TwoCallsMatches(text);
    LaterMatchIgnored(text, KeyMatch(0, 11, 12), KeyMatch(15, 26, 27), 26);
  }

  /** `captures_iter` from `p`, stopped at the first match whose key range
      holds `pos`: each search resumes just after the closing quote of the
      previous match. */
  function MatchHolding(text: string, p: nat, pos: nat): (r: Option<KeyMatch>)
    ensures r.Some? ==> p <= r.value.start && r.value.keyStart <= pos < r.value.keyEnd < |text|
    decreases if p <= |text| then |text| - p else 0, 1
  {
    HoldingFrom(text, p, FirstMatch(text, p), pos)
  }

  /** The iteration once `captures` from `p` has reported `found`. */
  function HoldingFrom(text: string, p: nat, found: Option<KeyMatch>, pos: nat): (r: Option<KeyMatch>)
    requires found.Some? ==> p <= found.value.start < found.value.keyEnd < |text|
    ensures r.Some? ==> p <= r.value.start && r.value.keyStart <= pos < r.value.keyEnd < |text|
    decreases if found.Some? then |text| - found.value.keyEnd else 0, 0
  {
    match found {
      case None => None
      case Some(m) =>
        if m.keyStart <= pos < m.keyEnd then Some(m)
        else MatchHolding(text, m.keyEnd + 1, pos)
    }
  }

  /** What `captures` reports is a match. */
  lemma FirstMatchIsMatch(text: string, p: nat)
    requires FirstMatch(text, p).Some?
    ensures MatchAt(text, FirstMatch(text, p).value)
  {
    FirstMatchSound(text, p);
  }

  /** What the iteration stops at is a match of the expression. */
  lemma {:induction false} MatchHoldingSound(text: string, p: nat, pos: nat)
    requires MatchHolding(text, p, pos).Some?
    ensures MatchAt(text, MatchHolding(text, p, pos).value)
    decreases if p <= |text| then |text| - p else 0, 1
  {
    FirstMatchIsMatch(text, p);
    HoldingFromSound(text, p, FirstMatch(text, p), pos);
  }

  /** The same, once `captures` has reported a match. */
  lemma {:induction false} HoldingFromSound(text: string, p: nat, found: Option<KeyMatch>, pos: nat)
    requires found.Some? ==> p <= found.value.start < found.value.keyEnd < |text| && MatchAt(text, found.value)
    requires HoldingFrom(text, p, found, pos).Some?
    ensures MatchAt(text, HoldingFrom(text, p, found, pos).value)
    decreases if found.Some? then |text| - found.value.keyEnd else 0, 0
  {
    var m := found.value;
    if !(m.keyStart <= pos < m.keyEnd) {
      MatchHoldingSound(text, m.keyEnd + 1, pos);
    }
  }

  /** The locator as its tests expect it: the key of whichever match holds
      `pos`, not only the first one. */
  function FindTranslationKeyInAnyCall(text: string, pos: nat): (r: Option<string>)
    ensures r.Some? ==> 0 < |r.value|
  {
    match MatchHolding(text, 0, pos) {
      case None => None
      case Some(m) => Some(text[m.keyStart..m.keyEnd])
    }
  }

  /** What the corrected locator returns is the key of a match of the
      expression, and that key's range holds `pos`. */
  lemma InAnyCallSound(text: string, pos: nat)
    requires FindTranslationKeyInAnyCall(text, pos).Some?
    ensures exists m :: MatchAt(text, m) && m.keyStart <= pos < m.keyEnd &&
                        FindTranslationKeyInAnyCall(text, pos).value == text[m.keyStart..m.keyEnd]
  {
    MatchHoldingSound(text, 0, pos);
    var m := MatchHolding(text, 0, pos).value;
    assert MatchAt(text, m);
  }

  /** Wherever the first-match locator finds a key, the corrected one finds
      the same key. */
  lemma InAnyCallExtendsFirst(text: string, pos: nat)
    requires FindTranslationKeyByPosition(text, pos).Some?
    ensures FindTranslationKeyInAnyCall(text, pos) == FindTranslationKeyByPosition(text, pos)
  {
    var m := FirstMatch(text, 0).value;
    assert MatchHolding(text, 0, pos) == Some(m);
  }

  /** A match with nothing before it from `p` on is what `captures` reports. */
  lemma FirstMatchExactly(text: string, p: nat, m: KeyMatch)
    requires MatchAt(text, m) && p <= m.start
    requires forall p' :: p <= p' < m.start ==> NoMatchStartsAt(text, p')
    ensures FirstMatch(text, p) == Some(m)
  {
    FirstMatchIsLeftmost(text, p, m);
    FirstMatchSound(text, p);
    MatchAtStarts(text, FirstMatch(text, p).value);
  }

  /** Where a match starts, some alternative matches. */
  lemma MatchAtStarts(text: string, m: KeyMatch)
    requires MatchAt(text, m)
    ensures !NoMatchStartsAt(text, m.start)
  {
    var i :| MatchVia(text, m, i);
    MatchViaAlt(text, m, i);
  }

  /** Nothing starts at 13 or 14 of `TwoCalls`: no prefix begins with `)` or `;`. */
  lemma TwoCallsGap(text: string)
    requires text == TwoCalls
    ensures NoMatchStartsAt(text, 13) && NoMatchStartsAt(text, 14)
  {
    assert text[13] == ')' && text[14] == ';';
    forall p, j | 13 <= p <= 14 && 0 <= j < |TranslationBegin|
      ensures !HasAt(text, p, TranslationBegin[j])
    {
      assert TranslationBegin[j][0] in "t (";
    }
  }

  /** The corrected locator finds the second key of `TwoCalls`. */
  lemma SecondCallFoundInAnyCall(text: string)
    requires text == TwoCalls
    ensures FindTranslationKeyInAnyCall(text, 26) == Some(text[26..27]) && text[26] == 'b'
  {
    var m1, m2 := KeyMatch(0, 11, 12), KeyMatch(15, 26, 27);
    TwoCallsMatches(text);
    FirstMatchExactly(text, 0, m1);
    TwoCallsGap(text);
    FirstMatchExactly(text, 13, m2);
    assert MatchHolding(text, 0, 26) == MatchHolding(text, 13, 26);
  }
}
