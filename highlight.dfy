/**
 * Highlighting of the search term in a result's title: each leftmost,
 * non-overlapping, case-insensitive match is wrapped in a highlight span.
 * Two versions are given: the one the page computes, which matches the
 * escaped term in the already escaped title (so a match can start inside a
 * character reference), and a corrected one that matches on the title
 * itself and escapes each piece. The page model uses the one as written; the
 * corrected one is kept as `SearchPage.CorrectedResultLink`.
 */
module Highlight {
  import opened Seqs
  import opened Text

  const SpanOpen: string := "<span class=\"highlight\">"
  const SpanClose: string := "</span>"

  /** Equal up to ASCII case: what the `i` flag of a regular expression compares. */
  predicate SameIgnoringCase(a: string, b: string)
  {
    |a| == |b| && (a == [] || (LowerChar(a[0]) == LowerChar(b[0]) && SameIgnoringCase(a[1..], b[1..])))
  }

  /** The pattern `p` with the `i` flag matches at the very start of `s`. */
  predicate MatchesAt(s: string, p: string)
  {
    |p| <= |s| && SameIgnoringCase(s[..|p|], p)
  }

  lemma {:induction false} SameIgnoringCaseIff(a: string, b: string)
    ensures SameIgnoringCase(a, b) <==> Lower(a) == Lower(b)
  {
    if |a| == |b| && a != [] {
      SameIgnoringCaseIff(a[1..], b[1..]);
      LowerCons(a);
      LowerCons(b);
      DropConcat([LowerChar(a[0])], Lower(a[1..]));
      DropConcat([LowerChar(b[0])], Lower(b[1..]));
      if Lower(a) == Lower(b) {
        assert [LowerChar(a[0])] == Lower(a)[..1] == Lower(b)[..1] == [LowerChar(b[0])];
      }
    } else if |a| != |b| {
      assert |Lower(a)| != |Lower(b)|;
    }
  }

  /**
   * `s.replace(new RegExp('(' + p + ')', 'gi'), '<span class="highlight">$1</span>')`
   * for a pattern with no regular-expression metacharacters: scanning from
   * the left, each match is wrapped with its original case and scanning
   * resumes after it.
   */
  function WrapMatches(s: string, p: string): string
    requires p != []
    decreases |s|
  {
    if s == [] then []
    else if MatchesAt(s, p) then SpanOpen + s[..|p|] + SpanClose + WrapMatches(s[|p|..], p)
    else [s[0]] + WrapMatches(s[1..], p)
  }

  /** The number of matches that scan wraps: leftmost, non-overlapping, case-insensitive. */
  function Occurrences(s: string, p: string): nat
    requires p != []
    decreases |s|
  {
    if s == [] then 0
    else if MatchesAt(s, p) then 1 + Occurrences(s[|p|..], p)
    else Occurrences(s[1..], p)
  }

  /**
   * `t` is a prefix of `s`, compared character by character. This is
   * `StartsWith` (see HasPrefixIff), written as a recursion because the
   * proofs about the span tags unfold it more cheaply than a slice equality.
   */
  predicate HasPrefix(s: string, t: string)
    decreases |t|
  {
    |t| <= |s| && (t == [] || (s[0] == t[0] && HasPrefix(s[1..], t[1..])))
  }

  lemma {:induction false} HasPrefixConcat(t: string, r: string)
    ensures HasPrefix(t + r, t)
    decreases |t|
  {
    if t != [] {
      ConcatFront(t, r);
      HasPrefixConcat(t[1..], r);
    }
  }

  lemma {:induction false} HasPrefixIff(s: string, t: string)
    ensures HasPrefix(s, t) <==> StartsWith(s, t)
    decreases |t|
  {
    if t != [] && |t| <= |s| {
      HasPrefixIff(s[1..], t[1..]);
      SliceOfSuffix(s, 1, 0, |t| - 1);
      HeadTail(s[..|t|]);
      HeadTail(t);
      if s[..|t|] == t {
        assert s[0] == s[..|t|][0];
      }
    } else if t == [] {
      assert s[..0] == [];
    }
  }

  /** The markup with every inserted span tag removed. */
  function StripSpans(h: string): string
    decreases |h|
  {
    if h == [] then []
    else if HasPrefix(h, SpanOpen) then StripSpans(h[|SpanOpen|..])
    else if HasPrefix(h, SpanClose) then StripSpans(h[|SpanClose|..])
    else [h[0]] + StripSpans(h[1..])
  }

  /** The number of highlight spans opened in the markup. */
  function CountSpans(h: string): nat
    decreases |h|
  {
    if h == [] then 0
    else if HasPrefix(h, SpanOpen) then 1 + CountSpans(h[|SpanOpen|..])
    else CountSpans(h[1..])
  }

  /** script.js:178-182 as written: the pattern is the escaped term, matched inside the escaped title. */
  function HighlightAsWritten(title: string, term: string): string
    requires term != []
  {
    var escaped := Escape(title);
    if Contains(Lower(title), term) then WrapMatches(escaped, Escape(term)) else escaped
  }

  /** Corrected highlighting: matches are found in the title itself, and every piece is escaped. */
  function WrapMatchesEscaped(t: string, p: string): string
    requires p != []
    decreases |t|
  {
    if t == [] then []
    else if MatchesAt(t, p) then SpanOpen + Escape(t[..|p|]) + SpanClose + WrapMatchesEscaped(t[|p|..], p)
    else Escape([t[0]]) + WrapMatchesEscaped(t[1..], p)
  }

  /** The highlighted title markup of one search result. */
  function HighlightTitle(title: string, term: string): string
    requires term != []
  {
    if Contains(Lower(title), term) then WrapMatchesEscaped(title, term) else Escape(title)
  }

  // ---------------------------------------------------------------------
  // How the two scanners over markup treat the pieces they meet
  // ---------------------------------------------------------------------

  lemma {:induction false} StripPlain(x: string, r: string)
    requires '<' !in x
    ensures StripSpans(x + r) == x + StripSpans(r)
  {
    if x == [] {
      ConcatEmpty(x, r);
      ConcatEmpty(x, StripSpans(r));
    } else {
      ConcatFront(x, r);
      StripPlain(x[1..], r);
      HeadTail(x);
      ConcatAssoc([x[0]], x[1..], StripSpans(r));
    }
  }

  lemma CountPlain(x: string, r: string)
    requires '<' !in x
    ensures CountSpans(x + r) == CountSpans(r)
    decreases |x|
  {
    if x == [] {
      ConcatEmpty(x, r);
    } else {
      ConcatFront(x, r);
      CountPlain(x[1..], r);
    }
  }

  lemma OpenTag(r: string)
    ensures StripSpans(SpanOpen + r) == StripSpans(r)
    ensures CountSpans(SpanOpen + r) == 1 + CountSpans(r)
  {
    HasPrefixConcat(SpanOpen, r);
    DropConcat(SpanOpen, r);
  }

  lemma CloseTag(r: string)
    ensures StripSpans(SpanClose + r) == StripSpans(r)
    ensures CountSpans(SpanClose + r) == CountSpans(r)
  {
    var h := SpanClose + r;
    HasPrefixConcat(SpanClose, r);
    DropConcat(SpanClose, r);
    ConcatFront(SpanClose, r);
    ConcatFront(SpanClose[1..], r);
    assert h[1..][0] == '/' && SpanOpen[1..][0] == 's';
    assert !HasPrefix(h[1..], SpanOpen[1..]);
    CountPlain(SpanClose[1..], r);
  }

  /** A wrapped match contributes its own text to the stripped markup and one span to the count. */
  lemma Wrapped(x: string, r: string)
    requires '<' !in x
    ensures StripSpans(SpanOpen + x + SpanClose + r) == x + StripSpans(r)
    ensures CountSpans(SpanOpen + x + SpanClose + r) == 1 + CountSpans(r)
  {
    ConcatAssoc(SpanOpen, x, SpanClose);
    ConcatAssoc(SpanOpen + x, SpanClose, r);
    ConcatAssoc(SpanOpen, x, SpanClose + r);
    OpenTag(x + (SpanClose + r));
    StripPlain(x, SpanClose + r);
    CountPlain(x, SpanClose + r);
    CloseTag(r);
  }

  // ---------------------------------------------------------------------
  // Properties of the scan
  // ---------------------------------------------------------------------

  /** Removing the inserted tags from the as-written markup gives back the text it ran on. */
  lemma {:induction false} StripWrapMatches(s: string, p: string)
    requires p != [] && '<' !in s
    ensures StripSpans(WrapMatches(s, p)) == s
    decreases |s|
  {
    if s == [] {
    } else if MatchesAt(s, p) {
      StripWrapMatches(s[|p|..], p);
      Wrapped(s[..|p|], WrapMatches(s[|p|..], p));
      SplitAt(s, |p|);
    } else {
      StripWrapMatches(s[1..], p);
      StripPlain([s[0]], WrapMatches(s[1..], p));
      HeadTail(s);
    }
  }

  /** The as-written markup opens one span per match in the text it ran on. */
  lemma {:induction false} CountWrapMatches(s: string, p: string)
    requires p != [] && '<' !in s
    ensures CountSpans(WrapMatches(s, p)) == Occurrences(s, p)
    decreases |s|
  {
    if s == [] {
    } else if MatchesAt(s, p) {
      CountWrapMatches(s[|p|..], p);
      Wrapped(s[..|p|], WrapMatches(s[|p|..], p));
    } else {
      CountWrapMatches(s[1..], p);
      CountPlain([s[0]], WrapMatches(s[1..], p));
    }
  }

  /** Removing the inserted tags from the corrected markup gives back the escaped title. */
  lemma {:induction false} StripWrapMatchesEscaped(t: string, p: string)
    requires p != []
    ensures StripSpans(WrapMatchesEscaped(t, p)) == Escape(t)
    decreases |t|
  {
    if t == [] {
    } else if MatchesAt(t, p) {
      StripWrapMatchesEscaped(t[|p|..], p);
      StripMatchedPiece(t, p);
    } else {
      StripWrapMatchesEscaped(t[1..], p);
      StripSkippedPiece(t, p);
    }
  }

  lemma StripMatchedPiece(t: string, p: string)
    requires p != [] && t != [] && MatchesAt(t, p)
    ensures StripSpans(WrapMatchesEscaped(t, p)) == Escape(t[..|p|]) + StripSpans(WrapMatchesEscaped(t[|p|..], p))
    ensures Escape(t) == Escape(t[..|p|]) + Escape(t[|p|..])
  {
    var x, rest := Escape(t[..|p|]), WrapMatchesEscaped(t[|p|..], p);
    assert WrapMatchesEscaped(t, p) == SpanOpen + x + SpanClose + rest;
    EscapeHasNoAngles(t[..|p|]);
    Wrapped(x, rest);
    EscapeSplit(t, |p|);
  }

  lemma StripSkippedPiece(t: string, p: string)
    requires p != [] && t != [] && !MatchesAt(t, p)
    ensures StripSpans(WrapMatchesEscaped(t, p)) == Escape([t[0]]) + StripSpans(WrapMatchesEscaped(t[1..], p))
    ensures Escape(t) == Escape([t[0]]) + Escape(t[1..])
  {
    var x, rest := Escape([t[0]]), WrapMatchesEscaped(t[1..], p);
    assert WrapMatchesEscaped(t, p) == x + rest;
    EscapeHasNoAngles([t[0]]);
    StripPlain(x, rest);
    EscapeSplit(t, 1);
    assert t[..1] == [t[0]];
  }

  lemma EscapeSplit(t: string, k: nat)
    requires k <= |t|
    ensures Escape(t) == Escape(t[..k]) + Escape(t[k..])
  {
    SplitAt(t, k);
    EscapeConcat(t[..k], t[k..]);
  }

  /** The corrected markup opens one span per match in the title itself. */
  lemma {:induction false} CountWrapMatchesEscaped(t: string, p: string)
    requires p != []
    ensures CountSpans(WrapMatchesEscaped(t, p)) == Occurrences(t, p)
    decreases |t|
  {
    if t == [] {
    } else if MatchesAt(t, p) {
      CountWrapMatchesEscaped(t[|p|..], p);
      EscapeHasNoAngles(t[..|p|]);
      Wrapped(Escape(t[..|p|]), WrapMatchesEscaped(t[|p|..], p));
    } else {
      CountWrapMatchesEscaped(t[1..], p);
      EscapeHasNoAngles([t[0]]);
      CountPlain(Escape([t[0]]), WrapMatchesEscaped(t[1..], p));
    }
  }

  // ---------------------------------------------------------------------
  // Where the spans go
  // ---------------------------------------------------------------------

  /**
   * When the first match in `s` starts at offset `i`, the as-written
   * replacement keeps `s[..i]`, wraps the match with its original case,
   * and goes on after it.
   */
  lemma WrapMatchesAt(s: string, p: string, i: nat)
    requires p != [] && i <= |s| && MatchesAt(s[i..], p)
    requires forall k :: 0 <= k < i ==> !MatchesAt(s[k..], p)
    ensures i + |p| <= |s|
    ensures WrapMatches(s, p) == s[..i] + SpanOpen + s[i..i + |p|] + SpanClose + WrapMatches(s[i + |p|..], p)
  {
    var t := s[i..];
    assert |p| <= |t| == |s| - i;
    WrapMatchesFront(t, p);
    SliceOfSuffix(s, i, |p|, |p|);
    var m, r := s[i..i + |p|], WrapMatches(s[i + |p|..], p);
    assert t[..|p|] == m && t[|p|..] == s[i + |p|..];
    WrapMatchesSkip(s, p, i);
    Assemble(WrapMatches(s, p), s[..i], WrapMatches(t, p), SpanOpen, m, SpanClose, r);
  }

  /** A match at the front is wrapped with its original case, and the scan goes on after it. */
  lemma WrapMatchesFront(t: string, p: string)
    requires p != [] && MatchesAt(t, p)
    ensures WrapMatches(t, p) == SpanOpen + t[..|p|] + SpanClose + WrapMatches(t[|p|..], p)
  {
  }

  /** Where no match starts before offset `i`, the as-written replacement keeps `s[..i]` as it is. */
  lemma {:induction false} WrapMatchesSkip(s: string, p: string, i: nat)
    requires p != [] && i <= |s|
    requires forall k :: 0 <= k < i ==> !MatchesAt(s[k..], p)
    ensures WrapMatches(s, p) == s[..i] + WrapMatches(s[i..], p)
    decreases i
  {
    if i == 0 {
      assert s[0..] == s && s[..0] == [];
    } else {
      var u := SkipFirst(s, p, i);
      WrapMatchesSkip(u, p, i - 1);
      SliceOfSuffix(s, 1, 0, i - 1);
      SliceOfSuffix(s, 1, i - 1, i - 1);
      assert WrapMatches(s, p) == [s[0]] + WrapMatches(u, p);
      assert s[..i] == [s[0]] + s[1..i];
      ConcatAssoc([s[0]], s[1..i], WrapMatches(s[i..], p));
    }
  }

  /** No match before offset `i > 0`: none at the front, and none before `i - 1` after it. */
  lemma SkipFirst(s: string, p: string, i: nat) returns (u: string)
    requires p != [] && 0 < i <= |s|
    requires forall k :: 0 <= k < i ==> !MatchesAt(s[k..], p)
    ensures s != [] && !MatchesAt(s, p) && u == s[1..]
    ensures forall k :: 0 <= k < i - 1 ==> !MatchesAt(u[k..], p)
  {
    assert s[0..] == s;
    u := s[1..];
    forall k | 0 <= k < i - 1
      ensures !MatchesAt(u[k..], p)
    {
      SliceOfSuffix(s, 1, k, k);
    }
  }

  /** Without any match, the as-written replacement leaves the text as it is. */
  lemma {:induction false} WrapMatchesNone(s: string, p: string)
    requires p != [] && forall k :: 0 <= k < |s| ==> !MatchesAt(s[k..], p)
    ensures WrapMatches(s, p) == s
    decreases |s|
  {
    if s != [] {
      assert s[0..] == s;
      forall k | 0 <= k < |s| - 1
        ensures !MatchesAt(s[1..][k..], p)
      {
        SliceOfSuffix(s, 1, k, k);
      }
      WrapMatchesNone(s[1..], p);
      HeadTail(s);
    }
  }

  /**
   * When the first match in the title starts at offset `i`, the corrected
   * highlighting escapes `t[..i]`, wraps the escaped match, and goes on
   * after it.
   */
  lemma WrapMatchesEscapedAt(t: string, p: string, i: nat)
    requires p != [] && i <= |t| && MatchesAt(t[i..], p)
    requires forall k :: 0 <= k < i ==> !MatchesAt(t[k..], p)
    ensures i + |p| <= |t|
    ensures WrapMatchesEscaped(t, p)
         == Escape(t[..i]) + SpanOpen + Escape(t[i..i + |p|]) + SpanClose + WrapMatchesEscaped(t[i + |p|..], p)
  {
    var v := t[i..];
    assert |p| <= |v| == |t| - i;
    WrapMatchesEscapedFront(v, p);
    SliceOfSuffix(t, i, |p|, |p|);
    var m, r := Escape(t[i..i + |p|]), WrapMatchesEscaped(t[i + |p|..], p);
    assert v[..|p|] == t[i..i + |p|] && v[|p|..] == t[i + |p|..];
    WrapMatchesEscapedSkip(t, p, i);
    Assemble(WrapMatchesEscaped(t, p), Escape(t[..i]), WrapMatchesEscaped(v, p), SpanOpen, m, SpanClose, r);
  }

  /** A match at the front of the title is escaped and wrapped, and the scan goes on after it. */
  lemma WrapMatchesEscapedFront(t: string, p: string)
    requires p != [] && MatchesAt(t, p)
    ensures WrapMatchesEscaped(t, p) == SpanOpen + Escape(t[..|p|]) + SpanClose + WrapMatchesEscaped(t[|p|..], p)
  {
  }

  /** Where no match starts before offset `i`, the corrected highlighting escapes `t[..i]` and goes on from there. */
  lemma {:induction false} WrapMatchesEscapedSkip(t: string, p: string, i: nat)
    requires p != [] && i <= |t|
    requires forall k :: 0 <= k < i ==> !MatchesAt(t[k..], p)
    ensures WrapMatchesEscaped(t, p) == Escape(t[..i]) + WrapMatchesEscaped(t[i..], p)
    decreases i
  {
    if i == 0 {
      assert t[0..] == t && t[..0] == [];
      ConcatEmpty(Escape(t[..0]), WrapMatchesEscaped(t, p));
    } else {
      var u := SkipFirst(t, p, i);
      WrapMatchesEscapedSkip(u, p, i - 1);
      SliceOfSuffix(t, 1, 0, i - 1);
      SliceOfSuffix(t, 1, i - 1, i - 1);
      assert WrapMatchesEscaped(t, p) == Escape([t[0]]) + WrapMatchesEscaped(u, p);
      assert t[..i] == [t[0]] + t[1..i];
      EscapeConcat([t[0]], t[1..i]);
      ConcatAssoc(Escape([t[0]]), Escape(t[1..i]), WrapMatchesEscaped(t[i..], p));
    }
  }

  /** Without any match, the corrected highlighting is the escaped title. */
  lemma {:induction false} WrapMatchesEscapedNone(t: string, p: string)
    requires p != [] && forall k :: 0 <= k < |t| ==> !MatchesAt(t[k..], p)
    ensures WrapMatchesEscaped(t, p) == Escape(t)
    decreases |t|
  {
    if t != [] {
      assert t[0..] == t;
      forall k | 0 <= k < |t| - 1
        ensures !MatchesAt(t[1..][k..], p)
      {
        SliceOfSuffix(t, 1, k, k);
      }
      WrapMatchesEscapedNone(t[1..], p);
      EscapeSplit(t, 1);
      assert t[..1] == [t[0]];
    }
  }

  /** There is at least one match exactly when the lower-cased text contains the lower-cased pattern. */
  lemma {:induction false} OccurrencesPositiveIff(s: string, p: string)
    requires p != []
    ensures Occurrences(s, p) > 0 <==> Contains(Lower(s), Lower(p))
    decreases |s|
  {
    if s != [] {
      OccurrencesPositiveIff(s[1..], p);
      if |p| <= |s| {
        LowerSlice(s, 0, |p|);
        SameIgnoringCaseIff(s[..|p|], p);
      }
      LowerSlice(s, 1, |s|);
      assert MatchesAt(s, p) <==> StartsWith(Lower(s), Lower(p));
      assert Lower(s)[1..] == Lower(s[1..]);
    } else {
      assert !StartsWith(Lower(s), Lower(p));
    }
  }

  /**
   * The corrected highlighting keeps the text: without its span tags it is
   * exactly the escaped title, so every matched piece keeps its case.
   */
  lemma HighlightKeepsTitle(title: string, term: string)
    requires term != []
    ensures StripSpans(HighlightTitle(title, term)) == Escape(title)
  {
    StripWrapMatchesEscaped(title, term);
    EscapeHasNoAngles(title);
    StripPlain(Escape(title), []);
    ConcatNil(Escape(title));
  }

  /**
   * The corrected highlighting opens one span per occurrence of the
   * (lower-case) term in the title, and so opens none exactly when the
   * lower-cased title does not contain the term.
   */
  lemma HighlightCountsOccurrences(title: string, term: string)
    requires term != [] && Lower(term) == term
    ensures CountSpans(HighlightTitle(title, term)) == Occurrences(title, term)
    ensures CountSpans(HighlightTitle(title, term)) > 0 <==> Contains(Lower(title), term)
  {
    CountWrapMatchesEscaped(title, term);
    OccurrencesPositiveIff(title, term);
    EscapeHasNoAngles(title);
    CountPlain(Escape(title), []);
    ConcatNil(Escape(title));
  }

  lemma EscapeNonEmpty(s: string)
    requires s != []
    ensures Escape(s) != []
  {
    assert Escape(s) == EscapeChar(s[0]) + Escape(s[1..]);
  }

  /** The as-written highlighting also strips back to the escaped title. */
  lemma HighlightAsWrittenKeepsTitle(title: string, term: string)
    requires term != []
    ensures StripSpans(HighlightAsWritten(title, term)) == Escape(title)
  {
    EscapeHasNoAngles(title);
    EscapeNonEmpty(term);
    StripWrapMatches(Escape(title), Escape(term));
    StripPlain(Escape(title), []);
    ConcatNil(Escape(title));
  }

  /**
   * The as-written highlighting, for a lower-case term, opens one span per
   * match of the escaped term in the escaped title, and opens spans exactly
   * when the lower-cased title contains the term.
   */
  lemma HighlightAsWrittenCounts(title: string, term: string)
    requires term != [] && Lower(term) == term
    ensures CountSpans(HighlightAsWritten(title, term))
         == if Contains(Lower(title), term) then Occurrences(Escape(title), Escape(term)) else 0
    ensures CountSpans(HighlightAsWritten(title, term)) > 0 <==> Contains(Lower(title), term)
  {
    EscapeHasNoAngles(title);
    if Contains(Lower(title), term) {
      EscapeNonEmpty(term);
      CountWrapMatches(Escape(title), Escape(term));
      OccurrencesPositiveIff(Escape(title), Escape(term));
      LowerEscape(title);
      LowerEscape(term);
      EscapeKeepsContains(Lower(title), term);
    } else {
      CountPlain(Escape(title), []);
      ConcatNil(Escape(title));
    }
  }

  /**
   * The as-written highlighting also matches inside the character
   * references that escaping introduced: for the title "Q&A" and the term
   * "a" it opens two spans, one of them splitting "&amp;", though the
   * title holds the term only once.
   */
  lemma AsWrittenHighlightsInsideEntity()
    ensures Occurrences("Q&A", "a") == 1
    ensures CountSpans(HighlightAsWritten("Q&A", "a")) == 2
  {
    EscapedExample();
    CountWrapMatches("Q&amp;A", "a");
    TwoMatchesInEscapedTitle();
    OneMatchInTitle();
  }

  /**
   * A match inside a character reference can also swallow a real
   * occurrence: for the title "<t;t" and the term "t;t" the page wraps the
   * "t;t" that starts inside "&lt;", and the occurrence the title holds is
   * left unwrapped.
   */
  lemma AsWrittenMissesOccurrence()
    ensures Occurrences("<t;t", "t;t") == 1
    ensures HighlightAsWritten("<t;t", "t;t") == "&l" + SpanOpen + "t;t" + SpanClose + ";t"
  {
    SecondExampleEscaped();
    SecondExampleWrapped();
    assert "t;t"[..3] == "t;t";
    SameIgnoringCaseIff("t;t", "t;t");
    MatchStep("t;t", "t;t");
    SkipStep("<t;t", "t;t");
  }

  /** The second example title escaped, and its guard passed. */
  lemma SecondExampleEscaped()
    ensures Escape("<t;t") == "&lt;t;t" && Escape("t;t") == "t;t"
    ensures Contains(Lower("<t;t"), "t;t")
  {
    assert Lower("<t;t")[1..] == "t;t";
  }

  /** Scanning "&lt;t;t": & and l, then "t;t", then ";" and "t". */
  lemma SecondExampleWrapped()
    ensures WrapMatches("&lt;t;t", "t;t") == "&l" + SpanOpen + "t;t" + SpanClose + ";t"
  {
    WrapSkipStep("t", "t;t");
    WrapSkipStep(";t", "t;t");
    assert "t;t;t"[..3] == "t;t" && "t;t;t"[3..] == ";t";
    WrapMatchesFront("t;t;t", "t;t");
    WrapSkipStep("lt;t;t", "t;t");
    WrapSkipStep("&lt;t;t", "t;t");
  }

  /** The example title escaped, and the guard of the example passed. */
  lemma EscapedExample()
    ensures Escape("a") == "a"
    ensures Escape("Q&A") == "Q&amp;A"
    ensures Contains(Lower("Q&A"), "a")
  {
  }

  /** Scanning "Q&amp;A": Q and &, then "a", then "mp;", then "A". */
  lemma TwoMatchesInEscapedTitle()
    ensures Occurrences("Q&amp;A", "a") == 2
  {
    MatchStep("A", "a");
    SkipStep(";A", "a");
    SkipStep("p;A", "a");
    SkipStep("mp;A", "a");
    MatchStep("amp;A", "a");
    SkipStep("&amp;A", "a");
    SkipStep("Q&amp;A", "a");
  }

  /** Scanning "Q&A": Q and &, then "A". */
  lemma OneMatchInTitle()
    ensures Occurrences("Q&A", "a") == 1
  {
    MatchStep("A", "a");
    SkipStep("&A", "a");
    SkipStep("Q&A", "a");
  }

  /** A match at the front is wrapped and scanning resumes after it. */
  lemma MatchStep(s: string, p: string)
    requires p != [] && MatchesAt(s, p)
    ensures Occurrences(s, p) == 1 + Occurrences(s[|p|..], p)
  {
  }

  /** Where no match starts at the front, the as-written replacement keeps the first character. */
  lemma WrapSkipStep(s: string, p: string)
    requires p != [] && s != [] && (|s| < |p| || LowerChar(s[0]) != LowerChar(p[0]))
    ensures WrapMatches(s, p) == [s[0]] + WrapMatches(s[1..], p)
  {
    if |p| <= |s| {
      assert s[..|p|][0] == s[0];
    }
  }

  /** No match can start at a character that differs from the pattern's first one. */
  lemma SkipStep(s: string, p: string)
    requires p != [] && s != [] && LowerChar(s[0]) != LowerChar(p[0])
    ensures Occurrences(s, p) == Occurrences(s[1..], p)
  {
    if |p| <= |s| {
      assert s[..|p|][0] == s[0];
    }
  }
}
