/**
 * String primitives the bookmark page relies on: ASCII lower-casing
 * (`toLowerCase`), ECMAScript `trim`, substring containment (`includes`)
 * and the text escaping that `escapeHtml` obtains from the DOM.
 */
module Text {
  import opened Seqs

  // ---------------------------------------------------------------------
  // Lower-casing
  // ---------------------------------------------------------------------

  /** `toLowerCase` on one character, restricted to the ASCII letters. */
  function LowerChar(c: char): char
  {
    if 'A' <= c <= 'Z' then (c as int + 32) as char else c
  }

  /** `toLowerCase` on a string, character by character. */
  function Lower(s: string): (r: string)
    ensures |r| == |s|
  {
    seq(|s|, i requires 0 <= i < |s| => LowerChar(s[i]))
  }

  lemma LowerConcat(a: string, b: string)
    ensures Lower(a + b) == Lower(a) + Lower(b)
  {
    assert forall k :: 0 <= k < |a + b| ==> Lower(a + b)[k] == (Lower(a) + Lower(b))[k];
  }

  /** Lower-casing a string is lower-casing its first character, then the rest. */
  lemma LowerCons(s: string)
    requires s != []
    ensures Lower(s) == [LowerChar(s[0])] + Lower(s[1..])
  {
    assert forall k :: 0 <= k < |s| ==> Lower(s)[k] == ([LowerChar(s[0])] + Lower(s[1..]))[k];
  }

  /** Lower-casing commutes with taking a slice. */
  lemma LowerSlice(s: string, i: nat, j: nat)
    requires i <= j <= |s|
    ensures Lower(s[i..j]) == Lower(s)[i..j]
  {
    assert forall k :: 0 <= k < j - i ==> Lower(s[i..j])[k] == Lower(s)[i..j][k];
  }

  /** Lower-casing twice is lower-casing once. */
  lemma LowerIdempotent(s: string)
    ensures Lower(Lower(s)) == Lower(s)
  {
    assert forall k :: 0 <= k < |s| ==> Lower(Lower(s))[k] == Lower(s)[k];
  }

  // ---------------------------------------------------------------------
  // trim
  // ---------------------------------------------------------------------

  /**
   * The characters ECMAScript's `String.prototype.trim` removes: the
   * WhiteSpace set (tab, vertical tab, form feed, space, no-break space,
   * byte-order mark and the other space separators) and the LineTerminator
   * set (line feed, carriage return, line and paragraph separators).
   */
  predicate IsWhite(c: char)
  {
    || c == '\t' || c == '\n' || c == '\U{000B}' || c == '\U{000C}' || c == '\r'
    || c == ' ' || c == '\U{00A0}' || c == '\U{1680}'
    || ('\U{2000}' <= c <= '\U{200A}')
    || c == '\U{2028}' || c == '\U{2029}' || c == '\U{202F}' || c == '\U{205F}'
    || c == '\U{3000}' || c == '\U{FEFF}'
  }

  predicate AllWhite(s: string)
  {
    forall k :: 0 <= k < |s| ==> IsWhite(s[k])
  }

  /** The length of the white space run that starts the string. */
  function Leading(s: string): (n: nat)
    ensures n <= |s| && AllWhite(s[..n])
    ensures n == |s| || !IsWhite(s[n])
  {
    if s != [] && IsWhite(s[0]) then
      var n := Leading(s[1..]);
      assert forall k :: 0 <= k < n + 1 ==> s[..n + 1][k] == s[k] && (k == 0 || s[k] == s[1..][..n][k - 1]);
      n + 1
    else
      0
  }

  /** Where the white space run that ends the string begins. */
  function Trailing(s: string): (n: nat)
    ensures n <= |s| && AllWhite(s[n..])
    ensures n == 0 || !IsWhite(s[n - 1])
  {
    if s != [] && IsWhite(s[|s| - 1]) then
      var n := Trailing(s[..|s| - 1]);
      assert forall k :: n <= k < |s| ==> s[k] == (if k < |s| - 1 then s[..|s| - 1][k] else s[|s| - 1]);
      n
    else
      |s|
  }

  /** Drops the leading white space. */
  function TrimStart(s: string): string
  {
    s[Leading(s)..]
  }

  /** Drops the trailing white space. */
  function TrimEnd(s: string): string
  {
    s[..Trailing(s)]
  }

  /** `String.prototype.trim`. */
  function Trim(s: string): (r: string)
  {
    TrimEnd(TrimStart(s))
  }

  /** Trim removes exactly a white prefix and a white suffix: what is left is a contiguous piece of the input. */
  lemma TrimShape(s: string) returns (i: nat, j: nat)
    ensures i <= j <= |s| && Trim(s) == s[i..j]
    ensures AllWhite(s[..i]) && AllWhite(s[j..])
  {
    var t := TrimStart(s);
    i := Leading(s);
    j := i + Trailing(t);
    SliceOfSuffix(s, i, Trailing(t), Trailing(t));
  }

  /** What trim leaves neither starts nor ends with white space. */
  lemma TrimEdges(s: string)
    ensures Trim(s) == [] || (!IsWhite(Trim(s)[0]) && !IsWhite(Trim(s)[|Trim(s)| - 1]))
  {
    var t := TrimStart(s);
    var r := TrimEnd(t);
    if r != [] {
      assert r[0] == t[0];
    }
  }

  /** A string trims to nothing exactly when it is white space throughout. */
  lemma TrimEmptyIff(s: string)
    ensures Trim(s) == [] <==> AllWhite(s)
  {
    var t := TrimStart(s);
    if Trim(s) == [] {
      assert t[0..] == t;
      assert t == [];
      assert s[..|s|] == s;
    }
    if AllWhite(s) {
      assert AllWhite(s[|s| - |t|..]);
      assert AllWhite(t);
    }
  }

  /** Trimming a trimmed string changes nothing. */
  lemma TrimIdempotent(s: string)
    ensures Trim(Trim(s)) == Trim(s)
  {
    var r := Trim(s);
    if r != [] {
      assert TrimStart(r) == r;
      assert TrimEnd(r) == r;
    }
  }

  // ---------------------------------------------------------------------
  // includes
  // ---------------------------------------------------------------------

  predicate StartsWith(s: string, t: string)
  {
    |t| <= |s| && s[..|t|] == t
  }

  /** `s.includes(t)`: t occurs somewhere in s, searched from the left. */
  predicate Contains(s: string, t: string)
  {
    StartsWith(s, t) || (s != [] && Contains(s[1..], t))
  }

  /** t occurs in s at offset i. */
  predicate OccursAt(s: string, t: string, i: int)
  {
    0 <= i <= |s| - |t| && s[i..i + |t|] == t
  }

  /** Contains agrees with "t occurs in s at some offset". */
  lemma {:induction false} ContainsIff(s: string, t: string)
    ensures Contains(s, t) <==> exists i :: OccursAt(s, t, i)
  {
    if StartsWith(s, t) {
      assert OccursAt(s, t, 0);
    } else if s != [] {
      ContainsIff(s[1..], t);
      if exists i :: OccursAt(s, t, i) {
        var i :| OccursAt(s, t, i);
        assert i != 0;
        assert s[1..][i - 1..i - 1 + |t|] == s[i..i + |t|];
        assert OccursAt(s[1..], t, i - 1);
      }
      if Contains(s[1..], t) {
        var i :| OccursAt(s[1..], t, i);
        assert s[i + 1..i + 1 + |t|] == s[1..][i..i + |t|];
        assert OccursAt(s, t, i + 1);
      }
    }
  }

  // ---------------------------------------------------------------------
  // escapeHtml
  // ---------------------------------------------------------------------

  /**
   * The "escaping a string" step of the HTML Standard's fragment
   * serialisation (section 13.3, Serializing HTML fragments) in text mode:
   * what `innerHTML` yields for a text node set through `textContent`.
   */
  function EscapeChar(c: char): string
  {
    if c == '&' then "&amp;"
    else if c == '\U{00A0}' then "&nbsp;"
    else if c == '<' then "&lt;"
    else if c == '>' then "&gt;"
    else [c]
  }

  function Escape(s: string): string
  {
    if s == [] then [] else EscapeChar(s[0]) + Escape(s[1..])
  }

  lemma {:induction false} EscapeConcat(a: string, b: string)
    ensures Escape(a + b) == Escape(a) + Escape(b)
  {
    if a != [] {
      ConcatFront(a, b);
      EscapeConcat(a[1..], b);
      ConcatAssoc(EscapeChar(a[0]), Escape(a[1..]), Escape(b));
    } else {
      ConcatEmpty(a, b);
      ConcatEmpty(Escape(a), Escape(b));
    }
  }

  /** Text with none of the four escaped characters is its own escape. */
  lemma {:induction false} EscapePlain(s: string)
    requires forall k :: 0 <= k < |s| ==> s[k] !in "&\U{00A0}<>"
    ensures Escape(s) == s
  {
    if s != [] {
      assert s[0] !in "&\U{00A0}<>";
      EscapePlain(s[1..]);
      HeadTail(s);
    }
  }

  /** Escaped text holds no tag delimiters, so any `<` in a serialised title begins markup. */
  lemma {:induction false} EscapeHasNoAngles(s: string)
    ensures '<' !in Escape(s) && '>' !in Escape(s)
  {
    if s != [] {
      EscapeHasNoAngles(s[1..]);
    }
  }

  lemma EscapeSingle(c: char)
    ensures Escape([c]) == EscapeChar(c)
  {
    assert [c][1..] == [];
    ConcatNil(EscapeChar(c));
  }

  /** Text without capital letters is its own lower-casing. */
  lemma LowerOfLowercase(s: string)
    requires forall k :: 0 <= k < |s| ==> !('A' <= s[k] <= 'Z')
    ensures Lower(s) == s
  {
  }

  lemma LowerEscapeChar(c: char)
    ensures Lower(EscapeChar(c)) == EscapeChar(LowerChar(c))
  {
    if c == '&' || c == '\U{00A0}' || c == '<' || c == '>' {
      var e := EscapeChar(c);
      assert forall k :: 0 <= k < |e| ==> e[k] in "&abglmnpst;";
      LowerOfLowercase(e);
    } else {
      assert Lower([c]) == [LowerChar(c)];
    }
  }

  /** Escaping and lower-casing commute: the character references are lower-case already. */
  lemma {:induction false} LowerEscape(s: string)
    ensures Lower(Escape(s)) == Escape(Lower(s))
  {
    if s != [] {
      var c := s[0];
      LowerConcat(EscapeChar(c), Escape(s[1..]));
      LowerEscapeChar(c);
      LowerEscape(s[1..]);
      LowerCons(s);
      EscapeConcat([LowerChar(c)], Lower(s[1..]));
      EscapeSingle(LowerChar(c));
    } else {
      assert Lower([]) == [];
    }
  }

  /** Escaping keeps containment: the escape of a piece sits inside the escape of the whole. */
  lemma EscapeKeepsContains(s: string, t: string)
    requires Contains(s, t)
    ensures Contains(Escape(s), Escape(t))
  {
    ContainsIff(s, t);
    var i :| OccursAt(s, t, i);
    var a, b := s[..i], s[i + |t|..];
    Around(s, i, i + |t|);
    EscapeConcat(a + t, b);
    EscapeConcat(a, t);
    Middle(Escape(a), Escape(t), Escape(b));
    assert OccursAt(Escape(s), Escape(t), |Escape(a)|);
    ContainsIff(Escape(s), Escape(t));
  }

  /** Reads the four character references Escape produces back as characters. */
  function Unescape(s: string): string
    decreases |s|
  {
    if s == [] then []
    else if StartsWith(s, "&amp;") then "&" + Unescape(s[5..])
    else if StartsWith(s, "&nbsp;") then "\U{00A0}" + Unescape(s[6..])
    else if StartsWith(s, "&lt;") then "<" + Unescape(s[4..])
    else if StartsWith(s, "&gt;") then ">" + Unescape(s[4..])
    else [s[0]] + Unescape(s[1..])
  }

  lemma UnescapeAmp(rest: string)
    ensures Unescape("&amp;" + rest) == "&" + Unescape(rest)
  {
    var e := "&amp;" + rest;
    assert e[..5] == "&amp;" && e[5..] == rest;
  }

  lemma UnescapeNbsp(rest: string)
    ensures Unescape("&nbsp;" + rest) == "\U{00A0}" + Unescape(rest)
  {
    var e := "&nbsp;" + rest;
    assert e[1] == 'n' && e[..6] == "&nbsp;" && e[6..] == rest;
    assert !StartsWith(e, "&amp;");
  }

  lemma UnescapeLt(rest: string)
    ensures Unescape("&lt;" + rest) == "<" + Unescape(rest)
  {
    var e := "&lt;" + rest;
    assert e[1] == 'l' && e[..4] == "&lt;" && e[4..] == rest;
    assert !StartsWith(e, "&amp;") && !StartsWith(e, "&nbsp;");
  }

  lemma UnescapeGt(rest: string)
    ensures Unescape("&gt;" + rest) == ">" + Unescape(rest)
  {
    var e := "&gt;" + rest;
    assert e[1] == 'g' && e[..4] == "&gt;" && e[4..] == rest;
    assert !StartsWith(e, "&amp;") && !StartsWith(e, "&nbsp;") && !StartsWith(e, "&lt;");
  }

  lemma UnescapeOther(c: char, rest: string)
    requires c != '&'
    ensures Unescape([c] + rest) == [c] + Unescape(rest)
  {
    var e := [c] + rest;
    assert e[0] == c && e[1..] == rest;
    assert !StartsWith(e, "&amp;") && !StartsWith(e, "&nbsp;") && !StartsWith(e, "&lt;") && !StartsWith(e, "&gt;");
  }

  /** Escaping loses nothing: unescaping gives the original text back. */
  lemma {:induction false} UnescapeEscape(s: string)
    ensures Unescape(Escape(s)) == s
  {
    if s != [] {
      var c, rest := s[0], Escape(s[1..]);
      assert Escape(s) == EscapeChar(c) + rest;
      UnescapeEscape(s[1..]);
      if c == '&' {
        UnescapeAmp(rest);
      } else if c == '\U{00A0}' {
        UnescapeNbsp(rest);
      } else if c == '<' {
        UnescapeLt(rest);
      } else if c == '>' {
        UnescapeGt(rest);
      } else {
        UnescapeOther(c, rest);
      }
      HeadTail(s);
    }
  }
}
