/** String helpers used by the watch-list reader: whitespace stripping,
    cutting a line at its first unescaped '#', and turning "\#" back into "#". */
module AlertText {

  /** The whitespace that `str.strip()` removes, restricted to ASCII:
      space, tab, line feed, vertical tab, form feed, carriage return and
      the four information separators U+001C..U+001F. */
  predicate IsSpace(c: char) {
    c == ' ' || c == '\t' || c == '\n' || c == '\r' || c == '\U{B}' || c == '\U{C}'
    || ('\U{1C}' <= c <= '\U{1F}')
  }

  predicate AllSpace(s: string) {
    forall i :: 0 <= i < |s| ==> IsSpace(s[i])
  }

  /** Neither end of `s` is whitespace (vacuously true of ""). */
  predicate Trimmed(s: string) {
    s == [] || (!IsSpace(s[0]) && !IsSpace(s[|s| - 1]))
  }

  /** `str.strip()`: drop leading and trailing whitespace, one character
      at a time. The result neither starts nor ends with whitespace;
      `StripRemovesOnlySpaces` says what was removed. */
  function Strip(s: string): (r: string)
    ensures Trimmed(r)
    ensures |r| <= |s|
    decreases |s|
  {
    if |s| > 0 && IsSpace(s[0]) then Strip(s[1..])
    else if |s| > 0 && IsSpace(s[|s| - 1]) then Strip(s[..|s| - 1])
    else s
  }

  /** The number of whitespace characters `s` starts with. */
  function LeadingSpaces(s: string): (n: nat)
    ensures n <= |s| && AllSpace(s[..n])
    ensures n == |s| || !IsSpace(s[n])
  {
    if |s| > 0 && IsSpace(s[0]) then
      var n := 1 + LeadingSpaces(s[1..]);
      assert s[..n] == [s[0]] + s[1..][..n - 1];
      n
    else 0
  }

  /** What `Strip` keeps is the part of `s` after its leading whitespace
      and before a whitespace suffix. */
  lemma {:induction false} StripRemovesOnlySpaces(s: string)
    ensures var k := LeadingSpaces(s);
            k + |Strip(s)| <= |s| && Strip(s) == s[k..k + |Strip(s)|] && AllSpace(s[k + |Strip(s)|..])
    decreases |s|
  {
    var r := Strip(s);
    var k := LeadingSpaces(s);
    if |s| > 0 && IsSpace(s[0]) {
      var t := s[1..];
      StripRemovesOnlySpaces(t);
      assert k == LeadingSpaces(t) + 1;
      assert s[k..k + |r|] == t[k - 1..k - 1 + |r|];
      assert s[k + |r|..] == t[k - 1 + |r|..];
    } else if |s| > 0 && IsSpace(s[|s| - 1]) {
      var t := s[..|s| - 1];
      StripRemovesOnlySpaces(t);
      assert k == 0 && LeadingSpaces(t) == 0;
      assert s[..|r|] == t[..|r|];
      assert s[|r|..] == t[|r|..] + [s[|s| - 1]];
    } else {
      assert k == 0;
    }
  }

  /** Stripping leaves nothing exactly when the string is all whitespace. */
  lemma {:induction false} StripEmptyIffBlank(s: string)
    ensures Strip(s) == [] <==> AllSpace(s)
    decreases |s|
  {
    if |s| > 0 && IsSpace(s[0]) {
      StripEmptyIffBlank(s[1..]);
      assert AllSpace(s) <==> AllSpace(s[1..]);
    } else if |s| > 0 && IsSpace(s[|s| - 1]) {
      StripEmptyIffBlank(s[..|s| - 1]);
      assert AllSpace(s) <==> AllSpace(s[..|s| - 1]);
    }
  }

  /** Stripping twice is stripping once. */
  lemma StripIdempotent(s: string)
    ensures Strip(Strip(s)) == Strip(s)
  {
    TrimmedIsStripFixpoint(Strip(s));
  }

  /** A string with no whitespace at either end is left as it is. */
  lemma TrimmedIsStripFixpoint(s: string)
    requires Trimmed(s)
    ensures Strip(s) == s
  {
  }

  predicate EndsWithBackslash(s: string) {
    |s| > 0 && s[|s| - 1] == '\\'
  }

  /** Position `i` of `s` holds a '#' that is not directly after a backslash:
      a match of the pattern `(?<!\\)#`. */
  predicate UnescapedHashAt(s: string, i: nat)
    requires i < |s|
  {
    s[i] == '#' && (i == 0 || s[i - 1] != '\\')
  }

  predicate NoUnescapedHash(s: string) {
    forall i :: 0 <= i < |s| ==> !UnescapedHashAt(s, i)
  }

  /** Index of the first unescaped '#' of `s` at or after `from`, or |s|
      when there is none. */
  function FirstUnescapedHash(s: string, from: nat): (k: nat)
    requires from <= |s|
    ensures from <= k <= |s|
    ensures forall i :: from <= i < k ==> !UnescapedHashAt(s, i)
    ensures k == |s| || UnescapedHashAt(s, k)
    decreases |s| - from
  {
    if from == |s| then from
    else if UnescapedHashAt(s, from) then from
    else FirstUnescapedHash(s, from + 1)
  }

  /** `re.split(r'(?<!\\)#', s, 1)[0]`: the part of `s` before its first
      '#' not preceded by a backslash, or all of `s` if it has none. */
  function BeforeUnescapedHash(s: string): (r: string)
    ensures r <= s
    ensures NoUnescapedHash(r)
    ensures |r| == |s| || UnescapedHashAt(s, |r|)
  {
    var k := FirstUnescapedHash(s, 0);
    var r := s[..k];
    assert forall i :: 0 <= i < |r| ==> UnescapedHashAt(r, i) == UnescapedHashAt(s, i);
    r
  }

  /** Text without an unescaped '#' has no comment to cut off. */
  lemma BeforeUnescapedHashOfCommentFree(s: string)
    requires NoUnescapedHash(s)
    ensures BeforeUnescapedHash(s) == s
  {
  }

  /** A line whose first character is '#' is all comment. */
  lemma BeforeUnescapedHashOfComment(s: string)
    requires |s| > 0 && s[0] == '#'
    ensures BeforeUnescapedHash(s) == []
  {
    assert UnescapedHashAt(s, 0);
  }

  /** Stripping never uncovers an unescaped '#': the character before a
      stripped-away prefix is whitespace, never a backslash. */
  lemma StripKeepsNoUnescapedHash(s: string)
    requires NoUnescapedHash(s)
    ensures NoUnescapedHash(Strip(s))
  {
    var r := Strip(s);
    StripRemovesOnlySpaces(s);
    var k := LeadingSpaces(s);
    forall i | 0 <= i < |r|
      ensures !UnescapedHashAt(r, i)
    {
      assert !UnescapedHashAt(s, k + i);
      if i == 0 && k > 0 {
        assert IsSpace(s[..k][k - 1]);
      }
    }
  }

  /** `s.replace('\\#', '#')`: every "\#" becomes "#", scanning left to
      right without overlaps. The result is never longer, is empty exactly
      when `s` is, keeps the last character of `s` and starts with the first
      character of `s` or with the '#' of a leading "\#"; every character of
      it comes from `s`. */
  function UnescapeHash(s: string): (r: string)
    ensures |r| <= |s|
    ensures r == [] <==> s == []
    ensures s != [] ==> r[|r| - 1] == s[|s| - 1]
    ensures s != [] ==> r[0] == s[0] || (r[0] == '#' && s[0] == '\\')
    ensures forall c :: c in r ==> c in s
  {
    if |s| == 0 then []
    else if |s| >= 2 && s[0] == '\\' && s[1] == '#' then
      var t := UnescapeHash(s[2..]);
      assert forall c :: c in t ==> c in s[2..];
      "#" + t
    else
      var t := UnescapeHash(s[1..]);
      assert forall c :: c in t ==> c in s[1..];
      [s[0]] + t
  }

  /** Unescaping keeps a string trimmed: its end characters are either
      kept or become '#'. */
  lemma UnescapeHashKeepsTrimmed(s: string)
    requires Trimmed(s)
    ensures Trimmed(UnescapeHash(s))
  {
  }

  /** The escaping direction: write every '#' as "\#". */
  function EscapeHash(s: string): (r: string)
    ensures |r| >= |s|
    ensures r == [] <==> s == []
    ensures r == [] || r[0] != '#'
    ensures s != [] ==> r[|r| - 1] == s[|s| - 1]
    ensures s != [] ==> r[0] == s[0] || (r[0] == '\\' && s[0] == '#')
  {
    if s == [] then []
    else if s[0] == '#' then "\\#" + EscapeHash(s[1..])
    else [s[0]] + EscapeHash(s[1..])
  }

  /** Escaping every '#' and then unescaping gives back the original text,
      backslashes included. */
  lemma {:induction false} UnescapeEscapeHash(s: string)
    ensures UnescapeHash(EscapeHash(s)) == s
  {
    if s != [] {
      UnescapeEscapeHash(s[1..]);
      var e := EscapeHash(s[1..]);
      if s[0] == '#' {
        assert EscapeHash(s) == "\\#" + e;
        assert ("\\#" + e)[2..] == e;
      } else {
        assert EscapeHash(s) == [s[0]] + e;
        assert ([s[0]] + e)[1..] == e;
      }
    }
  }

  /** On text with no unescaped '#' (every kept text is such), escaping
      undoes unescaping, so the two are inverse there. */
  lemma {:induction false} EscapeUnescapeHash(t: string)
    requires NoUnescapedHash(t)
    ensures EscapeHash(UnescapeHash(t)) == t
    decreases |t|
  {
    if t != [] {
      assert !UnescapedHashAt(t, 0);
      if |t| >= 2 && t[0] == '\\' && t[1] == '#' {
        var t' := t[2..];
        forall i | 0 <= i < |t'| ensures !UnescapedHashAt(t', i) {
          assert !UnescapedHashAt(t, i + 2);
        }
        EscapeUnescapeHash(t');
        var u := UnescapeHash(t');
        assert UnescapeHash(t) == "#" + u;
        assert ("#" + u)[1..] == u;
        assert t == "\\#" + t';
      } else {
        var t' := t[1..];
        forall i | 0 <= i < |t'| ensures !UnescapedHashAt(t', i) {
          assert !UnescapedHashAt(t, i + 1);
        }
        EscapeUnescapeHash(t');
        var u := UnescapeHash(t');
        assert UnescapeHash(t) == [t[0]] + u;
        assert ([t[0]] + u)[1..] == u;
        assert t == [t[0]] + t';
      }
    }
  }

  /** An escaped string has no unescaped '#': a line written with
      `EscapeHash` is never cut as a comment. */
  lemma {:induction false} EscapeHashHasNoUnescapedHash(s: string)
    ensures NoUnescapedHash(EscapeHash(s))
  {
    if s != [] {
      EscapeHashHasNoUnescapedHash(s[1..]);
      var e := EscapeHash(s[1..]);
      var r := EscapeHash(s);
      if s[0] == '#' {
        assert r == "\\#" + e;
        forall i | 0 <= i < |r| ensures !UnescapedHashAt(r, i) {
          if i >= 3 { assert !UnescapedHashAt(e, i - 2); }
          else if i == 2 { assert e == [] || e[0] != '#'; }
        }
      } else {
        assert r == [s[0]] + e;
        forall i | 0 <= i < |r| ensures !UnescapedHashAt(r, i) {
          if i >= 2 { assert !UnescapedHashAt(e, i - 1); }
          else if i == 1 { assert e == [] || e[0] != '#'; }
        }
      }
    }
  }
}
