/**
 * String trimming as ECMAScript's `String.prototype.trim` does it: remove
 * every leading and every trailing character that is WhiteSpace or a
 * LineTerminator (sections 12.2 and 12.3 of ECMA-262), keep the rest.
 * Characters are Unicode scalar values; all of the stripped characters lie
 * in the Basic Multilingual Plane, so code points and UTF-16 code units agree.
 */
module StringTrim {

  /** WhiteSpace (TAB, VT, FF, ZWNBSP and every Zs space) or LineTerminator (LF, CR, LS, PS). */
  predicate IsWhiteSpace(c: char)
    ensures IsWhiteSpace(c) ==> c <= '\U{FEFF}'
  {
    || c == '\t' || c == '\U{000B}' || c == '\U{000C}' || c == ' '
    || c == '\U{00A0}' || c == '\U{1680}' || ('\U{2000}' <= c <= '\U{200A}')
    || c == '\U{202F}' || c == '\U{205F}' || c == '\U{3000}' || c == '\U{FEFF}'
    || c == '\n' || c == '\r' || c == '\U{2028}' || c == '\U{2029}'
  }

  /**
   * Members and non-members of the whitespace set: space, tab, the line
   * breaks, NBSP, the ideographic space and the byte-order mark are stripped;
   * NEL, the zero-width space and the Mongolian vowel separator are not,
   * nor is any printable ASCII character.
   */
  lemma WhiteSpaceMembers()
    ensures IsWhiteSpace(' ') && IsWhiteSpace('\t') && IsWhiteSpace('\n') && IsWhiteSpace('\r')
    ensures IsWhiteSpace('\U{00A0}') && IsWhiteSpace('\U{3000}') && IsWhiteSpace('\U{FEFF}')
    ensures !IsWhiteSpace('\U{0085}') && !IsWhiteSpace('\U{200B}') && !IsWhiteSpace('\U{180E}')
    ensures forall c: char :: '!' <= c <= '~' ==> !IsWhiteSpace(c)
  {
  }

  /** Every character of `s[lo..hi]` is whitespace. */
  predicate WhiteSpaceBetween(s: string, lo: int, hi: int) {
    forall k :: lo <= k < hi && 0 <= k < |s| ==> IsWhiteSpace(s[k])
  }

  /** Every character of `s` is whitespace (the empty string included). */
  predicate AllWhiteSpace(s: string) {
    WhiteSpaceBetween(s, 0, |s|)
  }

  /** `s` neither starts nor ends with whitespace. */
  predicate Trimmed(s: string) {
    s == [] || (!IsWhiteSpace(s[0]) && !IsWhiteSpace(s[|s| - 1]))
  }

  /** The number of whitespace characters `s` starts with. */
  function LeadingCount(s: string): (n: nat)
    ensures n <= |s| && WhiteSpaceBetween(s, 0, n)
    ensures n < |s| ==> !IsWhiteSpace(s[n])
  {
    if s == [] || !IsWhiteSpace(s[0]) then 0
    else
      var n := 1 + LeadingCount(s[1..]);
      assert forall k :: 1 <= k < n ==> s[k] == s[1..][k - 1];
      n
  }

  /** The number of whitespace characters `s` ends with. */
  function TrailingCount(s: string): (n: nat)
    ensures n <= |s| && WhiteSpaceBetween(s, |s| - n, |s|)
    ensures n < |s| ==> !IsWhiteSpace(s[|s| - n - 1])
  {
    if s == [] || !IsWhiteSpace(s[|s| - 1]) then 0
    else
      var u := s[..|s| - 1];
      var n := 1 + TrailingCount(u);
      assert forall k :: |s| - n <= k < |s| - 1 ==> s[k] == u[k];
      n
  }

  /**
   * `String.prototype.trim`: the part of `s` between its leading and its
   * trailing whitespace. The result has no whitespace at either end, and is
   * empty exactly when `s` is all whitespace.
   */
  function Trim(s: string): (r: string)
    ensures |r| <= |s|
    ensures Trimmed(r)
    ensures r == [] <==> AllWhiteSpace(s)
  {
    var i := LeadingCount(s);
    if i == |s| then []
    else
      var j := |s| - TrailingCount(s);
      assert i < j;
      s[i..j]
  }

  /**
   * Reference definition of trimming: whenever `s[i..j]` is bordered by
   * whitespace only, and is itself empty or starts and ends with a
   * non-whitespace character, `Trim(s)` is exactly `s[i..j]`.
   */
  lemma {:induction false} TrimUnique(s: string, i: nat, j: nat)
    requires i <= j <= |s|
    requires WhiteSpaceBetween(s, 0, i) && WhiteSpaceBetween(s, j, |s|)
    requires i < j ==> !IsWhiteSpace(s[i]) && !IsWhiteSpace(s[j - 1])
    ensures Trim(s) == s[i..j]
  {
    if i < j {
      assert LeadingCount(s) == i;
      assert TrailingCount(s) == |s| - j;
    } else {
      assert AllWhiteSpace(s);
    }
  }

  /** Trimming twice is trimming once. */
  lemma TrimIdempotent(s: string)
    ensures Trim(Trim(s)) == Trim(s)
  {
    TrimmedIsFixed(Trim(s));
  }

  /** A string without whitespace at either end is its own trim. */
  lemma {:induction false} TrimmedIsFixed(s: string)
    requires Trimmed(s)
    ensures Trim(s) == s
  {
    TrimUnique(s, 0, |s|);
    assert s[0..|s|] == s;
  }

  /** A string is left unchanged by trimming exactly when it has no whitespace at either end. */
  lemma TrimFixedPoint(s: string)
    ensures Trim(s) == s <==> Trimmed(s)
  {
    if Trimmed(s) {
      TrimmedIsFixed(s);
    }
  }

  /** Whitespace added at either end is removed again by trimming. */
  lemma TrimPadded(pre: string, s: string, post: string)
    requires AllWhiteSpace(pre) && AllWhiteSpace(post)
    ensures Trim(pre + s + post) == Trim(s)
  {
    var i, j := TrimSpan(s);
    PaddedBorders(pre, s, post, i, j);
    TrimUnique(pre + s + post, |pre| + i, |pre| + j);
    MiddleSlice(pre, s, post, i, j);
  }

  /** Where the trimmed part of `s` lies, and that only whitespace surrounds it. */
  lemma TrimSpan(s: string) returns (i: nat, j: nat)
    ensures i <= j <= |s| && Trim(s) == s[i..j]
    ensures WhiteSpaceBetween(s, 0, i) && WhiteSpaceBetween(s, j, |s|)
    ensures i < j ==> !IsWhiteSpace(s[i]) && !IsWhiteSpace(s[j - 1])
  {
    i := LeadingCount(s);
    j := if i == |s| then i else |s| - TrailingCount(s);
  }

  lemma MiddleSlice(pre: string, s: string, post: string, i: nat, j: nat)
    requires i <= j <= |s|
    ensures (pre + s + post)[|pre| + i..|pre| + j] == s[i..j]
  {
    assert pre + s + post == pre + (s + post);
    assert (s + post)[i..j] == s[i..j];
  }

  /** The borders of the padded string are whitespace when those of `s` are. */
  lemma PaddedBorders(pre: string, s: string, post: string, i: nat, j: nat)
    requires i <= j <= |s| && AllWhiteSpace(pre) && AllWhiteSpace(post)
    requires WhiteSpaceBetween(s, 0, i) && WhiteSpaceBetween(s, j, |s|)
    requires i < j ==> !IsWhiteSpace(s[i]) && !IsWhiteSpace(s[j - 1])
    ensures var w := pre + s + post;
      WhiteSpaceBetween(w, 0, |pre| + i) && WhiteSpaceBetween(w, |pre| + j, |w|)
      && (i < j ==> !IsWhiteSpace(w[|pre| + i]) && !IsWhiteSpace(w[|pre| + j - 1]))
  {
    var w := pre + s + post;
    assert forall k :: 0 <= k < |pre| ==> w[k] == pre[k];
    assert forall k :: 0 <= k < |s| ==> w[|pre| + k] == s[k];
    assert forall k :: 0 <= k < |post| ==> w[|pre| + |s| + k] == post[k];
    forall k | 0 <= k < |pre| + i ensures IsWhiteSpace(w[k]) {
      if k >= |pre| { assert w[|pre| + (k - |pre|)] == s[k - |pre|]; }
    }
    forall k | |pre| + j <= k < |w| ensures IsWhiteSpace(w[k]) {
      if k < |pre| + |s| {
        assert w[|pre| + (k - |pre|)] == s[k - |pre|];
      } else {
        assert w[|pre| + |s| + (k - |pre| - |s|)] == post[k - |pre| - |s|];
      }
    }
  }
}
