/**
 * The string handling the link form relies on: JavaScript's String.prototype.trim,
 * the loose `startsWith('http')` scheme test and the `https://` prefixing.
 */
module Text {

  /** The WhiteSpace and LineTerminator code points of ECMAScript: what trim() removes. */
  predicate IsWhitespace(c: char) {
    c == '\t' || c == '\n' || c == '\U{000B}' || c == '\U{000C}' || c == '\r' || c == ' '
    || c == '\U{00A0}' || c == '\U{1680}' || ('\U{2000}' <= c <= '\U{200A}')
    || c == '\U{2028}' || c == '\U{2029}' || c == '\U{202F}' || c == '\U{205F}'
    || c == '\U{3000}' || c == '\U{FEFF}'
  }

  predicate AllWhitespace(s: string) {
    forall i :: 0 <= i < |s| ==> IsWhitespace(s[i])
  }

  /** The first position at or after `i` that does not hold whitespace, or `|s|` if there is none. */
  function SkipSpace(s: string, i: nat): (k: nat)
    requires i <= |s|
    ensures i <= k <= |s|
    ensures forall j :: i <= j < k ==> IsWhitespace(s[j])
    ensures k < |s| ==> !IsWhitespace(s[k])
    decreases |s| - i
  {
    if i < |s| && IsWhitespace(s[i]) then SkipSpace(s, i + 1) else i
  }

  /** The position just after the last non-whitespace before `j`, or 0 if there is none. */
  function SkipSpaceBack(s: string, j: nat): (k: nat)
    requires j <= |s|
    ensures k <= j
    ensures forall i :: k <= i < j ==> IsWhitespace(s[i])
    ensures k > 0 ==> !IsWhitespace(s[k - 1])
  {
    if j > 0 && IsWhitespace(s[j - 1]) then SkipSpaceBack(s, j - 1) else j
  }

  /**
   * String.prototype.trim: `s` without its leading and trailing whitespace. A string
   * trims to the empty string (the falsy value the form tests for) exactly when it is
   * made only of whitespace.
   */
  function Trim(s: string): (r: string)
    ensures r == [] <==> AllWhitespace(s)
    ensures r == [] || (!IsWhitespace(r[0]) && !IsWhitespace(r[|r| - 1]))
    ensures |r| <= |s|
  {
    var start := SkipSpace(s, 0);
    if start == |s| then []
    else s[start..SkipSpaceBack(s, |s|)]
  }

  /** The leading run that trim() cuts off is whitespace. */
  lemma LeadingRunIsWhitespace(s: string)
    ensures AllWhitespace(s[..SkipSpace(s, 0)])
  {
    var start := SkipSpace(s, 0);
    forall i | 0 <= i < start
      ensures IsWhitespace(s[..start][i])
    {
    }
  }

  /** The trailing run that trim() cuts off is whitespace. */
  lemma TrailingRunIsWhitespace(s: string)
    ensures AllWhitespace(s[SkipSpaceBack(s, |s|)..])
  {
    var end := SkipSpaceBack(s, |s|);
    forall i | 0 <= i < |s| - end
      ensures IsWhitespace(s[end..][i])
    {
      assert s[end..][i] == s[end + i];
    }
  }

  /** In a string that is not all whitespace, the leading run stops before the trailing run starts. */
  lemma TrimCutOrdered(s: string)
    requires !AllWhitespace(s)
    ensures SkipSpace(s, 0) < SkipSpaceBack(s, |s|)
  {
    var start := SkipSpace(s, 0);
    assert start < |s| && !IsWhitespace(s[start]);
  }

  /** Once the leading run stops short of the trailing one, trim() keeps what lies between them. */
  lemma TrimIsSlice(s: string)
    requires SkipSpace(s, 0) < SkipSpaceBack(s, |s|)
    ensures Trim(s) == s[SkipSpace(s, 0)..SkipSpaceBack(s, |s|)]
  {
  }

  /** What trim() removes is whitespace, and only from the two ends: the result is a slice of `s` with whitespace around it. */
  lemma TrimRemovesOnlyWhitespace(s: string)
    ensures exists i, j :: 0 <= i <= j <= |s| && Trim(s) == s[i..j] && AllWhitespace(s[..i]) && AllWhitespace(s[j..])
  {
    if AllWhitespace(s) {
      assert Trim(s) == s[|s|..|s|] && AllWhitespace(s[..|s|]) && AllWhitespace(s[|s|..]);
    } else {
      TrimCutOrdered(s);
      TrimIsSlice(s);
      LeadingRunIsWhitespace(s);
      TrailingRunIsWhitespace(s);
    }
  }

  /** A string with no whitespace at either end is left as it is by trim(). */
  lemma TrimUntouched(s: string)
    requires s == [] || (!IsWhitespace(s[0]) && !IsWhitespace(s[|s| - 1]))
    ensures Trim(s) == s
  {
  }

  /** `url.startsWith('http')`: case-sensitive and loose, so "httpbin.org" passes too. */
  predicate StartsWithHttp(s: string) {
    |s| >= 4 && s[..4] == "http"
  }

  /** The address as stored: the input itself when it starts with "http", else "https://" before it. */
  function WithScheme(s: string): (r: string)
    ensures StartsWithHttp(r)
    ensures |r| >= |s| && r[|r| - |s|..] == s
    ensures StartsWithHttp(s) <==> r == s
    ensures !StartsWithHttp(s) ==> |r| == |s| + 8 && r[..8] == "https://" && r[8..] == s
  {
    if StartsWithHttp(s) then s else "https://" + s
  }

  /** Prefixing is stable: an address that was prefixed once is not prefixed again. */
  lemma WithSchemeIdempotent(s: string)
    ensures WithScheme(WithScheme(s)) == WithScheme(s)
  {
  }

  /**
   * isValidUrl: the browser's URL constructor, given as the oracle `parses`, accepts
   * the address with `https://` added when it does not start with "http".
   */
  predicate IsValidUrl(url: string, parses: string -> bool) {
    parses(WithScheme(url))
  }
}
