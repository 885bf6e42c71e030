/** String.prototype.trim as the widget uses it on the new-task input and on
    the edit input: it removes white space and line terminators from both
    ends of a string. */
module Text {

  /** The code points ECMAScript counts as WhiteSpace or LineTerminator:
      TAB, LF, VT, FF, CR (U+0009 to U+000D), the space separators (U+0020,
      U+00A0, U+1680, U+2000 to U+200A, U+202F, U+205F, U+3000), the line and
      paragraph separators U+2028 and U+2029, and ZWNBSP (U+FEFF). */
  predicate IsWhitespace(c: char) {
    ('\t' <= c <= '\r') || c == ' ' || c == '\U{00A0}' || c == '\U{1680}'
    || ('\U{2000}' <= c <= '\U{200A}') || c == '\U{2028}' || c == '\U{2029}'
    || c == '\U{202F}' || c == '\U{205F}' || c == '\U{3000}' || c == '\U{FEFF}'
  }

  predicate AllWhitespace(s: string) {
    forall k :: 0 <= k < |s| ==> IsWhitespace(s[k])
  }

  /** Neither end of s is white space (the empty string qualifies). */
  predicate Trimmed(s: string) {
    s == [] || (!IsWhitespace(s[0]) && !IsWhitespace(s[|s| - 1]))
  }

  /** The first position at or after i that does not hold white space
      (|s| when there is none). */
  function SkipLeading(s: string, i: nat): (a: nat)
    requires i <= |s|
    ensures i <= a <= |s|
    ensures forall k :: i <= k < a ==> IsWhitespace(s[k])
    ensures a < |s| ==> !IsWhitespace(s[a])
    decreases |s| - i
  {
    if i < |s| && IsWhitespace(s[i]) then SkipLeading(s, i + 1) else i
  }

  /** The end of the text in s[lo..j]: the smallest b such that s[b..j] is all
      white space (lo when s[lo..j] is blank). */
  function SkipTrailing(s: string, lo: nat, j: nat): (b: nat)
    requires lo <= j <= |s|
    ensures lo <= b <= j
    ensures forall k :: b <= k < j ==> IsWhitespace(s[k])
    ensures b > lo ==> !IsWhitespace(s[b - 1])
    decreases j
  {
    if j > lo && IsWhitespace(s[j - 1]) then SkipTrailing(s, lo, j - 1) else j
  }

  /** String.prototype.trim: the text between the leading and the trailing
      white space. It is no longer than s and neither starts nor ends with
      white space. */
  function Trim(s: string): (r: string)
    ensures |r| <= |s| && Trimmed(r)
  {
    var a := SkipLeading(s, 0);
    s[a..SkipTrailing(s, a, |s|)]
  }

  /** SkipLeading is the only position with its two properties. */
  lemma SkipLeadingUnique(s: string, a: nat)
    requires a <= |s|
    requires forall k :: 0 <= k < a ==> IsWhitespace(s[k])
    requires a < |s| ==> !IsWhitespace(s[a])
    ensures SkipLeading(s, 0) == a
  {
  }

  /** SkipTrailing is the only end position with its two properties. */
  lemma SkipTrailingUnique(s: string, lo: nat, b: nat)
    requires lo <= b <= |s|
    requires forall k :: b <= k < |s| ==> IsWhitespace(s[k])
    requires b > lo ==> !IsWhitespace(s[b - 1])
    ensures SkipTrailing(s, lo, |s|) == b
  {
  }

  /** Trim(s) is what is left of s once a white-space prefix of length a and
      a white-space suffix are cut off. */
  lemma TrimCutsPadding(s: string) returns (a: nat)
    ensures a + |Trim(s)| <= |s|
    ensures Trim(s) == s[a..a + |Trim(s)|]
    ensures AllWhitespace(s[..a]) && AllWhitespace(s[a + |Trim(s)|..])
  {
    a := SkipLeading(s, 0);
    var b := SkipTrailing(s, a, |s|);
    assert Trim(s) == s[a..b];
    assert forall k :: 0 <= k < |s[b..]| ==> s[b..][k] == s[b + k];
  }

  /** Trim leaves nothing exactly when s is blank. */
  lemma TrimBlank(s: string)
    ensures Trim(s) == [] <==> AllWhitespace(s)
  {
    var a := SkipLeading(s, 0);
    var b := SkipTrailing(s, a, |s|);
    assert Trim(s) == s[a..b];
    if AllWhitespace(s) {
      SkipLeadingUnique(s, |s|);
    }
  }

  /** Trim undoes any white-space padding of a string that is already trimmed:
      the result depends only on the text between the padding. */
  lemma TrimOfPadded(p: string, t: string, q: string)
    requires AllWhitespace(p) && AllWhitespace(q) && Trimmed(t)
    ensures Trim(p + t + q) == t
  {
    var s := p + t + q;
    assert forall k :: 0 <= k < |p| ==> s[k] == p[k];
    assert forall k :: 0 <= k < |t| ==> s[|p| + k] == t[k];
    assert forall k :: |p| + |t| <= k < |s| ==> s[k] == q[k - |p| - |t|];
    if t == [] {
      SkipLeadingUnique(s, |s|);
      SkipTrailingUnique(s, |s|, |s|);
    } else {
      SkipLeadingUnique(s, |p|);
      SkipTrailingUnique(s, |p|, |p| + |t|);
      assert s[|p|..|p| + |t|] == t;
    }
  }

  /** An already trimmed string is its own trim. */
  lemma TrimTrimmed(t: string)
    requires Trimmed(t)
    ensures Trim(t) == t
  {
    assert [] + t + [] == t;
    TrimOfPadded([], t, []);
  }

  /** Trimming twice is trimming once. */
  lemma TrimIdempotent(s: string)
    ensures Trim(Trim(s)) == Trim(s)
  {
    TrimTrimmed(Trim(s));
  }
}
