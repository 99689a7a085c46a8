/**
 * `String.prototype.trim`, which the add handler applies to the typed text:
 * it strips ECMAScript white space and line terminators from both ends.
 */
module Text {

  /** ECMAScript WhiteSpace (TAB, VT, FF, ZWNBSP and category Zs) and LineTerminator (LF, CR, LS, PS). */
  predicate IsWhitespace(c: char) {
    || c == '\t' || c == '\U{000B}' || c == '\U{000C}' || c == '\U{FEFF}'
    || c == ' ' || c == '\U{00A0}' || c == '\U{1680}' || ('\U{2000}' <= c <= '\U{200A}')
    || c == '\U{202F}' || c == '\U{205F}' || c == '\U{3000}'
    || c == '\n' || c == '\r' || c == '\U{2028}' || c == '\U{2029}'
  }

  predicate AllWhitespace(s: string) {
    forall i | 0 <= i < |s| :: IsWhitespace(s[i])
  }

  /** `s` without its leading white space: a suffix of `s` whose dropped prefix is all white space. */
  function TrimStart(s: string): (r: string)
    ensures |r| <= |s| && r == s[|s| - |r|..]
    ensures AllWhitespace(s[..|s| - |r|])
    ensures r == [] || !IsWhitespace(r[0])
  {
    if s != [] && IsWhitespace(s[0]) then TrimStart(s[1..]) else s
  }

  /** `s` without its trailing white space: a prefix of `s` whose dropped suffix is all white space. */
  function TrimEnd(s: string): (r: string)
    ensures |r| <= |s| && r == s[..|r|]
    ensures AllWhitespace(s[|r|..])
    ensures r == [] || !IsWhitespace(r[|r| - 1])
  {
    if s != [] && IsWhitespace(s[|s| - 1]) then TrimEnd(s[..|s| - 1]) else s
  }

  /**
   * `s.trim()`: `s` with white space stripped from both ends. It neither starts nor
   * ends with white space, and it is empty exactly when `s` is all white space.
   */
  function Trim(s: string): (r: string)
    ensures r == [] || (!IsWhitespace(r[0]) && !IsWhitespace(r[|r| - 1]))
    ensures r == [] <==> AllWhitespace(s)
  {
    TrimEnd(TrimStart(s))
  }

  /**
   * Trimming only strips white space at the ends: the result is the infix of `s` that
   * starts after its leading white space, and only white space lies on either side.
   */
  lemma TrimIsInfix(s: string)
    ensures var i := |s| - |TrimStart(s)|;
            && i + |Trim(s)| <= |s|
            && (forall k | 0 <= k < |Trim(s)| :: Trim(s)[k] == s[i + k])
            && (forall k | 0 <= k < i :: IsWhitespace(s[k]))
            && (forall k | i + |Trim(s)| <= k < |s| :: IsWhitespace(s[k]))
  {
    var t := TrimStart(s);
    var i := |s| - |t|;
    StartIsSuffix(s, t, i);
    EndIsPrefix(t, TrimEnd(t));
  }

  lemma StartIsSuffix(s: string, t: string, i: int)
    requires t == TrimStart(s) && i == |s| - |t|
    ensures forall k | 0 <= k < |t| :: t[k] == s[i + k]
    ensures forall k | 0 <= k < i :: IsWhitespace(s[k])
  {
    assert t == s[i..];
    forall k | 0 <= k < i ensures IsWhitespace(s[k]) {
      assert s[..i][k] == s[k];
    }
  }

  lemma EndIsPrefix(t: string, r: string)
    requires r == TrimEnd(t)
    ensures forall k | 0 <= k < |r| :: r[k] == t[k]
    ensures forall k | |r| <= k < |t| :: IsWhitespace(t[k])
  {
    forall k | |r| <= k < |t| ensures IsWhitespace(t[k]) {
      assert t[|r|..][k - |r|] == t[k];
    }
  }

  /** Trimming an already trimmed string changes nothing. */
  lemma TrimIdempotent(s: string)
    ensures Trim(Trim(s)) == Trim(s)
  {
  }
}
