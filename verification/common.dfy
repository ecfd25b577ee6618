/**
 * Shared vocabulary: optional values standing for Java references that may be
 * null, results standing for calls that may throw, and the two
 * java.lang.String / commons-lang helpers the flow code relies on.
 */
module Common {

  /** A Java reference that may be null. */
  datatype Option<+T> = None | Some(value: T)

  /** The outcome of a Java call that either returns or throws. */
  datatype Result<+T, +E> = Ok(value: T) | Err(error: E)

  /**
   * Character.isWhitespace: the Unicode space, line and paragraph separators
   * other than the three non-breaking spaces, plus the ASCII controls
   * U+0009..U+000D and U+001C..U+001F.
   */
  predicate IsWhitespace(c: char)
  {
    || c == ' '
    || ('\t' <= c <= '\r')
    || ('\U{1C}' <= c <= '\U{1F}')
    || c == '\U{1680}'
    || ('\U{2000}' <= c <= '\U{2006}')
    || ('\U{2008}' <= c <= '\U{200A}')
    || c == '\U{2028}'
    || c == '\U{2029}'
    || c == '\U{205F}'
    || c == '\U{3000}'
  }

  /** StringUtils.isBlank: null, empty, or whitespace only. */
  predicate IsBlank(s: Option<string>)
  {
    s.None? || forall i :: 0 <= i < |s.value| ==> IsWhitespace(s.value[i])
  }

  /**
   * String.indexOf(c, from): the first position at or after `from` that holds
   * `c`, or -1 when there is none.
   */
  function IndexOf(s: string, c: char, from: nat): (r: int)
    ensures r == -1 || (from <= r < |s| && s[r] == c)
    ensures r == -1 <==> forall i :: from <= i < |s| ==> s[i] != c
    ensures r != -1 ==> forall i :: from <= i < r ==> s[i] != c
    decreases |s| - from
  {
    if from >= |s| then -1
    else if s[from] == c then from
    else IndexOf(s, c, from + 1)
  }
}
