/** The pieces of Java text handling the mock secret store relies on:
    nullable strings, Apache Commons `StringUtils.isNotBlank`, `String.endsWith`
    and the way `+` renders a null operand. Strings are sequences of Unicode
    scalar values; every character `Character.isWhitespace` accepts lies in the
    Basic Multilingual Plane, so blankness does not depend on UTF-16 encoding. */
module JavaText {

  /** A Java reference that may be null. */
  datatype Option<+T> = None | Some(value: T)

  /** `Character.isWhitespace`: the Unicode space, line and paragraph separators
      other than the three non-breaking spaces (U+00A0, U+2007, U+202F), plus
      the control characters U+0009..U+000D and U+001C..U+001F. */
  predicate IsWhitespace(c: char) {
    c == ' '
    || ('\t' <= c <= '\r')
    || ('\U{1C}' <= c <= '\U{1F}')
    || c == '\U{1680}'
    || ('\U{2000}' <= c <= '\U{2006}')
    || ('\U{2008}' <= c <= '\U{200A}')
    || c == '\U{2028}' || c == '\U{2029}'
    || c == '\U{205F}' || c == '\U{3000}'
  }

  /** `StringUtils.isBlank`: null, empty, or whitespace only. */
  predicate IsBlank(s: Option<string>) {
    s.None? || forall i :: 0 <= i < |s.value| ==> IsWhitespace(s.value[i])
  }

  /** `StringUtils.isNotBlank`. */
  predicate IsNotBlank(s: Option<string>) {
    !IsBlank(s)
  }

  /** `s.endsWith(suffix)`. */
  predicate EndsWith(s: string, suffix: string) {
    |suffix| <= |s| && s[|s| - |suffix|..] == suffix
  }

  /** The text Java's string concatenation produces for a possibly null
      operand: a null reference renders as "null". */
  function Render(s: Option<string>): string {
    if s.None? then "null" else s.value
  }
}
