/** The text test the filter relies on: Spring's `StringUtils.hasText` over
    Java's `Character.isWhitespace`. */
module StringUtils {
  import opened Wrappers

  /** Java's `Character.isWhitespace` as of Java 9 and later: the Unicode space,
      line and paragraph separators except the non-breaking ones (U+00A0,
      U+2007, U+202F), plus U+0009..U+000D and U+001C..U+001F. Java 8 also
      counts U+180E, a space separator in its Unicode version. */
  predicate IsWhitespace(c: char) {
    var n := c as int;
    || n == 0x20
    || 0x09 <= n <= 0x0D
    || 0x1C <= n <= 0x1F
    || n == 0x1680
    || 0x2000 <= n <= 0x2006
    || 0x2008 <= n <= 0x200A
    || n == 0x2028
    || n == 0x2029
    || n == 0x205F
    || n == 0x3000
  }

  /** Scans `s` for a character that is not whitespace. */
  function ContainsText(s: string): (r: bool)
    ensures r <==> exists i :: 0 <= i < |s| && !IsWhitespace(s[i])
  {
    if s == [] then false
    else if !IsWhitespace(s[0]) then true
    else
      ContainsText(s[1..])
  }

  /** `StringUtils.hasText`: not null, not empty, and some character is not
      whitespace. */
  function HasText(s: Option<string>): (r: bool)
    ensures r <==> s.Some? && exists i :: 0 <= i < |s.value| && !IsWhitespace(s.value[i])
    ensures r ==> |s.value| > 0
  {
    s.Some? && |s.value| > 0 && ContainsText(s.value)
  }
}
