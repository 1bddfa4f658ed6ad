/**
 * The .NET string tests the service relies on: `char.IsWhiteSpace` and
 * `string.IsNullOrWhiteSpace`. The `[Required]` data annotation on a string
 * property rejects exactly the null, empty and whitespace-only values, so it
 * is the same test.
 */
module Strings {
  import opened Wrappers

  /** The characters `char.IsWhiteSpace` accepts: the Unicode separators and
      the ASCII and Latin-1 control characters TAB, LF, VT, FF, CR and NEL. */
  predicate IsWhiteSpace(c: char) {
    var n := c as int;
    (0x09 <= n <= 0x0D) || n == 0x20 || n == 0x85 || n == 0xA0 || n == 0x1680
    || (0x2000 <= n <= 0x200A) || n == 0x2028 || n == 0x2029 || n == 0x202F
    || n == 0x205F || n == 0x3000
  }

  /** An empty or whitespace-only string. */
  predicate IsBlank(s: string) {
    forall i :: 0 <= i < |s| ==> IsWhiteSpace(s[i])
  }

  /** `string.IsNullOrWhiteSpace`, with `None` standing for `null`. */
  predicate IsNullOrWhiteSpace(s: Option<string>)
    ensures !IsNullOrWhiteSpace(s) ==> s.Some? && |s.value| > 0
    ensures s == Some("") ==> IsNullOrWhiteSpace(s)
  {
    s.None? || IsBlank(s.value)
  }
}
