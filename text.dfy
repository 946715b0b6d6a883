/** Kotlin's view of a String, as far as the form relies on it: blankness
    (`CharSequence.isBlank`) and `length`, which counts UTF-16 code units. */
module Text {

  /** `Char.isWhitespace` on the JVM: `Character.isWhitespace(c) || Character.isSpaceChar(c)`,
      that is the ASCII controls U+0009..U+000D and U+001C..U+001F together with the
      space, line and paragraph separators of Unicode (categories Zs, Zl, Zp). */
  predicate IsWhitespace(c: char) {
    || ('\t' <= c <= '\r')
    || ('\U{1C}' <= c <= ' ')
    || c == '\U{A0}'
    || c == '\U{1680}'
    || ('\U{2000}' <= c <= '\U{200A}')
    || c == '\U{2028}' || c == '\U{2029}'
    || c == '\U{202F}' || c == '\U{205F}'
    || c == '\U{3000}'
  }

  /** `isBlank`: empty, or made only of whitespace. */
  predicate IsBlank(s: string) {
    forall i :: 0 <= i < |s| ==> IsWhitespace(s[i])
  }

  /** A character of the Basic Multilingual Plane takes one UTF-16 code unit. */
  predicate IsBmp(c: char) {
    c as int < 0x1_0000
  }

  /** Number of UTF-16 code units that encode `c`. */
  function Utf16Units(c: char): nat {
    if IsBmp(c) then 1 else 2
  }

  /** Kotlin's `String.length`: the number of UTF-16 code units. It lies between the
      number of characters and twice that, and equals the number of characters
      exactly when every character lies in the Basic Multilingual Plane. */
  function Utf16Length(s: string): (n: nat)
    ensures |s| <= n <= 2 * |s|
    ensures n == |s| <==> forall i :: 0 <= i < |s| ==> IsBmp(s[i])
  {
    if s == [] then 0
    else
      assert forall i :: 1 <= i < |s| ==> s[i] == s[1..][i - 1];
      Utf16Units(s[0]) + Utf16Length(s[1..])
  }
}
