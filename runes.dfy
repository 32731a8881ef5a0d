/** Character classification used by the candidate pipeline.

    The program asks Go's `unicode` package whether a rune is upper case,
    lower case or title case, and lowers strings with `strings.ToLower`,
    which maps every rune through `unicode.ToLower`. The Unicode tables
    themselves are not modelled: they are a parameter of the model, a
    value of type `Unicode`. A Go string is modelled by the sequence of
    its runes. */
module Runes {

  datatype Unicode = Unicode(
    isUpper: char -> bool,
    isLower: char -> bool,
    isTitle: char -> bool,
    toLower: char -> char)

  /** `strings.ToLower`: every rune lowered, in order. */
  function ToLower(u: Unicode, s: string): string
  {
    seq(|s|, i requires 0 <= i < |s| => u.toLower(s[i]))
  }

  /** The test `len(rs) > 0 && unicode.IsUpper(rs[0])` on the runes of `s`. */
  predicate StartsUpper(u: Unicode, s: string)
  {
    |s| > 0 && u.isUpper(s[0])
  }

  /** `strings.IndexFunc(s, unicode.IsTitle) != -1`. */
  predicate HasTitle(u: Unicode, s: string)
  {
    exists i :: 0 <= i < |s| && u.isTitle(s[i])
  }

  /** The ASCII letters are classified and lowered as Unicode does it;
      every table that follows the Unicode standard satisfies this. The
      worked examples below rely on nothing more. */
  ghost predicate AsciiLetters(u: Unicode)
  {
    && (forall c :: 'a' <= c <= 'z' ==> u.isLower(c) && !u.isUpper(c) && u.toLower(c) == c)
    && (forall c :: 'A' <= c <= 'Z' ==> u.isUpper(c) && !u.isLower(c) && u.toLower(c) == (c as int + 32) as char)
  }
}
