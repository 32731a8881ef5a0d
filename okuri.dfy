/** The okuri trim: `reTrim.ReplaceAllString(suf, "")` with
    `reTrim = regexp.MustCompile("[aiueo]$")`. The pattern can match only
    at the end of the text, so at most one rune goes, and only a lower-case
    romaji vowel. */
module Okuri {

  predicate IsVowel(c: char)
  {
    c == 'a' || c == 'i' || c == 'u' || c == 'e' || c == 'o'
  }

  function TrimVowel(s: string): (r: string)
    ensures |s| - 1 <= |r| <= |s| && r == s[..|r|]
    ensures |r| < |s| <==> |s| > 0 && IsVowel(s[|s| - 1])
  {
    if |s| > 0 && IsVowel(s[|s| - 1]) then s[..|s| - 1] else s
  }

  /** The trim is case-sensitive and touches nothing but the last rune. */
  lemma TrimVowelExamples()
    ensures TrimVowel("Ru") == "R"
    ensures TrimVowel("Ki") == "K"
    ensures TrimVowel("N") == "N"
    ensures TrimVowel("RU") == "RU"
    ensures TrimVowel("Sai") == "Sa"
    ensures TrimVowel("") == ""
  {
  }
}
