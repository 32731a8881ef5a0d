/** `roma2hira`: the romaji converter's output with the two ASCII
    punctuation marks replaced by their Japanese forms. The converter
    (`kana.RomajiToHiragana`) is a foreign library and is a parameter
    `conv` here. */
module Kana {

  /** `r` is `src` with every '.' turned into '。' and every ',' into '、',
      every other rune kept, in order. */
  ghost predicate Punctuated(src: string, r: string)
  {
    && |r| == |src|
    && forall i :: 0 <= i < |src| ==>
         r[i] == (if src[i] == '.' then '。' else if src[i] == ',' then '、' else src[i])
  }

  /** The package-level `replacer`. */
  function ReplacePunctuation(s: string): (r: string)
    ensures Punctuated(s, r)
    ensures '.' !in r && ',' !in r
  {
    if s == [] then []
    else
      var c := if s[0] == '.' then '。' else if s[0] == ',' then '、' else s[0];
      [c] + ReplacePunctuation(s[1..])
  }

  /** `roma2hira(s)`. */
  function ToHiragana(conv: string -> string, s: string): (r: string)
    ensures Punctuated(conv(s), r)
    ensures '.' !in r && ',' !in r
  {
    ReplacePunctuation(conv(s))
  }
}
