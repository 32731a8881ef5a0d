# skk-cli candidate pipeline, in Dafny

This project models the core of `skk-cli`, a line-oriented front end for
SKK-style kana-kanji conversion. For every request line of romaji, the
program does the following:

1. `split` cuts the line at every boundary, that is, wherever a lower-case
   rune is followed by an upper-case one. As written, each piece but the
   last starts at the line's first rune (see Findings).
2. Leading runs that do not start upper case are converted to hiragana and
   become an already-converted *prefix*.
3. If more than one run remains, the request is *okuri-ari*. The last run
   loses a trailing `a`, `i`, `u`, `e` or `o`. The dictionary key is the
   lowered, converted runs. Every word found is written as
   `prefix + word + reading of the last run`.
4. If exactly one run remains, the request is *okuri-nasi*, with the reading
   of the whole line as key.
5. The prefix-search words and the plain hiragana reading of the line are
   added. Their order depends on whether the line starts upper case.

Modules, one per component:

- `Runes` (`runes.dfy`): rune classification. Go's `unicode.IsUpper`,
  `IsLower`, `IsTitle` and `strings.ToLower` are a parameter `Unicode`, not
  tables. `AsciiLetters` says only that ASCII letters are classified as
  Unicode classifies them, and only the worked examples assume it.
- `Kana` (`kana.dfy`): `roma2hira`, which is the romaji converter (a
  parameter) followed by the punctuation replacer.
- `Okuri` (`okuri.dfy`): the `[aiueo]$` trim.
- `Segmenter` (`segmenter.dfy`): `split` as written (`Split`, specified by
  `Segments`) and as evidently intended (`SplitRuns`, specified by `Runs`).
  See Findings.
- `Dictionary` (`dictionary.dfy`): words, entries, and the three queries of
  the loaded dictionary as parameters. `Texts` flattens entries into word
  texts.
- `Candidates` (`candidates.dfy`): the body of the main loop.
  - `Assembled` states the candidate list of a line and its runs.
  - `Assemble` computes that list step by step, as the code does.
  - `Candidates` runs `split` and then `Assemble`.
  - `CandidatesCorrected` does the same with the corrected `split`.

The imperative parts of the code are methods with loops, proved against
the specification functions: the `split` loop, the prefix loop, the key
loop and the nested entry/word loops.

## Model

| member | source | states |
|---|---|---|
| `Kana.ReplacePunctuation` | main.go:28-31 | every '.' becomes '。', every ',' becomes '、', every other rune is kept in place; no '.' or ',' is left |
| `Kana.ToHiragana` | main.go:66-68 | `roma2hira(s)` is the converter's output with exactly that punctuation replaced, length and other runes unchanged |
| `Okuri.TrimVowel` | main.go:27 | the trim used at main.go:157 drops at most the last rune, and drops it if and only if it is a lower-case a, i, u, e or o; the result is a prefix of the run |
| `Okuri.TrimVowelExamples` | main.go:152-157 | "Ru"→"R", "Ki"→"K", "N"→"N", "RU"→"RU" (case-sensitive), "Sai"→"Sa", ""→"" |
| `Segmenter.BoundariesBelow` | main.go:57-58 | the positions tested by the loop that are boundaries (lower-case rune, then upper-case rune), listed in increasing order |
| `Segmenter.BoundariesBelowSorted` | main.go:57-58 | the boundaries are strictly increasing, for every pair |
| `Segmenter.BoundariesBelowComplete` | main.go:57-58 | every boundary the loop passes is listed |
| `Segmenter.AsciiBoundary` | main.go:58 | for ASCII letters, a boundary is exactly a lower-case letter followed by an upper-case one |
| `Segmenter.Split` | main.go:53-64 | the loop returns `Segments`: for each boundary, the prefix from position 0 to just after it, then the text after the last boundary |
| `Segmenter.SegmentsShape` | main.go:53-64 | one element per boundary plus one; the last element is the suffix after the last boundary; `[s]` when there is no boundary, including `[""]` |
| `Segmenter.NoBoundaries` | main.go:57-63 | a line without boundaries yields exactly `[s]` |
| `Segmenter.OnlyBoundary` | main.go:57-63 | a line with a single boundary yields the text up to and after it |
| `Segmenter.SegmentsConcatIff` | main.go:57-61 | the segments concatenate back to the line if and only if it has at most one boundary |
| `Segmenter.SplitTestCases` | main_test.go:13-28 | "aiuEo"→["aiu","Eo"], "aiueo"→["aiueo"], "AIUEO"→["AIUEO"], "AIUeo"→["AIUeo"] |
| `Segmenter.SplitOverlapWitness` | main.go:59 | "kaKiKu" gives ["ka","kaKi","Ku"], which does not concatenate back; the intended runs are ["ka","Ki","Ku"] |
| `Segmenter.SplitRuns` | main.go:53-64 | the corrected loop (`rs[j:i+1]`) returns `Runs`, the slices between consecutive boundaries |
| `Segmenter.RunsRoundTrip` | main.go:53-64 | the intended runs always concatenate back to the line, one per boundary plus one |
| `Segmenter.RunsAgreeWithSegments` | main.go:57-63 | the code as written returns the intended runs if and only if the line has at most one boundary |
| `Dictionary.WordTexts` | main.go:163 | the texts of an entry's words, one per word, in word order |
| `Dictionary.TextsAppend` | main.go:162-166 | flattening keeps entry order: the texts of `e1 + e2` are those of `e1` followed by those of `e2` |
| `Dictionary.TextsOfOne` | main.go:162-165 | one entry contributes exactly its words' texts; no entries contribute nothing |
| `Dictionary.DecorateNothing` | main.go:169-172 | an empty prefix and suffix leave the words verbatim |
| `Candidates.LeadingCount` | main.go:143-150 | the prefix loop stops at the first run starting upper case: every consumed run does not start upper case, and the next run, if any, does |
| `Candidates.ConsumePrefix` | main.go:143-150 | the remaining runs are the split output without the consumed runs; the prefix is the in-order concatenation of `roma2hira` of the consumed runs |
| `Candidates.AppendCandidates` | main.go:162-166 | appends `pre + text + suf` for every word, in entry order, then word order, after what is already there |
| `Candidates.OkuriAri` | main.go:151-166 | the key is the lowered, converted remaining runs with the last one trimmed; each candidate is prefix + word + reading of the untrimmed last run |
| `Candidates.OkuriKeyStemAndTrim` | main.go:155-160 | the key is the stem runs' reading followed by the reading of the trimmed okuri run |
| `Candidates.OkuriAriShape` | main.go:162-166 | each okuri-ari candidate is the prefix, the k-th word found and the okuri reading, with one candidate per word |
| `Candidates.Assemble` | main.go:141-192 | computes `Assembled`: okuri-ari or okuri-nasi results by run count; then, for an upper-case line, prefix-search words and the reading last; otherwise the reading first (unless it holds a title-case rune) and prefix-search words after |
| `Candidates.Candidates` | main.go:140-192 | one request line as written: `split`, then the assembly; the line must be non-empty (main.go:175 indexes its first rune) |
| `Candidates.CandidatesCorrected` | main.go:140-192 | the same pipeline over the corrected runs |
| `Candidates.EmptyDictionaryFallback` | main.go:175-192 | when the okuri query and the prefix search this line issues find no word, the list is exactly `[reading]`, except for a line not starting upper case whose reading holds a title-case rune, where it is empty |
| `Candidates.CandidateListEmptyIff` | main.go:175-192 | the list is empty if and only if the line does not start upper case, its reading holds a title-case rune, and no query finds a word |
| `Candidates.LineWithoutUppercase` | main.go:143-192 | a line with no upper-case rune is one run, consumed whole into the prefix; no okuri query is issued; the result is the reading (if no title-case rune) followed by the prefix-search words |
| `Candidates.LowerExamples` | main.go:159 | `strings.ToLower` on ASCII lines: "OkuRu"→"okuru", "Tanaka"→"tanaka", and others |
| `Candidates.OkuRuExample` | main.go:151-166 | "OkuRu" queries okuri-ari with key reading("oku") + reading("r"); each word is followed by reading("ru"); then the prefix-search words of "OkuRu", then reading("okuru") |
| `Candidates.LowerStemExample` | main.go:143-173 | "okuRu" consumes "oku" into the prefix and queries okuri-nasi with reading("okuru"); the prefix is not used |
| `Candidates.OkuriAriWithoutPrefix` | main.go:143-166 | with `split` as written, a line that does not start upper case leaves at most one run after the prefix loop, so it never reaches the okuri-ari query; whenever the okuri-ari query is issued the prefix is empty |
| `Candidates.TanakaExample` | main.go:167-181 | "Tanaka" gives the okuri-nasi words of reading("tanaka"), then the prefix-search words of "Tanaka" with its case kept, then reading("tanaka") |
| `Candidates.CorrectedAgreesWithinOneBoundary` | main.go:53-64 | the corrected `split` changes the candidates only of lines with two or more boundaries |

Behaviour of the code that the model keeps:

- A line that starts in lower case, such as "okuRu", never reaches the
  okuri-ari query. Its lower-case stem is consumed into the prefix, and the
  one remaining run triggers okuri-nasi with the whole line as key
  (`LowerStemExample`). This holds for every line (`OkuriAriWithoutPrefix`):
  every segment but the last starts with the line's first rune, so the
  okuri-ari branch only ever runs with an empty prefix.
- The list can be empty. This happens for a lower-case line whose reading
  holds a title-case rune and that has no dictionary hit
  (`CandidateListEmptyIff`).
- A run whose first rune is neither upper nor lower case, such as a digit,
  is consumed into the prefix. The loop tests only for upper case.

## Left out

- Command-line flags, version output, `arrayFlags`, `defaultDict`, `loadDict`: option parsing and file I/O.
- The stdin scanner loop, the prompt, printing, JSON request decoding and response encoding, the `NG` response and `log.Fatal`: I/O plumbing. A request reaches the model as its `text`.
- The dictionary's loading, parsing and search. The three queries are parameters (`Dictionary.Dict`), read-only and deterministic.
- `kana.RomajiToHiragana`: a foreign library, left uninterpreted as the parameter `romaji`.
- The Unicode tables behind `IsUpper`, `IsLower`, `IsTitle` and `ToLower`: they are a parameter. Lowering is rune by rune, as in Go.
- Invalid UTF-8: a string is modelled by its runes, so Go's decoding of bad bytes into U+FFFD is not modelled.
- The empty request line: the code panics at main.go:175, so `Candidates`, `Assemble` and `Assembled` require a non-empty line.
- In-place aliasing: the code overwrites the last element of the `words` slice, which shares its backing array with `split`'s result. Nothing reads that array afterwards. The model updates a sequence value instead.

## Findings

| source | as written | input that shows it | evidently intended | confidence | as-written member | corrected member |
|---|---|---|---|---|---|---|
| main.go:59 | `split` appends `rs[:i+1]`, the prefix from position 0, at every boundary | "kaKiKu" gives ["ka", "kaKi", "Ku"], which concatenates to "kakaKiKu" | `rs[j:i+1]`, the run since the previous boundary, giving ["ka", "Ki", "Ku"] that concatenates back to the line (`j` is already tracked for this) | high; not executed | `Segmenter.SplitOverlapWitness` | `Segmenter.RunsRoundTrip` |

`Candidates.Candidates` keeps the as-written `split`, so the model matches
the program. `Candidates.CandidatesCorrected` runs the same assembly over
the corrected runs. `Candidates.CorrectedAgreesWithinOneBoundary` proves
that the two differ only on lines with two or more boundaries.
