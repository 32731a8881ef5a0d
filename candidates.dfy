/** The per-line candidate pipeline of the program's main loop: split the
    line into runs, turn the leading runs that do not start upper case into
    an already-converted prefix, query the dictionary in okuri-ari or
    okuri-nasi form depending on how many runs remain, add the prefix-search
    results and the plain hiragana reading, in an order that depends on
    whether the line starts upper case.

    `Assembled` states what the code computes from a line and its runs;
    `Assemble` computes it the way the code does, step by step, and
    `Candidates` runs `split` first. */
module Candidates {
  import opened Runes
  import opened Kana
  import opened Okuri
  import opened Dictionary
  import opened Segmenter

  /** What the pipeline reads besides the line: the Unicode tables, the
      romaji converter and the loaded dictionary. */
  datatype Env = Env(unicode: Unicode, romaji: string -> string, dict: Dict)

  /** `roma2hira(strings.ToLower(s))`. */
  function Hiragana(env: Env, s: string): string
  {
    ToHiragana(env.romaji, ToLower(env.unicode, s))
  }

  /** How many leading runs the prefix loop consumes: it stops at the first
      run that starts upper case, or when the runs are exhausted. */
  function LeadingCount(u: Unicode, words: seq<string>): (n: nat)
    ensures n <= |words|
    ensures forall i :: 0 <= i < n ==> !StartsUpper(u, words[i])
    ensures n == |words| || StartsUpper(u, words[n])
  {
    if words == [] || StartsUpper(u, words[0]) then 0 else 1 + LeadingCount(u, words[1..])
  }

  /** The runs converted one by one with `roma2hira` and concatenated in order. */
  function Converted(conv: string -> string, ws: seq<string>): string
  {
    if ws == [] then "" else Converted(conv, ws[..|ws| - 1]) + ToHiragana(conv, ws[|ws| - 1])
  }

  /** Every run lowered. */
  function LowerAll(u: Unicode, ws: seq<string>): seq<string>
  {
    seq(|ws|, i requires 0 <= i < |ws| => ToLower(u, ws[i]))
  }

  /** The okuri-ari key: the remaining runs, the last one with its
      trailing vowel trimmed, each lowered and converted. */
  function OkuriKey(env: Env, rest: seq<string>): string
    requires |rest| > 1
  {
    Converted(env.romaji, LowerAll(env.unicode, rest[..|rest| - 1] + [TrimVowel(rest[|rest| - 1])]))
  }

  /** The candidates of the okuri-ari or okuri-nasi query, if one is issued. */
  function FromOkuri(env: Env, text: string, words: seq<string>): seq<string>
  {
    var n := LeadingCount(env.unicode, words);
    var rest := words[n..];
    if |rest| > 1 then
      Decorate(Converted(env.romaji, words[..n]),
               Texts(env.dict.searchOkuriAri(OkuriKey(env, rest))),
               Hiragana(env, rest[|rest| - 1]))
    else if |rest| == 1 then
      Texts(env.dict.searchOkuriNasi(Hiragana(env, text)))
    else
      []
  }

  /** The candidate list of `text` when `split` has cut it into `words`. */
  function Assembled(env: Env, text: string, words: seq<string>): seq<string>
    requires |text| > 0
  {
    var hira := Hiragana(env, text);
    var fromPrefix := Texts(env.dict.searchOkuriNasiPrefix(text));
    if StartsUpper(env.unicode, text) then
      FromOkuri(env, text, words) + fromPrefix + [hira]
    else
      FromOkuri(env, text, words) + (if HasTitle(env.unicode, hira) then [] else [hira]) + fromPrefix
  }

  /** The candidate list the program prints for `text`. */
  function CandidateList(env: Env, text: string): seq<string>
    requires |text| > 0
  {
    Assembled(env, text, Segments(env.unicode, text))
  }

  /** The prefix loop: consume runs from the front while they do not start
      upper case, converting each into the prefix. */
  method ConsumePrefix(env: Env, words: seq<string>) returns (prefix: string, rest: seq<string>)
    ensures rest == words[LeadingCount(env.unicode, words)..]
    ensures prefix == Converted(env.romaji, words[..LeadingCount(env.unicode, words)])
  {
    prefix := "";
    rest := words;
    ghost var n := 0;
    while |rest| > 0
      invariant n <= LeadingCount(env.unicode, words)
      invariant rest == words[n..]
      invariant prefix == Converted(env.romaji, words[..n])
    {
      if StartsUpper(env.unicode, rest[0]) {
        break;
      }
      assert words[..n + 1][..n] == words[..n];
      prefix := prefix + ToHiragana(env.romaji, rest[0]);
      rest := rest[1..];
      n := n + 1;
    }
  }

  /** The nested loops over entries and their words: every word's text,
      between `pre` and `suf`, appended in entry order, then word order. */
  method AppendCandidates(acc: seq<string>, es: seq<Entry>, pre: string, suf: string) returns (r: seq<string>)
    ensures r == acc + Decorate(pre, Texts(es), suf)
  {
    r := acc;
    for i := 0 to |es|
      invariant r == acc + Decorate(pre, Texts(es[..i]), suf)
    {
      var ws := es[i].words;
      for j := 0 to |ws|
        invariant r == acc + Decorate(pre, Texts(es[..i]) + WordTexts(ws[..j]), suf)
      {
        AppendOneWord(es[..i], ws, j, pre, suf);
        r := r + [pre + ws[j].text + suf];
      }
      AppendOneEntry(es, i);
    }
    assert es[..|es|] == es;
  }

  lemma AppendOneWord(done: seq<Entry>, ws: seq<Word>, j: nat, pre: string, suf: string)
    requires j < |ws|
    ensures Decorate(pre, Texts(done) + WordTexts(ws[..j + 1]), suf)
         == Decorate(pre, Texts(done) + WordTexts(ws[..j]), suf) + [pre + ws[j].text + suf]
  {
    assert ws[..j + 1][..j] == ws[..j];
    assert Texts(done) + WordTexts(ws[..j + 1]) == Texts(done) + WordTexts(ws[..j]) + [ws[j].text];
  }

  lemma AppendOneEntry(es: seq<Entry>, i: nat)
    requires i < |es|
    ensures Texts(es[..i + 1]) == Texts(es[..i]) + WordTexts(es[i].words[..|es[i].words|])
  {
    assert es[..i + 1][..i] == es[..i];
    assert es[i].words[..|es[i].words|] == es[i].words;
  }

  /** The okuri-ari branch: trim the last run, build the key from the
      runs, and put the prefix before and the converted last run after
      every word found. */
  method OkuriAri(env: Env, prefix: string, rest: seq<string>) returns (result: seq<string>)
    requires |rest| > 1
    ensures result == Decorate(prefix, Texts(env.dict.searchOkuriAri(OkuriKey(env, rest))), Hiragana(env, rest[|rest| - 1]))
  {
    var u := env.unicode;
    var words := rest;
    // "OkuRu": key from "Oku" and "R", each candidate followed by the hiragana of "ru"
    var suf := words[|words| - 1];
    words := words[|words| - 1 := TrimVowel(suf)];
    assert words == rest[..|rest| - 1] + [TrimVowel(rest[|rest| - 1])];
    var ss := "";
    for i := 0 to |words|
      invariant ss == Converted(env.romaji, LowerAll(u, words)[..i])
    {
      assert LowerAll(u, words)[..i + 1][..i] == LowerAll(u, words)[..i];
      ss := ss + ToHiragana(env.romaji, ToLower(u, words[i]));
    }
    assert LowerAll(u, words)[..|words|] == LowerAll(u, words);
    suf := Hiragana(env, suf);
    result := AppendCandidates([], env.dict.searchOkuriAri(ss), prefix, suf);
  }

  /** The body of the main loop after `split`. */
  method Assemble(env: Env, text: string, words: seq<string>) returns (result: seq<string>)
    requires |text| > 0
    ensures result == Assembled(env, text, words)
  {
    var u := env.unicode;
    var prefix, rest := ConsumePrefix(env, words);
    result := [];
    if |rest| > 1 {
      result := OkuriAri(env, prefix, rest);
    } else if |rest| == 1 {
      var ss := Hiragana(env, text);
      result := AppendCandidates(result, env.dict.searchOkuriNasi(ss), "", "");
      DecorateNothing(Texts(env.dict.searchOkuriNasi(ss)));
    }
    assert result == FromOkuri(env, text, words);
    DecorateNothing(Texts(env.dict.searchOkuriNasiPrefix(text)));
    if StartsUpper(u, text) {
      result := AppendCandidates(result, env.dict.searchOkuriNasiPrefix(text), "", "");
      result := result + [Hiragana(env, text)];
    } else {
      var hira := Hiragana(env, text);
      if !HasTitle(u, hira) {
        result := result + [hira];
      }
      result := AppendCandidates(result, env.dict.searchOkuriNasiPrefix(text), "", "");
    }
  }

  /** One request line, as written: `split`, then the rest of the body. */
  method Candidates(env: Env, text: string) returns (result: seq<string>)
    requires |text| > 0
    ensures result == CandidateList(env, text)
  {
    var words := Split(env.unicode, text);
    result := Assemble(env, text, words);
  }

  /** One request line with the corrected `split`. */
  method CandidatesCorrected(env: Env, text: string) returns (result: seq<string>)
    requires |text| > 0
    ensures result == Assembled(env, text, Runs(env.unicode, text))
  {
    var words := SplitRuns(env.unicode, text);
    result := Assemble(env, text, words);
  }

  /** The okuri-ari key is the stem runs' reading followed by the reading
      of the okuri run without its trailing vowel. */
  lemma OkuriKeyStemAndTrim(env: Env, rest: seq<string>)
    requires |rest| > 1
    ensures OkuriKey(env, rest)
         == Converted(env.romaji, LowerAll(env.unicode, rest[..|rest| - 1])) + Hiragana(env, TrimVowel(rest[|rest| - 1]))
  {
    var u := env.unicode;
    var stem := rest[..|rest| - 1];
    var ws := LowerAll(u, stem + [TrimVowel(rest[|rest| - 1])]);
    assert ws[..|ws| - 1] == LowerAll(u, stem);
  }

  /** Every word found by the okuri-ari query appears once, in order,
      between the converted prefix and the converted okuri run. */
  lemma OkuriAriShape(env: Env, text: string, words: seq<string>)
    requires |words| - LeadingCount(env.unicode, words) > 1
    ensures var n := LeadingCount(env.unicode, words);
            var found := Texts(env.dict.searchOkuriAri(OkuriKey(env, words[n..])));
            var r := FromOkuri(env, text, words);
            && |r| == |found|
            && forall k :: 0 <= k < |r| ==>
                 r[k] == Converted(env.romaji, words[..n]) + found[k] + Hiragana(env, words[|words| - 1])
  {
  }

  /** When the queries this line issues find no word, the plain hiragana
      reading is the only candidate, unless the line starts in lower case
      and the reading holds a title-case rune: then there is no candidate
      at all. */
  lemma EmptyDictionaryFallback(env: Env, text: string, words: seq<string>)
    requires |text| > 0
    requires FromOkuri(env, text, words) == [] && Texts(env.dict.searchOkuriNasiPrefix(text)) == []
    ensures Assembled(env, text, words)
         == if StartsUpper(env.unicode, text) || !HasTitle(env.unicode, Hiragana(env, text))
            then [Hiragana(env, text)] else []
  {
  }

  /** The list is empty exactly when the line does not start upper case,
      its reading holds a title-case rune and no query finds a word. */
  lemma CandidateListEmptyIff(env: Env, text: string, words: seq<string>)
    requires |text| > 0
    ensures Assembled(env, text, words) == []
        <==> && !StartsUpper(env.unicode, text)
             && HasTitle(env.unicode, Hiragana(env, text))
             && FromOkuri(env, text, words) == []
             && Texts(env.dict.searchOkuriNasiPrefix(text)) == []
  {
  }

  /** A line with no upper-case rune is one run, consumed whole by the
      prefix loop (the prefix is the line's reading); no okuri query is
      issued, the reading comes first and the prefix-search words follow. */
  lemma LineWithoutUppercase(env: Env, text: string)
    requires |text| > 0
    requires forall i :: 0 <= i < |text| ==> !env.unicode.isUpper(text[i])
    ensures Segments(env.unicode, text) == [text]
    ensures LeadingCount(env.unicode, [text]) == 1
    ensures Converted(env.romaji, [text]) == ToHiragana(env.romaji, text)
    ensures CandidateList(env, text)
         == (if HasTitle(env.unicode, Hiragana(env, text)) then [] else [Hiragana(env, text)])
            + Texts(env.dict.searchOkuriNasiPrefix(text))
  {
    var u := env.unicode;
    assert Segments(u, text) == [text] by {
      forall i | 0 <= i < |text| ensures !IsBoundary(u, text, i) {
        if i < |text| - 1 {
          assert !u.isUpper(text[i + 1]);
        }
      }
      NoBoundaries(u, text);
    }
    assert LeadingCount(u, [text]) == 1 by {
      assert !StartsUpper(u, text);
      assert [text][1..] == [];
    }
    assert Converted(env.romaji, [text]) == ToHiragana(env.romaji, text) by {
      assert [text][..0] == [];
    }
    assert [text][1..] == [];
  }

  /** ASCII lower-casing of a few fixed strings. */
  lemma LowerExamples(u: Unicode)
    requires AsciiLetters(u)
    ensures ToLower(u, "Oku") == "oku" && ToLower(u, "R") == "r" && ToLower(u, "Ru") == "ru"
    ensures ToLower(u, "OkuRu") == "okuru" && ToLower(u, "okuRu") == "okuru"
    ensures ToLower(u, "Tanaka") == "tanaka"
  {
    assert u.toLower('O') == 'o' && u.toLower('R') == 'r' && u.toLower('T') == 't';
    assert u.toLower('k') == 'k' && u.toLower('u') == 'u' && u.toLower('o') == 'o';
    assert u.toLower('a') == 'a' && u.toLower('n') == 'n';
  }

  /** "OkuRu": two runs, none consumed; the okuri-ari key is the reading
      of "oku" followed by that of "r", every word is followed by the
      reading of "ru"; the prefix-search words and the reading of "okuru"
      come after. */
  lemma OkuRuExample(env: Env)
    requires AsciiLetters(env.unicode)
    ensures CandidateList(env, "OkuRu")
         == Decorate("", Texts(env.dict.searchOkuriAri(ToHiragana(env.romaji, "oku") + ToHiragana(env.romaji, "r"))),
                     ToHiragana(env.romaji, "ru"))
            + Texts(env.dict.searchOkuriNasiPrefix("OkuRu"))
            + [ToHiragana(env.romaji, "okuru")]
  {
    var u := env.unicode;
    var s := "OkuRu";
    OkuRuSegments(u);
    LowerExamples(u);
    var words := ["Oku", "Ru"];
    assert LeadingCount(u, words) == 0;
    assert words[0..] == words && words[..0] == [];
    OkuriKeyStemAndTrim(env, words);
    assert TrimVowel("Ru") == "R";
    assert LowerAll(u, ["Oku"]) == ["oku"];
    assert ["oku"][..0] == [];
    assert Converted(env.romaji, ["oku"]) == ToHiragana(env.romaji, "oku");
  }

  lemma OkuRuSegments(u: Unicode)
    requires AsciiLetters(u)
    ensures Segments(u, "OkuRu") == ["Oku", "Ru"]
    ensures Segments(u, "okuRu") == ["oku", "Ru"]
  {
    assert Segments(u, "OkuRu") == ["Oku", "Ru"] by {
      var s := "OkuRu";
      forall i | 0 <= i < |s| - 1 ensures IsBoundary(u, s, i) <==> i == 2 {
        AsciiBoundary(u, s, i);
      }
      OnlyBoundary(u, s, 2);
      assert s[..3] == "Oku" && s[3..] == "Ru";
    }
    assert Segments(u, "okuRu") == ["oku", "Ru"] by {
      var s := "okuRu";
      forall i | 0 <= i < |s| - 1 ensures IsBoundary(u, s, i) <==> i == 2 {
        AsciiBoundary(u, s, i);
      }
      OnlyBoundary(u, s, 2);
      assert s[..3] == "oku" && s[3..] == "Ru";
    }
  }

  /** "okuRu": the lower-case "oku" is consumed as prefix, so a single run
      remains and the query is okuri-nasi with the whole line's reading as
      key; the prefix is not used. */
  lemma LowerStemExample(env: Env)
    requires AsciiLetters(env.unicode)
    ensures CandidateList(env, "okuRu")
         == Texts(env.dict.searchOkuriNasi(ToHiragana(env.romaji, "okuru")))
            + (if HasTitle(env.unicode, ToHiragana(env.romaji, "okuru")) then [] else [ToHiragana(env.romaji, "okuru")])
            + Texts(env.dict.searchOkuriNasiPrefix("okuRu"))
  {
    var u := env.unicode;
    OkuRuSegments(u);
    LowerExamples(u);
    var words := ["oku", "Ru"];
    assert !StartsUpper(u, "oku") && StartsUpper(u, "Ru");
    assert words[1..] == ["Ru"];
    assert LeadingCount(u, ["Ru"]) == 0;
    assert LeadingCount(u, words) == 1;
    assert !StartsUpper(u, "okuRu");
  }

  /** As written, every segment but the last starts with the line's first
      rune. So a line that does not start upper case has all its segments
      but the last consumed into the prefix and never reaches the okuri-ari
      query, and when the okuri-ari query is issued the prefix is empty. */
  lemma OkuriAriWithoutPrefix(u: Unicode, s: string)
    ensures !StartsUpper(u, s) ==> |Segments(u, s)| - LeadingCount(u, Segments(u, s)) <= 1
    ensures |Segments(u, s)| - LeadingCount(u, Segments(u, s)) > 1 ==> LeadingCount(u, Segments(u, s)) == 0
  {
    var seg := Segments(u, s);
    var b := Boundaries(u, s);
    SegmentsShape(u, s);
    forall k | 0 <= k < |seg| - 1
      ensures |seg[k]| > 0 && seg[k][0] == s[0]
    {
      assert seg[k] == s[..b[k] + 1];
    }
  }

  /** "Tanaka": one run starting upper case; the okuri-nasi words of
      "tanaka", then the prefix-search words of "Tanaka" with its case
      kept, then the reading of "tanaka". */
  lemma TanakaExample(env: Env)
    requires AsciiLetters(env.unicode)
    ensures CandidateList(env, "Tanaka")
         == Texts(env.dict.searchOkuriNasi(ToHiragana(env.romaji, "tanaka")))
            + Texts(env.dict.searchOkuriNasiPrefix("Tanaka"))
            + [ToHiragana(env.romaji, "tanaka")]
  {
    var u := env.unicode;
    var s := "Tanaka";
    LowerExamples(u);
    forall i | 0 <= i < |s| ensures !IsBoundary(u, s, i) {
      if i < |s| - 1 {
        AsciiBoundary(u, s, i);
      }
    }
    NoBoundaries(u, s);
    assert StartsUpper(u, s);
    assert LeadingCount(u, [s]) == 0;
    assert [s][0..] == [s];
  }

  /** The corrected `split` changes the candidates only of lines with two
      or more boundaries. */
  lemma CorrectedAgreesWithinOneBoundary(env: Env, text: string)
    requires |text| > 0 && |Boundaries(env.unicode, text)| <= 1
    ensures Assembled(env, text, Runs(env.unicode, text)) == CandidateList(env, text)
  {
    RunsAgreeWithSegments(env.unicode, text);
  }
}
