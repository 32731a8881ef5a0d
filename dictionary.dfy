/** The dictionary as the candidate pipeline sees it: three read-only
    queries of `skkdic.Dict`, each returning entries whose words carry a
    display text. How the dictionary is loaded and searched is not part of
    the model; the queries are parameters. */
module Dictionary {

  datatype Word = Word(text: string, annotation: string)

  datatype Entry = Entry(words: seq<Word>)

  datatype Dict = Dict(
    searchOkuriAri: string -> seq<Entry>,
    searchOkuriNasi: string -> seq<Entry>,
    searchOkuriNasiPrefix: string -> seq<Entry>)

  /** The texts of `ws`, in order. */
  function WordTexts(ws: seq<Word>): (r: seq<string>)
    ensures |r| == |ws| && forall i :: 0 <= i < |ws| ==> r[i] == ws[i].text
  {
    if ws == [] then [] else WordTexts(ws[..|ws| - 1]) + [ws[|ws| - 1].text]
  }

  /** The word texts of `es`: entry after entry, each entry's words in order. */
  function Texts(es: seq<Entry>): seq<string>
  {
    if es == [] then [] else Texts(es[..|es| - 1]) + WordTexts(es[|es| - 1].words)
  }

  /** Flattening keeps entry order: the texts of two runs of entries are
      the texts of the first followed by those of the second. */
  lemma {:induction false} TextsAppend(e1: seq<Entry>, e2: seq<Entry>)
    ensures Texts(e1 + e2) == Texts(e1) + Texts(e2)
    decreases |e2|
  {
    if e2 == [] {
      assert e1 + e2 == e1;
    } else {
      var init := e2[..|e2| - 1];
      assert (e1 + e2)[..|e1 + e2| - 1] == e1 + init;
      TextsAppend(e1, init);
    }
  }

  /** One entry contributes its words' texts, in order; no entry, nothing. */
  lemma TextsOfOne(e: Entry)
    ensures Texts([e]) == WordTexts(e.words)
    ensures Texts([]) == []
  {
    assert [e][..0] == [];
  }

  /** `pre + t + suf` for every text `t`, in order. */
  function Decorate(pre: string, ts: seq<string>, suf: string): (r: seq<string>)
    ensures |r| == |ts|
  {
    seq(|ts|, k requires 0 <= k < |ts| => pre + ts[k] + suf)
  }

  /** Decorating with nothing leaves the texts verbatim. */
  lemma DecorateNothing(ts: seq<string>)
    ensures Decorate("", ts, "") == ts
  {
    assert forall k :: 0 <= k < |ts| ==> "" + ts[k] + "" == ts[k];
  }
}
