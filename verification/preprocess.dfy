/** `preprocess_and_save_data` without its file I/O: the text (already read)
    is normalised, the lookup tables are built by the caller's
    `create_lookup_tables` over the tokens plus the special words, and the
    tokens are encoded with stopword downsampling. The result is the bundle
    that is pickled to preprocess.p. */
module Preprocess {
  import N = Normalize
  import E = Encoder

  /** The values of SPECIAL_WORDS: the padding placeholder only. */
  const SpecialWords: seq<string> := ["<PAD>"]

  /** The four-tuple written to preprocess.p. */
  datatype Bundle = Bundle(
    intText: seq<int>,
    vocabToInt: map<string, int>,
    intToVocab: map<int, string>,
    tokenDict: seq<(string, string)>)

  /** The word-to-int table has an id for every word it was built from. */
  predicate Covers(tables: (map<string, int>, map<int, string>), words: seq<string>) {
    forall i :: 0 <= i < |words| ==> words[i] in tables.0
  }

  /** The pipeline of util.py lines 25-38. `tokenDict` is what token_lookup()
      returned, `createLookupTables` the caller's table builder, `stop` the
      stopword set and `keep` the draws, one per stopword occurrence. The
      bundle carries the dictionary and the tables unchanged; its ids are
      the looked-up tokens that the draws keep, in text order, so they embed
      in order into the looked-up tokens with every non-stopword among them;
      there is at most one per token, each the id of a token of the text;
      and with tables that are inverse on the tokens, its ids decode to
      tokens whose non-stopwords are exactly those of the text. */
  method PreprocessData(text: string, tokenDict: seq<(string, string)>,
                        createLookupTables: seq<string> -> (map<string, int>, map<int, string>),
                        stop: set<string>, keep: seq<bool>)
    returns (b: Bundle)
    requires Covers(createLookupTables(N.Normalize(text, tokenDict) + SpecialWords), N.Normalize(text, tokenDict) + SpecialWords)
    requires |keep| == E.StopCount(N.Normalize(text, tokenDict), stop)
    ensures b.tokenDict == tokenDict
    ensures (b.vocabToInt, b.intToVocab) == createLookupTables(N.Normalize(text, tokenDict) + SpecialWords)
    ensures var tokens := N.Normalize(text, tokenDict);
      && (forall i :: 0 <= i < |tokens| ==> tokens[i] in b.vocabToInt)
      && b.intText == E.Select(E.Lookup(b.vocabToInt, tokens), E.Decisions(tokens, stop, keep))
      && exists idx :: E.Embeds(b.intText, E.Lookup(b.vocabToInt, tokens), idx)
                       && forall i :: 0 <= i < |tokens| && tokens[i] !in stop ==> i in idx
    ensures var tokens := N.Normalize(text, tokenDict);
      && |b.intText| <= |tokens|
      && (forall k :: 0 <= k < |b.intText| ==> exists i :: 0 <= i < |tokens| && tokens[i] in b.vocabToInt && b.intText[k] == b.vocabToInt[tokens[i]])
    ensures var tokens := N.Normalize(text, tokenDict);
      E.InverseOn(b.vocabToInt, b.intToVocab, tokens) ==>
        && (forall k :: 0 <= k < |b.intText| ==> b.intText[k] in b.intToVocab)
        && E.NonStopwords(E.Lookup(b.intToVocab, b.intText), stop) == E.NonStopwords(tokens, stop)
  {
    var tokens := N.Normalize(text, tokenDict);
    var tables := createLookupTables(tokens + SpecialWords);
    assert forall i :: 0 <= i < |tokens| ==> (tokens + SpecialWords)[i] == tokens[i];
    var intText := E.EncodeText(tokens, stop, tables.0, keep);
    b := Bundle(intText, tables.0, tables.1, tokenDict);
    if E.InverseOn(b.vocabToInt, b.intToVocab, tokens) {
      var mask := E.Decisions(tokens, stop, keep);
      E.DecodeEncoded(b.vocabToInt, b.intToVocab, tokens, mask);
      E.NonStopwordsKept(tokens, stop, keep);
    }
  }
}
