/** The stopword-downsampling encoder of `preprocess_and_save_data`: each
    token becomes its vocabulary id; a token outside the stopword set is
    always kept, a stopword occurrence only when its random draw succeeds.
    The draws are an oracle: one keep-decision per stopword occurrence, in
    the order the occurrences appear. */
module Encoder {
  import Seqs = Sequences

  // ------------------------------------------------------------ sequences

  /** The entries of `xs` whose mask bit is set, in their original order. */
  function Select<T>(xs: seq<T>, mask: seq<bool>): seq<T>
    requires |mask| == |xs|
    decreases |xs|
  {
    if xs == [] then []
    else
      var n := |xs| - 1;
      Select(xs[..n], mask[..n]) + (if mask[n] then [xs[n]] else [])
  }

  function TrueCount(mask: seq<bool>): (n: nat)
    ensures n <= |mask|
    decreases |mask|
  {
    if mask == [] then 0
    else TrueCount(mask[..|mask| - 1]) + (if mask[|mask| - 1] then 1 else 0)
  }

  /** Looking every element up in a map that holds all of them. */
  function Lookup<K, V>(m: map<K, V>, xs: seq<K>): (ys: seq<V>)
    requires forall i :: 0 <= i < |xs| ==> xs[i] in m
    ensures |ys| == |xs|
    ensures forall i :: 0 <= i < |xs| ==> ys[i] == m[xs[i]]
  {
    seq(|xs|, i requires 0 <= i < |xs| && xs[i] in m => m[xs[i]])
  }

  /** `ys` is `xs` with some entries left out: `idx` says, in increasing
      order, where in `xs` each entry of `ys` comes from. */
  ghost predicate Embeds<T>(ys: seq<T>, xs: seq<T>, idx: seq<int>) {
    && |idx| == |ys|
    && (forall k :: 0 <= k < |idx| ==> 0 <= idx[k] < |xs| && ys[k] == xs[idx[k]])
    && (forall k, l :: 0 <= k < l < |idx| ==> idx[k] < idx[l])
  }

  // ---------------------------------------------------------- the filter

  /** How many stopword occurrences `tokens` holds: one random draw each. */
  function StopCount(tokens: seq<string>, stop: set<string>): (n: nat)
    ensures n <= |tokens|
    decreases |tokens|
  {
    if tokens == [] then 0
    else StopCount(tokens[..|tokens| - 1], stop) + (if tokens[|tokens| - 1] in stop then 1 else 0)
  }

  /** Which positions hold a stopword. */
  function StopFlags(tokens: seq<string>, stop: set<string>): (flags: seq<bool>)
    ensures |flags| == |tokens|
    ensures forall i :: 0 <= i < |tokens| ==> (flags[i] <==> tokens[i] in stop)
    decreases |tokens|
  {
    if tokens == [] then []
    else StopFlags(tokens[..|tokens| - 1], stop) + [tokens[|tokens| - 1] in stop]
  }

  /** Which occurrences the filter keeps: a non-stopword always; the
      stopword occurrences take their decisions from the draws, in order. */
  function Decisions(tokens: seq<string>, stop: set<string>, keep: seq<bool>): (mask: seq<bool>)
    requires |keep| == StopCount(tokens, stop)
    ensures |mask| == |tokens|
    ensures forall i :: 0 <= i < |tokens| && tokens[i] !in stop ==> mask[i]
    decreases |tokens|
  {
    if tokens == [] then []
    else
      var n := |tokens| - 1;
      if tokens[n] in stop then
        Decisions(tokens[..n], stop, keep[..|keep| - 1]) + [keep[|keep| - 1]]
      else
        Decisions(tokens[..n], stop, keep) + [true]
  }

  /** The comprehension of line 36 of util.py, as a loop over the tokens:
      the ids of the kept occurrences, in order. Exactly the occurrences
      whose draw failed are missing, every id stands for a token of the
      text, and the ids are the looked-up tokens with some left out, every
      non-stopword among those kept. */
  method EncodeText(tokens: seq<string>, stop: set<string>, vocabToInt: map<string, int>, keep: seq<bool>)
    returns (ids: seq<int>)
    requires forall i :: 0 <= i < |tokens| ==> tokens[i] in vocabToInt
    requires |keep| == StopCount(tokens, stop)
    ensures ids == Select(Lookup(vocabToInt, tokens), Decisions(tokens, stop, keep))
    ensures |ids| == |tokens| - (|keep| - TrueCount(keep))
    ensures forall k :: 0 <= k < |ids| ==> exists i :: 0 <= i < |tokens| && ids[k] == vocabToInt[tokens[i]]
    ensures exists idx :: Embeds(ids, Lookup(vocabToInt, tokens), idx)
                          && forall i :: 0 <= i < |tokens| && tokens[i] !in stop ==> i in idx
  {
    ids := [];
    var drawn := 0;
    for i := 0 to |tokens|
      invariant drawn == StopCount(tokens[..i], stop)
      invariant drawn <= |keep|
      invariant ids == Select(Lookup(vocabToInt, tokens[..i]), Decisions(tokens[..i], stop, keep[..drawn]))
    {
      StopCountOfPrefix(tokens, stop, i + 1);
      assert tokens[..i + 1][..i] == tokens[..i];
      EncodeStep(tokens, stop, vocabToInt, keep, i, drawn);
      var word := tokens[i];
      if word !in stop {
        ids := ids + [vocabToInt[word]];
      } else {
        if keep[drawn] {
          ids := ids + [vocabToInt[word]];
        }
        drawn := drawn + 1;
      }
    }
    assert tokens[..|tokens|] == tokens;
    assert keep[..drawn] == keep;
    EncodingFacts(tokens, stop, vocabToInt, keep);
  }

  /** What the encoding is: the ids of all occurrences but the stopwords
      whose draw failed, in the order of the text. */
  lemma EncodingFacts(tokens: seq<string>, stop: set<string>, vocabToInt: map<string, int>, keep: seq<bool>)
    requires forall i :: 0 <= i < |tokens| ==> tokens[i] in vocabToInt
    requires |keep| == StopCount(tokens, stop)
    ensures var ids := Select(Lookup(vocabToInt, tokens), Decisions(tokens, stop, keep));
      && |ids| == |tokens| - (|keep| - TrueCount(keep))
      && (forall k :: 0 <= k < |ids| ==> exists i :: 0 <= i < |tokens| && ids[k] == vocabToInt[tokens[i]])
      && exists idx :: Embeds(ids, Lookup(vocabToInt, tokens), idx)
                       && forall i :: 0 <= i < |tokens| && tokens[i] !in stop ==> i in idx
  {
    var mask := Decisions(tokens, stop, keep);
    var xs := Lookup(vocabToInt, tokens);
    var idx := SelectEmbeds(xs, mask);
    DecisionsCount(tokens, stop, keep);
    SelectLength(xs, mask);
  }

  // -------------------------------------------------------------- lemmas

  lemma {:induction false} StopCountOfPrefix(tokens: seq<string>, stop: set<string>, n: nat)
    requires n <= |tokens|
    ensures StopCount(tokens[..n], stop) <= StopCount(tokens, stop)
    decreases |tokens| - n
  {
    if n < |tokens| {
      StopCountOfPrefix(tokens, stop, n + 1);
      assert tokens[..n + 1][..n] == tokens[..n];
    } else {
      assert tokens[..n] == tokens;
    }
  }

  /** One turn of the loop in EncodeText extends the reference by the
      current occurrence's outcome. */
  lemma EncodeStep(tokens: seq<string>, stop: set<string>, vocabToInt: map<string, int>, keep: seq<bool>, i: nat, drawn: nat)
    requires i < |tokens|
    requires forall j :: 0 <= j < |tokens| ==> tokens[j] in vocabToInt
    requires drawn == StopCount(tokens[..i], stop) && StopCount(tokens[..i + 1], stop) <= |keep|
    requires drawn + (if tokens[i] in stop then 1 else 0) <= |keep|
    ensures var drawn' := if tokens[i] in stop then drawn + 1 else drawn;
            var kept := tokens[i] !in stop || keep[drawn];
            drawn' == StopCount(tokens[..i + 1], stop)
            && Select(Lookup(vocabToInt, tokens[..i + 1]), Decisions(tokens[..i + 1], stop, keep[..drawn']))
               == Select(Lookup(vocabToInt, tokens[..i]), Decisions(tokens[..i], stop, keep[..drawn]))
                  + (if kept then [vocabToInt[tokens[i]]] else [])
  {
    var prefix := tokens[..i + 1];
    assert prefix[..i] == tokens[..i];
    assert prefix[i] == tokens[i];
    var xs := Lookup(vocabToInt, prefix);
    assert xs[..i] == Lookup(vocabToInt, tokens[..i]);
    if tokens[i] in stop {
      assert keep[..drawn + 1][..drawn] == keep[..drawn];
    }
  }

  /** Every kept position has its place in the selection, in order, and no
      other position does. */
  lemma {:induction false} SelectEmbeds<T>(xs: seq<T>, mask: seq<bool>) returns (idx: seq<int>)
    requires |mask| == |xs|
    ensures Embeds(Select(xs, mask), xs, idx)
    ensures forall i :: 0 <= i < |xs| ==> (mask[i] <==> i in idx)
    decreases |xs|
  {
    if xs == [] {
      idx := [];
    } else {
      var n := |xs| - 1;
      var idx0 := SelectEmbeds(xs[..n], mask[..n]);
      var s0 := Select(xs[..n], mask[..n]);
      assert forall k :: 0 <= k < |idx0| ==> idx0[k] < n;
      idx := if mask[n] then idx0 + [n] else idx0;
      PositionsExtend(mask, idx0, idx);
      if mask[n] {
        EmbedsExtend(s0, xs, idx0, n);
      } else {
        assert Select(xs, mask) == s0 + [];
      }
    }
  }

  /** Adding the last position exactly when its bit is set keeps the
      positions of `idx` those of the set bits. */
  lemma PositionsExtend(mask: seq<bool>, idx0: seq<int>, idx: seq<int>)
    requires |mask| > 0
    requires forall i :: 0 <= i < |mask| - 1 ==> (mask[..|mask| - 1][i] <==> i in idx0)
    requires idx == if mask[|mask| - 1] then idx0 + [|mask| - 1] else idx0
    requires forall k :: 0 <= k < |idx0| ==> idx0[k] < |mask| - 1
    ensures forall i :: 0 <= i < |mask| ==> (mask[i] <==> i in idx)
  {
    var n := |mask| - 1;
    assert forall i :: 0 <= i < n ==> mask[..n][i] == mask[i];
    assert n !in idx0;
    assert forall i :: i in idx <==> i in idx0 || (mask[n] && i == n);
  }

  lemma EmbedsExtend<T>(s0: seq<T>, xs: seq<T>, idx0: seq<int>, n: nat)
    requires n == |xs| - 1
    requires Embeds(s0, xs[..n], idx0)
    ensures Embeds(s0 + [xs[n]], xs, idx0 + [n])
  {
    var ys := s0 + [xs[n]];
    var idx := idx0 + [n];
    assert forall k :: 0 <= k < |s0| ==> ys[k] == s0[k] && idx[k] == idx0[k] && xs[..n][idx0[k]] == xs[idx0[k]];
  }

  /** Read at the stopword positions, the decisions are exactly the draws:
      the j-th stopword occurrence is kept when the j-th draw succeeds. */
  lemma {:induction false} DecisionsFollowDraws(tokens: seq<string>, stop: set<string>, keep: seq<bool>)
    requires |keep| == StopCount(tokens, stop)
    ensures Select(Decisions(tokens, stop, keep), StopFlags(tokens, stop)) == keep
    decreases |tokens|
  {
    if tokens != [] {
      var n := |tokens| - 1;
      var isStop := tokens[n] in stop;
      var keep0 := if isStop then keep[..|keep| - 1] else keep;
      var mask0 := Decisions(tokens[..n], stop, keep0);
      var flags0 := StopFlags(tokens[..n], stop);
      DecisionsFollowDraws(tokens[..n], stop, keep0);
      StopFlagsSnoc(tokens, stop);
      DecisionsSnoc(tokens, stop, keep);
      var b := if isStop then keep[|keep| - 1] else true;
      SelectSnoc(mask0, flags0, b, isStop);
      if isStop {
        Seqs.DropLast(keep);
      } else {
        assert keep0 + [] == keep;
      }
    }
  }

  /** The decisions grow by one per token: a stopword takes the last draw,
      any other token is kept. */
  lemma DecisionsSnoc(tokens: seq<string>, stop: set<string>, keep: seq<bool>)
    requires tokens != [] && |keep| == StopCount(tokens, stop)
    ensures var n := |tokens| - 1;
      if tokens[n] in stop then
        && |keep[..|keep| - 1]| == StopCount(tokens[..n], stop)
        && Decisions(tokens, stop, keep) == Decisions(tokens[..n], stop, keep[..|keep| - 1]) + [keep[|keep| - 1]]
      else
        && |keep| == StopCount(tokens[..n], stop)
        && Decisions(tokens, stop, keep) == Decisions(tokens[..n], stop, keep) + [true]
  {
  }

  /** The number of draws is the number of set stopword flags: StopCount
      counts the same positions StopFlags marks. */
  lemma {:induction false} StopCountIsFlagCount(tokens: seq<string>, stop: set<string>)
    ensures StopCount(tokens, stop) == TrueCount(StopFlags(tokens, stop))
    decreases |tokens|
  {
    if tokens != [] {
      var n := |tokens| - 1;
      var flags := StopFlags(tokens, stop);
      StopCountIsFlagCount(tokens[..n], stop);
      assert flags[..n] == StopFlags(tokens[..n], stop);
    }
  }

  /** The stopword flags grow by one flag per token. */
  lemma StopFlagsSnoc(tokens: seq<string>, stop: set<string>)
    requires tokens != []
    ensures StopFlags(tokens, stop) == StopFlags(tokens[..|tokens| - 1], stop) + [tokens[|tokens| - 1] in stop]
  {
  }

  /** Selecting from a sequence extended by one entry. */
  lemma SelectSnoc<T>(xs: seq<T>, mask: seq<bool>, x: T, m: bool)
    requires |mask| == |xs|
    ensures Select(xs + [x], mask + [m]) == Select(xs, mask) + (if m then [x] else [])
  {
    assert (xs + [x])[..|xs|] == xs && (mask + [m])[..|xs|] == mask;
  }

  lemma {:induction false} SelectLength<T>(xs: seq<T>, mask: seq<bool>)
    requires |mask| == |xs|
    ensures |Select(xs, mask)| == TrueCount(mask)
    decreases |xs|
  {
    if xs != [] {
      SelectLength(xs[..|xs| - 1], mask[..|mask| - 1]);
    }
  }

  /** The filter drops exactly the stopword occurrences whose draw failed. */
  lemma {:induction false} DecisionsCount(tokens: seq<string>, stop: set<string>, keep: seq<bool>)
    requires |keep| == StopCount(tokens, stop)
    ensures TrueCount(Decisions(tokens, stop, keep)) == |tokens| - (|keep| - TrueCount(keep))
    ensures |Select(tokens, Decisions(tokens, stop, keep))| == |tokens| - (|keep| - TrueCount(keep))
    decreases |tokens|
  {
    SelectLength(tokens, Decisions(tokens, stop, keep));
    if tokens != [] {
      var n := |tokens| - 1;
      var mask := Decisions(tokens, stop, keep);
      if tokens[n] in stop {
        var keep0 := keep[..|keep| - 1];
        DecisionsCount(tokens[..n], stop, keep0);
        assert mask[..n] == Decisions(tokens[..n], stop, keep0);
      } else {
        DecisionsCount(tokens[..n], stop, keep);
        assert mask[..n] == Decisions(tokens[..n], stop, keep);
      }
    }
  }

  /** Looking up the kept tokens is keeping the looked-up ids: the encoding
      is the id sequence of the surviving words. */
  lemma {:induction false} LookupSelect<K, V>(m: map<K, V>, xs: seq<K>, mask: seq<bool>)
    requires |mask| == |xs|
    requires forall i :: 0 <= i < |xs| ==> xs[i] in m
    ensures forall j :: 0 <= j < |Select(xs, mask)| ==> Select(xs, mask)[j] in m
    ensures Lookup(m, Select(xs, mask)) == Select(Lookup(m, xs), mask)
    decreases |xs|
  {
    if xs != [] {
      var n := |xs| - 1;
      LookupSelect(m, xs[..n], mask[..n]);
      assert Lookup(m, xs)[..n] == Lookup(m, xs[..n]);
      var s0 := Select(xs[..n], mask[..n]);
      var tail := if mask[n] then [xs[n]] else [];
      assert Select(xs, mask) == s0 + tail;
      assert Lookup(m, s0 + tail) == Lookup(m, s0) + Lookup(m, tail);
    }
  }

  /** The words outside the stopword set, in order. */
  function NonStopwords(tokens: seq<string>, stop: set<string>): seq<string>
    decreases |tokens|
  {
    if tokens == [] then []
    else
      var n := |tokens| - 1;
      NonStopwords(tokens[..n], stop) + (if tokens[n] in stop then [] else [tokens[n]])
  }

  /** Whatever the draws, the kept words hold every non-stopword of the text,
      in the original order: dropping stopwords from both sides leaves the
      same sequence. */
  lemma {:induction false} NonStopwordsKept(tokens: seq<string>, stop: set<string>, keep: seq<bool>)
    requires |keep| == StopCount(tokens, stop)
    ensures NonStopwords(Select(tokens, Decisions(tokens, stop, keep)), stop) == NonStopwords(tokens, stop)
    decreases |tokens|
  {
    if tokens != [] {
      var n := |tokens| - 1;
      var mask := Decisions(tokens, stop, keep);
      var keep0 := if tokens[n] in stop then keep[..|keep| - 1] else keep;
      NonStopwordsKept(tokens[..n], stop, keep0);
      assert mask[..n] == Decisions(tokens[..n], stop, keep0);
      var s0 := Select(tokens[..n], mask[..n]);
      var tail := if mask[n] then [tokens[n]] else [];
      assert Select(tokens, mask) == s0 + tail;
      NonStopwordsAppend(s0, tail, stop);
      assert tail == [] ==> s0 + tail == s0;
    }
  }

  lemma {:induction false} NonStopwordsAppend(a: seq<string>, b: seq<string>, stop: set<string>)
    requires |b| <= 1
    ensures NonStopwords(a + b, stop) == NonStopwords(a, stop) + NonStopwords(b, stop)
  {
    if b == [] {
      assert a + b == a;
    } else {
      assert (a + b)[..|a|] == a;
      assert b[..0] == [];
    }
  }

  /** The int-to-word table undoes the word-to-int table on the text. */
  ghost predicate InverseOn(vocabToInt: map<string, int>, intToVocab: map<int, string>, tokens: seq<string>) {
    forall i :: 0 <= i < |tokens| ==>
      tokens[i] in vocabToInt && vocabToInt[tokens[i]] in intToVocab && intToVocab[vocabToInt[tokens[i]]] == tokens[i]
  }

  /** With tables that are inverse on the text, decoding the ids gives back
      the kept words. */
  lemma DecodeEncoded(vocabToInt: map<string, int>, intToVocab: map<int, string>, tokens: seq<string>, mask: seq<bool>)
    requires |mask| == |tokens|
    requires InverseOn(vocabToInt, intToVocab, tokens)
    ensures forall j :: 0 <= j < |Select(Lookup(vocabToInt, tokens), mask)| ==>
              Select(Lookup(vocabToInt, tokens), mask)[j] in intToVocab
    ensures Lookup(intToVocab, Select(Lookup(vocabToInt, tokens), mask)) == Select(tokens, mask)
  {
    var ids := Lookup(vocabToInt, tokens);
    LookupSelect(intToVocab, ids, mask);
    assert Lookup(intToVocab, ids) == tokens;
  }

  /** An oracle that always keeps turns the filter off. */
  lemma {:induction false} AlwaysKeep(tokens: seq<string>, stop: set<string>, keep: seq<bool>)
    requires |keep| == StopCount(tokens, stop)
    requires forall j :: 0 <= j < |keep| ==> keep[j]
    ensures Select(tokens, Decisions(tokens, stop, keep)) == tokens
    decreases |tokens|
  {
    if tokens != [] {
      var n := |tokens| - 1;
      var keep0 := if tokens[n] in stop then keep[..|keep| - 1] else keep;
      AlwaysKeep(tokens[..n], stop, keep0);
      DecisionsSnoc(tokens, stop, keep);
      Seqs.DropLast(tokens);
      SelectSnoc(tokens[..n], Decisions(tokens[..n], stop, keep0), tokens[n], true);
    }
  }

  /** An oracle that never keeps leaves only the non-stopwords. */
  lemma {:induction false} NeverKeep(tokens: seq<string>, stop: set<string>, keep: seq<bool>)
    requires |keep| == StopCount(tokens, stop)
    requires forall j :: 0 <= j < |keep| ==> !keep[j]
    ensures Select(tokens, Decisions(tokens, stop, keep)) == NonStopwords(tokens, stop)
    decreases |tokens|
  {
    if tokens != [] {
      var n := |tokens| - 1;
      var keep0 := if tokens[n] in stop then keep[..|keep| - 1] else keep;
      NeverKeep(tokens[..n], stop, keep0);
      DecisionsSnoc(tokens, stop, keep);
      Seqs.DropLast(tokens);
      SelectSnoc(tokens[..n], Decisions(tokens[..n], stop, keep0), tokens[n], tokens[n] !in stop);
    }
  }
}
