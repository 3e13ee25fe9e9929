/** The text normalisation of `preprocess_and_save_data`: every key of the
    token dictionary is replaced by its placeholder padded with one space on
    each side, in dictionary order; the text is then lowercased and split on
    runs of whitespace. */
module Normalize {
  import Seqs = Sequences

  // ------------------------------------------------------------ characters

  /** The characters Python's str.split() treats as whitespace. */
  predicate IsSpace(c: char) {
    || ('\t' <= c <= '\r')
    || ('\U{1C}' <= c <= '\U{1F}')
    || c == ' '
    || c == '\U{85}'
    || c == '\U{A0}'
    || c == '\U{1680}'
    || ('\U{2000}' <= c <= '\U{200A}')
    || c == '\U{2028}'
    || c == '\U{2029}'
    || c == '\U{202F}'
    || c == '\U{205F}'
    || c == '\U{3000}'
  }

  predicate IsUpper(c: char) {
    'A' <= c <= 'Z'
  }

  function LowerChar(c: char): char {
    if IsUpper(c) then (c as int + 32) as char else c
  }

  predicate NoSpace(w: string) {
    forall k :: 0 <= k < |w| ==> !IsSpace(w[k])
  }

  predicate NoUpper(w: string) {
    forall k :: 0 <= k < |w| ==> !IsUpper(w[k])
  }

  // --------------------------------------------------------- str.replace

  predicate OccursAt(s: string, key: string, i: int) {
    0 <= i && i + |key| <= |s| && s[i..i + |key|] == key
  }

  /** `key in s`; the empty key occurs in every string. */
  ghost predicate Occurs(s: string, key: string) {
    exists i :: OccursAt(s, key, i)
  }

  /** s.replace(key, rep): occurrences are found left to right without
      overlapping; an empty key matches before every character and at the
      end. Replacing a key by itself changes nothing. */
  function ReplaceAll(s: string, key: string, rep: string): (r: string)
    ensures rep == key ==> r == s
    decreases |s|
  {
    if key == [] then
      rep + (if s == [] then [] else [s[0]] + ReplaceAll(s[1..], key, rep))
    else if |s| < |key| then s
    else if s[..|key|] == key then rep + ReplaceAll(s[|key|..], key, rep)
    else [s[0]] + ReplaceAll(s[1..], key, rep)
  }

  /** What a single character becomes when `c` is replaced by `rep`. */
  function Piece(x: char, c: char, rep: string): string {
    if x == c then rep else [x]
  }

  /** Reference definition of replacing a one-character key: the text is
      rebuilt character by character from its end. */
  function ReplaceChar(s: string, c: char, rep: string): (r: string)
    ensures c !in rep ==> c !in r
    ensures forall x :: x in r ==> x in s || x in rep
    decreases |s|
  {
    if s == [] then []
    else ReplaceChar(s[..|s| - 1], c, rep) + Piece(s[|s| - 1], c, rep)
  }

  /** The placeholder as written into the text: one space on each side. */
  function Pad(token: string): (p: string)
    ensures |p| == |token| + 2 && p[0] == ' ' && p[|p| - 1] == ' '
    ensures p[1..|p| - 1] == token
  {
    " " + token + " "
  }

  /** The substitution loop: one dictionary entry at a time, in order. */
  function Substitute(text: string, dict: seq<(string, string)>): string
    decreases |dict|
  {
    if dict == [] then text
    else Substitute(ReplaceAll(text, dict[0].0, Pad(dict[0].1)), dict[1..])
  }

  // ----------------------------------------------------------- str.lower

  /** s.lower(), for the ASCII letters: each of A-Z becomes its lower-case
      letter and every other character stays as it is. */
  function Lower(s: string): (r: string)
    ensures |r| == |s|
    ensures forall i :: 0 <= i < |s| ==> !IsUpper(r[i])
    ensures forall i :: 0 <= i < |s| ==> (IsSpace(r[i]) <==> IsSpace(s[i]))
    ensures forall i :: 0 <= i < |s| && !IsUpper(s[i]) ==> r[i] == s[i]
    ensures forall i :: 0 <= i < |s| && IsUpper(s[i]) ==>
      'a' <= r[i] <= 'z' && r[i] as int - s[i] as int == 'a' as int - 'A' as int
  {
    seq(|s|, i requires 0 <= i < |s| => LowerChar(s[i]))
  }

  // ----------------------------------------------------------- str.split

  /** The field begun so far, if there is one. */
  function Flush(cur: string): (ws: seq<string>) {
    if cur == [] then [] else [cur]
  }

  /** The rest of s.split() once the field `cur` has been begun: whitespace
      ends the current field, any other character extends it. */
  function Fields(s: string, cur: string): (ws: seq<string>)
    decreases |s|
  {
    if s == [] then Flush(cur)
    else if IsSpace(s[0]) then Flush(cur) + Fields(s[1..], [])
    else Fields(s[1..], cur + [s[0]])
  }

  /** s.split() with no separator: the maximal runs of non-whitespace, in
      order. */
  function Words(s: string): (ws: seq<string>) {
    Fields(s, [])
  }

  /** The whole normalisation of lines 26-30 of util.py. Every token it
      yields is non-empty, free of whitespace and free of upper case. */
  function Normalize(text: string, dict: seq<(string, string)>): (tokens: seq<string>)
    ensures forall i :: 0 <= i < |tokens| ==> tokens[i] != [] && NoSpace(tokens[i]) && NoUpper(tokens[i])
  {
    var substituted := Substitute(text, dict);
    WordsAreFields(Lower(substituted));
    WordsOfLower(substituted);
    Words(Lower(substituted))
  }

  // ------------------------------------------------------------- helpers

  function LowerEach(ws: seq<string>): (ls: seq<string>)
    ensures |ls| == |ws|
    ensures forall i :: 0 <= i < |ws| ==> ls[i] == Lower(ws[i])
  {
    seq(|ws|, i requires 0 <= i < |ws| => Lower(ws[i]))
  }

  function Concat(ws: seq<string>): string
    decreases |ws|
  {
    if ws == [] then [] else ws[0] + Concat(ws[1..])
  }

  /** The text with every whitespace character removed. */
  function RemoveSpaces(s: string): string
    decreases |s|
  {
    if s == [] then []
    else (if IsSpace(s[0]) then [] else [s[0]]) + RemoveSpaces(s[1..])
  }

  /** " ".join(ws) */
  function JoinWithSpace(ws: seq<string>): string
    decreases |ws|
  {
    if ws == [] then []
    else if |ws| == 1 then ws[0]
    else ws[0] + " " + JoinWithSpace(ws[1..])
  }

  // ------------------------------------------------------ replace lemmas

  /** A non-empty key that does not occur leaves the text unchanged. */
  lemma {:induction false} ReplaceAbsentKey(s: string, key: string, rep: string)
    requires key != [] && !Occurs(s, key)
    ensures ReplaceAll(s, key, rep) == s
    decreases |s|
  {
    if |s| >= |key| {
      assert !OccursAt(s, key, 0);
      assert s[0..|key|] == s[..|key|];
      forall i | OccursAt(s[1..], key, i)
        ensures OccursAt(s, key, i + 1)
      {
        assert s[1..][i..i + |key|] == s[i + 1..i + 1 + |key|];
      }
      ReplaceAbsentKey(s[1..], key, rep);
    }
  }

  /** str.replace is leftmost: when no occurrence of the key begins inside
      `a`, the first one is the one right after `a`, and it is replaced
      before the search resumes behind it. */
  lemma {:induction false} ReplaceLeftmost(a: string, key: string, b: string, rep: string)
    requires key != []
    requires forall i :: 0 <= i < |a| ==> !OccursAt(a + key + b, key, i)
    ensures ReplaceAll(a + key + b, key, rep) == a + rep + ReplaceAll(b, key, rep)
    decreases |a|
  {
    var s := a + key + b;
    if a == [] {
      assert s == key + b;
      assert s[..|key|] == key && s[|key|..] == b;
    } else {
      assert !OccursAt(s, key, 0);
      assert s[0..|key|] == s[..|key|];
      var a' := a[1..];
      assert s[1..] == a' + key + b;
      forall i | 0 <= i < |a'|
        ensures !OccursAt(a' + key + b, key, i)
      {
        assert s[1..][i..i + |key|] == s[i + 1..i + 1 + |key|];
        assert !OccursAt(s, key, i + 1);
      }
      ReplaceLeftmost(a', key, b, rep);
      assert [a[0]] + a' == a;
      Seqs.Associative([a[0]], a', rep);
      Seqs.Associative([a[0]], a' + rep, ReplaceAll(b, key, rep));
    }
  }

  lemma {:induction false} ReplaceCharCons(s: string, c: char, rep: string)
    requires s != []
    ensures ReplaceChar(s, c, rep) == Piece(s[0], c, rep) + ReplaceChar(s[1..], c, rep)
    decreases |s|
  {
    if |s| == 1 {
      assert s[..0] == [] && s[1..] == [];
    } else {
      var init := s[..|s| - 1];
      ReplaceCharCons(init, c, rep);
      assert init[0] == s[0];
      assert init[1..] == s[1..][..|s[1..]| - 1];
      assert s[1..][|s[1..]| - 1] == s[|s| - 1];
      Seqs.Associative(Piece(s[0], c, rep), ReplaceChar(init[1..], c, rep), Piece(s[|s| - 1], c, rep));
    }
  }

  /** For a one-character key, str.replace agrees with the character-by-
      character reference: each occurrence of the key, and nothing else,
      becomes `rep`. */
  lemma {:induction false} ReplaceOneCharKey(s: string, c: char, rep: string)
    ensures ReplaceAll(s, [c], rep) == ReplaceChar(s, c, rep)
    decreases |s|
  {
    if s != [] {
      ReplaceCharCons(s, c, rep);
      ReplaceOneCharKey(s[1..], c, rep);
      assert s[..1] == [s[0]];
    }
  }

  /** After a one-character key is replaced by its padded placeholder, the
      key is gone from the text unless the placeholder itself contains it. */
  lemma PaddedKeyRemoved(s: string, c: char, token: string)
    requires c != ' ' && c !in token
    ensures c !in ReplaceAll(s, [c], Pad(token))
  {
    ReplaceOneCharKey(s, c, Pad(token));
    var p := Pad(token);
    assert forall k :: 1 <= k < |p| - 1 ==> p[k] == token[k - 1];
  }

  // --------------------------------------------------- substitution lemmas

  /** Substituting with a dictionary split in two is substituting the first
      part, then the second: keys are applied one at a time, in order. */
  lemma {:induction false} SubstituteInOrder(text: string, d1: seq<(string, string)>, d2: seq<(string, string)>)
    ensures Substitute(text, d1 + d2) == Substitute(Substitute(text, d1), d2)
    decreases |d1|
  {
    if d1 == [] {
      assert d1 + d2 == d2;
    } else {
      assert (d1 + d2)[0] == d1[0];
      assert (d1 + d2)[1..] == d1[1..] + d2;
      SubstituteInOrder(ReplaceAll(text, d1[0].0, Pad(d1[0].1)), d1[1..], d2);
    }
  }

  /** The last entry of the dictionary is replaced last, in the text all
      earlier entries produced. */
  lemma SubstituteLast(text: string, dict: seq<(string, string)>, key: string, token: string)
    ensures Substitute(text, dict + [(key, token)]) == ReplaceAll(Substitute(text, dict), key, Pad(token))
  {
    SubstituteInOrder(text, dict, [(key, token)]);
  }

  /** When none of the (non-empty) keys occurs in the text, substitution
      leaves it unchanged. */
  lemma {:induction false} SubstituteAbsentKeys(text: string, dict: seq<(string, string)>)
    requires forall i :: 0 <= i < |dict| ==> dict[i].0 != [] && !Occurs(text, dict[i].0)
    ensures Substitute(text, dict) == text
    decreases |dict|
  {
    if dict != [] {
      ReplaceAbsentKey(text, dict[0].0, Pad(dict[0].1));
      SubstituteAbsentKeys(text, dict[1..]);
    }
  }

  // ---------------------------------------------------------- split lemmas

  /** No field is empty and none holds whitespace. */
  lemma {:induction false} FieldsAreWords(s: string, cur: string)
    requires NoSpace(cur)
    ensures forall i :: 0 <= i < |Fields(s, cur)| ==> Fields(s, cur)[i] != [] && NoSpace(Fields(s, cur)[i])
    decreases |s|
  {
    if s != [] {
      if IsSpace(s[0]) {
        FieldsAreWords(s[1..], []);
      } else {
        FieldsAreWords(s[1..], cur + [s[0]]);
      }
    }
  }

  lemma WordsAreFields(s: string)
    ensures forall i :: 0 <= i < |Words(s)| ==> Words(s)[i] != [] && NoSpace(Words(s)[i])
  {
    FieldsAreWords(s, []);
  }

  lemma {:induction false} FieldsAroundSpace(x: string, c: char, y: string, cur: string)
    requires IsSpace(c)
    ensures Fields(x + [c] + y, cur) == Fields(x, cur) + Words(y)
    decreases |x|
  {
    var s := x + [c] + y;
    if x == [] {
      assert s[0] == c && s[1..] == y;
    } else {
      assert s[0] == x[0];
      assert s[1..] == x[1..] + [c] + y;
      if IsSpace(x[0]) {
        FieldsAroundSpace(x[1..], c, y, []);
        Seqs.Associative(Flush(cur), Fields(x[1..], []), Words(y));
      } else {
        FieldsAroundSpace(x[1..], c, y, cur + [x[0]]);
      }
    }
  }

  /** A whitespace character separates fields: splitting around it is
      splitting each side. */
  lemma WordsAroundSpace(x: string, c: char, y: string)
    requires IsSpace(c)
    ensures Words(x + [c] + y) == Words(x) + Words(y)
  {
    FieldsAroundSpace(x, c, y, []);
  }

  lemma {:induction false} FieldsOfWord(w: string, cur: string)
    requires NoSpace(w) && cur + w != []
    ensures Fields(w, cur) == [cur + w]
    decreases |w|
  {
    if w == [] {
      assert cur + w == cur;
    } else {
      assert cur + w == (cur + [w[0]]) + w[1..];
      FieldsOfWord(w[1..], cur + [w[0]]);
    }
  }

  /** A non-empty piece of text without whitespace is a single field. */
  lemma OneWord(w: string)
    requires w != [] && NoSpace(w)
    ensures Words(w) == [w]
  {
    FieldsOfWord(w, []);
    assert [] + w == w;
  }

  /** The padding makes a placeholder a token of its own, whatever text
      surrounds it. */
  lemma PaddedTokenStandsAlone(a: string, token: string, b: string)
    requires token != [] && NoSpace(token)
    ensures Words(a + Pad(token) + b) == Words(a) + [token] + Words(b)
  {
    assert a + Pad(token) + b == a + [' '] + (token + [' '] + b);
    WordsAroundSpace(a, ' ', token + [' '] + b);
    WordsAroundSpace(token, ' ', b);
    OneWord(token);
    Seqs.Associative(Words(a), [token], Words(b));
  }

  /** Splitting " ".join(ws) gives back ws when every field is non-empty and
      free of whitespace. */
  lemma {:induction false} WordsOfJoined(ws: seq<string>)
    requires forall i :: 0 <= i < |ws| ==> ws[i] != [] && NoSpace(ws[i])
    ensures Words(JoinWithSpace(ws)) == ws
    decreases |ws|
  {
    if ws == [] {
    } else if |ws| == 1 {
      OneWord(ws[0]);
    } else {
      assert ws[0] + " " + JoinWithSpace(ws[1..]) == ws[0] + [' '] + JoinWithSpace(ws[1..]);
      WordsAroundSpace(ws[0], ' ', JoinWithSpace(ws[1..]));
      OneWord(ws[0]);
      WordsOfJoined(ws[1..]);
    }
  }

  lemma {:induction false} ConcatAppend(a: seq<string>, b: seq<string>)
    ensures Concat(a + b) == Concat(a) + Concat(b)
    decreases |a|
  {
    if a == [] {
      assert a + b == b;
    } else {
      assert (a + b)[0] == a[0];
      assert (a + b)[1..] == a[1..] + b;
      ConcatAppend(a[1..], b);
    }
  }

  lemma {:induction false} FieldsKeepText(s: string, cur: string)
    ensures Concat(Fields(s, cur)) == cur + RemoveSpaces(s)
    decreases |s|
  {
    if s == [] {
      assert cur + [] == cur;
    } else if IsSpace(s[0]) {
      FieldsKeepText(s[1..], []);
      ConcatAppend(Flush(cur), Fields(s[1..], []));
      assert Concat(Flush(cur)) == cur;
    } else {
      FieldsKeepText(s[1..], cur + [s[0]]);
      Seqs.Associative(cur, [s[0]], RemoveSpaces(s[1..]));
    }
  }

  /** Splitting loses only whitespace: the fields, put end to end, are the
      text with its whitespace removed. */
  lemma WordsKeepText(s: string)
    ensures Concat(Words(s)) == RemoveSpaces(s)
  {
    FieldsKeepText(s, []);
  }

  // ---------------------------------------------------------- lower lemmas

  /** Lowercasing twice is lowercasing once. */
  lemma LowerIdempotent(s: string)
    ensures Lower(Lower(s)) == Lower(s)
  {
  }

  lemma {:induction false} FieldsOfLower(s: string, cur: string)
    ensures Fields(Lower(s), Lower(cur)) == LowerEach(Fields(s, cur))
    decreases |s|
  {
    if s == [] {
      assert Lower(s) == [];
    } else {
      assert Lower(s)[0] == LowerChar(s[0]);
      assert Lower(s)[1..] == Lower(s[1..]);
      if IsSpace(s[0]) {
        FieldsOfLower(s[1..], []);
        assert Lower([]) == [];
        assert LowerEach(Flush(cur) + Fields(s[1..], [])) == LowerEach(Flush(cur)) + LowerEach(Fields(s[1..], []));
        assert Flush(Lower(cur)) == LowerEach(Flush(cur));
      } else {
        FieldsOfLower(s[1..], cur + [s[0]]);
        assert Lower(cur + [s[0]]) == Lower(cur) + [LowerChar(s[0])];
      }
    }
  }

  /** Lowercasing the text and then splitting it gives the same tokens as
      splitting it and lowercasing each token. */
  lemma WordsOfLower(s: string)
    ensures Words(Lower(s)) == LowerEach(Words(s))
  {
    FieldsOfLower(s, []);
    assert Lower([]) == [];
  }
}
