/** The word-frequency counters of coh_piah.py: `n_palavras_diferentes`
    (distinct lower-cased words) and `n_palavras_unicas` (lower-cased words
    that occur exactly once). Both build a dictionary from lower-cased word
    to count in one loop; the model keeps that dictionary as a `map`. */
module Frequency {

  /** `str.lower()` on one character, for ASCII letters only. */
  function LowerChar(c: char): char
  {
    if 'A' <= c <= 'Z' then (c as int + 32) as char else c
  }

  /** `str.lower()` on a word, character by character. */
  function Lower(w: string): string
  {
    seq(|w|, i requires 0 <= i < |w| => LowerChar(w[i]))
  }

  /** The distinct lower-cased forms of the words of `words`. */
  function Forms(words: seq<string>): set<string>
  {
    if words == [] then {}
    else Forms(words[..|words| - 1]) + {Lower(words[|words| - 1])}
  }

  /** How many words of `words` have the lower-cased form `f`. */
  function Occurrences(words: seq<string>, f: string): nat
  {
    if words == [] then 0
    else Occurrences(words[..|words| - 1], f) + (if Lower(words[|words| - 1]) == f then 1 else 0)
  }

  /** The frequency table: each form of `words` with its number of occurrences. */
  function Freq(words: seq<string>): map<string, nat>
  {
    map f | f in Forms(words) :: Occurrences(words, f)
  }

  /** The hapax legomena: forms that occur exactly once. */
  function Hapaxes(words: seq<string>): set<string>
  {
    set f | f in Forms(words) && Occurrences(words, f) == 1
  }

  /** The keys of a frequency table whose count is 1. */
  function Singletons(freq: map<string, nat>): set<string>
  {
    set f | f in freq && freq[f] == 1
  }

  /** A form occurs in `words` exactly when some word has that form. */
  lemma {:induction false} FormsOccur(words: seq<string>, f: string)
    ensures f in Forms(words) <==> Occurrences(words, f) > 0
  {
    if words != [] {
      FormsOccur(words[..|words| - 1], f);
    }
  }

  /** There are no more distinct forms than words; none for no words. */
  lemma {:induction false} FormsBound(words: seq<string>)
    ensures |Forms(words)| <= |words|
    ensures Forms(words) == {} <==> words == []
  {
    if words != [] {
      FormsBound(words[..|words| - 1]);
      var last := Lower(words[|words| - 1]);
      assert last in Forms(words);
    }
  }

  /** Every hapax is a form, so `0 <= unicas <= diferentes <= len(lista)`. */
  lemma HapaxBound(words: seq<string>)
    ensures Hapaxes(words) <= Forms(words)
    ensures |Hapaxes(words)| <= |Forms(words)| <= |words|
  {
    FormsBound(words);
    SubsetCardinality(Hapaxes(words), Forms(words));
  }

  lemma {:induction false} SubsetCardinality(a: set<string>, b: set<string>)
    requires a <= b
    ensures |a| <= |b|
    decreases a
  {
    if a != {} {
      var x :| x in a;
      SubsetCardinality(a - {x}, b - {x});
    }
  }

  /** Adding one word updates the frequency table the way the loop body does:
      a new form gets count 1, a known one goes up by one. */
  lemma FreqSnoc(words: seq<string>, i: nat)
    requires i < |words|
    ensures
      var p := Lower(words[i]);
      var old_freq := Freq(words[..i]);
      Freq(words[..i + 1])
        == old_freq[p := if p in old_freq then old_freq[p] + 1 else 1]
  {
    var prefix, p := words[..i], Lower(words[i]);
    var next := words[..i + 1];
    assert next[..|next| - 1] == prefix && next[|next| - 1] == words[i];
    FormsOccur(prefix, p);
    var m := Freq(prefix);
    var m' := m[p := if p in m then m[p] + 1 else 1];
    assert Forms(next) == Forms(prefix) + {p};
    forall f | f in Forms(next)
      ensures Occurrences(next, f) == m'[f]
    {
      FormsOccur(prefix, f);
    }
    assert Freq(next).Keys == m'.Keys;
  }

  /** Raising a count that was 1 removes that key from the singletons;
      raising any other count leaves them as they are. */
  lemma SingletonsBump(freq: map<string, nat>, p: string)
    requires p in freq && freq[p] > 0
    ensures freq[p] == 1 ==> |Singletons(freq[p := freq[p] + 1])| == |Singletons(freq)| - 1
    ensures freq[p] != 1 ==> Singletons(freq[p := freq[p] + 1]) == Singletons(freq)
  {
    var after := Singletons(freq[p := freq[p] + 1]);
    if freq[p] == 1 {
      assert after == Singletons(freq) - {p};
    } else {
      assert after == Singletons(freq);
    }
  }

  /** A new key with count 1 is a new singleton. */
  lemma SingletonsAdd(freq: map<string, nat>, p: string)
    requires p !in freq
    ensures |Singletons(freq[p := 1])| == |Singletons(freq)| + 1
  {
    assert Singletons(freq[p := 1]) == Singletons(freq) + {p};
  }

  /** `n_palavras_diferentes`: count the keys of the frequency table. */
  method CountDistinct(words: seq<string>) returns (n: nat)
    ensures n == |Forms(words)|
  {
    var freq: map<string, nat> := map[];
    for i := 0 to |words|
      invariant freq == Freq(words[..i])
    {
      FreqSnoc(words, i);
      var p := Lower(words[i]);
      if p in freq {
        freq := freq[p := freq[p] + 1];
      } else {
        freq := freq[p := 1];
      }
    }
    assert words[..|words|] == words;
    assert freq.Keys == Forms(words);
    n := |freq|;
  }

  /** `n_palavras_unicas`: a running counter of the keys whose count is 1,
      up when a form is first seen, down when a count moves from 1 to 2. */
  method CountUnique(words: seq<string>) returns (unicas: int)
    ensures unicas == |Hapaxes(words)|
  {
    var freq: map<string, nat> := map[];
    unicas := 0;
    for i := 0 to |words|
      invariant freq == Freq(words[..i])
      invariant unicas == |Singletons(freq)|
    {
      FreqSnoc(words, i);
      var p := Lower(words[i]);
      if p in freq {
        FormsOccur(words[..i], p);
        SingletonsBump(freq, p);
        if freq[p] == 1 {
          unicas := unicas - 1;
        }
        freq := freq[p := freq[p] + 1];
      } else {
        SingletonsAdd(freq, p);
        freq := freq[p := 1];
        unicas := unicas + 1;
      }
    }
    assert words[..|words|] == words;
    assert Singletons(freq) == Hapaxes(words);
  }
}
