/** `calcula_assinatura` of coh_piah.py: the six-value signature
    `[wal, ttr, hlr, sal, sac, pal]` of a text, computed from its sentences,
    their clauses and the clauses' words. Values are exact rationals. */
module Signature {
  import opened Strings
  import opened Tokenizer
  import opened Frequency

  /** The clauses of `sentences`: `separa_frases` of each sentence, in order. */
  function ClausesOf(sentences: seq<string>): seq<string>
  {
    if sentences == [] then []
    else ClausesOf(sentences[..|sentences| - 1]) + SplitClauses(sentences[|sentences| - 1])
  }

  /** The words of `clauses`: `separa_palavras` of each clause, in order. */
  function WordsOf(clauses: seq<string>): seq<string>
  {
    if clauses == [] then []
    else WordsOf(clauses[..|clauses| - 1]) + SplitWords(clauses[|clauses| - 1])
  }

  /** `len(xs) if xs else 1`: a count used as a divisor, floored at 1. */
  function AtLeastOne(n: nat): (r: nat)
    ensures r >= 1 && (n > 0 ==> r == n)
  {
    if n > 0 then n else 1
  }

  function Ratio(x: nat, y: nat): real
    requires y > 0
  {
    x as real / y as real
  }

  /** The signature of `text`: `[wal, ttr, hlr, sal, sac, pal]`. */
  function SignatureOf(text: string): seq<real>
  {
    var sentences := SplitSentences(text);
    var clauses := ClausesOf(sentences);
    var words := WordsOf(clauses);
    var numWords := AtLeastOne(|words|);
    var numSentences := AtLeastOne(|sentences|);
    var numClauses := AtLeastOne(|clauses|);
    [ Ratio(TotalLength(words), numWords),
      Ratio(|Forms(words)|, numWords),
      Ratio(|Hapaxes(words)|, numWords),
      Ratio(TotalLength(sentences), numSentences),
      Ratio(numClauses, numSentences),
      Ratio(TotalLength(clauses), numClauses) ]
  }

  /** `calcula_assinatura(texto)`: grow the clause list and then the word
      list with `extend` in two loops, count, and divide. */
  method ComputeSignature(text: string) returns (sig: seq<real>)
    ensures sig == SignatureOf(text)
  {
    var sentencas := SplitSentences(text);

    var frases: seq<string> := [];
    for i := 0 to |sentencas|
      invariant frases == ClausesOf(sentencas[..i])
    {
      ClausesOfSnoc(sentencas, i);
      frases := frases + SplitClauses(sentencas[i]);
    }
    assert sentencas[..|sentencas|] == sentencas;

    var palavras: seq<string> := [];
    for i := 0 to |frases|
      invariant palavras == WordsOf(frases[..i])
    {
      WordsOfSnoc(frases, i);
      palavras := palavras + SplitWords(frases[i]);
    }
    assert frases[..|frases|] == frases;

    var numPalavras := if |palavras| > 0 then |palavras| else 1;
    var numSentencas := if |sentencas| > 0 then |sentencas| else 1;
    var numFrases := if |frases| > 0 then |frases| else 1;

    var wal := TotalLength(palavras) as real / numPalavras as real;
    var diferentes := CountDistinct(palavras);
    var ttr := diferentes as real / numPalavras as real;
    var unicas := CountUnique(palavras);
    var hlr := unicas as real / numPalavras as real;
    var sal := TotalLength(sentencas) as real / numSentencas as real;
    var sac := numFrases as real / numSentencas as real;
    var pal := TotalLength(frases) as real / numFrases as real;
    sig := [wal, ttr, hlr, sal, sac, pal];
  }

  /** One more sentence: the step of the first `extend` loop. */
  lemma ClausesOfSnoc(sentences: seq<string>, i: nat)
    requires i < |sentences|
    ensures ClausesOf(sentences[..i + 1]) == ClausesOf(sentences[..i]) + SplitClauses(sentences[i])
  {
    assert sentences[..i + 1][..i] == sentences[..i];
  }

  /** One more clause: the step of the second `extend` loop. */
  lemma WordsOfSnoc(clauses: seq<string>, i: nat)
    requires i < |clauses|
    ensures WordsOf(clauses[..i + 1]) == WordsOf(clauses[..i]) + SplitWords(clauses[i])
  {
    assert clauses[..i + 1][..i] == clauses[..i];
  }

  /** Every sentence gives at least one clause, and the clauses concatenated
      are the sentences concatenated without clause separators. */
  lemma {:induction false} ClausesOfKeepText(sentences: seq<string>)
    ensures |ClausesOf(sentences)| >= |sentences|
    ensures Concat(ClausesOf(sentences)) == Remove(Concat(sentences), ClauseDelims)
  {
    if sentences != [] {
      var init, last := sentences[..|sentences| - 1], sentences[|sentences| - 1];
      ClausesOfKeepText(init);
      ClausesSplit(last);
      ClausesKeepText(last);
      ConcatAppend(ClausesOf(init), SplitClauses(last));
      assert sentences == init + [last];
      ConcatAppend(init, [last]);
      assert Concat([last]) == last;
      RemoveAppend(Concat(init), last, ClauseDelims);
    }
  }

  /** The words concatenated are the clauses concatenated without
      whitespace. */
  lemma {:induction false} WordsOfKeepText(clauses: seq<string>)
    ensures Concat(WordsOf(clauses)) == Remove(Concat(clauses), Whitespace)
  {
    if clauses != [] {
      var init, last := clauses[..|clauses| - 1], clauses[|clauses| - 1];
      WordsOfKeepText(init);
      WordsKeepText(last);
      ConcatAppend(WordsOf(init), SplitWords(last));
      assert clauses == init + [last];
      ConcatAppend(init, [last]);
      assert Concat([last]) == last;
      RemoveAppend(Concat(init), last, Whitespace);
    }
  }

  /** The whole decomposition loses only terminators, separators and
      whitespace: the words of a text, concatenated, are the text with those
      characters removed; and no level holds more characters than the one
      above it. */
  lemma DecompositionKeepsText(text: string)
    ensures
      var sentences := SplitSentences(text);
      var clauses := ClausesOf(sentences);
      var words := WordsOf(clauses);
      && Concat(words)
        == Remove(Remove(Remove(text, SentenceDelims), ClauseDelims), Whitespace)
      && TotalLength(words) <= TotalLength(clauses) <= TotalLength(sentences) <= |text|
  {
    var sentences := SplitSentences(text);
    var clauses := ClausesOf(sentences);
    var words := WordsOf(clauses);
    SentencesKeepText(text);
    ClausesOfKeepText(sentences);
    WordsOfKeepText(clauses);
    TotalLengthConcat(sentences);
    TotalLengthConcat(clauses);
    TotalLengthConcat(words);
  }

  lemma RatioOne(y: nat)
    requires y > 0
    ensures Ratio(y, y) == 1.0
  {
  }

  lemma RatioMonotone(x: nat, x': nat, y: nat)
    requires y > 0 && x <= x'
    ensures 0.0 <= Ratio(x, y) <= Ratio(x', y)
  {
  }

  /** The signature of a text, spelled out over its decomposition. */
  lemma SignatureUnfold(text: string, sentences: seq<string>, clauses: seq<string>, words: seq<string>)
    requires sentences == SplitSentences(text)
    requires clauses == ClausesOf(sentences)
    requires words == WordsOf(clauses)
    ensures
      var numWords := AtLeastOne(|words|);
      var numSentences := AtLeastOne(|sentences|);
      var numClauses := AtLeastOne(|clauses|);
      SignatureOf(text) ==
        [ Ratio(TotalLength(words), numWords),
          Ratio(|Forms(words)|, numWords),
          Ratio(|Hapaxes(words)|, numWords),
          Ratio(TotalLength(sentences), numSentences),
          Ratio(numClauses, numSentences),
          Ratio(TotalLength(clauses), numClauses) ]
  {
  }

  /** The word ratios: the hapax ratio is at most the type-token ratio,
      which is at most 1. */
  lemma WordRatiosBounded(words: seq<string>)
    ensures 0.0 <= Ratio(|Hapaxes(words)|, AtLeastOne(|words|))
                <= Ratio(|Forms(words)|, AtLeastOne(|words|)) <= 1.0
  {
    var nw := AtLeastOne(|words|);
    HapaxBound(words);
    RatioMonotone(|Hapaxes(words)|, |Forms(words)|, nw);
    RatioMonotone(|Forms(words)|, nw, nw);
    RatioOne(nw);
  }

  /** At least one clause per sentence on average. */
  lemma ClausesPerSentence(sentences: seq<string>, clauses: seq<string>)
    requires clauses == ClausesOf(sentences)
    ensures Ratio(AtLeastOne(|clauses|), AtLeastOne(|sentences|)) >= 1.0
  {
    ClausesOfKeepText(sentences);
    RatioMonotone(AtLeastOne(|sentences|), AtLeastOne(|clauses|), AtLeastOne(|sentences|));
    RatioOne(AtLeastOne(|sentences|));
  }

  /** The six ratios, from the counts alone: with no more hapaxes than
      forms, no more forms than words, and no fewer clauses than sentences,
      all six are non-negative, `hlr <= ttr <= 1` and `sac >= 1`. */
  lemma RatioBounds(wordChars: nat, forms: nat, hapaxes: nat, words: nat,
                    sentenceChars: nat, sentences: nat, clauses: nat, clauseChars: nat)
    requires hapaxes <= forms <= words
    requires sentences <= clauses
    ensures
      var sig := [ Ratio(wordChars, AtLeastOne(words)),
                   Ratio(forms, AtLeastOne(words)),
                   Ratio(hapaxes, AtLeastOne(words)),
                   Ratio(sentenceChars, AtLeastOne(sentences)),
                   Ratio(AtLeastOne(clauses), AtLeastOne(sentences)),
                   Ratio(clauseChars, AtLeastOne(clauses)) ];
      && (forall i :: 0 <= i < 6 ==> sig[i] >= 0.0)
      && 0.0 <= sig[2] <= sig[1] <= 1.0
      && sig[4] >= 1.0
  {
    var nw, ns, nc := AtLeastOne(words), AtLeastOne(sentences), AtLeastOne(clauses);
    RatioMonotone(hapaxes, forms, nw);
    RatioMonotone(forms, nw, nw);
    RatioOne(nw);
    RatioMonotone(ns, nc, ns);
    RatioOne(ns);
    RatioMonotone(0, wordChars, nw);
    RatioMonotone(0, sentenceChars, ns);
    RatioMonotone(0, clauseChars, nc);
  }

  /** What `calcula_assinatura` promises: six values, none negative; the
      hapax ratio at most the type-token ratio, which is at most 1; and at
      least one clause per sentence on average. */
  lemma SignatureBounds(text: string)
    ensures |SignatureOf(text)| == 6
    ensures forall i :: 0 <= i < 6 ==> SignatureOf(text)[i] >= 0.0
    ensures 0.0 <= SignatureOf(text)[2] <= SignatureOf(text)[1] <= 1.0
    ensures SignatureOf(text)[4] >= 1.0
  {
    var sentences := SplitSentences(text);
    var clauses := ClausesOf(sentences);
    var words := WordsOf(clauses);
    SignatureUnfold(text, sentences, clauses, words);
    HapaxBound(words);
    ClausesOfKeepText(sentences);
    RatioBounds(TotalLength(words), |Forms(words)|, |Hapaxes(words)|, |words|,
                TotalLength(sentences), |sentences|, |clauses|, TotalLength(clauses));
  }

  /** The empty text has the degenerate signature `[0, 0, 0, 0, 1, 0]`. */
  lemma EmptyTextSignature()
    ensures SignatureOf("") == [0.0, 0.0, 0.0, 0.0, 1.0, 0.0]
  {
    SentencesEmpty("");
    assert Forms([]) == {};
    assert Hapaxes([]) == {};
  }
}
