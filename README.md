# coh_piah in Dafny

A model of the stylometry core of `coh_piah.py`, the COH-PIAH detector. The detector:

1. Cuts each text into sentences, the sentences into clauses and the clauses into words.
2. Computes a six-value signature `[wal, ttr, hlr, sal, sac, pal]` for each text:
   - average word length;
   - type-token ratio;
   - hapax-legomena ratio;
   - average sentence length;
   - clauses per sentence;
   - average clause length.
3. Compares each signature with a reference signature by mean absolute difference.
4. Returns the 1-based index of the closest text.

Modules, one per part of the program:

- `Strings`: character helpers.
  - `Remove` deletes a set of characters from a string.
  - `Concat` joins a list of strings.
  - `TotalLength` is `sum(len(x) for x in xs)`.
  - `Weave` interleaves pieces with separators.
- `Tokenizer`: `separa_sentencas`, `separa_frases` and `separa_palavras`.
  - `re.split('[D]+', s)` is modelled as `SplitRuns`, a split on maximal runs of delimiter characters. `SplitRunsIsRunSplit` characterises it exactly: the pieces and the runs, interleaved, give back the string.
  - `str.split()` is modelled as `SplitWords`: skip whitespace, then take a word, and repeat. It is proved equal to the run split on whitespace with its empty pieces dropped.
  - Whitespace is the set of characters for which Python's `str.isspace()` holds.
- `Frequency`: `n_palavras_diferentes` and `n_palavras_unicas`, as methods.
  - Each loops over the words and updates a `map` from lower-cased word to count, as the source does with its `dict`.
  - The specification functions are `Forms` (the distinct lower-cased forms), `Occurrences`, `Freq` (the whole table) and `Hapaxes`.
- `Comparator`: `compara_assinatura`, as a method that accumulates `soma` in a loop, proved against the function `Distance`.
- `Signature`: `calcula_assinatura`, as a method with the two `extend` loops, proved against the function `SignatureOf`. Signature values are exact rationals (`real`).
- `Ranker`: `avalia_textos`, as a method with the source's loop over `melhor_indice` and `melhor_dist`.
  - `None` before the first text is an `Option`.
  - The method is proved to return the first position of the least distance.

On the sentence splitter, `separa_sentencas` drops only one trailing empty piece. So a text made only of terminators, such as `"..."`, gives `[""]`: a list whose last sentence is empty. `Tokenizer.SentencesLast` proves that this is the only way the result can end in an empty sentence.

## Model

| member | source | states |
|---|---|---|
| Tokenizer.SplitRuns | coh_piah.py:34-42 | `re.split('[D]+', s)`: the pieces between maximal delimiter runs; characterised exactly by `SplitRunsIsRunSplit`, with `SplitRunsKeepsText` and `SplitRunsNonEmpty` |
| Tokenizer.SplitSentences | coh_piah.py:32-37 | the run split on `.!?` with one trailing empty piece deleted; characterised by `SentencesKeepText`, `SentencesEmpty`, `SentencesLast` and `SentenceWithTerminators` |
| Tokenizer.SplitClauses | coh_piah.py:40-42 | the run split on `,:;` with every empty piece kept; characterised by `ClausesSplit` and `ClausesKeepText` |
| Tokenizer.SplitWords | coh_piah.py:45-47 | `str.split()`: skip whitespace, take the next maximal non-whitespace run, repeat; characterised by `SplitWordsIsSplitRuns`, `WordsClean` and `WordsKeepText` |
| Tokenizer.SplitRunsIsRunSplit | coh_piah.py:34 | `re.split` on runs of delimiters is exact: pieces and maximal non-empty delimiter runs interleave back to the input, no piece holds a delimiter, and only the first and the last piece can be empty |
| Tokenizer.SplitRunsKeepsText | coh_piah.py:34 | the pieces of the split, concatenated, are the input without its delimiters, so nothing else is lost |
| Tokenizer.SplitRunsNonEmpty | coh_piah.py:34 | the split has at least one piece, and it is `[""]` exactly for the empty string |
| Tokenizer.SentencesKeepText | coh_piah.py:32-37 | no sentence contains `.`, `!` or `?`, and the sentences concatenated are the text without them |
| Tokenizer.SentencesEmpty | coh_piah.py:32-37 | the result is the empty list exactly for the empty text |
| Tokenizer.SentencesLast | coh_piah.py:34-36 | the last sentence is empty only when the result is `[""]`, and that happens exactly for a non-empty text made only of terminators |
| Tokenizer.SentenceWithTerminators | coh_piah.py:32-37 | a terminator-free sentence followed by a run of terminators splits into just that sentence |
| Tokenizer.SentencesExample | coh_piah.py:32-37 | `"Hello world."` gives `["Hello world"]` |
| Tokenizer.ClausesSplit | coh_piah.py:40-42 | at least one clause; the clauses and the separator runs are an exact split, so no clause holds `,`, `:` or `;` and leading or trailing empty clauses are kept |
| Tokenizer.ClausesKeepText | coh_piah.py:40-42 | the clauses concatenated are the sentence without its separators |
| Tokenizer.SplitWordsIsSplitRuns | coh_piah.py:45-47 | `str.split()` equals the split on whitespace runs with empty pieces removed |
| Tokenizer.WordsClean | coh_piah.py:45-47 | every word is non-empty and holds no whitespace |
| Tokenizer.WordsKeepText | coh_piah.py:45-47 | the words concatenated are the clause without its whitespace |
| Frequency.Lower | coh_piah.py:55 | `palavra.lower()` (also at line 71), character by character on ASCII letters (see "## Left out"); the forms `Forms`, `Freq` and `Hapaxes` count words by it, as the `freq` keys do |
| Frequency.CountDistinct | coh_piah.py:67-77 | the count equals the number of distinct lower-cased forms; the loop keeps the table equal to the frequency table of the words seen so far |
| Frequency.CountUnique | coh_piah.py:50-64 | the count equals the number of forms that occur exactly once; the loop keeps `unicas` equal to the number of table keys whose count is 1 |
| Frequency.FreqSnoc | coh_piah.py:54-62 | one more word updates the frequency table as the loop body does: a new form gets count 1 and a known form goes up by one |
| Frequency.SingletonsBump | coh_piah.py:56-59 | raising a count from 1 removes exactly one key from those with count 1; raising any other positive count changes nothing |
| Frequency.SingletonsAdd | coh_piah.py:60-62 | a new key with count 1 adds exactly one key with count 1 |
| Frequency.FormsOccur | coh_piah.py:67-77 | a form is a key of the table exactly when some word has that form |
| Frequency.FormsBound | coh_piah.py:67-77 | there are no more distinct forms than words, and none exactly for the empty list |
| Frequency.HapaxBound | coh_piah.py:50-77 | every once-occurring form is a form, so `0 <= unicas <= diferentes <= len(lista)` |
| Comparator.CompareSignatures | coh_piah.py:82-91 | the loop computes the distance: 0 when either signature is empty, otherwise the sum of absolute differences over the shared components divided by their number |
| Comparator.SumAbsDiffProperties | coh_piah.py:88-90 | the running sum is non-negative and symmetric, and it is 0 exactly when the compared prefixes are equal |
| Comparator.DistanceProperties | coh_piah.py:82-91 | the distance is non-negative, 0 when either signature is empty, and symmetric |
| Comparator.DistanceZero | coh_piah.py:82-91 | the distance is 0 exactly when the shared components agree; in particular `compara_assinatura(s, s) == 0` |
| Signature.AtLeastOne | coh_piah.py:111-113 | each divisor is at least 1, and equals the count when the count is positive |
| Signature.ComputeSignature | coh_piah.py:94-136 | the two loops build the clauses as the in-order concatenation of `separa_frases` over the sentences, and the words as that of `separa_palavras` over the clauses; the result is the signature of the text |
| Signature.ClausesOfKeepText | coh_piah.py:100-103 | there are at least as many clauses as sentences, and the clauses concatenated are the sentences concatenated without clause separators |
| Signature.WordsOfKeepText | coh_piah.py:105-108 | the words concatenated are the clauses concatenated without whitespace |
| Signature.DecompositionKeepsText | coh_piah.py:97-108 | the words of a text, concatenated, are the text without terminators, separators and whitespace; and words hold no more characters than clauses, clauses no more than sentences, and sentences no more than the text |
| Signature.WordRatiosBounded | coh_piah.py:119-123 | `0 <= hlr <= ttr <= 1` |
| Signature.ClausesPerSentence | coh_piah.py:129-130 | `sac >= 1` |
| Signature.RatioBounds | coh_piah.py:110-136 | from the counts alone: with no more hapaxes than forms, no more forms than words and no fewer clauses than sentences, the six floored-divisor ratios are non-negative, `hlr <= ttr <= 1` and `sac >= 1` |
| Signature.SignatureBounds | coh_piah.py:94-136 | exactly six values, none negative, `0 <= hlr <= ttr <= 1` and `sac >= 1` |
| Signature.EmptyTextSignature | coh_piah.py:94-136 | the empty text has the signature `[0, 0, 0, 0, 1, 0]` |
| Ranker.Rank | coh_piah.py:139-151 | on an empty list the result is 1; otherwise it is an index in `1..len(textos)` whose distance is no larger than any other and strictly smaller than every earlier one |
| Ranker.ScanFirstMin | coh_piah.py:141-149 | scanning the distances in order finds the first least one and keeps its distance |
| Ranker.FirstMinExtend | coh_piah.py:147-149 | a new distance takes over only when strictly smaller than the best so far, and either way the first least position is kept |
| Ranker.FirstMinUnique | coh_piah.py:139-151 | the first least position is unique, so the result is determined |
| Ranker.DistancesAt | coh_piah.py:144-146 | the `j`-th distance is the distance of the `j`-th text's signature to the reference |
| Ranker.DistancesNonNegative | coh_piah.py:145-146 | every distance is non-negative |
| Ranker.ExactMatchWins | coh_piah.py:139-151 | when the reference is the signature of some text, the chosen text is at distance 0 and comes no later than that text |

## Left out

- `le_assinatura`, `le_textos` (coh_piah.py:4-29) and the `__main__` block (coh_piah.py:154-158) are left out. They are console input and output plus `float(...)` parsing.
- The regular-expression engine is not modelled. The two `re.split` calls use fixed one-character classes with `+`, so they are modelled directly as splits on maximal runs of `{.,!,?}` and `{,,:,;}`.
- `str.lower()` is modelled on ASCII letters only. Other characters are left unchanged, so full Unicode case mapping, including mappings that change a string's length, is not modelled.
- Strings are sequences of characters, and `len` counts them. No encoding or normalisation is modelled.
- Floating point is not modelled. Divisions, sums and `abs` are exact on `real`, so rounding in the source's `float` arithmetic, and any tie it could create or break, is not captured.
- Ranker.Rank follows the code on an empty list of texts: it returns the initial index 1 (coh_piah.py:141) and signals no error.
- Signature.SignatureOf follows the code for `sac`: the numerator is the floored clause count `num_frases` (coh_piah.py:113, 130), so the empty text gets `sac = 1`, not 0 (`Signature.EmptyTextSignature`).
