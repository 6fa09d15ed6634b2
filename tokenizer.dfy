/** The tokenizer of coh_piah.py: text into sentences (`separa_sentencas`),
    sentences into clauses (`separa_frases`), clauses into words
    (`separa_palavras`). The two regular-expression splits `re.split('[D]+', s)`
    are modelled as one split on maximal runs of delimiter characters. */
module Tokenizer {
  import opened Strings

  /** Sentence terminators, the class `[.!?]`. */
  const SentenceDelims: set<char> := {'.', '!', '?'}

  /** Clause separators, the class `[,:;]`. */
  const ClauseDelims: set<char> := {',', ':', ';'}

  /** The characters Python's `str.split()` treats as whitespace (those for
      which `str.isspace()` holds). */
  const Whitespace: set<char> :=
    set c: char | c == ' ' || ('\t' <= c <= '\r') || ('\U{1C}' <= c <= '\U{1F}')
      || c == '\U{85}' || c == '\U{A0}' || c == '\U{1680}'
      || ('\U{2000}' <= c <= '\U{200A}') || c == '\U{2028}' || c == '\U{2029}'
      || c == '\U{202F}' || c == '\U{205F}' || c == '\U{3000}'

  /** Length of the longest prefix of `s` free of `delims`. */
  function PieceLength(s: string, delims: set<char>): (k: nat)
    ensures k <= |s|
  {
    if s == [] || s[0] in delims then 0
    else 1 + PieceLength(s[1..], delims)
  }

  /** The prefix `PieceLength` measures is delimiter-free and maximal. */
  lemma {:induction false} PieceLengthSpec(s: string, delims: set<char>)
    ensures forall j :: 0 <= j < PieceLength(s, delims) ==> s[j] !in delims
    ensures PieceLength(s, delims) < |s| ==> s[PieceLength(s, delims)] in delims
  {
    if s != [] && s[0] !in delims {
      PieceLengthSpec(s[1..], delims);
    }
  }

  /** Length of the longest prefix of `s` made only of `delims`. */
  function RunLength(s: string, delims: set<char>): (k: nat)
    ensures k <= |s|
  {
    if s == [] || s[0] !in delims then 0
    else 1 + RunLength(s[1..], delims)
  }

  /** The prefix `RunLength` measures is all delimiters and maximal. */
  lemma {:induction false} RunLengthSpec(s: string, delims: set<char>)
    ensures forall j :: 0 <= j < RunLength(s, delims) ==> s[j] in delims
    ensures RunLength(s, delims) < |s| ==> s[RunLength(s, delims)] !in delims
  {
    if s != [] && s[0] in delims {
      RunLengthSpec(s[1..], delims);
    }
  }

  /** `re.split('[' + delims + ']+', s)`: the pieces of `s` between maximal
      runs of delimiters, including an empty first piece when `s` starts with
      a delimiter and an empty last piece when it ends with one. */
  function SplitRuns(s: string, delims: set<char>): seq<string>
    decreases |s|
  {
    var k := PieceLength(s, delims);
    if k == |s| then [s]
    else
      var r := RunLength(s[k..], delims);
      [s[..k]] + SplitRuns(s[k + r..], delims)
  }

  /** The maximal delimiter runs that `SplitRuns` cuts `s` at, in order. */
  function Separators(s: string, delims: set<char>): seq<string>
    decreases |s|
  {
    var k := PieceLength(s, delims);
    if k == |s| then []
    else
      var r := RunLength(s[k..], delims);
      [s[k..k + r]] + Separators(s[k + r..], delims)
  }

  /** `separa_sentencas`: split on runs of `.!?` and drop a single trailing
      empty piece. */
  function SplitSentences(text: string): seq<string>
  {
    var pieces := SplitRuns(text, SentenceDelims);
    if pieces[|pieces| - 1] == "" then pieces[..|pieces| - 1] else pieces
  }

  /** `separa_frases`: split on runs of `,:;`, keeping empty pieces. */
  function SplitClauses(sentence: string): seq<string>
  {
    SplitRuns(sentence, ClauseDelims)
  }

  /** `separa_palavras`, i.e. Python's `str.split()`: skip whitespace, take
      the next maximal run of non-whitespace as a word, repeat. */
  function SplitWords(clause: string): seq<string>
    decreases |clause|
  {
    var t := clause[RunLength(clause, Whitespace)..];
    if t == [] then []
    else
      var k := PieceLength(t, Whitespace);
      [t[..k]] + SplitWords(t[k..])
  }

  /** A split of `s` at `delims` is exact: its pieces, interleaved with
      maximal non-empty delimiter runs, give back `s`; no piece holds a
      delimiter and no piece between two runs is empty. */
  predicate IsRunSplit(s: string, delims: set<char>, pieces: seq<string>, seps: seq<string>)
  {
    && |pieces| == |seps| + 1
    && Weave(pieces, seps) == s
    && (forall i :: 0 <= i < |pieces| ==> NoneIn(pieces[i], delims))
    && (forall i :: 0 < i < |pieces| - 1 ==> pieces[i] != [])
    && (forall i :: 0 <= i < |seps| ==> seps[i] != [] && AllIn(seps[i], delims))
  }

  /** One step of `SplitRuns` and `Separators` on a string holding a
      delimiter: a piece, a maximal run, and the rest. */
  lemma SplitRunsStep(s: string, delims: set<char>, k: nat, r: nat)
    requires k == PieceLength(s, delims) < |s|
    requires r == RunLength(s[k..], delims)
    ensures 0 < r && k + r <= |s|
    ensures SplitRuns(s, delims) == [s[..k]] + SplitRuns(s[k + r..], delims)
    ensures Separators(s, delims) == [s[k..k + r]] + Separators(s[k + r..], delims)
  {
    PieceLengthSpec(s, delims);
    assert s[k..][0] == s[k];
  }

  /** The string facts behind one step: `s` is the piece, the run and the
      rest; the run is all delimiters and the rest does not start with one. */
  lemma StepCuts(s: string, delims: set<char>, k: nat, r: nat)
    requires k == PieceLength(s, delims) < |s|
    requires r == RunLength(s[k..], delims)
    ensures 0 < r && k + r <= |s|
    ensures s == s[..k] + s[k..k + r] + s[k + r..]
    ensures k + r < |s| ==> s[k + r] !in delims
    ensures AllIn(s[k..k + r], delims)
  {
    SplitRunsStep(s, delims, k, r);
    var t := s[k..];
    RunLengthSpec(t, delims);
    var run := s[k..k + r];
    forall j | 0 <= j < r ensures run[j] in delims {
      assert run[j] == t[j];
    }
    if k + r < |s| {
      assert t[r] == s[k + r];
    }
  }

  lemma {:induction false} SplitRunsLengths(s: string, delims: set<char>)
    ensures |SplitRuns(s, delims)| == |Separators(s, delims)| + 1
    ensures Weave(SplitRuns(s, delims), Separators(s, delims)) == s
    decreases |s|
  {
    var k := PieceLength(s, delims);
    if k < |s| {
      var r := RunLength(s[k..], delims);
      SplitRunsStep(s, delims, k, r);
      StepCuts(s, delims, k, r);
      var rest := s[k + r..];
      SplitRunsLengths(rest, delims);
      var p, q := SplitRuns(s, delims), Separators(s, delims);
      assert p[0] == s[..k] && p[1..] == SplitRuns(rest, delims);
      assert q[0] == s[k..k + r] && q[1..] == Separators(rest, delims);
      assert Weave(p, q) == s[..k] + s[k..k + r] + Weave(SplitRuns(rest, delims), Separators(rest, delims));
    }
  }

  lemma {:induction false} SplitRunsPieces(s: string, delims: set<char>)
    ensures forall i :: 0 <= i < |SplitRuns(s, delims)| ==> NoneIn(SplitRuns(s, delims)[i], delims)
    ensures forall i :: 0 <= i < |Separators(s, delims)| ==>
      Separators(s, delims)[i] != [] && AllIn(Separators(s, delims)[i], delims)
    decreases |s|
  {
    var k := PieceLength(s, delims);
    PieceLengthSpec(s, delims);
    if k < |s| {
      var r := RunLength(s[k..], delims);
      SplitRunsStep(s, delims, k, r);
      StepCuts(s, delims, k, r);
      SplitRunsPieces(s[k + r..], delims);
      var piece := s[..k];
      assert NoneIn(piece, delims) by {
        forall j | 0 <= j < k ensures piece[j] !in delims {
          assert piece[j] == s[j];
        }
      }
    }
  }

  lemma {:induction false} SplitRunsInterior(s: string, delims: set<char>)
    ensures forall i :: 0 < i < |SplitRuns(s, delims)| - 1 ==> SplitRuns(s, delims)[i] != []
    decreases |s|
  {
    var k := PieceLength(s, delims);
    if k < |s| {
      var r := RunLength(s[k..], delims);
      SplitRunsStep(s, delims, k, r);
      StepCuts(s, delims, k, r);
      var rest := s[k + r..];
      SplitRunsInterior(rest, delims);
      var p := SplitRuns(rest, delims);
      if |p| > 1 {
        // `rest` does not start with a delimiter and is not empty, so its
        // first piece is not empty.
        assert rest != [] && rest[0] == s[k + r];
        assert PieceLength(rest, delims) > 0;
        assert p[0] == rest[..PieceLength(rest, delims)];
      }
    }
  }

  /** `SplitRuns` together with `Separators` is an exact split of `s`. */
  lemma SplitRunsIsRunSplit(s: string, delims: set<char>)
    ensures IsRunSplit(s, delims, SplitRuns(s, delims), Separators(s, delims))
  {
    SplitRunsLengths(s, delims);
    SplitRunsPieces(s, delims);
    SplitRunsInterior(s, delims);
  }

  /** The pieces of a run split, concatenated, are `s` with its delimiters
      removed: nothing but delimiters is lost. */
  lemma SplitRunsKeepsText(s: string, delims: set<char>)
    ensures Concat(SplitRuns(s, delims)) == Remove(s, delims)
  {
    SplitRunsIsRunSplit(s, delims);
    RemoveWeave(SplitRuns(s, delims), Separators(s, delims), delims);
  }

  /** A run split has at least one piece; it is the single piece `""` only
      for the empty string. */
  lemma {:induction false} SplitRunsNonEmpty(s: string, delims: set<char>)
    ensures |SplitRuns(s, delims)| >= 1
    ensures SplitRuns(s, delims) == [""] <==> s == ""
  {
    var k := PieceLength(s, delims);
    if k < |s| {
      var r := RunLength(s[k..], delims);
      SplitRunsNonEmpty(s[k + r..], delims);
    }
  }

  /** A run split whose last two pieces are empty has just those two
      pieces, and then `s` is one run of delimiters. */
  lemma {:induction false} RunSplitTwoEmpty(s: string, delims: set<char>, pieces: seq<string>, seps: seq<string>)
    requires IsRunSplit(s, delims, pieces, seps)
    requires |pieces| >= 2 && pieces[|pieces| - 1] == "" && pieces[|pieces| - 2] == ""
    ensures |pieces| == 2 && s != "" && AllIn(s, delims)
  {
    assert pieces[1..] == [pieces[1]];
    assert Weave(pieces, seps) == pieces[0] + seps[0] + Weave(pieces[1..], seps[1..]);
    assert s == seps[0];
  }

  /** A non-empty string of delimiters only splits into two empty pieces. */
  lemma SplitRunsAllDelims(s: string, delims: set<char>)
    requires s != "" && AllIn(s, delims)
    ensures SplitRuns(s, delims) == ["", ""]
  {
    assert PieceLength(s, delims) == 0;
    assert s[0..] == s;
    RunLengthSpec(s, delims);
    assert RunLength(s, delims) == |s|;
    assert SplitRuns([], delims) == [[]];
  }

  /** No sentence of `separa_sentencas` holds `.`, `!` or `?`, and the
      sentences concatenated are the text without its terminators. */
  lemma SentencesKeepText(text: string)
    ensures forall i :: 0 <= i < |SplitSentences(text)| ==> NoneIn(SplitSentences(text)[i], SentenceDelims)
    ensures Concat(SplitSentences(text)) == Remove(text, SentenceDelims)
  {
    var pieces := SplitRuns(text, SentenceDelims);
    SplitRunsPieces(text, SentenceDelims);
    SplitRunsNonEmpty(text, SentenceDelims);
    SplitRunsKeepsText(text, SentenceDelims);
    var n := |pieces|;
    if pieces[n - 1] == "" {
      var kept := pieces[..n - 1];
      assert pieces == kept + [""];
      ConcatAppend(kept, [""]);
      assert Concat([""]) == "";
    }
  }

  /** `separa_sentencas` gives the empty list exactly for the empty text. */
  lemma SentencesEmpty(text: string)
    ensures SplitSentences(text) == [] <==> text == ""
  {
    SplitRunsNonEmpty(text, SentenceDelims);
  }

  /** The trailing delete removes only one empty piece: the last sentence is
      empty only when the whole result is `[""]`, which happens exactly for a
      non-empty text made only of terminators (such as `"..."`). */
  lemma SentencesLast(text: string)
    ensures SplitSentences(text) != [] && SplitSentences(text)[|SplitSentences(text)| - 1] == ""
      ==> SplitSentences(text) == [""]
    ensures SplitSentences(text) == [""] <==> text != "" && AllIn(text, SentenceDelims)
  {
    var pieces := SplitRuns(text, SentenceDelims);
    var seps := Separators(text, SentenceDelims);
    SplitRunsIsRunSplit(text, SentenceDelims);
    SplitRunsNonEmpty(text, SentenceDelims);
    var n := |pieces|;
    var sentences := SplitSentences(text);
    if sentences != [] && sentences[|sentences| - 1] == "" {
      // The last piece was dropped and the one before it is empty as well.
      assert pieces[n - 1] == "";
      assert n >= 2 && pieces[n - 2] == "";
      RunSplitTwoEmpty(text, SentenceDelims, pieces, seps);
    }
    if text != "" && AllIn(text, SentenceDelims) {
      SplitRunsAllDelims(text, SentenceDelims);
    }
  }

  /** Properties of `separa_frases`: at least one clause, and the clauses
      with the separator runs between them are an exact split of the
      sentence: no clause holds `,`, `:` or `;`, only the first and the last
      clause can be empty, and such empty clauses are kept. */
  lemma ClausesSplit(sentence: string)
    ensures |SplitClauses(sentence)| >= 1
    ensures IsRunSplit(sentence, ClauseDelims, SplitClauses(sentence), Separators(sentence, ClauseDelims))
  {
    SplitRunsNonEmpty(sentence, ClauseDelims);
    SplitRunsIsRunSplit(sentence, ClauseDelims);
  }

  /** The clauses concatenated are the sentence without its separators. */
  lemma ClausesKeepText(sentence: string)
    ensures Concat(SplitClauses(sentence)) == Remove(sentence, ClauseDelims)
  {
    SplitRunsKeepsText(sentence, ClauseDelims);
  }

  /** The non-empty strings of `ws`, in order. */
  function NonEmpty(ws: seq<string>): (r: seq<string>)
    ensures forall i :: 0 <= i < |r| ==> r[i] != []
  {
    if ws == [] then []
    else (if ws[0] == [] then [] else [ws[0]]) + NonEmpty(ws[1..])
  }

  /** Dropping leading whitespace does not change the words. */
  lemma SplitWordsSkipsSpace(s: string, r: nat)
    requires r == RunLength(s, Whitespace)
    ensures SplitWords(s[r..]) == SplitWords(s)
  {
    var t := s[r..];
    RunLengthSpec(s, Whitespace);
    if t != [] {
      assert t[0] == s[r];
    }
    assert RunLength(t, Whitespace) == 0;
    assert t[0..] == t;
  }

  /** On a string that starts with a word, `SplitWords` takes that word. */
  lemma SplitWordsTakesWord(s: string, k: nat)
    requires s != [] && s[0] !in Whitespace
    requires k == PieceLength(s, Whitespace)
    ensures 0 < k
    ensures SplitWords(s) == [s[..k]] + SplitWords(s[k..])
  {
    assert RunLength(s, Whitespace) == 0;
    assert s[0..] == s;
  }

  lemma NonEmptyCons(w: string, ws: seq<string>)
    ensures NonEmpty([w] + ws) == (if w == [] then [] else [w]) + NonEmpty(ws)
  {
    assert ([w] + ws)[1..] == ws;
  }

  /** `str.split()` is `re.split('\s+', s)` with its empty pieces removed. */
  lemma {:induction false} SplitWordsIsSplitRuns(s: string)
    ensures SplitWords(s) == NonEmpty(SplitRuns(s, Whitespace))
    decreases |s|
  {
    var k := PieceLength(s, Whitespace);
    if s == [] {
      assert SplitRuns(s, Whitespace) == [""];
      NonEmptyCons("", []);
    } else if k == |s| {
      // `s` is one word.
      SplitWordsTakesWord(s, k);
      assert s[..k] == s && s[k..] == [];
      NonEmptyCons(s, []);
    } else {
      var r := RunLength(s[k..], Whitespace);
      SplitRunsStep(s, Whitespace, k, r);
      var rest := s[k + r..];
      SplitWordsIsSplitRuns(rest);
      NonEmptyCons(s[..k], SplitRuns(rest, Whitespace));
      assert s[k..][r..] == rest;
      SplitWordsSkipsSpace(s[k..], r);
      if k == 0 {
        // `s` starts with whitespace: the first piece is empty.
        assert s[k..] == s;
      } else {
        // `s` starts with a word of length `k`.
        SplitWordsTakesWord(s, k);
      }
    }
  }

  lemma {:induction false} NonEmptyKeeps(ws: seq<string>, chars: set<char>)
    requires forall i :: 0 <= i < |ws| ==> NoneIn(ws[i], chars)
    ensures forall i :: 0 <= i < |NonEmpty(ws)| ==> NoneIn(NonEmpty(ws)[i], chars)
    ensures Concat(NonEmpty(ws)) == Concat(ws)
  {
    if ws != [] {
      NonEmptyKeeps(ws[1..], chars);
      var head := if ws[0] == [] then [] else [ws[0]];
      ConcatAppend(head, NonEmpty(ws[1..]));
      assert Concat([ws[0]]) == ws[0];
    }
  }

  /** Properties of `separa_palavras`: every word is non-empty and holds
      no whitespace. */
  lemma WordsClean(clause: string)
    ensures forall i :: 0 <= i < |SplitWords(clause)| ==> SplitWords(clause)[i] != ""
    ensures forall i :: 0 <= i < |SplitWords(clause)| ==> NoneIn(SplitWords(clause)[i], Whitespace)
  {
    SplitWordsIsSplitRuns(clause);
    SplitRunsPieces(clause, Whitespace);
    NonEmptyKeeps(SplitRuns(clause, Whitespace), Whitespace);
  }

  /** The words concatenated are the clause without its whitespace. */
  lemma WordsKeepText(clause: string)
    ensures Concat(SplitWords(clause)) == Remove(clause, Whitespace)
  {
    SplitWordsIsSplitRuns(clause);
    SplitRunsPieces(clause, Whitespace);
    NonEmptyKeeps(SplitRuns(clause, Whitespace), Whitespace);
    SplitRunsKeepsText(clause, Whitespace);
  }

  /** A delimiter-free prefix is measured in full by `PieceLength` when a
      delimiter or nothing follows it. */
  lemma {:induction false} PieceLengthPrefix(w: string, rest: string, delims: set<char>)
    requires NoneIn(w, delims)
    requires rest != [] ==> rest[0] in delims
    ensures PieceLength(w + rest, delims) == |w|
  {
    if w == [] {
      assert w + rest == rest;
    } else {
      assert (w + rest)[0] == w[0];
      assert (w + rest)[1..] == w[1..] + rest;
      PieceLengthPrefix(w[1..], rest, delims);
    }
  }

  /** One sentence closed by a run of terminators gives just that sentence:
      the terminators and the trailing empty piece both go. */
  lemma SentenceWithTerminators(w: string, d: string)
    requires NoneIn(w, SentenceDelims)
    requires d != [] && AllIn(d, SentenceDelims)
    ensures SplitSentences(w + d) == [w]
  {
    var s := w + d;
    PieceLengthPrefix(w, d, SentenceDelims);
    assert s[..|w|] == w && s[|w|..] == d;
    RunLengthSpec(d, SentenceDelims);
    assert s[|w| + |d|..] == [];
    SplitRunsStep(s, SentenceDelims, |w|, |d|);
    assert SplitRuns([], SentenceDelims) == [[]];
  }

  /** `separa_sentencas("Hello world.")` is `["Hello world"]`. */
  lemma SentencesExample()
    ensures SplitSentences("Hello world.") == ["Hello world"]
  {
    assert "Hello world." == "Hello world" + ".";
    SentenceWithTerminators("Hello world", ".");
  }
}
