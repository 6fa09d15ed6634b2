/** Character-level helpers shared by the tokenizer and the signature:
    filtering characters out of a string, concatenating a list of strings,
    and interleaving pieces with separators. */
module Strings {

  /** True if no character of `w` belongs to `chars`. */
  predicate NoneIn(w: string, chars: set<char>)
  {
    forall j :: 0 <= j < |w| ==> w[j] !in chars
  }

  /** True if every character of `w` belongs to `chars`. */
  predicate AllIn(w: string, chars: set<char>)
  {
    forall j :: 0 <= j < |w| ==> w[j] in chars
  }

  /** `s` with every character of `chars` deleted, order kept. */
  function Remove(s: string, chars: set<char>): (r: string)
    ensures |r| <= |s|
    ensures NoneIn(r, chars)
  {
    if s == [] then []
    else (if s[0] in chars then [] else [s[0]]) + Remove(s[1..], chars)
  }

  /** The strings of `ws` written one after another. */
  function Concat(ws: seq<string>): string
  {
    if ws == [] then [] else ws[0] + Concat(ws[1..])
  }

  /** Sum of the lengths of the strings of `ws` (Python's `sum(len(x) for x in ws)`). */
  function TotalLength(ws: seq<string>): nat
  {
    if ws == [] then 0 else |ws[0]| + TotalLength(ws[1..])
  }

  /** `pieces[0] + seps[0] + pieces[1] + ... + seps[k-1] + pieces[k]`. */
  function Weave(pieces: seq<string>, seps: seq<string>): string
    requires |pieces| == |seps| + 1
  {
    if seps == [] then pieces[0]
    else pieces[0] + seps[0] + Weave(pieces[1..], seps[1..])
  }

  lemma {:induction false} RemoveAppend(a: string, b: string, chars: set<char>)
    ensures Remove(a + b, chars) == Remove(a, chars) + Remove(b, chars)
  {
    if a != [] {
      assert (a + b)[1..] == a[1..] + b;
      RemoveAppend(a[1..], b, chars);
    } else {
      assert a + b == b;
    }
  }

  lemma {:induction false} RemoveNoneIn(w: string, chars: set<char>)
    requires NoneIn(w, chars)
    ensures Remove(w, chars) == w
  {
    if w != [] {
      RemoveNoneIn(w[1..], chars);
    }
  }

  lemma {:induction false} RemoveAllIn(w: string, chars: set<char>)
    requires AllIn(w, chars)
    ensures Remove(w, chars) == []
  {
    if w != [] {
      RemoveAllIn(w[1..], chars);
    }
  }

  /** Removing the separators from a weave leaves the pieces, concatenated. */
  lemma {:induction false} RemoveWeave(pieces: seq<string>, seps: seq<string>, chars: set<char>)
    requires |pieces| == |seps| + 1
    requires forall i :: 0 <= i < |pieces| ==> NoneIn(pieces[i], chars)
    requires forall i :: 0 <= i < |seps| ==> AllIn(seps[i], chars)
    ensures Remove(Weave(pieces, seps), chars) == Concat(pieces)
  {
    RemoveNoneIn(pieces[0], chars);
    if seps == [] {
      assert pieces[1..] == [];
    } else {
      RemoveAllIn(seps[0], chars);
      RemoveWeave(pieces[1..], seps[1..], chars);
      RemoveAppend(pieces[0] + seps[0], Weave(pieces[1..], seps[1..]), chars);
      RemoveAppend(pieces[0], seps[0], chars);
    }
  }

  lemma {:induction false} ConcatAppend(a: seq<string>, b: seq<string>)
    ensures Concat(a + b) == Concat(a) + Concat(b)
  {
    if a != [] {
      assert (a + b)[1..] == a[1..] + b;
      ConcatAppend(a[1..], b);
    } else {
      assert a + b == b;
    }
  }

  lemma {:induction false} TotalLengthAppend(a: seq<string>, b: seq<string>)
    ensures TotalLength(a + b) == TotalLength(a) + TotalLength(b)
  {
    if a != [] {
      assert (a + b)[1..] == a[1..] + b;
      TotalLengthAppend(a[1..], b);
    } else {
      assert a + b == b;
    }
  }

  /** The total length of a list of strings is the length of their concatenation. */
  lemma {:induction false} TotalLengthConcat(ws: seq<string>)
    ensures TotalLength(ws) == |Concat(ws)|
  {
    if ws != [] {
      TotalLengthConcat(ws[1..]);
    }
  }
}
