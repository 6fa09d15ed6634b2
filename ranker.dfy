/** `avalia_textos` of coh_piah.py: the 1-based index of the text whose
    signature is closest to a reference signature, the first one on a tie. */
module Ranker {
  import opened Signature
  import opened Comparator

  datatype Option<T> = None | Some(value: T)

  /** The distance of one text to the reference signature, with the text's
      signature as the first argument, as the source calls it. */
  function TextDistance(text: string, reference: seq<real>): real
  {
    Distance(SignatureOf(text), reference)
  }

  /** `[f(xs[0]), ..., f(xs[|xs| - 1])]`. */
  function MapTexts(xs: seq<string>, f: string -> real): (r: seq<real>)
    ensures |r| == |xs|
  {
    if xs == [] then [] else MapTexts(xs[..|xs| - 1], f) + [f(xs[|xs| - 1])]
  }

  lemma {:induction false} MapTextsAt(xs: seq<string>, f: string -> real, j: nat)
    requires j < |xs|
    ensures MapTexts(xs, f)[j] == f(xs[j])
  {
    if j < |xs| - 1 {
      MapTextsAt(xs[..|xs| - 1], f, j);
    }
  }

  /** The distances of all texts to the reference, in order. */
  function Distances(texts: seq<string>, reference: seq<real>): (ds: seq<real>)
    ensures |ds| == |texts|
  {
    MapTexts(texts, t => TextDistance(t, reference))
  }

  /** The `j`-th distance is that of the `j`-th text. */
  lemma DistancesAt(texts: seq<string>, reference: seq<real>, j: nat)
    requires j < |texts|
    ensures Distances(texts, reference)[j] == TextDistance(texts[j], reference)
  {
    MapTextsAt(texts, t => TextDistance(t, reference), j);
  }

  /** `k` is the first position of a least value of `ds`: no value is
      smaller, and every earlier value is larger. */
  predicate IsFirstMin(ds: seq<real>, k: nat)
  {
    && k < |ds|
    && (forall j :: 0 <= j < |ds| ==> ds[k] <= ds[j])
    && (forall j :: 0 <= j < k ==> ds[k] < ds[j])
  }

  /** One step of the scan: the text at 1-based position `i`, at distance
      `d`, becomes the best when there is none yet or it is strictly closer. */
  function Keep(state: (nat, Option<real>), i: nat, d: real): (nat, Option<real>)
  {
    if state.1 == None || d < state.1.value then (i, Some(d)) else state
  }

  /** The scan over the distances `ds`, in order, from the initial state
      `(1, None)`: the best 1-based index and its distance. */
  function Scan(ds: seq<real>): (nat, Option<real>)
  {
    if ds == [] then (1, None) else Keep(Scan(ds[..|ds| - 1]), |ds|, ds[|ds| - 1])
  }

  /** Scanning one more distance is one more step. */
  lemma ScanSnoc(ds: seq<real>, d: real)
    ensures Scan(ds + [d]) == Keep(Scan(ds), |ds| + 1, d)
  {
    assert (ds + [d])[..|ds|] == ds;
  }

  /** The scan finds the first least distance: its index is in range, its
      distance is the value there, no distance is smaller and every earlier
      one is larger. */
  lemma {:induction false} ScanFirstMin(ds: seq<real>)
    ensures ds == [] ==> Scan(ds) == (1, None)
    ensures ds != [] ==> 1 <= Scan(ds).0 <= |ds| && Scan(ds).1 == Some(ds[Scan(ds).0 - 1])
    ensures ds != [] ==> IsFirstMin(ds, Scan(ds).0 - 1)
  {
    if ds != [] {
      var init, d := ds[..|ds| - 1], ds[|ds| - 1];
      ScanFirstMin(init);
      assert ds == init + [d];
      if init == [] {
        assert IsFirstMin(ds, 0);
      } else {
        FirstMinExtend(init, Scan(init).0 - 1, d);
      }
    }
  }

  /** `avalia_textos(textos, ass_cp)`: scan the texts in order, keeping the
      least distance seen (`None` before the first text) and its 1-based
      index; a later text replaces it only when strictly closer. With no
      texts the initial index 1 is returned. */
  method Rank(texts: seq<string>, reference: seq<real>) returns (best: nat)
    ensures texts == [] ==> best == 1
    ensures texts != [] ==> 1 <= best <= |texts| && IsFirstMin(Distances(texts, reference), best - 1)
  {
    best := 1;
    var bestDist: Option<real> := None;
    ghost var seen: seq<real> := [];
    for i := 0 to |texts|
      invariant seen == Distances(texts[..i], reference)
      invariant (best, bestDist) == Scan(seen)
    {
      var signature := ComputeSignature(texts[i]);
      var dist := CompareSignatures(signature, reference);
      DistancesSnoc(texts, reference, i, dist);
      ScanSnoc(seen, dist);
      if bestDist == None || dist < bestDist.value {
        bestDist := Some(dist);
        best := i + 1;
      }
      seen := seen + [dist];
    }
    assert texts[..|texts|] == texts;
    ScanFirstMin(seen);
  }

  /** Mapping over one more text appends its image. */
  lemma MapTextsSnoc(xs: seq<string>, f: string -> real, i: nat)
    requires i < |xs|
    ensures MapTexts(xs[..i + 1], f) == MapTexts(xs[..i], f) + [f(xs[i])]
  {
    assert xs[..i + 1][..i] == xs[..i];
  }

  /** The distances of one more text: the loop body's step. */
  lemma DistancesSnoc(texts: seq<string>, reference: seq<real>, i: nat, dist: real)
    requires i < |texts| && dist == Distance(SignatureOf(texts[i]), reference)
    ensures Distances(texts[..i + 1], reference) == Distances(texts[..i], reference) + [dist]
  {
    MapTextsSnoc(texts, t => TextDistance(t, reference), i);
  }

  /** Appending a value keeps the first least position unless the new value
      is strictly smaller, in which case the new position becomes it. */
  lemma FirstMinExtend(ds: seq<real>, k: nat, d: real)
    requires IsFirstMin(ds, k)
    ensures d < ds[k] ==> IsFirstMin(ds + [d], |ds|)
    ensures !(d < ds[k]) ==> IsFirstMin(ds + [d], k)
  {
  }

  /** The first least value is unique. */
  lemma FirstMinUnique(ds: seq<real>, k: nat, k': nat)
    requires IsFirstMin(ds, k) && IsFirstMin(ds, k')
    ensures k == k'
  {
    assert ds[k] <= ds[k'] && ds[k'] <= ds[k];
  }

  /** When the reference is the signature of one of the texts, the chosen
      text is at distance 0 and comes no later than that text. */
  lemma ExactMatchWins(texts: seq<string>, reference: seq<real>, k: nat, m: nat)
    requires IsFirstMin(Distances(texts, reference), k)
    requires m < |texts| && SignatureOf(texts[m]) == reference
    ensures Distances(texts, reference)[k] == 0.0
    ensures k <= m
  {
    var ds := Distances(texts, reference);
    DistancesAt(texts, reference, m);
    DistanceZero(reference, reference);
    assert ds[m] == 0.0;
    DistancesNonNegative(texts, reference, k);
  }

  lemma DistancesNonNegative(texts: seq<string>, reference: seq<real>, j: nat)
    requires j < |texts|
    ensures Distances(texts, reference)[j] >= 0.0
  {
    DistancesAt(texts, reference, j);
    DistanceProperties(SignatureOf(texts[j]), reference);
  }
}
