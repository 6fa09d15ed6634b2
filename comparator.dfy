/** `compara_assinatura` of coh_piah.py: the mean absolute difference of two
    signatures over the components they both have. Signature values are
    exact rationals (`real`). */
module Comparator {

  function Abs(x: real): real
  {
    if x < 0.0 then -x else x
  }

  function Min(a: nat, b: nat): nat
  {
    if a <= b then a else b
  }

  /** `abs(a[0] - b[0]) + ... + abs(a[n-1] - b[n-1])`. */
  function SumAbsDiff(a: seq<real>, b: seq<real>, n: nat): real
    requires n <= |a| && n <= |b|
  {
    if n == 0 then 0.0
    else SumAbsDiff(a, b, n - 1) + Abs(a[n - 1] - b[n - 1])
  }

  /** The distance the source computes: 0 when either signature is empty,
      otherwise the sum of absolute differences over the shared components
      divided by their number. */
  function Distance(a: seq<real>, b: seq<real>): real
  {
    var n := Min(|a|, |b|);
    if n == 0 then 0.0 else SumAbsDiff(a, b, n) / n as real
  }

  /** `compara_assinatura(as_a, as_b)`: accumulate `soma` in a loop. */
  method CompareSignatures(a: seq<real>, b: seq<real>) returns (d: real)
    ensures d == Distance(a, b)
  {
    var n := Min(|a|, |b|);
    if n == 0 {
      return 0.0;
    }
    var soma := 0.0;
    for i := 0 to n
      invariant soma == SumAbsDiff(a, b, i)
    {
      soma := soma + Abs(a[i] - b[i]);
    }
    d := soma / n as real;
  }

  lemma {:induction false} SumAbsDiffProperties(a: seq<real>, b: seq<real>, n: nat)
    requires n <= |a| && n <= |b|
    ensures SumAbsDiff(a, b, n) >= 0.0
    ensures SumAbsDiff(a, b, n) == SumAbsDiff(b, a, n)
    ensures SumAbsDiff(a, b, n) == 0.0 <==> a[..n] == b[..n]
  {
    if n > 0 {
      SumAbsDiffProperties(a, b, n - 1);
      assert a[..n] == a[..n - 1] + [a[n - 1]];
      assert b[..n] == b[..n - 1] + [b[n - 1]];
      if a[..n] == b[..n] {
        assert a[..n - 1] == a[..n][..n - 1];
        assert b[..n - 1] == b[..n][..n - 1];
        assert a[n - 1] == a[..n][n - 1];
      }
    }
  }

  /** The distance is never negative, is 0 when either signature is empty,
      and does not depend on the order of its arguments. */
  lemma DistanceProperties(a: seq<real>, b: seq<real>)
    ensures Distance(a, b) >= 0.0
    ensures a == [] || b == [] ==> Distance(a, b) == 0.0
    ensures Distance(a, b) == Distance(b, a)
  {
    SumAbsDiffProperties(a, b, Min(|a|, |b|));
  }

  /** The distance is 0 exactly when the signatures agree on every shared
      component; in particular `Distance(s, s) == 0`. */
  lemma DistanceZero(a: seq<real>, b: seq<real>)
    ensures Distance(a, b) == 0.0 <==> a[..Min(|a|, |b|)] == b[..Min(|a|, |b|)]
    ensures Distance(a, a) == 0.0
  {
    SumAbsDiffProperties(a, b, Min(|a|, |b|));
    SumAbsDiffProperties(a, a, |a|);
  }
}
