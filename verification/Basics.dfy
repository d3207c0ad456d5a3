// Sequences and numbers that several modules use.
module Basics {

  datatype Option<T> = None | Some(value: T)

  function Pow2(n: nat): (p: nat)
    ensures p > 0
  {
    if n == 0 then 1 else 2 * Pow2(n - 1)
  }

  ghost predicate NoDup(s: seq<nat>) {
    forall i, j :: 0 <= i < j < |s| ==> s[i] != s[j]
  }

  // The sequence with x in front of place i.
  function With(s: seq<nat>, i: nat, x: nat): (r: seq<nat>)
    requires i <= |s|
    ensures |r| == |s| + 1
  {
    s[..i] + [x] + s[i..]
  }

  // The sequence without place i.
  function Without(s: seq<nat>, i: nat): (r: seq<nat>)
    requires i < |s|
    ensures |r| == |s| - 1
  {
    s[..i] + s[i + 1..]
  }

  // A sequence without repetition has at most as many numbers below n as there are.
  lemma {:induction false} Pigeonhole(s: seq<nat>, n: nat)
    requires NoDup(s) && forall k | 0 <= k < |s| :: s[k] < n
    ensures |s| <= n
  {
    if s != [] {
      assert s[0] < n;
      if n - 1 in s {
        var k :| 0 <= k < |s| && s[k] == n - 1;
        Pigeonhole(s[..k] + s[k + 1..], n - 1);
      } else {
        Pigeonhole(s, n - 1);
      }
    }
  }

  lemma AtLeast(d: nat, n: nat)
    requires n > 0
    ensures d * n >= d
  {
  }

  // Quotient and rest are unique.
  lemma QuotientIs(x: nat, d: nat, k: nat, r: nat)
    requires x == d * k + r && r < d
    ensures x / d == k && x % d == r
  {
    var q, e := x / d, x % d;
    Differ(d, k, q, r, e);
  }

  lemma Differ(d: nat, k: nat, q: nat, r: nat, e: nat)
    requires d * k + r == d * q + e && r < d && e < d
    ensures k == q && r == e
  {
    if k > q {
      Larger(d, k, q);
    } else if k < q {
      Larger(d, q, k);
    }
  }

  lemma Larger(d: nat, k: nat, q: nat)
    requires k > q
    ensures d * k >= d * q + d
  {
    AtLeast(d, k - q);
    assert d * k == d * q + d * (k - q);
  }
}
