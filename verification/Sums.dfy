/** Powers of two, binary digits, and finite sums over sequences. */
module Sums {

  function Pow2(n: nat): (r: nat)
    ensures r >= 1
  {
    if n == 0 then 1 else 2 * Pow2(n - 1)
  }

  /** The last n bits of v, the most significant one first. */
  function Digits(v: nat, n: nat): (s: seq<bool>)
    ensures |s| == n
  {
    if n == 0 then [] else Digits(v / 2, n - 1) + [v % 2 == 1]
  }

  function Sum(s: seq<int>): int {
    if |s| == 0 then 0 else Sum(s[..|s| - 1]) + s[|s| - 1]
  }

  lemma {:induction false} SumUpdate(s: seq<int>, i: nat, v: int)
    requires i < |s|
    ensures Sum(s[i := v]) == Sum(s) - s[i] + v
  {
    var n := |s| - 1;
    if i == n {
      assert s[i := v][..n] == s[..n];
    } else {
      assert s[i := v][..n] == s[..n][i := v];
      SumUpdate(s[..n], i, v);
    }
  }

  /** Sums of sequences that differ in one, two or three places only. */
  lemma {:induction false} SumOne(t: seq<int>, u: seq<int>, x: nat)
    requires x < |t| == |u| && forall i | 0 <= i < |t| && i != x :: u[i] == t[i]
    ensures Sum(u) - Sum(t) == u[x] - t[x]
  {
    SumUpdate(t, x, u[x]);
    assert t[x := u[x]] == u;
  }

  lemma {:induction false} SumTwo(t: seq<int>, u: seq<int>, x: nat, y: nat)
    requires x < |t| == |u| && y < |t| && x != y
    requires forall i | 0 <= i < |t| && i != x && i != y :: u[i] == t[i]
    ensures Sum(u) - Sum(t) == u[x] + u[y] - t[x] - t[y]
  {
    SumUpdate(t, x, u[x]);
    SumOne(t[x := u[x]], u, y);
  }

  lemma {:induction false} SumThree(t: seq<int>, u: seq<int>, x: nat, y: nat, z: nat)
    requires x < |t| == |u| && y < |t| && z < |t| && x != y && x != z && y != z
    requires forall i | 0 <= i < |t| && i != x && i != y && i != z :: u[i] == t[i]
    ensures Sum(u) - Sum(t) == u[x] + u[y] + u[z] - t[x] - t[y] - t[z]
  {
    SumUpdate(t, x, u[x]);
    SumTwo(t[x := u[x]], u, y, z);
  }

  lemma {:induction false} SumAdd(a: seq<int>, b: seq<int>, c: seq<int>)
    requires |a| == |b| == |c|
    requires forall i | 0 <= i < |a| :: c[i] == a[i] + b[i]
    ensures Sum(c) == Sum(a) + Sum(b)
  {
    if |a| > 0 {
      var n := |a| - 1;
      SumAdd(a[..n], b[..n], c[..n]);
    }
  }

  lemma {:induction false} SumScale(a: seq<int>, k: int, c: seq<int>)
    requires |a| == |c|
    requires forall i | 0 <= i < |a| :: c[i] == k * a[i]
    ensures Sum(c) == k * Sum(a)
  {
    if |a| > 0 {
      var n := |a| - 1;
      SumScale(a[..n], k, c[..n]);
      assert k * (Sum(a[..n]) + a[n]) == k * Sum(a[..n]) + k * a[n];
    }
  }

  lemma {:induction false} SumZero(a: seq<int>)
    requires forall i | 0 <= i < |a| :: a[i] == 0
    ensures Sum(a) == 0
  {
    if |a| > 0 {
      SumZero(a[..|a| - 1]);
    }
  }

  lemma {:induction false} SumNonNegative(a: seq<int>)
    requires forall i | 0 <= i < |a| :: a[i] >= 0
    ensures Sum(a) >= 0
  {
    if |a| > 0 {
      SumNonNegative(a[..|a| - 1]);
    }
  }

  /** A term of a sum of non-negative terms is at most the sum; two different terms together are, too. */
  lemma {:induction false} SumAtLeastTerm(a: seq<int>, i: nat)
    requires i < |a|
    requires forall k | 0 <= k < |a| :: a[k] >= 0
    ensures a[i] <= Sum(a)
  {
    SumUpdate(a, i, 0);
    SumNonNegative(a[i := 0]);
  }

  lemma {:induction false} SumEven(a: seq<int>)
    requires forall i | 0 <= i < |a| :: a[i] % 2 == 0
    ensures Sum(a) % 2 == 0
  {
    if |a| > 0 {
      SumEven(a[..|a| - 1]);
    }
  }

  lemma {:induction false} SumMonotone(a: seq<int>, b: seq<int>)
    requires |a| == |b| && forall i | 0 <= i < |a| :: a[i] <= b[i]
    ensures Sum(a) <= Sum(b)
  {
    if |a| > 0 {
      var n := |a| - 1;
      SumMonotone(a[..n], b[..n]);
    }
  }
}
