/** Sums of real sequences, and the facts the renderer needs about them:
    splitting, reversal, and invariance under a permutation of positions. */
module Sums {

  /** Left-to-right sum, the order in which `std::partial_sum` accumulates. */
  function SumReal(s: seq<real>): real
  {
    if |s| == 0 then 0.0 else SumReal(s[..|s| - 1]) + s[|s| - 1]
  }

  /** `s` read at the positions `ps`. */
  function Gather<T>(s: seq<T>, ps: seq<nat>): (g: seq<T>)
    requires forall t | 0 <= t < |ps| :: ps[t] < |s|
    ensures |g| == |ps|
    ensures forall t | 0 <= t < |ps| :: g[t] == s[ps[t]]
  {
    seq(|ps|, t requires 0 <= t < |ps| => s[ps[t]])
  }

  lemma GatherConcat<T>(s: seq<T>, a: seq<nat>, b: seq<nat>)
    requires forall t | 0 <= t < |a| :: a[t] < |s|
    requires forall t | 0 <= t < |b| :: b[t] < |s|
    ensures Gather(s, a + b) == Gather(s, a) + Gather(s, b)
  {
  }

  /** Positions inside a prefix read the same from the prefix. */
  lemma GatherPrefix<T>(s: seq<T>, n: nat, a: seq<nat>)
    requires n <= |s| && forall t | 0 <= t < |a| :: a[t] < n
    ensures Gather(s, a) == Gather(s[..n], a)
  {
  }

  /** The sequence read back to front (`std::reverse`). */
  function Reverse<T>(s: seq<T>): (r: seq<T>)
    ensures |r| == |s|
    ensures forall i | 0 <= i < |s| :: r[i] == s[|s| - 1 - i]
  {
    seq(|s|, i requires 0 <= i < |s| => s[|s| - 1 - i])
  }

  /** A suffix of the reversal is the reversal of a prefix. */
  lemma ReverseSuffix<T>(s: seq<T>, r: nat)
    requires r <= |s|
    ensures Reverse(s)[r..] == Reverse(s[..|s| - r])
  {
  }

  lemma {:induction false} SumConcat(a: seq<real>, b: seq<real>)
    ensures SumReal(a + b) == SumReal(a) + SumReal(b)
    decreases |b|
  {
    if |b| == 0 {
      assert a + b == a;
    } else {
      var n := |b| - 1;
      assert (a + b)[..|a + b| - 1] == a + b[..n];
      SumConcat(a, b[..n]);
    }
  }

  lemma SumSingleton(x: real)
    ensures SumReal([x]) == x
  {
    assert [x][..0] == [];
  }

  /** Every element taken once: prefix, the element, suffix. */
  lemma SumSplitAt(s: seq<real>, m: nat)
    requires m < |s|
    ensures SumReal(s) == SumReal(s[..m]) + s[m] + SumReal(s[m + 1..])
  {
    assert s == s[..m] + [s[m]] + s[m + 1..];
    SumConcat(s[..m] + [s[m]], s[m + 1..]);
    SumConcat(s[..m], [s[m]]);
    SumSingleton(s[m]);
  }

  lemma {:induction false} SumReverse(s: seq<real>)
    ensures SumReal(Reverse(s)) == SumReal(s)
    decreases |s|
  {
    if |s| > 0 {
      var n := |s| - 1;
      assert Reverse(s) == [s[n]] + Reverse(s[..n]);
      SumConcat([s[n]], Reverse(s[..n]));
      SumSingleton(s[n]);
      SumReverse(s[..n]);
    }
  }

  ghost predicate DistinctPositions(ps: seq<nat>) {
    forall t, u | 0 <= t < u < |ps| :: ps[t] != ps[u]
  }

  /** `ps` lists every position below `n` exactly once, in some order. */
  ghost predicate IsPermutationOf(ps: seq<nat>, n: nat) {
    && DistinctPositions(ps)
    && (forall t | 0 <= t < |ps| :: ps[t] < n)
    && (forall k | 0 <= k < n :: k in ps)
  }

  /** Removing the occurrence of the largest position keeps a permutation. */
  lemma DropLargest(ps: seq<nat>, n: nat) returns (p: nat)
    requires n > 0 && IsPermutationOf(ps, n)
    ensures p < |ps| && ps[p] == n - 1
    ensures IsPermutationOf(ps[..p] + ps[p + 1..], n - 1)
  {
    assert n - 1 in ps;
    p :| 0 <= p < |ps| && ps[p] == n - 1;
    var rest := ps[..p] + ps[p + 1..];
    assert forall t | 0 <= t < |rest| :: rest[t] == if t < p then ps[t] else ps[t + 1];
    forall k | 0 <= k < n - 1
      ensures k in rest
    {
      assert k in ps;
      var q :| 0 <= q < |ps| && ps[q] == k;
      if q < p {
        assert rest[q] == k;
      } else {
        assert q != p;
        assert rest[q - 1] == k;
      }
    }
  }

  /** A permutation of the positions below `n` has exactly `n` entries. */
  lemma {:induction false} PermutationLength(ps: seq<nat>, n: nat)
    requires IsPermutationOf(ps, n)
    ensures |ps| == n
    decreases n
  {
    // Mentioning the first entry lets the solver see that, for n == 0, a
    // non-empty `ps` would hold a position below 0.
    var first := if |ps| > 0 then ps[0] else 0;
    if n > 0 {
      var p := DropLargest(ps, n);
      PermutationLength(ps[..p] + ps[p + 1..], n - 1);
    }
  }

  /** Reading `s` at a permutation with one position `p` taken out. */
  lemma GatherWithout(s: seq<real>, ps: seq<nat>, p: nat, rest: seq<nat>)
    requires |s| > 0 && p < |ps| && rest == ps[..p] + ps[p + 1..]
    requires forall t | 0 <= t < |ps| :: ps[t] < |s|
    requires forall t | 0 <= t < |rest| :: rest[t] < |s| - 1
    ensures var g := Gather(s, ps);
      Gather(s[..|s| - 1], rest) == g[..p] + g[p + 1..]
  {
    var g := Gather(s, ps);
    assert forall t | 0 <= t < |rest| :: rest[t] == if t < p then ps[t] else ps[t + 1];
  }

  /** Summing in any order that takes every position once gives the same total. */
  lemma {:induction false} SumPermutation(s: seq<real>, ps: seq<nat>)
    requires IsPermutationOf(ps, |s|)
    ensures SumReal(Gather(s, ps)) == SumReal(s)
    decreases |s|
  {
    var n := |s|;
    if n == 0 {
      PermutationLength(ps, 0);
      assert Gather(s, ps) == [];
    } else {
      var p := DropLargest(ps, n);
      var rest := ps[..p] + ps[p + 1..];
      var g := Gather(s, ps);
      SumSplitAt(g, p);
      GatherWithout(s, ps, p, rest);
      SumConcat(g[..p], g[p + 1..]);
      SumPermutation(s[..n - 1], rest);
      assert s == s[..n - 1] + [s[n - 1]];
      SumConcat(s[..n - 1], [s[n - 1]]);
      SumSingleton(s[n - 1]);
    }
  }

  /** Real multiplication behind a name, so that sums of products stay linear
      for the solver until a step needs the product itself. */
  function Mul(x: real, y: real): real { x * y }

  /** Entry-wise products. */
  function Products(a: seq<real>, b: seq<real>): (r: seq<real>)
    requires |a| == |b|
    ensures |r| == |a| && forall q | 0 <= q < |a| :: r[q] == Mul(a[q], b[q])
  {
    seq(|a|, q requires 0 <= q < |a| => Mul(a[q], b[q]))
  }

  /** One step of the shift: the arithmetic alone, on plain reals. */
  lemma ShiftStep(sv: real, sw: real, sp: real, a: real, b: real, z: real,
                  x: real, y: real, c: real, yv: real, xv: real, xw: real)
    requires a == b + Mul(c, z)
    requires yv == y + c && xv == Mul(x, yv) && xw == Mul(x, y)
    requires sv == a + xv && sw == b + xw && sp == z + x
    ensures sv == sw + Mul(c, sp)
  {
    assert x * (y + c) == x * y + x * c;
    assert c * (z + x) == c * z + c * x;
  }

  /** The weighted sum of a non-empty sequence: the prefix's, then the last term. */
  lemma ProductsLast(p: seq<real>, v: seq<real>)
    requires |v| == |p| && |p| > 0
    ensures var n := |p| - 1;
      SumReal(Products(p, v)) == SumReal(Products(p[..n], v[..n])) + Mul(p[n], v[n])
  {
    var n := |p| - 1;
    assert Products(p, v)[..n] == Products(p[..n], v[..n]);
  }

  /** Shifting every value by `c` shifts the weighted sum by `c` times the
      total weight. */
  lemma {:induction false} SumProductsShift(p: seq<real>, v: seq<real>, w: seq<real>, c: real)
    requires |v| == |p| && |w| == |p|
    requires forall q | 0 <= q < |p| :: v[q] == w[q] + c
    ensures SumReal(Products(p, v)) == SumReal(Products(p, w)) + Mul(c, SumReal(p))
    decreases |p|
  {
    if |p| > 0 {
      var n := |p| - 1;
      ProductsLast(p, v);
      ProductsLast(p, w);
      SumProductsShift(p[..n], v[..n], w[..n], c);
      ShiftStep(SumReal(Products(p, v)), SumReal(Products(p, w)), SumReal(p),
                SumReal(Products(p[..n], v[..n])), SumReal(Products(p[..n], w[..n])), SumReal(p[..n]),
                p[n], w[n], c, v[n], Mul(p[n], v[n]), Mul(p[n], w[n]));
    }
  }

  /** A weighted mean over weights that add up to 100 moves with the values. */
  lemma WeightedShift(p: seq<real>, v: seq<real>, w: seq<real>, c: real)
    requires |v| == |p| && |w| == |p| && SumReal(p) == 100.0
    requires forall q | 0 <= q < |p| :: v[q] == w[q] + c
    ensures SumReal(Products(p, v)) * 0.01 - c == SumReal(Products(p, w)) * 0.01
  {
    SumProductsShift(p, v, w, c);
    assert Mul(c, SumReal(p)) == c * 100.0;
  }
}
