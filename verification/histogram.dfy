/** Fixed-width counters of a histogram segment and the unsigned arithmetic
    the sampler performs on them. The C++ source stores ticks as `uint32_t`
    and energy readings and elapsed seconds as `uint64_t`; additions and
    subtractions on them wrap, and this module writes the wrap out. */
module Histogram {

  const U32_MOD: int := 0x1_0000_0000
  const U64_MOD: int := 0x1_0000_0000_0000_0000

  type u32 = x: int | 0 <= x < 0x1_0000_0000
  type u64 = x: int | 0 <= x < 0x1_0000_0000_0000_0000

  /** `uint32_t` addition. */
  function AddU32(a: u32, b: u32): (r: u32)
    ensures a + b < U32_MOD ==> r == a + b
    ensures a + b >= U32_MOD ==> r == a + b - U32_MOD
  {
    (a + b) % U32_MOD
  }

  /** `uint64_t` addition. */
  function AddU64(a: u64, b: u64): (r: u64)
    ensures a + b < U64_MOD ==> r == a + b
    ensures a + b >= U64_MOD ==> r == a + b - U64_MOD
  {
    (a + b) % U64_MOD
  }

  /** `uint64_t` subtraction: the difference modulo 2^64. */
  function SubU64(a: u64, b: u64): (r: u64)
    ensures a >= b ==> r == a - b
    ensures a < b ==> r == a - b + U64_MOD
    ensures AddU64(b, r) == a
  {
    (a - b) % U64_MOD
  }

  /** A bucket array with every counter zero (`_entries{0}`). */
  function ZeroCounts(n: nat): (h: seq<u32>)
    ensures |h| == n
    ensures forall i | 0 <= i < n :: h[i] == 0
  {
    seq(n, _ => 0)
  }

  /** The number of ticks a bucket array holds. */
  function Total(h: seq<u32>): nat
  {
    if |h| == 0 then 0 else Total(h[..|h| - 1]) + h[|h| - 1]
  }

  /** `*(begin() + i) += w`: one counter advances, with `uint32_t` wrap-around. */
  function Bump(h: seq<u32>, i: nat, w: u32): (r: seq<u32>)
    requires i < |h|
    ensures |r| == |h|
    ensures r[i] == AddU32(h[i], w)
    ensures forall j | 0 <= j < |h| && j != i :: r[j] == h[j]
  {
    h[i := AddU32(h[i], w)]
  }

  lemma {:induction false} TotalZero(n: nat)
    ensures Total(ZeroCounts(n)) == 0
  {
    if n > 0 {
      assert ZeroCounts(n)[..n - 1] == ZeroCounts(n - 1);
      TotalZero(n - 1);
    }
  }

  lemma {:induction false} TotalUpdate(h: seq<u32>, i: nat, v: u32)
    requires i < |h|
    ensures Total(h[i := v]) == Total(h) - h[i] + v
    decreases |h|
  {
    var n := |h| - 1;
    if i < n {
      assert h[i := v][..n] == h[..n][i := v];
      TotalUpdate(h[..n], i, v);
    } else {
      assert h[i := v][..n] == h[..n];
    }
  }

  /** Without wrap-around, a bump adds exactly its weight to the tick total. */
  lemma BumpTotal(h: seq<u32>, i: nat, w: u32)
    requires i < |h| && h[i] + w < U32_MOD
    ensures Total(Bump(h, i, w)) == Total(h) + w
  {
    TotalUpdate(h, i, AddU32(h[i], w));
  }

  lemma {:induction false} TotalConcat(a: seq<u32>, b: seq<u32>)
    ensures Total(a + b) == Total(a) + Total(b)
    decreases |b|
  {
    if |b| == 0 {
      assert a + b == a;
    } else {
      var n := |b| - 1;
      assert (a + b)[..|a + b| - 1] == a + b[..n];
      TotalConcat(a, b[..n]);
    }
  }

  /** The tick total is zero exactly when every bucket is. */
  lemma {:induction false} TotalZeroIff(h: seq<u32>)
    ensures Total(h) == 0 <==> forall i | 0 <= i < |h| :: h[i] == 0
    decreases |h|
  {
    if |h| > 0 {
      TotalZeroIff(h[..|h| - 1]);
      assert forall i | 0 <= i < |h| - 1 :: h[..|h| - 1][i] == h[i];
    }
  }
}
