/** Exact-real models of the C library rounding the histogram engine relies on:
    `std::rint` (round to nearest, ties to even, the default rounding mode),
    `std::floor`, and the renderer's "two decimals" rounding
    `rint(1e2 * x) * 1e-2`. */
module Rounding {

  /** `std::rint` under the default rounding mode: nearest integer, ties to even. */
  function Rint(x: real): (r: int)
    ensures (r as real) - x <= 0.5 && x - (r as real) <= 0.5
    ensures ((r as real) - x == 0.5 || x - (r as real) == 0.5) ==> r % 2 == 0
  {
    var f := x.Floor;
    var d := x - f as real;
    if d < 0.5 then f
    else if d > 0.5 then f + 1
    else if f % 2 == 0 then f
    else f + 1
  }

  /** The rounding of a percentage to two decimals. */
  function Round2(x: real): (r: real)
    ensures r - x <= 0.005 && x - r <= 0.005
    ensures (100.0 * r).Floor as real == 100.0 * r
  {
    Rint(100.0 * x) as real / 100.0
  }

  /** Rint is characterised by its contract: the nearest integer, and the even one on a tie. */
  lemma RintUnique(x: real, n: int)
    requires (n as real) - x <= 0.5 && x - (n as real) <= 0.5
    requires ((n as real) - x == 0.5 || x - (n as real) == 0.5) ==> n % 2 == 0
    ensures Rint(x) == n
  {
  }

  /** Integers are fixed points of Rint. */
  lemma RintOfInt(n: int)
    ensures Rint(n as real) == n
  {
    RintUnique(n as real, n);
  }

  /** Rint is monotone non-decreasing. */
  lemma RintMonotone(x: real, y: real)
    requires x <= y
    ensures Rint(x) <= Rint(y)
  {
  }

  /** A non-negative value never rounds to a negative integer. */
  lemma RintNonNegative(x: real)
    requires x >= 0.0
    ensures Rint(x) >= 0
  {
  }

  /** Two-decimal rounding is idempotent. */
  lemma Round2Idempotent(x: real)
    ensures Round2(Round2(x)) == Round2(x)
  {
    var n := Rint(100.0 * x);
    assert 100.0 * Round2(x) == n as real;
    RintOfInt(n);
  }
}
