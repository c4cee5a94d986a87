/** The bucketing engine shared by every histogram kind: a measurement is
    snapped to a bucket index by a fixed step, saturating at the last bucket,
    and a bucket index maps back to the value it is displayed as.

    Two policies exist. Frequency buckets snap to the nearest multiple of the
    step (`rint`) and bucket `i` stands for `i * step`. Power buckets truncate
    (`floor`), so bucket `i` holds `[i * step, (i + 1) * step)` and is shown by
    its upper edge `(i + 1) * step`. */
module Bucketing {
  import opened Rounding

  datatype Policy =
    | Nearest  // rint(v / step); representative i * step
    | Floor    // floor(v / step); representative (i + 1) * step

  /** A measurement as the sensors deliver it: frequencies and powers are
      never negative. */
  type NonNeg = x: real | x >= 0.0

  /** The constants of one histogram kind. */
  datatype Kind = Kind(step: real, entries: nat, policy: Policy)

  predicate WellFormed(k: Kind) {
    k.step > 0.0 && k.entries >= 1
  }

  /** `uint32_t(max / step) + 1`: the number of buckets for values up to `maxValue`. */
  function EntriesFor(maxValue: real, step: real): (n: nat)
    requires maxValue >= 0.0 && step > 0.0
    ensures n >= 1
    ensures (n - 1) as real <= maxValue / step < n as real
  {
    (maxValue / step).Floor + 1
  }

  /** The unclamped bucket number of a measurement, as `rint` or `floor` gives it. */
  function Snap(k: Kind, v: real): nat
    requires WellFormed(k) && v >= 0.0
  {
    match k.policy
    case Nearest => Rint(v / k.step)
    case Floor => (v / k.step).Floor
  }

  /** Where a value below the last bucket lands: the nearest step for
      `Nearest`, the half-open step interval for `Floor`. */
  predicate InBucket(k: Kind, i: nat, v: real)
    requires WellFormed(k)
  {
    match k.policy
    case Nearest => (i as real) - v / k.step <= 0.5 && v / k.step - (i as real) <= 0.5
    case Floor => i as real <= v / k.step < (i + 1) as real
  }

  /** `freq_to_idx` / `power_to_idx`: snap, then clamp to the last bucket.
      Every non-negative measurement lands in range; nothing is rejected. */
  function ValueToIndex(k: Kind, v: real): (i: nat)
    requires WellFormed(k) && v >= 0.0
    ensures i < k.entries
    ensures i < k.entries - 1 ==> InBucket(k, i, v)
    ensures i == k.entries - 1 ==> Snap(k, v) >= k.entries - 1
  {
    var n := Snap(k, v);
    if n < k.entries - 1 then n else k.entries - 1
  }

  /** `idx_to_freq` / `idx_to_power`: the value a bucket is displayed as.
      A nearest-snapped bucket shows the value it is centred on; a
      floor-snapped bucket shows its upper edge, which is where the next
      bucket begins. */
  function IndexToValue(k: Kind, i: nat): (r: real)
    ensures WellFormed(k) && k.policy == Nearest ==> r / k.step == i as real && InBucket(k, i, r)
    ensures WellFormed(k) && k.policy == Floor ==>
      && InBucket(k, i, r - k.step) && !InBucket(k, i, r) && InBucket(k, i + 1, r)
  {
    if WellFormed(k) then
      DivMul(i as real, k.step);
      DivMul((i + 1) as real, k.step);
      match k.policy
      case Nearest => i as real * k.step
      case Floor => (i + 1) as real * k.step
    else
      match k.policy
      case Nearest => i as real * k.step
      case Floor => (i + 1) as real * k.step
  }

  /** `round_f`: a value snapped to the nearest multiple of the step. The
      result is a whole number of steps, at most half a step away. */
  function RoundToStep(k: Kind, v: real): (r: real)
    requires WellFormed(k)
    ensures (r / k.step).Floor as real == r / k.step
    ensures r - v <= k.step / 2.0 && v - r <= k.step / 2.0
  {
    var n := Rint(v / k.step);
    DivMul(n as real, k.step);
    HalfStep(n as real, v, k.step);
    var r := n as real * k.step;
    assert r / k.step == n as real;
    assert (r / k.step).Floor == n;
    r
  }

  /** A whole number within half of `v / s` is, times `s`, within `s / 2` of `v`. */
  lemma HalfStep(x: real, v: real, s: real)
    requires s > 0.0 && x - v / s <= 0.5 && v / s - x <= 0.5
    ensures x * s - v <= s / 2.0 && v - x * s <= s / 2.0
  {
    var d := x - v / s;
    assert v == (v / s) * s;
    assert x * s - v == d * s;
    MulNonNeg(0.5 - d, s);
    MulNonNeg(0.5 + d, s);
  }

  lemma MulNonNeg(a: real, b: real)
    requires a >= 0.0 && b >= 0.0
    ensures a * b >= 0.0
  {
  }

  lemma DivMul(a: real, s: real)
    requires s > 0.0
    ensures (a * s) / s == a
  {
  }

  /** For nearest snapping, every bucket's representative maps back to the bucket. */
  lemma NearestRoundTrip(k: Kind, i: nat)
    requires WellFormed(k) && k.policy == Nearest && i < k.entries
    ensures ValueToIndex(k, IndexToValue(k, i)) == i
  {
    var v := IndexToValue(k, i);
    DivMul(i as real, k.step);
    assert v / k.step == i as real;
    RintOfInt(i);
    assert Snap(k, v) == i;
  }

  /** For floor snapping, a bucket's lower edge maps to the bucket itself. */
  lemma FloorLowerEdge(k: Kind, i: nat)
    requires WellFormed(k) && k.policy == Floor && i < k.entries
    ensures ValueToIndex(k, i as real * k.step) == i
  {
    DivMul(i as real, k.step);
  }

  /** For floor snapping the representative is the upper edge, which already
      belongs to the next bucket (or saturates in the last one). */
  lemma FloorUpperEdge(k: Kind, i: nat)
    requires WellFormed(k) && k.policy == Floor && i < k.entries
    ensures ValueToIndex(k, IndexToValue(k, i)) == if i + 1 < k.entries then i + 1 else k.entries - 1
  {
    var v := IndexToValue(k, i);
    DivMul((i + 1) as real, k.step);
    assert v / k.step == (i + 1) as real;
    assert Snap(k, v) == i + 1;
  }

  /** Bucketing is monotone: a larger measurement never lands in a lower bucket. */
  lemma ValueToIndexMonotone(k: Kind, v: real, w: real)
    requires WellFormed(k) && 0.0 <= v <= w
    ensures ValueToIndex(k, v) <= ValueToIndex(k, w)
  {
    assert v / k.step <= w / k.step;
    if k.policy == Nearest {
      RintMonotone(v / k.step, w / k.step);
    }
  }

  /** Floor buckets partition the line: below the last bucket, a value lands in
      bucket i exactly when it lies in [i * step, (i + 1) * step). */
  lemma FloorBucketIff(k: Kind, v: real, i: nat)
    requires WellFormed(k) && k.policy == Floor && v >= 0.0 && i < k.entries - 1
    ensures ValueToIndex(k, v) == i <==> i as real <= v / k.step < (i + 1) as real
  {
  }

  /** A value saturates into the last bucket exactly when its snapped bucket
      number is at least the last index. */
  lemma SaturationIff(k: Kind, v: real)
    requires WellFormed(k) && v >= 0.0
    ensures ValueToIndex(k, v) == k.entries - 1 <==> Snap(k, v) >= k.entries - 1
  {
  }

  /** `round_f` is idempotent. */
  lemma RoundToStepIdempotent(k: Kind, v: real)
    requires WellFormed(k)
    ensures RoundToStep(k, RoundToStep(k, v)) == RoundToStep(k, v)
  {
    var n := Rint(v / k.step);
    var r := RoundToStep(k, v);
    DivMul(n as real, k.step);
    assert r / k.step == n as real;
    RintOfInt(n);
  }

  /** Unless it saturates, a nearest-snapped value is displayed as `round_f` of itself. */
  lemma NearestShowsRounded(k: Kind, v: real)
    requires WellFormed(k) && k.policy == Nearest && v >= 0.0
    requires Snap(k, v) <= k.entries - 1
    ensures IndexToValue(k, ValueToIndex(k, v)) == RoundToStep(k, v)
  {
  }
}
