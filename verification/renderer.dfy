/** The distribution report every `data::to_stream` prints for one segment
    (cpufreq_stats_data.cc, power_stats_data.cc, amdgpu_stats_data.cc share
    the algorithm): the non-zero buckets, their shares of all ticks rounded to
    two decimals with the largest bucket absorbing the rounding error, the
    cumulative shares from the top bucket down, a three-column table, the
    sum of the printed shares and the share-weighted mean of the bucket values.

    Arithmetic is exact over the reals; `rint` is round-half-to-even. Text
    formatting (widths, precisions, separators, headers) is not modelled:
    a report is the sequence of printed rows and the printed numbers. */
module Renderer {
  import opened Rounding
  import opened Bucketing
  import opened Histogram
  import opened Sums
  import opened Layout

  /** The buckets with a non-zero count, ascending (`vidx[cnt]=i`). */
  function NonZero(counts: seq<u32>): (vidx: seq<nat>)
    ensures |vidx| <= |counts|
    ensures forall q | 0 <= q < |vidx| :: vidx[q] < |counts| && counts[vidx[q]] != 0
    ensures forall q, r | 0 <= q < r < |vidx| :: vidx[q] < vidx[r]
    decreases |counts|
  {
    if |counts| == 0 then []
    else
      var n := |counts| - 1;
      NonZero(counts[..n]) + (if counts[n] != 0 then [n] else [])
  }

  /** Every non-zero bucket is kept: its position in the list of kept buckets. */
  lemma {:induction false} NonZeroKeeps(counts: seq<u32>, i: nat) returns (q: nat)
    requires i < |counts| && counts[i] != 0
    ensures q < |NonZero(counts)| && NonZero(counts)[q] == i
    decreases |counts|
  {
    var n := |counts| - 1;
    if i == n {
      q := |NonZero(counts[..n])|;
    } else {
      q := NonZeroKeeps(counts[..n], i);
    }
  }

  /** The bucket scan keeps the first position whose count is strictly larger
      than every earlier one (`if (ti > max_ti)`), starting from count 0; the
      result is `(idx_max, max_ti)`. */
  function MaxScan(w: seq<u32>): (r: (nat, u32))
    ensures |w| == 0 ==> r == (0, 0)
    ensures |w| > 0 ==> r.0 < |w| && w[r.0] == r.1
    ensures forall q | 0 <= q < |w| :: w[q] <= r.1
    ensures forall q | 0 <= q < r.0 && q < |w| :: w[q] < r.1
    decreases |w|
  {
    if |w| == 0 then (0, 0)
    else
      var n := |w| - 1;
      var (m, top) := MaxScan(w[..n]);
      if w[n] > top then (n, w[n]) else (m, top)
  }

  /** The exact share of `t` ticks out of `total`, in percent: `(vpct[i]*1e2)/sum_ti`. */
  function Share(t: nat, total: nat): real
    requires total > 0
  {
    t as real * 100.0 / total as real
  }

  /** The shares rounded to two decimals: `rint(1e2*pcti)*1e-2`. */
  function Rounded(w: seq<u32>, total: nat): (r: seq<real>)
    requires total > 0
    ensures |r| == |w|
    ensures forall q | 0 <= q < |w| :: r[q] - Share(w[q], total) <= 0.005
    ensures forall q | 0 <= q < |w| :: Share(w[q], total) - r[q] <= 0.005
  {
    seq(|w|, q requires 0 <= q < |w| => Round2(Share(w[q], total)))
  }

  /** `sum_pct`: the sum over every position but `m`, in index order. */
  function SumSkipping(s: seq<real>, m: nat): (r: real)
    ensures m < |s| ==> r + s[m] == SumReal(s)
    ensures m >= |s| ==> r == SumReal(s)
    decreases |s|
  {
    if |s| == 0 then 0.0
    else
      var n := |s| - 1;
      SumSkipping(s[..n], m) + (if n == m then 0.0 else s[n])
  }

  /** The printed percentages, in bucket order: the rounded shares, except
      that the largest bucket gets whatever makes the total exactly 100. */
  function Percentages(w: seq<u32>): (p: seq<real>)
    requires forall q | 0 <= q < |w| :: w[q] != 0
    ensures |p| == |w|
  {
    if |w| == 0 then []
    else
      TotalZeroIff(w);
      var r := Rounded(w, Total(w));
      var m := MaxScan(w).0;
      r[m := 100.0 - SumSkipping(r, m)]
  }

  /** The percentages of one or more buckets add up to exactly 100. */
  lemma PercentagesSum(w: seq<u32>)
    requires |w| > 0 && forall q | 0 <= q < |w| :: w[q] != 0
    ensures SumReal(Percentages(w)) == 100.0
  {
    TotalZeroIff(w);
    var r := Rounded(w, Total(w));
    var m := MaxScan(w).0;
    var p := Percentages(w);
    SumSplitAt(r, m);
    SumSplitAt(p, m);
    assert p[..m] == r[..m] && p[m + 1..] == r[m + 1..];
  }

  /** Every bucket but the largest prints its share to within half a hundredth. */
  lemma PercentagesClose(w: seq<u32>, q: nat)
    requires forall q | 0 <= q < |w| :: w[q] != 0
    requires q < |w| && q != MaxScan(w).0
    ensures Total(w) > 0
    ensures Percentages(w)[q] - Share(w[q], Total(w)) <= 0.005
    ensures Share(w[q], Total(w)) - Percentages(w)[q] <= 0.005
  {
    TotalZeroIff(w);
  }

  /** `std::partial_sum`: running totals, left to right. */
  function PartialSums(p: seq<real>): (c: seq<real>)
    ensures |c| == |p|
    decreases |p|
  {
    if |p| == 0 then []
    else
      var n := |p| - 1;
      var c := PartialSums(p[..n]);
      c + [(if n == 0 then 0.0 else c[n - 1]) + p[n]]
  }

  /** Each running total is the sum of the entries up to and including its own. */
  lemma {:induction false} PartialSumsAre(p: seq<real>, q: nat)
    requires q < |p|
    ensures PartialSums(p)[q] == SumReal(p[..q + 1])
    decreases |p|
  {
    var n := |p| - 1;
    var c := PartialSums(p[..n]);
    if q < n {
      PartialSumsAre(p[..n], q);
      assert p[..n][..q + 1] == p[..q + 1];
    } else {
      assert p[..n + 1] == p && p[..n + 1][..n] == p[..n];
      if n > 0 {
        PartialSumsAre(p[..n], n - 1);
        assert p[..n][..n] == p[..n];
      }
    }
  }

  /** One entry of the listing: a non-zero bucket, its value in display units
      (`idx_to_freq(idx)/1000`, `idx_to_power(idx)`), its percentage, and the
      cumulative percentage of this bucket and every lower one. */
  datatype Row = Row(bucket: nat, value: real, pct: real, cumPct: real)

  /** Listing entries assembled column by column. */
  function Zip(buckets: seq<nat>, values: seq<real>, pcts: seq<real>, cums: seq<real>): (rows: seq<Row>)
    requires |values| == |buckets| && |pcts| == |buckets| && |cums| == |buckets|
    ensures |rows| == |buckets|
    ensures forall q | 0 <= q < |rows| :: rows[q] == Row(buckets[q], values[q], pcts[q], cums[q])
  {
    seq(|buckets|, q requires 0 <= q < |buckets| => Row(buckets[q], values[q], pcts[q], cums[q]))
  }

  /** The display value of each kept bucket. */
  function Values(k: Kind, scale: real, vidx: seq<nat>): (v: seq<real>)
    ensures |v| == |vidx| && forall q | 0 <= q < |vidx| :: v[q] == IndexToValue(k, vidx[q]) * scale
  {
    seq(|vidx|, q requires 0 <= q < |vidx| => IndexToValue(k, vidx[q]) * scale)
  }

  /** The printed percentages of the kept buckets, in bucket order. */
  function Pct(counts: seq<u32>): (p: seq<real>)
    ensures |p| == |NonZero(counts)|
  {
    Percentages(Gather(counts, NonZero(counts)))
  }

  /** The listing in ascending bucket order, before `std::reverse`. */
  function Ascending(k: Kind, scale: real, counts: seq<u32>): (rows: seq<Row>)
    ensures |rows| == |NonZero(counts)|
  {
    var vidx := NonZero(counts);
    var p := Pct(counts);
    Zip(vidx, Values(k, scale, vidx), p, PartialSums(p))
  }

  /** The listing as printed: highest bucket first. */
  function Listing(k: Kind, scale: real, counts: seq<u32>): (rows: seq<Row>)
    ensures |rows| == |NonZero(counts)|
  {
    Reverse(Ascending(k, scale, counts))
  }

  /** The table cells in printing order. */
  function Cells(k: Kind, scale: real, counts: seq<u32>): (rows: seq<Row>)
    ensures |rows| == |NonZero(counts)|
  {
    var listing := Listing(k, scale, counts);
    Gather(listing, Order(|listing|))
  }

  function Buckets(rows: seq<Row>): (b: seq<nat>)
    ensures |b| == |rows| && forall t | 0 <= t < |rows| :: b[t] == rows[t].bucket
  {
    seq(|rows|, t requires 0 <= t < |rows| => rows[t].bucket)
  }

  function Pcts(rows: seq<Row>): (s: seq<real>)
    ensures |s| == |rows| && forall t | 0 <= t < |rows| :: s[t] == rows[t].pct
  {
    seq(|rows|, t requires 0 <= t < |rows| => rows[t].pct)
  }

  function CumPcts(rows: seq<Row>): (s: seq<real>)
    ensures |s| == |rows| && forall t | 0 <= t < |rows| :: s[t] == rows[t].cumPct
  {
    seq(|rows|, t requires 0 <= t < |rows| => rows[t].cumPct)
  }

  /** The terms of `avg += pi*pcti`. */
  function Weights(rows: seq<Row>): (s: seq<real>)
    ensures |s| == |rows| && forall t | 0 <= t < |rows| :: s[t] == Mul(rows[t].pct, rows[t].value)
  {
    seq(|rows|, t requires 0 <= t < |rows| => Mul(rows[t].pct, rows[t].value))
  }

  /** What `to_stream` computes for one segment: `samples` is `sum_ti`, `rows`
      the table cells in printing order, `mean` the share-weighted mean of
      the printed values (`avg*1e-2`, before any kind-specific correction),
      `pctSum` the printed percentages added up (`sum`), and `invalidSum`
      whether the "invalid sum" line is printed. */
  datatype Report = Report(samples: nat, rows: seq<Row>, mean: real, pctSum: real, invalidSum: bool)

  /** The totals printed below the table, from the cells as printed. */
  function Summarize(samples: nat, rows: seq<Row>): (r: Report)
    ensures r.samples == samples && r.rows == rows
  {
    var pctSum := SumReal(Pcts(rows));
    Report(
      samples,
      rows,
      SumReal(Weights(rows)) * 0.01,
      pctSum,
      pctSum - 100.0 > 0.005 || 100.0 - pctSum > 0.005)
  }

  function Render(k: Kind, scale: real, counts: seq<u32>): (r: Report)
    ensures r.rows == Cells(k, scale, counts)
  {
    Summarize(Total(Gather(counts, NonZero(counts))), Cells(k, scale, counts))
  }

  /** Cell `t` of the table built from a listing of columns shows entry
      `n - 1 - Order(n)[t]` of each column. */
  lemma ZipCell(b: seq<nat>, v: seq<real>, p: seq<real>, c: seq<real>, t: nat)
    requires |v| == |b| && |p| == |b| && |c| == |b| && t < |b|
    ensures Order(|b|)[t] < |b|
    ensures var q := |b| - 1 - Order(|b|)[t];
      Gather(Reverse(Zip(b, v, p, c)), Order(|b|))[t] == Row(b[q], v[q], p[q], c[q])
  {
  }

  lemma ZipBuckets(b: seq<nat>, v: seq<real>, p: seq<real>, c: seq<real>)
    requires |v| == |b| && |p| == |b| && |c| == |b|
    ensures Buckets(Gather(Reverse(Zip(b, v, p, c)), Order(|b|))) == Gather(Reverse(b), Order(|b|))
  {
    var cells := Gather(Reverse(Zip(b, v, p, c)), Order(|b|));
    forall t | 0 <= t < |b|
      ensures Buckets(cells)[t] == Gather(Reverse(b), Order(|b|))[t]
    {
      ZipCell(b, v, p, c, t);
    }
  }

  lemma ZipPcts(b: seq<nat>, v: seq<real>, p: seq<real>, c: seq<real>)
    requires |v| == |b| && |p| == |b| && |c| == |b|
    ensures Pcts(Gather(Reverse(Zip(b, v, p, c)), Order(|b|))) == Gather(Reverse(p), Order(|b|))
  {
    var cells := Gather(Reverse(Zip(b, v, p, c)), Order(|b|));
    forall t | 0 <= t < |b|
      ensures Pcts(cells)[t] == Gather(Reverse(p), Order(|b|))[t]
    {
      ZipCell(b, v, p, c, t);
    }
  }

  lemma ZipWeights(b: seq<nat>, v: seq<real>, p: seq<real>, c: seq<real>)
    requires |v| == |b| && |p| == |b| && |c| == |b|
    ensures Weights(Gather(Reverse(Zip(b, v, p, c)), Order(|b|))) == Gather(Reverse(Products(p, v)), Order(|b|))
  {
    var cells := Gather(Reverse(Zip(b, v, p, c)), Order(|b|));
    forall t | 0 <= t < |b|
      ensures Weights(cells)[t] == Gather(Reverse(Products(p, v)), Order(|b|))[t]
    {
      ZipCell(b, v, p, c, t);
    }
  }

  /** Reversing a listing built from columns reverses each column. */
  lemma ReversedColumns(b: seq<nat>, v: seq<real>, p: seq<real>, c: seq<real>)
    requires |v| == |b| && |p| == |b| && |c| == |b|
    ensures var l := Reverse(Zip(b, v, p, c));
      && Buckets(l) == Reverse(b)
      && Pcts(l) == Reverse(p)
      && CumPcts(l) == Reverse(c)
  {
  }

  /** The columns of the printed cells are the bucket-order columns,
      reversed, read in table order. */
  lemma CellColumns(k: Kind, scale: real, counts: seq<u32>)
    ensures var vidx := NonZero(counts);
      var order := Order(|vidx|);
      var p := Pct(counts);
      && Buckets(Cells(k, scale, counts)) == Gather(Reverse(vidx), order)
      && Pcts(Cells(k, scale, counts)) == Gather(Reverse(p), order)
      && Weights(Cells(k, scale, counts)) == Gather(Reverse(Products(p, Values(k, scale, vidx))), order)
  {
    var vidx := NonZero(counts);
    var p := Pct(counts);
    var v := Values(k, scale, vidx);
    var c := PartialSums(p);
    assert Cells(k, scale, counts) == Gather(Reverse(Zip(vidx, v, p, c)), Order(|vidx|));
    ZipBuckets(vidx, v, p, c);
    ZipPcts(vidx, v, p, c);
    ZipWeights(vidx, v, p, c);
  }

  /** Ticks read at `a + b`, where `a` reads only inside the first `n` buckets. */
  lemma TotalGatherSplit(counts: seq<u32>, n: nat, a: seq<nat>, b: seq<nat>)
    requires n <= |counts|
    requires forall t | 0 <= t < |a| :: a[t] < n
    requires forall t | 0 <= t < |b| :: b[t] < |counts|
    ensures Total(Gather(counts, a + b)) == Total(Gather(counts[..n], a)) + Total(Gather(counts, b))
  {
    GatherConcat(counts, a, b);
    GatherPrefix(counts, n, a);
    TotalConcat(Gather(counts, a), Gather(counts, b));
  }

  /** The kept buckets together hold every tick: `sum_ti` counts all samples. */
  lemma {:induction false} SamplesAreAllTicks(counts: seq<u32>)
    ensures Total(Gather(counts, NonZero(counts))) == Total(counts)
    decreases |counts|
  {
    if |counts| > 0 {
      var n := |counts| - 1;
      var front := NonZero(counts[..n]);
      var last: seq<nat> := if counts[n] != 0 then [n] else [];
      assert NonZero(counts) == front + last;
      TotalGatherSplit(counts, n, front, last);
      SamplesAreAllTicks(counts[..n]);
      if counts[n] != 0 {
        assert Gather(counts, last) == [counts[n]];
        assert [counts[n]][..0] == [];
      } else {
        assert Gather(counts, last) == [];
      }
    }
  }

  /** Strictly increasing positions stay pairwise different once reversed
      and read in table order. */
  lemma ReorderedDistinct(b: seq<nat>)
    requires forall q, r | 0 <= q < r < |b| :: b[q] < b[r]
    ensures var g := Gather(Reverse(b), Order(|b|));
      forall t, u | 0 <= t < u < |g| :: g[t] != g[u]
  {
    var n := |b|;
    var order := Order(n);
    var g := Gather(Reverse(b), order);
    OrderDistinct(n);
    forall t, u | 0 <= t < u < n
      ensures g[t] != g[u]
    {
      assert order[t] != order[u];
      assert g[t] == b[n - 1 - order[t]] && g[u] == b[n - 1 - order[u]];
    }
  }

  /** Entry `q` shows up in the reversed sequence read in table order. */
  lemma ReorderedFind(b: seq<nat>, q: nat) returns (t: nat)
    requires q < |b|
    ensures t < |b| && Gather(Reverse(b), Order(|b|))[t] == b[q]
  {
    var n := |b|;
    t := OrderFind(n, n - 1 - q);
  }

  /** Reversing and reading in table order keeps only entries already there. */
  lemma ReorderedKept(b: seq<nat>, counts: seq<u32>)
    requires forall q | 0 <= q < |b| :: b[q] < |counts| && counts[b[q]] != 0
    ensures var g := Gather(Reverse(b), Order(|b|));
      forall t | 0 <= t < |g| :: g[t] < |counts| && counts[g[t]] != 0
  {
    var g := Gather(Reverse(b), Order(|b|));
    forall t | 0 <= t < |g|
      ensures g[t] < |counts| && counts[g[t]] != 0
    {
      assert g[t] == b[|b| - 1 - Order(|b|)[t]];
    }
  }

  /** Every printed row is a bucket with ticks. */
  lemma RowsKept(k: Kind, scale: real, counts: seq<u32>)
    ensures var rows := Render(k, scale, counts).rows;
      forall t | 0 <= t < |rows| :: rows[t].bucket < |counts| && counts[rows[t].bucket] != 0
  {
    var vidx := NonZero(counts);
    var rows := Cells(k, scale, counts);
    var b := Buckets(rows);
    var g := Gather(Reverse(vidx), Order(|vidx|));
    CellColumns(k, scale, counts);
    ReorderedKept(vidx, counts);
    forall t | 0 <= t < |rows|
      ensures rows[t].bucket < |counts| && counts[rows[t].bucket] != 0
    {
      assert b[t] == g[t];
    }
  }

  /** No bucket is printed twice. */
  lemma RowsDistinct(k: Kind, scale: real, counts: seq<u32>)
    ensures var rows := Render(k, scale, counts).rows;
      forall t, u | 0 <= t < u < |rows| :: rows[t].bucket != rows[u].bucket
  {
    var vidx := NonZero(counts);
    var rows := Cells(k, scale, counts);
    var b := Buckets(rows);
    CellColumns(k, scale, counts);
    ReorderedDistinct(vidx);
    forall t, u | 0 <= t < u < |rows|
      ensures rows[t].bucket != rows[u].bucket
    {
      assert b[t] != b[u];
    }
  }

  /** Every bucket with ticks is printed: the cell that shows it. */
  lemma RowOf(k: Kind, scale: real, counts: seq<u32>, i: nat) returns (t: nat)
    requires i < |counts| && counts[i] != 0
    ensures t < |Render(k, scale, counts).rows|
    ensures Render(k, scale, counts).rows[t].bucket == i
  {
    var vidx := NonZero(counts);
    var rows := Cells(k, scale, counts);
    var q := NonZeroKeeps(counts, i);
    t := ReorderedFind(vidx, q);
    CellColumns(k, scale, counts);
    assert Buckets(rows)[t] == rows[t].bucket;
  }

  /** With at least one tick the percentages, in bucket order, add up to 100. */
  lemma PctAddsUp(counts: seq<u32>, i: nat)
    requires i < |counts| && counts[i] != 0
    ensures SumReal(Pct(counts)) == 100.0
  {
    var _ := NonZeroKeeps(counts, i);
    PercentagesSum(Gather(counts, NonZero(counts)));
  }

  /** With at least one tick, the printed percentages add up to exactly 100,
      so the "invalid sum" line is not printed. */
  lemma PctSumExact(k: Kind, scale: real, counts: seq<u32>, i: nat)
    requires i < |counts| && counts[i] != 0
    ensures Render(k, scale, counts).pctSum == 100.0
    ensures !Render(k, scale, counts).invalidSum
  {
    var vidx := NonZero(counts);
    var n := |vidx|;
    var _ := NonZeroKeeps(counts, i);
    var w := Gather(counts, vidx);
    var p := Pct(counts);
    CellColumns(k, scale, counts);
    OrderIsPermutation(n);
    SumPermutation(Reverse(p), Order(n));
    SumReverse(p);
    PercentagesSum(w);
  }

  /** The "invalid sum" line is printed exactly when the segment holds no tick. */
  lemma InvalidSumIff(k: Kind, scale: real, counts: seq<u32>)
    ensures Render(k, scale, counts).invalidSum <==> forall i | 0 <= i < |counts| :: counts[i] == 0
  {
    if i :| 0 <= i < |counts| && counts[i] != 0 {
      PctSumExact(k, scale, counts, i);
    } else {
      assert Render(k, scale, counts).rows == [];
    }
  }

  /** The mean does not depend on the table layout: it is the percentage-weighted
      sum of the bucket values, taken in bucket order. */
  lemma MeanIsWeighted(k: Kind, scale: real, counts: seq<u32>)
    ensures var vidx := NonZero(counts);
      Render(k, scale, counts).mean == SumReal(Products(Pct(counts), Values(k, scale, vidx))) * 0.01
  {
    var vidx := NonZero(counts);
    var n := |vidx|;
    var pv := Products(Pct(counts), Values(k, scale, vidx));
    CellColumns(k, scale, counts);
    OrderIsPermutation(n);
    SumPermutation(Reverse(pv), Order(n));
    SumReverse(pv);
  }

  /** A listing built from increasing buckets runs downwards once reversed. */
  lemma ReversedDescending(b: seq<nat>, v: seq<real>, p: seq<real>, c: seq<real>)
    requires |v| == |b| && |p| == |b| && |c| == |b|
    requires forall q, r | 0 <= q < r < |b| :: b[q] < b[r]
    ensures var l := Reverse(Zip(b, v, p, c));
      forall r, u | 0 <= r < u < |l| :: l[r].bucket > l[u].bucket
  {
    var l := Reverse(Zip(b, v, p, c));
    ReversedColumns(b, v, p, c);
    forall r, u | 0 <= r < u < |l|
      ensures l[r].bucket > l[u].bucket
    {
      assert Buckets(l)[r] == b[|b| - 1 - r] && Buckets(l)[u] == b[|b| - 1 - u];
    }
  }

  /** When the cumulative column holds running totals, each reversed row's
      total is the sum of its own and every later row's percentage. */
  lemma ReversedCumulative(b: seq<nat>, v: seq<real>, p: seq<real>, c: seq<real>, r: nat)
    requires |v| == |b| && |p| == |b| && |c| == |b| && r < |b|
    requires c[|b| - 1 - r] == SumReal(p[..|b| - r])
    ensures var l := Reverse(Zip(b, v, p, c));
      l[r].cumPct == SumReal(Pcts(l)[r..])
  {
    var n := |b|;
    var l := Reverse(Zip(b, v, p, c));
    ReversedColumns(b, v, p, c);
    assert l[r].cumPct == CumPcts(l)[r];
    ReverseSuffix(p, r);
    SumReverse(p[..n - r]);
  }

  /** The printed listing runs from the highest bucket down. */
  lemma ListingDescending(k: Kind, scale: real, counts: seq<u32>)
    ensures var l := Listing(k, scale, counts);
      forall r, u | 0 <= r < u < |l| :: l[r].bucket > l[u].bucket
  {
    var vidx := NonZero(counts);
    var p := Pct(counts);
    var v := Values(k, scale, vidx);
    var c := PartialSums(p);
    assert Listing(k, scale, counts) == Reverse(Zip(vidx, v, p, c));
    ReversedDescending(vidx, v, p, c);
  }

  /** Each printed cumulative percentage is the share of its own bucket and
      of every bucket printed after it, that is, of every lower bucket. */
  lemma ListingCumulative(k: Kind, scale: real, counts: seq<u32>, r: nat)
    requires r < |Listing(k, scale, counts)|
    ensures var l := Listing(k, scale, counts);
      l[r].cumPct == SumReal(Pcts(l)[r..])
  {
    var vidx := NonZero(counts);
    var p := Pct(counts);
    var v := Values(k, scale, vidx);
    var c := PartialSums(p);
    assert Listing(k, scale, counts) == Reverse(Zip(vidx, v, p, c));
    PartialSumsAre(p, |p| - 1 - r);
    ReversedCumulative(vidx, v, p, c, r);
  }

  /** The first reversed row carries the last running total. */
  lemma ReversedTop(b: seq<nat>, v: seq<real>, p: seq<real>, c: seq<real>)
    requires |v| == |b| && |p| == |b| && |c| == |b| && |b| > 0
    ensures Reverse(Zip(b, v, p, c))[0].cumPct == c[|b| - 1]
  {
    ReversedColumns(b, v, p, c);
    assert CumPcts(Reverse(Zip(b, v, p, c)))[0] == c[|b| - 1];
  }

  /** With at least one tick the first printed row shows a cumulative 100. */
  lemma ListingTopIsHundred(k: Kind, scale: real, counts: seq<u32>, i: nat)
    requires i < |counts| && counts[i] != 0
    ensures |Listing(k, scale, counts)| > 0
    ensures Listing(k, scale, counts)[0].cumPct == 100.0
  {
    var vidx := NonZero(counts);
    var _ := NonZeroKeeps(counts, i);
    var p := Pct(counts);
    var v := Values(k, scale, vidx);
    var c := PartialSums(p);
    assert Listing(k, scale, counts) == Reverse(Zip(vidx, v, p, c));
    ReversedTop(vidx, v, p, c);
    PartialSumsAre(p, |p| - 1);
    assert p[..|p|] == p;
    PercentagesSum(Gather(counts, vidx));
  }

  /** Every bucket but the largest prints its share of all ticks to within
      half a hundredth of a percent. */
  lemma PctNearShare(counts: seq<u32>, q: nat)
    requires q < |NonZero(counts)|
    requires q != MaxScan(Gather(counts, NonZero(counts))).0
    ensures Total(counts) > 0
    ensures var share := Share(counts[NonZero(counts)[q]], Total(counts));
      && Pct(counts)[q] - share <= 0.005
      && share - Pct(counts)[q] <= 0.005
  {
    var vidx := NonZero(counts);
    var w := Gather(counts, vidx);
    SamplesAreAllTicks(counts);
    PercentagesClose(w, q);
  }

  /** The middle of each listed bucket's interval `[i*step, (i+1)*step)`. */
  function Midpoints(k: Kind, vidx: seq<nat>): (m: seq<real>)
    ensures |m| == |vidx|
    ensures forall q | 0 <= q < |vidx| ::
      m[q] == (vidx[q] as real * k.step + (vidx[q] + 1) as real * k.step) / 2.0
  {
    seq(|vidx|, q requires 0 <= q < |vidx| => (vidx[q] as real + 0.5) * k.step)
  }

  /** Under the floor policy each displayed upper edge is half a step above
      the bucket's midpoint. */
  lemma MidpointsBelowEdges(k: Kind, vidx: seq<nat>)
    requires k.policy == Floor
    ensures forall q | 0 <= q < |vidx| :: Values(k, 1.0, vidx)[q] == Midpoints(k, vidx)[q] + k.step * 0.5
  {
  }

  lemma MidpointShift(k: Kind, counts: seq<u32>, i: nat)
    requires k.policy == Floor && i < |counts| && counts[i] != 0
    ensures var vidx := NonZero(counts);
      SumReal(Products(Pct(counts), Values(k, 1.0, vidx))) * 0.01 - k.step * 0.5
        == SumReal(Products(Pct(counts), Midpoints(k, vidx))) * 0.01
  {
    var vidx := NonZero(counts);
    PctAddsUp(counts, i);
    MidpointsBelowEdges(k, vidx);
    WeightedShift(Pct(counts), Values(k, 1.0, vidx), Midpoints(k, vidx), k.step * 0.5);
  }

  /** Under the floor policy, with at least one tick, the mean of the upper
      edges less half a step is the percentage-weighted mean of the bucket
      midpoints: the shift is exact because the percentages add up to 100. */
  lemma MidpointMean(k: Kind, counts: seq<u32>, i: nat)
    requires k.policy == Floor && i < |counts| && counts[i] != 0
    ensures Render(k, 1.0, counts).mean - k.step * 0.5
      == SumReal(Products(Pct(counts), Midpoints(k, NonZero(counts)))) * 0.01
  {
    MeanIsWeighted(k, 1.0, counts);
    MidpointShift(k, counts, i);
  }

  /** What the printout promises for one segment, by whether it holds a tick:
      the sample count is every tick; with a tick the percentages add up to
      100 and no "invalid sum" line appears; with none the table is empty,
      the mean is 0 and the line appears. The mean is always the
      percentage-weighted sum of the bucket values. */
  lemma RenderFacts(k: Kind, scale: real, counts: seq<u32>)
    ensures Render(k, scale, counts).samples == Total(counts)
    ensures Render(k, scale, counts).mean
      == SumReal(Products(Pct(counts), Values(k, scale, NonZero(counts)))) * 0.01
    ensures Total(counts) > 0 ==>
      Render(k, scale, counts).pctSum == 100.0 && !Render(k, scale, counts).invalidSum
    ensures Total(counts) == 0 ==>
      && Render(k, scale, counts).rows == []
      && Render(k, scale, counts).invalidSum
      && Render(k, scale, counts).mean == 0.0
  {
    SamplesAreAllTicks(counts);
    MeanIsWeighted(k, scale, counts);
    InvalidSumIff(k, scale, counts);
    TotalZeroIff(counts);
    if Total(counts) > 0 {
      var i :| 0 <= i < |counts| && counts[i] != 0;
      PctSumExact(k, scale, counts, i);
    } else if |NonZero(counts)| > 0 {
      assert false;
    }
  }

  /** `MidpointMean` for any histogram holding a tick. */
  lemma FloorMean(k: Kind, counts: seq<u32>)
    requires k.policy == Floor
    ensures Total(counts) > 0 ==>
      Render(k, 1.0, counts).mean - k.step * 0.5
        == SumReal(Products(Pct(counts), Midpoints(k, NonZero(counts)))) * 0.01
  {
    if Total(counts) > 0 {
      TotalZeroIff(counts);
      var i :| 0 <= i < |counts| && counts[i] != 0;
      MidpointMean(k, counts, i);
    }
  }
}
