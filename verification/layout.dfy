/** The three-column, column-major table in which every `to_stream` prints its
    listing: with `lines = ceil(cnt / 3)` rows, row `j` shows the listing
    positions `j`, `j + lines` and `j + 2 * lines`, skipping those past the
    end. The table therefore shows every listing entry exactly once. */
module Layout {
  import opened Sums

  /** `const std::uint32_t cols=3`. */
  const COLS: nat := 3

  /** `lines=(cnt+cols-1)/cols`: the fewest rows that hold `cnt` entries. */
  function Lines(cnt: nat): (lines: nat)
    ensures cnt <= COLS * lines < cnt + COLS
  {
    (cnt + COLS - 1) / COLS
  }

  /** The listing position shown in row `j`, column `i`: `k=j+lines*i`. */
  function Cell(lines: nat, j: nat, i: nat): nat {
    j + lines * i
  }

  /** The cell visited at step `t` of the nested loops (row `t / 3`, column `t % 3`). */
  function CellAt(lines: nat, t: nat): nat {
    Cell(lines, t / COLS, t % COLS)
  }

  /** The loop step that visits position `k`: the inverse of `CellAt`. */
  function SlotOf(lines: nat, k: nat): nat
    requires k < COLS * lines
  {
    var i := if k < lines then 0 else if k < 2 * lines then 1 else 2;
    COLS * (k - lines * i) + i
  }

  lemma SlotOfCell(lines: nat, t: nat)
    requires t < COLS * lines
    ensures CellAt(lines, t) < COLS * lines
    ensures SlotOf(lines, CellAt(lines, t)) == t
  {
    var j, i := t / COLS, t % COLS;
    assert j < lines;
    if i == 0 {
      assert CellAt(lines, t) == j;
    } else if i == 1 {
      assert CellAt(lines, t) == j + lines;
    } else {
      assert CellAt(lines, t) == j + 2 * lines;
    }
  }

  lemma CellOfSlot(lines: nat, k: nat)
    requires k < COLS * lines
    ensures SlotOf(lines, k) < COLS * lines
    ensures CellAt(lines, SlotOf(lines, k)) == k
  {
    var t := SlotOf(lines, k);
    var i := if k < lines then 0 else if k < 2 * lines then 1 else 2;
    assert t / COLS == k - lines * i && t % COLS == i;
  }

  /** The positions the loops print from step `t` on, in printing order. */
  function CellsFrom(cnt: nat, t: nat): seq<nat>
    decreases COLS * Lines(cnt) - t
  {
    if t >= COLS * Lines(cnt) then []
    else
      var k := CellAt(Lines(cnt), t);
      (if k < cnt then [k] else []) + CellsFrom(cnt, t + 1)
  }

  /** The first step of `CellsFrom`: the cell at step `t`, if printed, then the rest. */
  lemma CellsFromStep(cnt: nat, t: nat)
    requires t < COLS * Lines(cnt)
    ensures var k := CellAt(Lines(cnt), t);
      && k < COLS * Lines(cnt)
      && SlotOf(Lines(cnt), k) == t
      && CellsFrom(cnt, t) == (if k < cnt then [k] else []) + CellsFrom(cnt, t + 1)
  {
    SlotOfCell(Lines(cnt), t);
  }

  lemma {:induction false} CellsFromBounded(cnt: nat, t: nat)
    ensures forall q | 0 <= q < |CellsFrom(cnt, t)| :: CellsFrom(cnt, t)[q] < cnt
    ensures forall q | 0 <= q < |CellsFrom(cnt, t)| ::
      CellsFrom(cnt, t)[q] < cnt && SlotOf(Lines(cnt), CellsFrom(cnt, t)[q]) >= t
    decreases COLS * Lines(cnt) - t
  {
    if t < COLS * Lines(cnt) {
      CellsFromStep(cnt, t);
      CellsFromBounded(cnt, t + 1);
    }
  }

  lemma {:induction false} CellsFromDistinct(cnt: nat, t: nat)
    ensures DistinctPositions(CellsFrom(cnt, t))
    decreases COLS * Lines(cnt) - t
  {
    if t < COLS * Lines(cnt) {
      CellsFromStep(cnt, t);
      CellsFromBounded(cnt, t + 1);
      CellsFromDistinct(cnt, t + 1);
    }
  }

  lemma {:induction false} CellsFromCovers(cnt: nat, t: nat)
    ensures forall k | 0 <= k < cnt && SlotOf(Lines(cnt), k) >= t :: k in CellsFrom(cnt, t)
    decreases COLS * Lines(cnt) - t
  {
    var lines := Lines(cnt);
    if t >= COLS * lines {
      forall k | 0 <= k < cnt
        ensures SlotOf(lines, k) < t
      {
        CellOfSlot(lines, k);
      }
    } else {
      CellsFromStep(cnt, t);
      CellsFromCovers(cnt, t + 1);
      forall m | 0 <= m < cnt && SlotOf(lines, m) == t
        ensures m in CellsFrom(cnt, t)
      {
        CellOfSlot(lines, m);
      }
    }
  }

  /** The printing order of a listing of `cnt` entries. */
  function Order(cnt: nat): (ks: seq<nat>)
    ensures |ks| == cnt
    ensures forall t | 0 <= t < |ks| :: ks[t] < cnt
  {
    OrderIsPermutation(cnt);
    CellsFrom(cnt, 0)
  }

  /** The table shows each of the `cnt` listing positions exactly once. */
  lemma OrderIsPermutation(cnt: nat)
    ensures IsPermutationOf(CellsFrom(cnt, 0), cnt)
    ensures |CellsFrom(cnt, 0)| == cnt
  {
    CellsFromBounded(cnt, 0);
    CellsFromDistinct(cnt, 0);
    CellsFromCovers(cnt, 0);
    PermutationLength(CellsFrom(cnt, 0), cnt);
  }

  /** No position is printed twice. */
  lemma OrderDistinct(cnt: nat)
    ensures DistinctPositions(Order(cnt))
  {
    OrderIsPermutation(cnt);
  }

  /** Every position is printed: the cell that shows position `k`. */
  lemma OrderFind(cnt: nat, k: nat) returns (t: nat)
    requires k < cnt
    ensures t < cnt && Order(cnt)[t] == k
  {
    OrderIsPermutation(cnt);
    assert k in Order(cnt);
    t :| 0 <= t < cnt && Order(cnt)[t] == k;
  }

  /** The first printed row starts with the first listing entry. */
  lemma OrderStartsAtZero(cnt: nat)
    requires cnt > 0
    ensures Order(cnt)[0] == 0
  {
    assert CellAt(Lines(cnt), 0) == 0;
  }
}
