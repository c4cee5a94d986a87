/** The RAPL segment (`rapl_stats::shm_seg`): per package, the package id, a
    double-width energy total in two halves and the power tick counters. The
    step and the number of buckets are declared in `rapl_stats.h`, which is
    not part of this model, so they are a parameter here: a floor-policy
    `Kind`. The segment shares its name with the power segment of the same
    package. */
module Rapl {
  import opened Bucketing
  import opened Histogram
  import opened SegmentNames
  import opened ShmStore
  import opened SegmentSet
  import Power

  const PREFIX: string := "/cpu_stats_p_pkg_"

  /** A valid parameter set: a positive step, at least one bucket, floor
      snapping with the upper edge displayed. */
  predicate Params(k: Kind) {
    WellFormed(k) && k.policy == Floor
  }

  /** The record: package id, low and high halves of the energy total, counters. */
  datatype Seg = Seg(pkg: nat, ujLo: u64, ujHi: u64, entries: seq<u32>)

  /** `shm_seg::name(pkg)`. */
  function Name(pkg: nat): (r: string)
    ensures |r| >= |PREFIX| + 3 && r[..|PREFIX|] == PREFIX
    ensures forall i | |PREFIX| <= i < |r| :: IsDigit(r[i])
    ensures ValueOf(r[|PREFIX|..]) == pkg
  {
    IdOfName(PREFIX, pkg);
    SegmentName(PREFIX, pkg)
  }

  /** A RAPL segment and a power segment have the same name exactly when
      they are for the same package: the two kinds cannot run side by side. */
  lemma SharesPowerNames(a: nat, b: nat)
    ensures Name(a) == Power.Name(b) <==> a == b
  {
    SegmentNameInjective(PREFIX, a, b);
  }

  /** The constructor `shm_seg(pkg)`: the id, both energy halves and every
      counter zero. */
  function NewSeg(pkg: nat, k: Kind): (s: Seg)
    ensures s.pkg == pkg && s.ujLo == 0 && s.ujHi == 0
    ensures |s.entries| == k.entries && Total(s.entries) == 0
  {
    TotalZero(k.entries);
    Seg(pkg, 0, 0, ZeroCounts(k.entries))
  }

  /** `power_to_idx`: floor, then clamp to the last bucket. */
  function PowerToIdx(k: Kind, w: NonNeg): (i: nat)
    requires Params(k)
    ensures i < k.entries
    ensures i < k.entries - 1 ==> i as real <= w / k.step < (i + 1) as real
    ensures i == k.entries - 1 ==> w / k.step >= (k.entries - 1) as real
  {
    ValueToIndex(k, w)
  }

  /** `idx_to_power`: bucket `i` is shown as its upper edge, which is the
      lower edge of bucket `i + 1`. */
  function IdxToPower(k: Kind, i: nat): (w: real)
    requires Params(k)
    ensures w == IndexToValue(k, i) && w > 0.0
    ensures InBucket(k, i, w - k.step) && !InBucket(k, i, w) && InBucket(k, i + 1, w)
  {
    (i + 1) as real * k.step
  }

  lemma PowerMonotone(k: Kind, v: NonNeg, w: NonNeg)
    requires Params(k) && v <= w
    ensures PowerToIdx(k, v) <= PowerToIdx(k, w)
  {
    ValueToIndexMonotone(k, v, w);
  }

  /** A bucket's lower edge lands in the bucket; its displayed upper edge in
      the next one, or in the last. */
  lemma PowerEdges(k: Kind, i: nat)
    requires Params(k) && i < k.entries
    ensures PowerToIdx(k, i as real * k.step) == i
    ensures PowerToIdx(k, IdxToPower(k, i)) == if i + 1 < k.entries then i + 1 else k.entries - 1
  {
    FloorLowerEdge(k, i);
    FloorUpperEdge(k, i);
  }

  /** `shm_seg::create(pkg)`. */
  function CreateSeg(st: Store<Seg>, k: Kind, pkg: nat, size: nat, fault: Fault): (r: Step<Seg, nat>)
    requires Valid(st)
    ensures Valid(r.store)
    ensures r.result.Ok? <==> Name(pkg) !in st.names && fault == NoFault
    ensures r.result.Ok? ==>
      var h := r.result.value;
      && h in r.store.maps && r.store.maps[h].writable && r.store.maps[h].size == size
      && Name(pkg) in r.store.names && r.store.names[Name(pkg)] == r.store.maps[h].obj
      && Load(r.store, h) == NewSeg(pkg, k)
    ensures r.result.Err? ==> r.store.names == st.names && r.store.maps == st.maps
  {
    Create(st, Name(pkg), size, NewSeg(pkg, k), fault)
  }

  /** `shm_seg::open(pkg)`. */
  function OpenSeg(st: Store<Seg>, pkg: nat, size: nat, fault: Fault): (r: Step<Seg, nat>)
    requires Valid(st)
    ensures Valid(r.store)
    ensures r.store.names == st.names && r.store.objects == st.objects
    ensures r.result.Ok? <==> Name(pkg) in st.names && fault != OpenFails && fault != MapFails
    ensures r.result.Ok? ==>
      var h := r.result.value;
      && h in r.store.maps && !r.store.maps[h].writable
      && Load(r.store, h) == st.objects[st.names[Name(pkg)]].rec
  {
    OpenRo(st, Name(pkg), size, fault)
  }

  /** `shm_seg::close(shm_seg*)`: unlink the record's own name, then unmap. */
  function CloseSeg(st: Store<Seg>, h: nat): (r: Store<Seg>)
    requires Valid(st) && h in st.maps
    ensures Valid(r)
    ensures Name(Load(st, h).pkg) !in r.names && h !in r.maps
    ensures forall n | n in st.names && n != Name(Load(st, h).pkg) :: n in r.names && r.names[n] == st.names[n]
    ensures forall g | g in st.maps && g != h :: g in r.maps && r.maps[g] == st.maps[g]
    ensures r.objects == st.objects
  {
    CloseWriter(st, h, Name(Load(st, h).pkg))
  }

  /** `shm_seg::close(const shm_seg*)`: unmap only. */
  function CloseSegRo(st: Store<Seg>, h: nat): (r: Store<Seg>)
    requires Valid(st)
    ensures Valid(r)
    ensures r.names == st.names && r.objects == st.objects
    ensures h !in r.maps && forall g | g in st.maps && g != h :: g in r.maps && r.maps[g] == st.maps[g]
  {
    CloseReader(st, h)
  }

  /** A writer's create followed by its close leaves the namespace and the
      mappings as they were. */
  lemma CreateThenClose(st: Store<Seg>, k: Kind, pkg: nat, size: nat)
    requires Valid(st) && Name(pkg) !in st.names
    ensures var c := CreateSeg(st, k, pkg, size, NoFault);
      c.result.Ok? && CloseSeg(c.store, c.result.value).names == st.names
      && CloseSeg(c.store, c.result.value).maps == st.maps
  {
    var c := CreateSeg(st, k, pkg, size, NoFault);
    assert Load(c.store, c.result.value).pkg == pkg;
    CreateThenCloseWriter(st, Name(pkg), size, NewSeg(pkg, k));
  }

  /** The namespace is shared by all kinds: once a RAPL writer has created a
      package's segment, a power writer that sees the same names cannot
      create its own for that package. */
  lemma PowerCannotCreateBeside(st: Store<Seg>, k: Kind, pkg: nat, size: nat, fault: Fault,
                                pst: Store<Power.Record>, psize: nat, pfault: Fault)
    requires Valid(st) && Valid(pst)
    requires CreateSeg(st, k, pkg, size, fault).result.Ok?
    requires CreateSeg(st, k, pkg, size, fault).store.names.Keys <= pst.names.Keys
    ensures Power.CreateSeg(pst, pkg, psize, pfault).result.Err?
  {
    SharesPowerNames(pkg, pkg);
  }
}
