/** Per-package power histograms (`power_stats`): one shared-memory segment
    per RAPL package, named `/cpu_stats_p_pkg_NNN`, holding the package id
    and 51 tick counters, one per 5 W interval from 0 to 250 W. The writer
    derives each sample from the package's energy counter in microjoules:
    the difference to the previous reading, divided by the sampling
    interval. */
module Power {
  import opened Bucketing
  import opened Histogram
  import opened SegmentNames
  import opened ShmStore
  import opened SegmentSet
  import opened Sums
  import opened Renderer

  /** `power_step`: 5 W. */
  const POWER_STEP: real := 5.0
  /** `max_power`: 250 W. */
  const MAX_POWER: real := 250.0
  /** `POWER_ENTRIES`. */
  const POWER_ENTRIES: nat := 51
  const POWER: Kind := Kind(POWER_STEP, POWER_ENTRIES, Floor)
  const PREFIX: string := "/cpu_stats_p_pkg_"

  /** `POWER_ENTRIES=uint32_t(max_power/power_step)+1` is 51. */
  lemma PowerEntriesFromMax()
    ensures EntriesFor(MAX_POWER, POWER_STEP) == POWER_ENTRIES
  {
    assert MAX_POWER / POWER_STEP == 50.0;
  }

  /** The segment record: the package id, then the counters. */
  datatype Seg = Seg(pkg: nat, entries: seq<u32>)

  /** `begin()..end()` spans exactly `POWER_ENTRIES` counters. */
  type Record = s: Seg | |s.entries| == POWER_ENTRIES
    witness Seg(0, ZeroCounts(POWER_ENTRIES))

  /** `shm_seg::name(pkg)`. */
  function Name(pkg: nat): (r: string)
    ensures |r| >= |PREFIX| + 3 && r[..|PREFIX|] == PREFIX
    ensures forall i | |PREFIX| <= i < |r| :: IsDigit(r[i])
    ensures ValueOf(r[|PREFIX|..]) == pkg
  {
    IdOfName(PREFIX, pkg);
    SegmentName(PREFIX, pkg)
  }

  lemma NameInjective(a: nat, b: nat)
    ensures Name(a) == Name(b) <==> a == b
  {
    SegmentNameInjective(PREFIX, a, b);
  }

  /** The constructor `shm_seg(pkg)`: the id, every counter zero. */
  function NewSeg(pkg: nat): (s: Record)
    ensures s.pkg == pkg && Total(s.entries) == 0
  {
    TotalZero(POWER_ENTRIES);
    Seg(pkg, ZeroCounts(POWER_ENTRIES))
  }

  /** `power_to_idx`: the 5 W interval, clamped to the last bucket. */
  function PowerToIdx(w: NonNeg): (i: nat)
    ensures i < POWER_ENTRIES
    ensures i < POWER_ENTRIES - 1 ==> (i as real) * POWER_STEP <= w < (i + 1) as real * POWER_STEP
  {
    ValueToIndex(POWER, w)
  }

  /** `idx_to_power`: bucket `i` is shown as its upper edge, which is the
      lower edge of bucket `i + 1`. */
  function IdxToPower(i: nat): (w: NonNeg)
    ensures w == IndexToValue(POWER, i)
    ensures InBucket(POWER, i, w - POWER_STEP) && !InBucket(POWER, i, w) && InBucket(POWER, i + 1, w)
  {
    (i + 1) as real * POWER_STEP
  }

  /** 250 W and more all land in the last bucket. */
  lemma PowerSaturates(w: NonNeg)
    requires w >= MAX_POWER
    ensures PowerToIdx(w) == POWER_ENTRIES - 1
  {
    assert w / POWER_STEP >= 50.0;
  }

  lemma PowerMonotone(v: NonNeg, w: NonNeg)
    requires v <= w
    ensures PowerToIdx(v) <= PowerToIdx(w)
  {
    ValueToIndexMonotone(POWER, v, w);
  }

  /** A bucket's lower edge lands in the bucket; its displayed upper edge
      lands in the next one, or saturates in the last. */
  lemma PowerEdges(i: nat)
    requires i < POWER_ENTRIES
    ensures PowerToIdx(i as real * POWER_STEP) == i
    ensures PowerToIdx(IdxToPower(i)) == if i + 1 < POWER_ENTRIES then i + 1 else POWER_ENTRIES - 1
  {
    FloorLowerEdge(POWER, i);
    FloorUpperEdge(POWER, i);
  }

  /** `shm_seg::create(pkg)`. */
  function CreateSeg(st: Store<Record>, pkg: nat, size: nat, fault: Fault): (r: Step<Record, nat>)
    requires Valid(st)
    ensures Valid(r.store)
    ensures r.result.Ok? <==> Name(pkg) !in st.names && fault == NoFault
    ensures r.result.Ok? ==>
      var h := r.result.value;
      && h in r.store.maps && r.store.maps[h].writable && r.store.maps[h].size == size
      && Name(pkg) in r.store.names && r.store.names[Name(pkg)] == r.store.maps[h].obj
      && Load(r.store, h) == NewSeg(pkg)
    ensures r.result.Err? ==> r.store.names == st.names && r.store.maps == st.maps
  {
    Create(st, Name(pkg), size, NewSeg(pkg), fault)
  }

  /** `shm_seg::open(pkg)`. */
  function OpenSeg(st: Store<Record>, pkg: nat, size: nat, fault: Fault): (r: Step<Record, nat>)
    requires Valid(st)
    ensures Valid(r.store)
    ensures r.store.names == st.names && r.store.objects == st.objects
    ensures r.result.Ok? <==> Name(pkg) in st.names && fault != OpenFails && fault != MapFails
    ensures r.result.Ok? ==>
      var h := r.result.value;
      && h in r.store.maps && !r.store.maps[h].writable
      && Load(r.store, h) == st.objects[st.names[Name(pkg)]].rec
  {
    OpenRo(st, Name(pkg), size, fault)
  }

  /** `shm_seg::close(shm_seg*)`: unlink the record's own name, then unmap. */
  function CloseSeg(st: Store<Record>, h: nat): (r: Store<Record>)
    requires Valid(st) && h in st.maps
    ensures Valid(r)
    ensures Name(Load(st, h).pkg) !in r.names && h !in r.maps
    ensures forall n | n in st.names && n != Name(Load(st, h).pkg) :: n in r.names && r.names[n] == st.names[n]
    ensures forall g | g in st.maps && g != h :: g in r.maps && r.maps[g] == st.maps[g]
    ensures r.objects == st.objects
  {
    CloseWriter(st, h, Name(Load(st, h).pkg))
  }

  /** `shm_seg::close(const shm_seg*)`: unmap only. */
  function CloseSegRo(st: Store<Record>, h: nat): (r: Store<Record>)
    requires Valid(st)
    ensures Valid(r)
    ensures r.names == st.names && r.objects == st.objects
    ensures h !in r.maps && forall g | g in st.maps && g != h :: g in r.maps && r.maps[g] == st.maps[g]
  {
    CloseReader(st, h)
  }

  /** A writer's create followed by its close leaves the namespace and the
      mappings as they were. */
  lemma CreateThenClose(st: Store<Record>, pkg: nat, size: nat)
    requires Valid(st) && Name(pkg) !in st.names
    ensures var c := CreateSeg(st, pkg, size, NoFault);
      c.result.Ok? && CloseSeg(c.store, c.result.value).names == st.names
      && CloseSeg(c.store, c.result.value).maps == st.maps
  {
    var c := CreateSeg(st, pkg, size, NoFault);
    assert Load(c.store, c.result.value).pkg == pkg;
    CreateThenCloseWriter(st, Name(pkg), size, NewSeg(pkg));
  }

  /** `power_stats::data`: writer flag, package ids, mappings, and the last
      energy reading of each package (`_v_energy_uj`), in segment order. */
  datatype Data = Data(create: bool, ids: seq<nat>, hs: seq<nat>, lastUj: seq<u64>)

  /** What `update` needs: a writer's handles are read-write mappings of
      distinct objects, each with its last energy reading. */
  predicate Writable(st: Store<Record>, d: Data) {
    d.create ==>
      && |d.lastUj| == |d.hs|
      && DistinctObjects(st, d.hs)
      && forall j | 0 <= j < |d.hs| :: st.maps[d.hs[j]].writable
  }

  /** The energy counter of each listed package, in order. */
  function Readings(ids: seq<nat>, energyUj: nat -> u64): (e: seq<u64>)
    ensures |e| == |ids| && forall j | 0 <= j < |ids| :: e[j] == energyUj(ids[j])
  {
    seq(|ids|, j requires 0 <= j < |ids| => energyUj(ids[j]))
  }

  /** The constructor `data(create)`: packages `0 .. pkgs - 1` in order; the
      writer creates each segment and then takes the package's first energy
      reading, a reader only opens. On failure a writer closes what it
      created before the error propagates. */
  function NewData(st: Store<Record>, create: bool, pkgs: nat, faults: seq<Fault>,
                   energyUj: nat -> u64, size: nat): (r: Step<Record, Data>)
    requires Valid(st) && |faults| == pkgs
    ensures Valid(r.store)
    ensures r.result.Ok? ==>
      var d := r.result.value;
      d.create == create && d.ids == Devices(pkgs) && |d.hs| == pkgs && Writable(r.store, d)
    ensures create && r.result.Ok? ==> forall j | 0 <= j < |r.result.value.hs| ::
      var pkg, h := r.result.value.ids[j], r.result.value.hs[j];
      && Name(pkg) !in st.names && Name(pkg) in r.store.names && h in r.store.maps
      && r.store.names[Name(pkg)] == r.store.maps[h].obj
      && Load(r.store, h) == NewSeg(pkg)
    ensures create && r.result.Ok? ==> r.result.value.lastUj == Readings(Devices(pkgs), energyUj)
    ensures !create && r.result.Ok? ==> r.result.value.lastUj == []
    ensures create && r.result.Err? ==> r.store.names == st.names && r.store.maps == st.maps
    ensures !create ==> r.store.names == st.names && r.store.objects == st.objects
    ensures !create ==> (r.result.Ok? <==> AllOpenable(st, Devices(pkgs), faults, Name, 0))
  {
    var ids := Devices(pkgs);
    var init := (i: nat) => NewSeg(i);
    var a := Attach(st, create, ids, faults, Name, init, size);
    if create then
      WriterAttach(st, ids, faults, Name, init, size);
      if a.result.Err? then Step(a.store, Err(a.result.error))
      else Step(a.store, Ok(Data(create, ids, a.result.value, Readings(ids, energyUj))))
    else
      ReaderAttach(st, ids, faults, Name, init, size);
      if a.result.Err? then Step(a.store, Err(a.result.error))
      else Step(a.store, Ok(Data(create, ids, a.result.value, [])))
  }

  lemma PowerOfEnergy(d: real, t: real, w: real)
    requires t > 0.0 && w == d * (0.000001 / t)
    ensures w * t == d * 0.000001
  {
    assert (0.000001 / t) * t == 0.000001;
  }

  /** `p_in_w`: the energy difference as an unsigned 64-bit subtraction,
      turned into watts over the interval: average power times the interval
      is the energy difference, in joules. A reading below the previous one
      wraps around 2^64; there is no other correction. */
  function Watts(now: u64, last: u64, tmo: u32): (w: NonNeg)
    requires tmo > 0
    ensures w * tmo as real == SubU64(now, last) as real * 0.000001
    ensures now >= last ==> w * tmo as real == (now - last) as real * 0.000001
  {
    var w := SubU64(now, last) as real * (0.000001 / tmo as real);
    PowerOfEnergy(SubU64(now, last) as real, tmo as real, w);
    w
  }

  lemma SaturationBound(d: real, t: real, w: real)
    requires t > 0.0 && w * t == d * 0.000001 && d >= 250000000.0 * t
    ensures w >= MAX_POWER
  {
    assert w * t >= 250.0 * t;
  }

  /** A reading that went backwards by less than 2^64 minus 250 W worth of
      energy over the interval wraps to a huge difference and is recorded
      in the last bucket. */
  lemma BackwardsReadingSaturates(now: u64, last: u64, tmo: u32)
    requires tmo > 0 && now < last
    requires last - now <= U64_MOD - 250000000 * tmo
    ensures PowerToIdx(Watts(now, last, tmo)) == POWER_ENTRIES - 1
  {
    var w := Watts(now, last, tmo);
    SaturationBound(SubU64(now, last) as real, tmo as real, w);
    PowerSaturates(w);
  }

  /** Whether `update` logs for a package: the reading did not increase, or
      the sample lands in (or beyond) the last bucket. */
  datatype Notes = Notes(notIncreasing: bool, saturated: bool)

  /** One tick for one package: the bucket of the power since the last
      reading advances by exactly 1, whatever the logging says. */
  function Sample(s: Record, now: u64, last: u64, tmo: u32): (r: Record)
    requires tmo > 0
    ensures r.pkg == s.pkg
    ensures var i := PowerToIdx(Watts(now, last, tmo));
      && r.entries[i] == AddU32(s.entries[i], 1)
      && forall k | 0 <= k < POWER_ENTRIES && k != i :: r.entries[k] == s.entries[k]
  {
    s.(entries := Bump(s.entries, PowerToIdx(Watts(now, last, tmo)), 1))
  }

  lemma SampleAddsOne(s: Record, now: u64, last: u64, tmo: u32)
    requires tmo > 0 && s.entries[PowerToIdx(Watts(now, last, tmo))] + 1 < U32_MOD
    ensures Total(Sample(s, now, last, tmo).entries) == Total(s.entries) + 1
  {
    BumpTotal(s.entries, PowerToIdx(Watts(now, last, tmo)), 1);
  }

  /** The two conditions `update` logs for a package. A package is logged as
      saturated exactly when its power reaches the maximum: the bucket test
      and the `p_in_w > max_power` test together add nothing to that. */
  function Note(now: u64, last: u64, tmo: u32): (r: Notes)
    requires tmo > 0
    ensures r.notIncreasing <==> now <= last
    ensures r.saturated <==> Watts(now, last, tmo) >= MAX_POWER
  {
    var w := Watts(now, last, tmo);
    SaturationIff(POWER, w);
    if w >= MAX_POWER then
      PowerSaturates(w);
      Notes(now <= last, PowerToIdx(w) >= POWER_ENTRIES - 1 || w > MAX_POWER)
    else
      assert w / POWER_STEP < 50.0;
      Notes(now <= last, PowerToIdx(w) >= POWER_ENTRIES - 1 || w > MAX_POWER)
  }

  /** The outcome of one `update`: the store, the new last readings and
      what was logged per package. */
  datatype Updated = Updated(store: Store<Record>, data: Data, notes: seq<Notes>)

  /** The counters after one pass of the writer over its segments. */
  function Pass(st: Store<Record>, d: Data, tmo: u32, energyUj: nat -> u64): (r: Store<Record>)
    requires Valid(st) && Writable(st, d) && d.create && tmo > 0
    ensures Valid(r) && r.names == st.names && r.maps == st.maps && Writable(r, d)
    ensures r.objects.Keys == st.objects.Keys
    ensures forall j | 0 <= j < |d.hs| ::
      Load(r, d.hs[j]) == Sample(Load(st, d.hs[j]), energyUj(Load(st, d.hs[j]).pkg), d.lastUj[j], tmo)
    ensures forall o | o in st.objects && Untouched(st, d.hs, o) :: r.objects[o] == st.objects[o]
  {
    var step := (s: Record, last: u64) => Sample(s, energyUj(s.pkg), last, tmo);
    var r := ForEach(st, d.hs, d.lastUj, step);
    assert DistinctObjects(r, d.hs);
    r
  }

  function Reading(st: Store<Record>, h: nat, energyUj: nat -> u64): u64
    requires Valid(st) && h in st.maps
  {
    energyUj(Load(st, h).pkg)
  }

  /** The new reading of each segment's package. */
  function Nows(st: Store<Record>, hs: seq<nat>, energyUj: nat -> u64): (e: seq<u64>)
    requires Valid(st) && forall j | 0 <= j < |hs| :: hs[j] in st.maps
    ensures |e| == |hs| && forall j | 0 <= j < |hs| :: e[j] == energyUj(Load(st, hs[j]).pkg)
  {
    seq(|hs|, j requires 0 <= j < |hs| => Reading(st, hs[j], energyUj))
  }

  /** What is logged for each segment. */
  function NotesOf(nows: seq<u64>, lasts: seq<u64>, tmo: u32): (n: seq<Notes>)
    requires |nows| == |lasts| && tmo > 0
    ensures |n| == |nows| && forall j | 0 <= j < |nows| :: n[j] == Note(nows[j], lasts[j], tmo)
  {
    seq(|nows|, j requires 0 <= j < |nows| => Note(nows[j], lasts[j], tmo))
  }

  /** `data::update(tmo_sec)`: nothing for a reader; the writer reads every
      package's energy counter once, records one tick and keeps the reading
      as the next `last`, anomalous or not. */
  function Update(st: Store<Record>, d: Data, tmo: u32, energyUj: nat -> u64): (r: Updated)
    requires Valid(st) && Writable(st, d) && tmo > 0
    ensures Valid(r.store) && r.store.names == st.names && r.store.maps == st.maps
    ensures r.store.objects.Keys == st.objects.Keys
    ensures r.data.create == d.create && r.data.ids == d.ids && r.data.hs == d.hs
    ensures Writable(r.store, r.data)
    ensures !d.create ==> r == Updated(st, d, [])
    ensures d.create ==> |r.notes| == |d.hs| && |r.data.lastUj| == |d.hs|
    ensures d.create ==> forall j | 0 <= j < |d.hs| ::
      r.data.lastUj[j] == energyUj(Load(st, d.hs[j]).pkg)
    ensures d.create ==> forall j | 0 <= j < |d.hs| ::
      Load(r.store, d.hs[j]) == Sample(Load(st, d.hs[j]), energyUj(Load(st, d.hs[j]).pkg), d.lastUj[j], tmo)
    ensures d.create ==> forall j | 0 <= j < |d.hs| ::
      r.notes[j] == Note(energyUj(Load(st, d.hs[j]).pkg), d.lastUj[j], tmo)
    ensures d.create ==> forall o | o in st.objects && Untouched(st, d.hs, o) :: r.store.objects[o] == st.objects[o]
  {
    if !d.create then Updated(st, d, [])
    else
      var nows := Nows(st, d.hs, energyUj);
      var r := Pass(st, d, tmo, energyUj);
      var d' := d.(lastUj := nows);
      assert Writable(r, d');
      Updated(r, d', NotesOf(nows, d.lastUj, tmo))
  }

  /** The destructor. */
  function DestroyData(st: Store<Record>, d: Data): (r: Store<Record>)
    requires Valid(st) && |d.ids| == |d.hs|
    ensures Valid(r) && r.objects == st.objects
    ensures forall j | 0 <= j < |d.hs| :: d.hs[j] !in r.maps
    ensures forall h | h in st.maps && h !in d.hs :: h in r.maps && r.maps[h] == st.maps[h]
    ensures !d.create ==> r.names == st.names
    ensures d.create ==> forall j | 0 <= j < |d.ids| :: Name(d.ids[j]) !in r.names
    ensures d.create ==> forall n | n in st.names && n !in NamesOf(Name, d.ids) ::
      n in r.names && r.names[n] == st.names[n]
  {
    Detach(st, d.create, NamesOf(Name, d.ids), d.hs)
  }

  /** Construction, one sampling pass and destruction leave the namespace
      and the mappings as they were. */
  lemma DataLeavesNoTrace(st: Store<Record>, create: bool, pkgs: nat, faults: seq<Fault>,
                          energy0: nat -> u64, size: nat, tmo: u32, energy1: nat -> u64)
    requires Valid(st) && |faults| == pkgs && tmo > 0
    requires NewData(st, create, pkgs, faults, energy0, size).result.Ok?
    ensures var c := NewData(st, create, pkgs, faults, energy0, size);
      var u := Update(c.store, c.result.value, tmo, energy1);
      var r := DestroyData(u.store, u.data);
      r.names == st.names && r.maps == st.maps
  {
    var ids := Devices(pkgs);
    var init := (i: nat) => NewSeg(i);
    var c := NewData(st, create, pkgs, faults, energy0, size);
    var u := Update(c.store, c.result.value, tmo, energy1);
    AttachDetach(st, create, ids, faults, Name, init, size, u.store);
  }

  /** What `to_stream` prints for one package: the id, the distribution over
      the buckets' upper edges, and the average power. */
  datatype PkgReport = PkgReport(pkg: nat, dist: Report, avgW: real)

  /** `avg = avg*1.0e-2 - power_step*.5`: the weighted mean of the upper
      edges, moved down by half a step. */
  function ToStream(s: Record): (r: PkgReport)
    ensures r.pkg == s.pkg && r.dist.samples == Total(s.entries)
    ensures Total(s.entries) > 0 ==>
      && r.dist.pctSum == 100.0 && !r.dist.invalidSum
      && r.avgW == SumReal(Products(Pct(s.entries), Midpoints(POWER, NonZero(s.entries)))) * 0.01
    ensures Total(s.entries) == 0 ==> r.dist.rows == [] && r.dist.invalidSum && r.avgW == -2.5
  {
    RenderFacts(POWER, 1.0, s.entries);
    FloorMean(POWER, s.entries);
    var dist := Render(POWER, 1.0, s.entries);
    PkgReport(s.pkg, dist, dist.mean - POWER_STEP * 0.5)
  }

  /** With at least one tick, the printed average is the percentage-weighted
      mean of the bucket midpoints: subtracting half a step from the mean of
      the upper edges is exact because the percentages add up to 100. */
  lemma AverageIsMidpointMean(s: Record, i: nat)
    requires i < POWER_ENTRIES && s.entries[i] != 0
    ensures var vidx := NonZero(s.entries);
      ToStream(s).avgW == SumReal(Products(Pct(s.entries), Midpoints(POWER, vidx))) * 0.01
  {
    MidpointMean(POWER, s.entries, i);
  }

  /** With no tick at all the average line still prints, as minus half a step. */
  lemma EmptyAverage(s: Record)
    requires forall i | 0 <= i < POWER_ENTRIES :: s.entries[i] == 0
    ensures ToStream(s).avgW == -2.5
    ensures ToStream(s).dist.rows == [] && ToStream(s).dist.invalidSum
  {
    InvalidSumIff(POWER, 1.0, s.entries);
    if |NonZero(s.entries)| > 0 {
      assert false;
    }
  }
}
