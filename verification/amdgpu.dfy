/** Per-GPU power histograms (`amdgpu_stats`): one shared-memory segment per
    hwmon device whose driver is `amdgpu`, named `/cpu_stats_p_amdgpu_NNN`
    after the hwmon number. Each record holds the device id, the power read
    last, a running count of elapsed seconds and 141 tick counters, one per
    2.5 W interval from 0 to 350 W. */
module Amdgpu {
  import opened Rounding
  import opened Bucketing
  import opened Histogram
  import opened SegmentNames
  import opened ShmStore
  import opened SegmentSet
  import opened Sums
  import opened Renderer

  /** `power_step`: 2.5 W. */
  const POWER_STEP: real := 2.5
  /** `max_power`: 350 W. */
  const MAX_POWER: real := 350.0
  const POWER_ENTRIES: nat := 141
  const POWER: Kind := Kind(POWER_STEP, POWER_ENTRIES, Floor)
  const PREFIX: string := "/cpu_stats_p_amdgpu_"
  /** Joules per kilowatt hour, `1000*3600`. */
  const WS_PER_KWH: real := 3600000.0

  /** `POWER_ENTRIES=uint32_t(max_power/power_step)+1` is 141. */
  lemma PowerEntriesFromMax()
    ensures EntriesFor(MAX_POWER, POWER_STEP) == POWER_ENTRIES
  {
    assert MAX_POWER / POWER_STEP == 140.0;
  }

  /** The segment record: hwmon id, last power, elapsed seconds, counters. */
  datatype Seg = Seg(id: nat, power: real, elapsedS: u64, entries: seq<u32>)

  type Record = s: Seg | |s.entries| == POWER_ENTRIES
    witness Seg(0, 0.0, 0, ZeroCounts(POWER_ENTRIES))

  /** `shm_seg::name(hwmon)`. */
  function Name(id: nat): (r: string)
    ensures |r| >= |PREFIX| + 3 && r[..|PREFIX|] == PREFIX
    ensures forall i | |PREFIX| <= i < |r| :: IsDigit(r[i])
    ensures ValueOf(r[|PREFIX|..]) == id
  {
    IdOfName(PREFIX, id);
    SegmentName(PREFIX, id)
  }

  lemma NameInjective(a: nat, b: nat)
    ensures Name(a) == Name(b) <==> a == b
  {
    SegmentNameInjective(PREFIX, a, b);
  }

  /** The constructor `shm_seg(id)`: power, elapsed time and every counter zero. */
  function NewSeg(id: nat): (s: Record)
    ensures s.id == id && s.power == 0.0 && s.elapsedS == 0 && Total(s.entries) == 0
  {
    TotalZero(POWER_ENTRIES);
    Seg(id, 0.0, 0, ZeroCounts(POWER_ENTRIES))
  }

  /** The setter `power(p)`. */
  function SetPower(s: Record, w: real): (r: Record)
    ensures r.power == w && r.(power := s.power) == s
  {
    s.(power := w)
  }

  /** The setter `elapsed_s(s)`. */
  function SetElapsed(s: Record, e: u64): (r: Record)
    ensures r.elapsedS == e && r.(elapsedS := s.elapsedS) == s
  {
    s.(elapsedS := e)
  }

  /** `power_to_idx`: the 2.5 W interval, clamped to the last bucket. */
  function PowerToIdx(w: NonNeg): (i: nat)
    ensures i < POWER_ENTRIES
    ensures i < POWER_ENTRIES - 1 ==> (i as real) * POWER_STEP <= w < (i + 1) as real * POWER_STEP
  {
    ValueToIndex(POWER, w)
  }

  /** `idx_to_power`: bucket `i` is shown as its upper edge, which is the
      lower edge of bucket `i + 1`. */
  function IdxToPower(i: nat): (w: NonNeg)
    ensures w == IndexToValue(POWER, i)
    ensures InBucket(POWER, i, w - POWER_STEP) && !InBucket(POWER, i, w) && InBucket(POWER, i + 1, w)
  {
    (i + 1) as real * POWER_STEP
  }

  /** 350 W and more all land in the last bucket. */
  lemma PowerSaturates(w: NonNeg)
    requires w >= MAX_POWER
    ensures PowerToIdx(w) == POWER_ENTRIES - 1
  {
    assert w / POWER_STEP >= 140.0;
  }

  lemma PowerMonotone(v: NonNeg, w: NonNeg)
    requires v <= w
    ensures PowerToIdx(v) <= PowerToIdx(w)
  {
    ValueToIndexMonotone(POWER, v, w);
  }

  /** A bucket's lower edge lands in the bucket; its displayed upper edge
      lands in the next one, or saturates in the last. */
  lemma PowerEdges(i: nat)
    requires i < POWER_ENTRIES
    ensures PowerToIdx(i as real * POWER_STEP) == i
    ensures PowerToIdx(IdxToPower(i)) == if i + 1 < POWER_ENTRIES then i + 1 else POWER_ENTRIES - 1
  {
    FloorLowerEdge(POWER, i);
    FloorUpperEdge(POWER, i);
  }

  /** `shm_seg::create(hwmon)`. */
  function CreateSeg(st: Store<Record>, id: nat, size: nat, fault: Fault): (r: Step<Record, nat>)
    requires Valid(st)
    ensures Valid(r.store)
    ensures r.result.Ok? <==> Name(id) !in st.names && fault == NoFault
    ensures r.result.Ok? ==>
      var h := r.result.value;
      && h in r.store.maps && r.store.maps[h].writable && r.store.maps[h].size == size
      && Name(id) in r.store.names && r.store.names[Name(id)] == r.store.maps[h].obj
      && Load(r.store, h) == NewSeg(id)
    ensures r.result.Err? ==> r.store.names == st.names && r.store.maps == st.maps
  {
    Create(st, Name(id), size, NewSeg(id), fault)
  }

  /** `shm_seg::open(hwmon)`. */
  function OpenSeg(st: Store<Record>, id: nat, size: nat, fault: Fault): (r: Step<Record, nat>)
    requires Valid(st)
    ensures Valid(r.store)
    ensures r.store.names == st.names && r.store.objects == st.objects
    ensures r.result.Ok? <==> Name(id) in st.names && fault != OpenFails && fault != MapFails
    ensures r.result.Ok? ==>
      var h := r.result.value;
      && h in r.store.maps && !r.store.maps[h].writable
      && Load(r.store, h) == st.objects[st.names[Name(id)]].rec
  {
    OpenRo(st, Name(id), size, fault)
  }

  /** `shm_seg::close(shm_seg*)`: unlink the record's own name, then unmap. */
  function CloseSeg(st: Store<Record>, h: nat): (r: Store<Record>)
    requires Valid(st) && h in st.maps
    ensures Valid(r)
    ensures Name(Load(st, h).id) !in r.names && h !in r.maps
    ensures forall n | n in st.names && n != Name(Load(st, h).id) :: n in r.names && r.names[n] == st.names[n]
    ensures forall g | g in st.maps && g != h :: g in r.maps && r.maps[g] == st.maps[g]
    ensures r.objects == st.objects
  {
    CloseWriter(st, h, Name(Load(st, h).id))
  }

  /** `shm_seg::close(const shm_seg*)`: unmap only. */
  function CloseSegRo(st: Store<Record>, h: nat): (r: Store<Record>)
    requires Valid(st)
    ensures Valid(r)
    ensures r.names == st.names && r.objects == st.objects
    ensures h !in r.maps && forall g | g in st.maps && g != h :: g in r.maps && r.maps[g] == st.maps[g]
  {
    CloseReader(st, h)
  }

  /** A writer's create followed by its close leaves the namespace and the
      mappings as they were. */
  lemma CreateThenClose(st: Store<Record>, id: nat, size: nat)
    requires Valid(st) && Name(id) !in st.names
    ensures var c := CreateSeg(st, id, size, NoFault);
      c.result.Ok? && CloseSeg(c.store, c.result.value).names == st.names
      && CloseSeg(c.store, c.result.value).maps == st.maps
  {
    var c := CreateSeg(st, id, size, NoFault);
    assert Load(c.store, c.result.value).id == id;
    CreateThenCloseWriter(st, Name(id), size, NewSeg(id));
  }

  /** The hwmon numbers below `n` whose device is an `amdgpu`, ascending: the
      constructor's scan, which skips every other device. */
  function AmdgpuIds(n: nat, isAmdgpu: nat -> bool): (ids: seq<nat>)
    ensures |ids| <= n
    ensures forall j | 0 <= j < |ids| :: ids[j] < n && isAmdgpu(ids[j])
    ensures forall j, k | 0 <= j < k < |ids| :: ids[j] < ids[k]
  {
    if n == 0 then []
    else AmdgpuIds(n - 1, isAmdgpu) + (if isAmdgpu(n - 1) then [n - 1] else [])
  }

  /** No `amdgpu` device below `n` is skipped. */
  lemma {:induction false} AmdgpuIdsComplete(n: nat, isAmdgpu: nat -> bool, k: nat)
    ensures k in AmdgpuIds(n, isAmdgpu) <==> k < n && isAmdgpu(k)
  {
    if n > 0 {
      AmdgpuIdsComplete(n - 1, isAmdgpu, k);
      var prev := AmdgpuIds(n - 1, isAmdgpu);
      if k < n - 1 && isAmdgpu(k) {
        var j :| 0 <= j < |prev| && prev[j] == k;
        assert AmdgpuIds(n, isAmdgpu)[j] == k;
      } else if k == n - 1 && isAmdgpu(k) {
        assert AmdgpuIds(n, isAmdgpu)[|prev|] == k;
      }
    }
  }

  /** `amdgpu_stats::data`: writer flag, device ids and mappings. */
  datatype Data = Data(create: bool, ids: seq<nat>, hs: seq<nat>)

  predicate Writable(st: Store<Record>, d: Data) {
    d.create ==> DistinctObjects(st, d.hs) && forall j | 0 <= j < |d.hs| :: st.maps[d.hs[j]].writable
  }

  /** The constructor `data(create)` over hwmon devices `0 .. hwmons - 1`;
      `faults` has one entry per `amdgpu` device, in scan order. */
  function NewData(st: Store<Record>, create: bool, hwmons: nat, isAmdgpu: nat -> bool,
                   faults: seq<Fault>, size: nat): (r: Step<Record, Data>)
    requires Valid(st) && |faults| == |AmdgpuIds(hwmons, isAmdgpu)|
    ensures Valid(r.store)
    ensures r.result.Ok? ==>
      var d := r.result.value;
      && d.create == create && d.ids == AmdgpuIds(hwmons, isAmdgpu)
      && |d.hs| == |d.ids| && Writable(r.store, d)
    ensures create && r.result.Ok? ==> forall j | 0 <= j < |r.result.value.hs| ::
      var id, h := r.result.value.ids[j], r.result.value.hs[j];
      && Name(id) !in st.names && Name(id) in r.store.names && h in r.store.maps
      && r.store.names[Name(id)] == r.store.maps[h].obj
      && Load(r.store, h) == NewSeg(id)
    ensures create && r.result.Err? ==> r.store.names == st.names && r.store.maps == st.maps
    ensures !create ==> r.store.names == st.names && r.store.objects == st.objects
    ensures !create ==> (r.result.Ok? <==> AllOpenable(st, AmdgpuIds(hwmons, isAmdgpu), faults, Name, 0))
  {
    var ids := AmdgpuIds(hwmons, isAmdgpu);
    var init := (i: nat) => NewSeg(i);
    var a := Attach(st, create, ids, faults, Name, init, size);
    if create then
      WriterAttach(st, ids, faults, Name, init, size);
      if a.result.Err? then Step(a.store, Err(a.result.error))
      else Step(a.store, Ok(Data(create, ids, a.result.value)))
    else
      ReaderAttach(st, ids, faults, Name, init, size);
      if a.result.Err? then Step(a.store, Err(a.result.error))
      else Step(a.store, Ok(Data(create, ids, a.result.value)))
  }

  /** `p_in_w`: the power cap reading in microwatts, as watts. */
  function Watts(pptUw: u64): (w: NonNeg)
    ensures w * 1000000.0 == pptUw as real
  {
    pptUw as real * 0.000001
  }

  /** One tick for one device: bucket `power_to_idx(p_in_w)` advances by
      `weight`, the power is kept for display and the elapsed time grows by
      the interval, both counters wrapping at their width; the id stays. */
  function Sample(s: Record, pptUw: u64, tmo: u32, weight: u32): (r: Record)
    ensures r.id == s.id && r.power == Watts(pptUw)
    ensures SubU64(r.elapsedS, s.elapsedS) == tmo
    ensures var i := PowerToIdx(Watts(pptUw));
      && r.entries[i] == AddU32(s.entries[i], weight)
      && forall k | 0 <= k < POWER_ENTRIES && k != i :: r.entries[k] == s.entries[k]
  {
    var w := Watts(pptUw);
    var b := s.(entries := Bump(s.entries, PowerToIdx(w), weight));
    SetElapsed(SetPower(b, w), AddU64(s.elapsedS, tmo))
  }

  /** Without counter overflow a sample adds exactly `weight` ticks. */
  lemma SampleAddsWeight(s: Record, pptUw: u64, tmo: u32, weight: u32)
    requires s.entries[PowerToIdx(Watts(pptUw))] + weight < U32_MOD
    ensures Total(Sample(s, pptUw, tmo, weight).entries) == Total(s.entries) + weight
  {
    BumpTotal(s.entries, PowerToIdx(Watts(pptUw)), weight);
  }

  /** Whether `update` logs the reading: it lands in (or beyond) the last
      bucket. A device is logged exactly when its reading reaches the
      maximum: the `p_in_w > max_power` test adds nothing to the bucket test. */
  function Saturated(pptUw: u64): (r: bool)
    ensures r <==> Watts(pptUw) >= MAX_POWER
  {
    var w := Watts(pptUw);
    SaturationIff(POWER, w);
    if w >= MAX_POWER then
      PowerSaturates(w);
      PowerToIdx(w) >= POWER_ENTRIES - 1 || w > MAX_POWER
    else
      assert w / POWER_STEP < 140.0;
      PowerToIdx(w) >= POWER_ENTRIES - 1 || w > MAX_POWER
  }

  /** The outcome of one `update`: the store and, per segment, whether it was logged. */
  datatype Updated = Updated(store: Store<Record>, logged: seq<bool>)

  /** The power reading of a segment's device. */
  function Reading(st: Store<Record>, h: nat, pptUw: nat -> u64): u64
    requires Valid(st) && h in st.maps
  {
    pptUw(Load(st, h).id)
  }

  /** The counters after one pass of the writer over its segments. */
  function Pass(st: Store<Record>, d: Data, tmo: u32, weight: u32, pptUw: nat -> u64): (r: Store<Record>)
    requires Valid(st) && Writable(st, d) && d.create
    ensures Valid(r) && r.names == st.names && r.maps == st.maps && Writable(r, d)
    ensures r.objects.Keys == st.objects.Keys
    ensures forall j | 0 <= j < |d.hs| ::
      Load(r, d.hs[j]) == Sample(Load(st, d.hs[j]), pptUw(Load(st, d.hs[j]).id), tmo, weight)
    ensures forall o | o in st.objects && Untouched(st, d.hs, o) :: r.objects[o] == st.objects[o]
  {
    var step := (s: Record, w: u32) => Sample(s, pptUw(s.id), tmo, w);
    var ws: seq<u32> := seq(|d.hs|, _ => weight);
    var r := ForEach(st, d.hs, ws, step);
    assert DistinctObjects(r, d.hs);
    r
  }

  function LoggedOf(st: Store<Record>, hs: seq<nat>, pptUw: nat -> u64): (l: seq<bool>)
    requires Valid(st) && forall j | 0 <= j < |hs| :: hs[j] in st.maps
    ensures |l| == |hs| && forall j | 0 <= j < |hs| :: l[j] == Saturated(pptUw(Load(st, hs[j]).id))
  {
    seq(|hs|, j requires 0 <= j < |hs| => Saturated(Reading(st, hs[j], pptUw)))
  }

  /** `data::update(tmo_sec, weight)`: nothing for a reader; the writer reads
      each device's power cap once and records it. */
  function Update(st: Store<Record>, d: Data, tmo: u32, weight: u32, pptUw: nat -> u64): (r: Updated)
    requires Valid(st) && Writable(st, d)
    ensures Valid(r.store) && r.store.names == st.names && r.store.maps == st.maps
    ensures r.store.objects.Keys == st.objects.Keys && Writable(r.store, d)
    ensures !d.create ==> r == Updated(st, [])
    ensures d.create ==> |r.logged| == |d.hs| && forall j | 0 <= j < |d.hs| ::
      var s := Load(st, d.hs[j]);
      && Load(r.store, d.hs[j]) == Sample(s, pptUw(s.id), tmo, weight)
      && r.logged[j] == Saturated(pptUw(s.id))
    ensures d.create ==> forall o | o in st.objects && Untouched(st, d.hs, o) :: r.store.objects[o] == st.objects[o]
  {
    if !d.create then Updated(st, [])
    else Updated(Pass(st, d, tmo, weight, pptUw), LoggedOf(st, d.hs, pptUw))
  }

  /** The destructor. */
  function DestroyData(st: Store<Record>, d: Data): (r: Store<Record>)
    requires Valid(st) && |d.ids| == |d.hs|
    ensures Valid(r) && r.objects == st.objects
    ensures forall j | 0 <= j < |d.hs| :: d.hs[j] !in r.maps
    ensures forall h | h in st.maps && h !in d.hs :: h in r.maps && r.maps[h] == st.maps[h]
    ensures !d.create ==> r.names == st.names
    ensures d.create ==> forall j | 0 <= j < |d.ids| :: Name(d.ids[j]) !in r.names
    ensures d.create ==> forall n | n in st.names && n !in NamesOf(Name, d.ids) ::
      n in r.names && r.names[n] == st.names[n]
  {
    Detach(st, d.create, NamesOf(Name, d.ids), d.hs)
  }

  /** Construction, one sampling pass and destruction leave the namespace
      and the mappings as they were. */
  lemma DataLeavesNoTrace(st: Store<Record>, create: bool, hwmons: nat, isAmdgpu: nat -> bool,
                          faults: seq<Fault>, size: nat, tmo: u32, weight: u32, pptUw: nat -> u64)
    requires Valid(st) && |faults| == |AmdgpuIds(hwmons, isAmdgpu)|
    requires NewData(st, create, hwmons, isAmdgpu, faults, size).result.Ok?
    ensures var c := NewData(st, create, hwmons, isAmdgpu, faults, size);
      var u := Update(c.store, c.result.value, tmo, weight, pptUw);
      var r := DestroyData(u.store, c.result.value);
      r.names == st.names && r.maps == st.maps
  {
    var ids := AmdgpuIds(hwmons, isAmdgpu);
    var init := (i: nat) => NewSeg(i);
    var c := NewData(st, create, hwmons, isAmdgpu, faults, size);
    var u := Update(c.store, c.result.value, tmo, weight, pptUw);
    AttachDetach(st, create, ids, faults, Name, init, size, u.store);
  }

  /** What `to_stream` prints for one device: the distribution over the
      buckets' upper edges, the average power, the power read last, and the
      energy estimate over the elapsed seconds in Ws and in kWh, rounded to
      a whole Ws and to a thousandth of a kWh. */
  datatype GpuReport = GpuReport(id: nat, dist: Report, avgW: real, lastW: real,
                                 energyWs: real, energyKWh: real)

  /** A whole number of watt-seconds. */
  predicate WholeWs(ws: real) {
    ws.Floor as real == ws
  }

  /** A kWh figure with at most three decimals: a whole number of Wh. */
  predicate WholeWh(kwh: real) {
    (kwh * 1000.0).Floor as real == kwh * 1000.0
  }

  /** `ws = rint(ws)` and `kwh = rint(kwh*1e3)*1e-3` for an energy of `e` Ws. */
  function Energy(e: real): (r: (real, real))
    ensures -0.5 <= r.0 - e <= 0.5 && WholeWs(r.0)
    ensures -0.0005 <= r.1 - e / WS_PER_KWH <= 0.0005 && WholeWh(r.1)
  {
    var kwh := e / WS_PER_KWH;
    var n := Rint(kwh * 1000.0);
    assert -0.0005 <= n as real * 0.001 - kwh <= 0.0005;
    assert (n as real * 0.001) * 1000.0 == n as real;
    (Rint(e) as real, n as real * 0.001)
  }

  /** The report for one device. With a tick, the percentages add up to 100
      and the average is the tick-weighted mean of the bucket midpoints; with
      none, the table is empty and the average is minus half a step. The
      energy figures are the average times the elapsed seconds (`Mul` is
      plain multiplication), rounded to a whole Ws and to 0.001 kWh. */
  function ToStream(s: Record): (r: GpuReport)
    ensures r.id == s.id && r.lastW == s.power && r.dist.samples == Total(s.entries)
    ensures Total(s.entries) > 0 ==>
      && r.dist.pctSum == 100.0 && !r.dist.invalidSum
      && r.avgW == SumReal(Products(Pct(s.entries), Midpoints(POWER, NonZero(s.entries)))) * 0.01
    ensures Total(s.entries) == 0 ==> r.dist.rows == [] && r.dist.invalidSum && r.avgW == -1.25
    ensures -0.5 <= r.energyWs - Mul(s.elapsedS as real, r.avgW) <= 0.5
    ensures WholeWs(r.energyWs)
    ensures -0.0005 <= r.energyKWh - Mul(s.elapsedS as real, r.avgW) / WS_PER_KWH <= 0.0005
    ensures WholeWh(r.energyKWh)
  {
    RenderFacts(POWER, 1.0, s.entries);
    FloorMean(POWER, s.entries);
    var dist := Render(POWER, 1.0, s.entries);
    var avg := dist.mean - POWER_STEP * 0.5;
    var e := Energy(Mul(s.elapsedS as real, avg));
    GpuReport(s.id, dist, avg, s.power, e.0, e.1)
  }

  /** With at least one tick, the printed average is the percentage-weighted
      mean of the bucket midpoints. */
  lemma AverageIsMidpointMean(s: Record, i: nat)
    requires i < POWER_ENTRIES && s.entries[i] != 0
    ensures ToStream(s).avgW == SumReal(Products(Pct(s.entries), Midpoints(POWER, NonZero(s.entries)))) * 0.01
  {
    MidpointMean(POWER, s.entries, i);
  }

  /** With no tick the average is minus half a step, so the energy estimate
      is negative as soon as any time has elapsed; the sum line flags it. */
  lemma EmptyAverage(s: Record)
    requires forall i | 0 <= i < POWER_ENTRIES :: s.entries[i] == 0
    ensures ToStream(s).avgW == -1.25 && ToStream(s).dist.invalidSum
    ensures s.elapsedS >= 1 ==> ToStream(s).energyWs < 0.0
    ensures s.elapsedS == 0 ==> ToStream(s).energyWs == 0.0
  {
    InvalidSumIff(POWER, 1.0, s.entries);
    if |NonZero(s.entries)| > 0 {
      assert false;
    }
  }
}
