/** Per-CPU frequency histograms (`cpufreq_stats`): one shared-memory
    segment per logical CPU, named `/cpu_stats_f_cpu_NNN`, holding the CPU
    id, its minimum and maximum frequency, the last measured frequency and
    36 tick counters, one per 200 MHz step from 0 to 7 GHz. Frequencies are
    in kHz, as the kernel reports them. */
module Cpufreq {
  import opened Rounding
  import opened Bucketing
  import opened Histogram
  import opened SegmentNames
  import opened ShmStore
  import opened SegmentSet
  import opened Sums
  import opened Renderer

  /** `freq_step`: 200 MHz in kHz. */
  const FREQ_STEP: real := 200000.0
  /** `max_freq`: 7 GHz in kHz. */
  const MAX_FREQ: real := 7000000.0
  /** `FREQ_ENTRIES`. */
  const FREQ_ENTRIES: nat := 36
  const FREQ: Kind := Kind(FREQ_STEP, FREQ_ENTRIES, Nearest)
  const PREFIX: string := "/cpu_stats_f_cpu_"

  /** The displayed frequency unit: `fi /= 1000` turns kHz into MHz. */
  const MHZ_PER_KHZ: real := 0.001

  /** `FREQ_ENTRIES=uint32_t(max_freq/freq_step)+1` is 36. */
  lemma FreqEntriesFromMax()
    ensures EntriesFor(MAX_FREQ, FREQ_STEP) == FREQ_ENTRIES
  {
    assert MAX_FREQ / FREQ_STEP == 35.0;
  }

  /** The segment record. */
  datatype Seg = Seg(cpu: nat, minKHz: real, maxKHz: real, lastKHz: real, entries: seq<u32>)

  /** `begin()..end()` spans exactly `FREQ_ENTRIES` counters. */
  type Record = s: Seg | |s.entries| == FREQ_ENTRIES
    witness Seg(0, 0.0, 0.0, 0.0, ZeroCounts(FREQ_ENTRIES))

  /** `last_f_khz(f)`: the one setter of the record. */
  function SetLastKHz(s: Record, f: real): (r: Record)
    ensures r.lastKHz == f
    ensures r.cpu == s.cpu && r.minKHz == s.minKHz && r.maxKHz == s.maxKHz && r.entries == s.entries
  {
    s.(lastKHz := f)
  }

  /** `shm_seg::name(cpu)`: the prefix, then the id in at least three digits. */
  function Name(cpu: nat): (r: string)
    ensures |r| >= |PREFIX| + 3 && r[..|PREFIX|] == PREFIX
    ensures forall i | |PREFIX| <= i < |r| :: IsDigit(r[i])
    ensures ValueOf(r[|PREFIX|..]) == cpu
  {
    IdOfName(PREFIX, cpu);
    SegmentName(PREFIX, cpu)
  }

  /** The id can be read back from the digits after the prefix. */
  lemma NameReadsBack(cpu: nat)
    ensures |Name(cpu)| >= |PREFIX| + 3 && Name(cpu)[..|PREFIX|] == PREFIX
    ensures forall i | |PREFIX| <= i < |Name(cpu)| :: IsDigit(Name(cpu)[i])
    ensures ValueOf(Name(cpu)[|PREFIX|..]) == cpu
  {
    IdOfName(PREFIX, cpu);
  }

  lemma NameInjective(a: nat, b: nat)
    ensures Name(a) == Name(b) <==> a == b
  {
    SegmentNameInjective(PREFIX, a, b);
  }

  /** The constructor `shm_seg(cpu)`: id, frequency limits read once, every
      counter zero. `_last_f_khz` is not initialised by the constructor and
      keeps the zero bytes of the freshly sized object. */
  function NewSeg(cpu: nat, minKHz: real, maxKHz: real): (s: Record)
    ensures s.cpu == cpu && s.minKHz == minKHz && s.maxKHz == maxKHz && s.lastKHz == 0.0
    ensures Total(s.entries) == 0
  {
    TotalZero(FREQ_ENTRIES);
    Seg(cpu, minKHz, maxKHz, 0.0, ZeroCounts(FREQ_ENTRIES))
  }

  /** `freq_to_idx`: the nearest 200 MHz step, clamped to the last bucket. */
  function FreqToIdx(f: NonNeg): (i: nat)
    ensures i < FREQ_ENTRIES
    ensures i < FREQ_ENTRIES - 1 ==> InBucket(FREQ, i, f)
  {
    ValueToIndex(FREQ, f)
  }

  /** `idx_to_freq`: bucket `i` stands for `i * freq_step` kHz, a frequency
      already on the grid, so `round_f` leaves it alone. */
  function IdxToFreq(i: nat): (f: NonNeg)
    ensures f == IndexToValue(FREQ, i)
    ensures RoundF(f) == f
  {
    RintOfInt(i);
    i as real * FREQ_STEP
  }

  /** `round_f`: a frequency rounded to the nearest step. */
  function RoundF(f: real): (r: real)
    ensures r == RoundToStep(FREQ, f)
    ensures r - f <= FREQ_STEP / 2.0 && f - r <= FREQ_STEP / 2.0
  {
    var n := Rint(f / FREQ_STEP);
    assert n as real - f / FREQ_STEP <= 0.5 && f / FREQ_STEP - n as real <= 0.5;
    n as real * FREQ_STEP
  }

  /** Every bucket's frequency maps back to the bucket. */
  lemma FreqRoundTrip(i: nat)
    requires i < FREQ_ENTRIES
    ensures FreqToIdx(IdxToFreq(i)) == i
  {
    NearestRoundTrip(FREQ, i);
  }

  /** Frequencies of 7 GHz and more all land in the last bucket. */
  lemma FreqSaturates(f: NonNeg)
    requires f >= MAX_FREQ
    ensures FreqToIdx(f) == FREQ_ENTRIES - 1
  {
    assert f / FREQ_STEP >= 35.0;
    RintMonotone(35.0, f / FREQ_STEP);
    RintOfInt(35);
  }

  lemma FreqMonotone(f: NonNeg, g: NonNeg)
    requires f <= g
    ensures FreqToIdx(f) <= FreqToIdx(g)
  {
    ValueToIndexMonotone(FREQ, f, g);
  }

  /** Below saturation, the bucket's frequency is `round_f` of the measurement. */
  lemma FreqShowsRounded(f: NonNeg)
    requires Rint(f / FREQ_STEP) <= FREQ_ENTRIES - 1
    ensures IdxToFreq(FreqToIdx(f)) == RoundF(f)
  {
    NearestShowsRounded(FREQ, f);
  }

  lemma RoundFIdempotent(f: real)
    ensures RoundF(RoundF(f)) == RoundF(f)
  {
    RoundToStepIdempotent(FREQ, f);
  }

  /** `shm_seg::create(cpu)`: an exclusive create of the CPU's name holding a
      freshly constructed record. */
  function CreateSeg(st: Store<Record>, cpu: nat, minKHz: real, maxKHz: real, size: nat, fault: Fault)
    : (r: Step<Record, nat>)
    requires Valid(st)
    ensures Valid(r.store)
    ensures r.result.Ok? <==> Name(cpu) !in st.names && fault == NoFault
    ensures r.result.Ok? ==>
      var h := r.result.value;
      && h in r.store.maps && r.store.maps[h].writable && r.store.maps[h].size == size
      && Name(cpu) in r.store.names && r.store.names[Name(cpu)] == r.store.maps[h].obj
      && Load(r.store, h) == NewSeg(cpu, minKHz, maxKHz)
    ensures r.result.Err? ==> r.store.names == st.names && r.store.maps == st.maps
  {
    Create(st, Name(cpu), size, NewSeg(cpu, minKHz, maxKHz), fault)
  }

  /** `shm_seg::open(cpu)`: a read-only view of the CPU's existing segment. */
  function OpenSeg(st: Store<Record>, cpu: nat, size: nat, fault: Fault): (r: Step<Record, nat>)
    requires Valid(st)
    ensures Valid(r.store)
    ensures r.store.names == st.names && r.store.objects == st.objects
    ensures r.result.Ok? <==> Name(cpu) in st.names && fault != OpenFails && fault != MapFails
    ensures r.result.Ok? ==>
      var h := r.result.value;
      && h in r.store.maps && !r.store.maps[h].writable
      && Load(r.store, h) == st.objects[st.names[Name(cpu)]].rec
  {
    OpenRo(st, Name(cpu), size, fault)
  }

  /** `shm_seg::close(shm_seg*)`: the destructor unlinks the name of the
      record's own CPU, then the mapping goes. */
  function CloseSeg(st: Store<Record>, h: nat): (r: Store<Record>)
    requires Valid(st) && h in st.maps
    ensures Valid(r)
    ensures Name(Load(st, h).cpu) !in r.names && h !in r.maps
    ensures forall n | n in st.names && n != Name(Load(st, h).cpu) :: n in r.names && r.names[n] == st.names[n]
    ensures forall g | g in st.maps && g != h :: g in r.maps && r.maps[g] == st.maps[g]
    ensures r.objects == st.objects
  {
    CloseWriter(st, h, Name(Load(st, h).cpu))
  }

  /** `shm_seg::close(const shm_seg*)`: only the mapping goes. */
  function CloseSegRo(st: Store<Record>, h: nat): (r: Store<Record>)
    requires Valid(st)
    ensures Valid(r)
    ensures r.names == st.names && r.objects == st.objects
    ensures h !in r.maps && forall g | g in st.maps && g != h :: g in r.maps && r.maps[g] == st.maps[g]
  {
    CloseReader(st, h)
  }

  /** A writer's create followed by its close leaves the namespace and the
      mappings as they were. */
  lemma CreateThenClose(st: Store<Record>, cpu: nat, minKHz: real, maxKHz: real, size: nat)
    requires Valid(st) && Name(cpu) !in st.names
    ensures var c := CreateSeg(st, cpu, minKHz, maxKHz, size, NoFault);
      c.result.Ok? && CloseSeg(c.store, c.result.value).names == st.names
      && CloseSeg(c.store, c.result.value).maps == st.maps
  {
    var c := CreateSeg(st, cpu, minKHz, maxKHz, size, NoFault);
    assert Load(c.store, c.result.value).cpu == cpu;
    CreateThenCloseWriter(st, Name(cpu), size, NewSeg(cpu, minKHz, maxKHz));
  }

  /** `cpufreq_stats::data`: whether this instance is the writer, the CPUs
      it covers (the ids in the records) and its mappings, in CPU order. */
  datatype Data = Data(create: bool, ids: seq<nat>, hs: seq<nat>)

  /** What `update` needs of the store: a writer's handles are read-write
      mappings of pairwise distinct objects. */
  predicate Writable(st: Store<Record>, d: Data) {
    d.create ==> DistinctObjects(st, d.hs) && forall j | 0 <= j < |d.hs| :: st.maps[d.hs[j]].writable
  }

  /** The constructor `data(create)`: CPUs `0 .. cpus - 1` are visited in
      order; the writer creates their segments (reading each CPU's limits),
      a reader opens them. The first failure propagates; a writer first
      closes every segment it created. */
  function NewData(st: Store<Record>, create: bool, cpus: nat, faults: seq<Fault>,
                   minKHz: nat -> real, maxKHz: nat -> real, size: nat): (r: Step<Record, Data>)
    requires Valid(st) && |faults| == cpus
    ensures Valid(r.store)
    ensures r.result.Ok? ==>
      var d := r.result.value;
      d.create == create && d.ids == Devices(cpus) && |d.hs| == cpus && Writable(r.store, d)
    ensures create && r.result.Ok? ==> forall j | 0 <= j < |r.result.value.hs| ::
      var cpu, h := r.result.value.ids[j], r.result.value.hs[j];
      && Name(cpu) !in st.names && Name(cpu) in r.store.names && h in r.store.maps
      && r.store.names[Name(cpu)] == r.store.maps[h].obj
      && Load(r.store, h) == NewSeg(cpu, minKHz(cpu), maxKHz(cpu))
    ensures create && r.result.Err? ==> r.store.names == st.names && r.store.maps == st.maps
    ensures !create ==> r.store.names == st.names && r.store.objects == st.objects
    ensures !create ==> (r.result.Ok? <==> AllOpenable(st, Devices(cpus), faults, Name, 0))
  {
    var ids := Devices(cpus);
    var init := (i: nat) => NewSeg(i, minKHz(i), maxKHz(i));
    var a := Attach(st, create, ids, faults, Name, init, size);
    if create then
      WriterAttach(st, ids, faults, Name, init, size);
      if a.result.Err? then Step(a.store, Err(a.result.error))
      else Step(a.store, Ok(Data(create, ids, a.result.value)))
    else
      ReaderAttach(st, ids, faults, Name, init, size);
      if a.result.Err? then Step(a.store, Err(a.result.error))
      else Step(a.store, Ok(Data(create, ids, a.result.value)))
  }

  /** One tick for one CPU: bucket `freq_to_idx(cur_freq(cpu))` advances by
      `weight`; nothing else in the record changes. */
  function Sample(s: Record, curKHz: nat -> NonNeg, weight: u32): (r: Record)
    ensures r.(entries := s.entries) == s
    ensures r.entries[FreqToIdx(curKHz(s.cpu))] == AddU32(s.entries[FreqToIdx(curKHz(s.cpu))], weight)
    ensures forall i | 0 <= i < FREQ_ENTRIES && i != FreqToIdx(curKHz(s.cpu)) :: r.entries[i] == s.entries[i]
  {
    s.(entries := Bump(s.entries, FreqToIdx(curKHz(s.cpu)), weight))
  }

  /** Without counter overflow a sample adds exactly `weight` ticks. */
  lemma SampleAddsWeight(s: Record, curKHz: nat -> NonNeg, weight: u32)
    requires s.entries[FreqToIdx(curKHz(s.cpu))] + weight < U32_MOD
    ensures Total(Sample(s, curKHz, weight).entries) == Total(s.entries) + weight
  {
    BumpTotal(s.entries, FreqToIdx(curKHz(s.cpu)), weight);
  }

  /** `data::update(weight)`: nothing for a reader; the writer samples every
      CPU once. Names, mappings and every other object stay as they were. */
  function Update(st: Store<Record>, d: Data, curKHz: nat -> NonNeg, weight: u32): (r: Store<Record>)
    requires Valid(st) && Writable(st, d)
    ensures Valid(r) && r.names == st.names && r.maps == st.maps && Writable(r, d)
    ensures !d.create ==> r == st
    ensures d.create ==> forall j | 0 <= j < |d.hs| ::
      Load(r, d.hs[j]) == Sample(Load(st, d.hs[j]), curKHz, weight)
    ensures r.objects.Keys == st.objects.Keys
    ensures d.create ==> forall o | o in st.objects && Untouched(st, d.hs, o) :: r.objects[o] == st.objects[o]
  {
    if !d.create then st
    else
      var step := (s: Record, w: u32) => Sample(s, curKHz, w);
      var ws: seq<u32> := seq(|d.hs|, _ => weight);
      var r := ForEach(st, d.hs, ws, step);
      assert DistinctObjects(r, d.hs);
      r
  }

  /** The destructor: the writer closes every segment, a reader unmaps. */
  function DestroyData(st: Store<Record>, d: Data): (r: Store<Record>)
    requires Valid(st) && |d.ids| == |d.hs|
    ensures Valid(r) && r.objects == st.objects
    ensures forall j | 0 <= j < |d.hs| :: d.hs[j] !in r.maps
    ensures forall h | h in st.maps && h !in d.hs :: h in r.maps && r.maps[h] == st.maps[h]
    ensures !d.create ==> r.names == st.names
    ensures d.create ==> forall j | 0 <= j < |d.ids| :: Name(d.ids[j]) !in r.names
    ensures d.create ==> forall n | n in st.names && n !in NamesOf(Name, d.ids) ::
      n in r.names && r.names[n] == st.names[n]
  {
    Detach(st, d.create, NamesOf(Name, d.ids), d.hs)
  }

  /** A writer's or reader's whole life, construction, one sampling pass and
      destruction, leaves the namespace and the mappings as they were. */
  lemma DataLeavesNoTrace(st: Store<Record>, create: bool, cpus: nat, faults: seq<Fault>,
                          minKHz: nat -> real, maxKHz: nat -> real, size: nat,
                          curKHz: nat -> NonNeg, weight: u32)
    requires Valid(st) && |faults| == cpus
    requires NewData(st, create, cpus, faults, minKHz, maxKHz, size).result.Ok?
    ensures var c := NewData(st, create, cpus, faults, minKHz, maxKHz, size);
      var d := c.result.value;
      var r := DestroyData(Update(c.store, d, curKHz, weight), d);
      r.names == st.names && r.maps == st.maps
  {
    var ids := Devices(cpus);
    var init := (i: nat) => NewSeg(i, minKHz(i), maxKHz(i));
    var c := NewData(st, create, cpus, faults, minKHz, maxKHz, size);
    var later := Update(c.store, c.result.value, curKHz, weight);
    AttachDetach(st, create, ids, faults, Name, init, size, later);
  }

  /** What `to_stream` prints for one CPU: its id, limits in MHz, the
      distribution over MHz buckets and the average frequency. */
  datatype CpuReport = CpuReport(cpu: nat, minMHz: real, maxMHz: real, dist: Report, avgMHz: real)

  /** The report for one CPU: limits in MHz, every tick counted once, the
      average the percentage-weighted mean of the bucket frequencies; with a
      tick the percentages add up to 100, with none the table is empty, the
      average is 0 and the "invalid sum" line is printed. */
  function ToStream(s: Record): (r: CpuReport)
    ensures r.cpu == s.cpu && r.minMHz == s.minKHz / 1000.0 && r.maxMHz == s.maxKHz / 1000.0
    ensures r.dist.samples == Total(s.entries)
    ensures r.avgMHz
      == SumReal(Products(Pct(s.entries), Values(FREQ, MHZ_PER_KHZ, NonZero(s.entries)))) * 0.01
    ensures Total(s.entries) > 0 ==> r.dist.pctSum == 100.0 && !r.dist.invalidSum
    ensures Total(s.entries) == 0 ==> r.dist.rows == [] && r.dist.invalidSum && r.avgMHz == 0.0
  {
    RenderFacts(FREQ, MHZ_PER_KHZ, s.entries);
    var dist := Render(FREQ, MHZ_PER_KHZ, s.entries);
    CpuReport(s.cpu, s.minKHz * MHZ_PER_KHZ, s.maxKHz * MHZ_PER_KHZ, dist, dist.mean)
  }

  /** The average frequency is the percentage-weighted mean of the bucket
      frequencies in MHz. */
  lemma AverageIsWeighted(s: Record)
    ensures var vidx := NonZero(s.entries);
      ToStream(s).avgMHz == SumReal(Products(Pct(s.entries), Values(FREQ, MHZ_PER_KHZ, vidx))) * 0.01
    ensures forall q | 0 <= q < |NonZero(s.entries)| ::
      Values(FREQ, MHZ_PER_KHZ, NonZero(s.entries))[q] == NonZero(s.entries)[q] as real * 200.0
  {
    MeanIsWeighted(FREQ, MHZ_PER_KHZ, s.entries);
  }

  /** A freshly created segment prints no row, zero samples, an average of
      zero and the "invalid sum" line. */
  lemma FreshReport(cpu: nat, minKHz: real, maxKHz: real)
    ensures var r := ToStream(NewSeg(cpu, minKHz, maxKHz));
      r.dist.rows == [] && r.dist.samples == 0 && r.avgMHz == 0.0 && r.dist.invalidSum
  {
    var s := NewSeg(cpu, minKHz, maxKHz);
    InvalidSumIff(FREQ, MHZ_PER_KHZ, s.entries);
    SamplesAreAllTicks(s.entries);
    if |NonZero(s.entries)| > 0 {
      assert false;
    }
  }
}
