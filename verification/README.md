# cpu-stats: histograms in shared memory

cpu-stats keeps one histogram per device in a POSIX shared-memory segment.
The writer is the daemon. On each timer tick it samples
- the current frequency of every CPU (cpufreq),
- the energy counter of every RAPL package (power), and
- the package power of every amdgpu hwmon device (amdgpu).

It adds a tick, or a weight, to the bucket the sample falls in. A reader
opens the same segments read-only and prints each histogram as a
distribution: percentages rounded to two decimals, cumulative percentages
from the top bucket down, a three-column layout, the average, and an
"invalid sum" warning.

This Dafny project models that engine.

- `Rounding` is `std::rint` (round half to even) and the two-decimal
  rounding of the percentages.
- `Bucketing` is the value/bucket mapping shared by every kind. There are
  two policies. `Nearest` is used by cpufreq: rint, clamp, and a bucket shown
  at its own edge. `Floor` is used by power, amdgpu and rapl: floor, clamp,
  and a bucket shown at its upper edge.
- `Histogram` holds the `uint32_t` tick counters with explicit 32-bit
  wrap-around, and the unsigned 64-bit subtraction the power sampler uses.
- `SegmentNames` covers the segment names: a prefix followed by the device
  number, zero-padded to three digits.
- `ShmStore` is the shared-memory namespace of `tools::shm`: named objects,
  and mappings that are writable or read-only. `create` fails on an
  existing name, `ftruncate` or `mmap` failures roll the name back, and
  `open_ro` never creates. A failure is an explicit `Fault` input.
- `SegmentSet` is the common lifecycle of `data`: attach to every device,
  and close the writer's segments again on a failure part-way through.
  Detaching restores the namespace and the mappings. Each device is
  updated in turn.
- `Renderer` is `data::to_stream`, without the text formatting:
  - nonzero buckets;
  - rounded percentages, with the largest bucket taking the remainder;
  - partial sums, reversed;
  - the column-major layout order of `Layout`;
  - the weighted mean and the invalid-sum flag.
- `Cpufreq`, `Power`, `Amdgpu` and `Rapl` are the four segment kinds with
  their constants and their `data` samplers. `KindNames` proves that the
  kinds' names never collide, except that RAPL and power share theirs.

Sysfs readers (`cpu::cur_freq`, `pkg::energy_uj`, `hwmon::ppt`,
`hwmon::is_amdgpu`, the `exists` probes) are function or count parameters.
`sizeof(shm_seg)` is the `size` parameter. Doubles are modelled as exact
reals.

## Model

| member | source | states |
|---|---|---|
| Rounding.Rint | cpufreq_stats_shm_seg.cc:74 | the result is an integer within one half of the input, and on an exact tie it is the even neighbour (the rounding `std::rint` performs by default) |
| Rounding.RintUnique | cpufreq_stats_shm_seg.cc:74 | any integer within one half that is even on ties is the result of `Rint`, so `Rint` is the only such rounding |
| Rounding.RintMonotone | cpufreq_stats_shm_seg.cc:74 | rounding preserves order |
| Rounding.Round2 | cpufreq_stats_data.cc:97-98 | a percentage rounded to two decimals is within 0.005 of the input and is a whole number of hundredths |
| Rounding.Round2Idempotent | cpufreq_stats_data.cc:98 | rounding a percentage a second time changes nothing |
| Bucketing.EntriesFor | cpufreq_stats.h:61-62 | the bucket count `uint32_t(max/step)+1` is at least one and is the one count whose last bucket holds the maximum |
| Bucketing.ValueToIndex | cpufreq_stats_shm_seg.cc:72-78 | a sample always lands in an existing bucket; below the last bucket the sample lies in that bucket's interval, and the last bucket collects exactly the saturated samples |
| Bucketing.NearestRoundTrip | cpufreq_stats_shm_seg.cc:72-84 | with nearest snapping, the displayed value of a bucket maps back to the same bucket |
| Bucketing.FloorLowerEdge | power_stats_shm_seg.cc:64-70 | with floor snapping, a bucket's lower edge lands in that bucket |
| Bucketing.FloorUpperEdge | power_stats_shm_seg.cc:64-76 | with floor snapping, the value shown for a bucket (its upper edge) lands in the next bucket, or in the last one when there is no next |
| Bucketing.ValueToIndexMonotone | power_stats_shm_seg.cc:64-70 | a larger sample never lands in a lower bucket, for both policies |
| Bucketing.FloorBucketIff | power_stats_shm_seg.cc:64-70 | below the last bucket, a floor-snapped sample lands in bucket i if and only if value/step lies in [i, i+1) |
| Bucketing.SaturationIff | power_stats_shm_seg.cc:66-68 | a sample lands in the last bucket if and only if its snapped position is at or beyond the last index (both directions of the clamp) |
| Bucketing.IndexToValue | power_stats_shm_seg.cc:72-76 | a floor-snapped bucket is shown at its upper edge, which lies outside the bucket, starts the next bucket and is one step above the bucket's lower edge; a nearest-snapped bucket is shown at the value exactly on its grid point |
| Bucketing.RoundToStep | cpufreq_stats_shm_seg.cc:65-69 | rounding puts a value on a whole number of steps, at most half a step away from it |
| Bucketing.RoundToStepIdempotent | cpufreq_stats_shm_seg.cc:66-69 | rounding to the frequency grid twice is the same as once |
| Bucketing.NearestShowsRounded | cpufreq_stats_shm_seg.cc:66-84 | below saturation, the displayed value of a sample's bucket is the sample rounded to the grid |
| Histogram.AddU32 | cpufreq_stats_data.cc:57 | adding a weight to a `uint32_t` counter is the exact sum below 2^32 and wraps modulo 2^32 above it |
| Histogram.AddU64 | amdgpu_stats_data.cc:88 | adding the interval to the `uint64_t` elapsed seconds is the exact sum below 2^64 and wraps modulo 2^64 above it |
| Histogram.SubU64 | power_stats_data.cc:73 | the unsigned 64-bit difference of two energy readings is exact when the counter did not go back, is taken modulo 2^64 otherwise, and adding it back to the older reading gives the newer one |
| Histogram.Bump | cpufreq_stats_data.cc:56-57 | bumping bucket i adds the weight to that counter only, and every other counter is unchanged |
| Histogram.BumpTotal | cpufreq_stats_data.cc:56-57 | without wrap-around, bumping a bucket raises the total tick count by exactly the weight |
| Histogram.TotalZeroIff | cpufreq_stats_data.cc:80-93 | a histogram has no ticks in total if and only if every counter is zero |
| SegmentNames.SegmentName | cpufreq_stats_shm_seg.cc:12-17 | a segment name is the prefix followed by at least three decimal digits |
| SegmentNames.IdOfName | cpufreq_stats_shm_seg.cc:15 | reading the digits after the prefix back gives the device number, for numbers of any width including those above 999 |
| SegmentNames.SegmentNameInjective | cpufreq_stats_shm_seg.cc:12-17 | two devices share a segment name if and only if they are the same device |
| SegmentNames.PrefixesSeparate | amdgpu_stats_shm_seg.cc:29-34 | names built on prefixes that differ at some position are never equal, whatever the device numbers |
| ShmStore.Write | cpufreq_stats_data.cc:53-57 | writing through a writable mapping changes that object's record and no other, and leaves names and mappings alone |
| ShmStore.Unlink | tools.cc:83-88 | unlinking removes exactly that name, leaves mappings and objects alone, and unlinking a missing name is a no-op |
| ShmStore.Unmap | tools.cc:76-81 | unmapping removes exactly that mapping, and unmapping a missing one is a no-op |
| ShmStore.Create | tools.cc:24-52 | create succeeds if and only if the name is new and no resize/map fault occurs. On success there is a fresh writable mapping of the requested size onto a new object holding the initial record. On any failure the names and mappings are as before: the exclusive open leaves an existing name's object untouched, and a resize or map failure unlinks the new name again |
| ShmStore.OpenRo | tools.cc:54-74 | a read-only open succeeds if and only if the name exists and neither the open nor the map fails. It never changes the namespace or any object, and on success gives a read-only mapping of the named object |
| ShmStore.CreateKeepsExisting | tools.cc:29-34 | creating over an existing name fails with that name and leaves the existing object and store unchanged |
| ShmStore.CreateThenOpen | tools.cc:24-74 | after a successful create, a reader's open of that name succeeds and sees the initial record through a read-only mapping |
| ShmStore.OpenNeverCreates | tools.cc:54-74 | a failed open of a missing name leaves it missing, so a later create of that name succeeds exactly when it has no fault of its own |
| SegmentSet.CloseWriter | cpufreq_stats_shm_seg.cc:27-47 | a writer's close unlinks the segment's name and unmaps its mapping, and nothing else |
| SegmentSet.CloseReader | cpufreq_stats_shm_seg.cc:58-63 | a reader's close unmaps only, and the name stays |
| SegmentSet.CloseWriters | cpufreq_stats_data.cc:33-39 | closing a writer's segments in order unlinks exactly the given names and unmaps exactly the given mappings; objects and all other names and mappings are kept |
| SegmentSet.CloseReaders | cpufreq_stats_data.cc:40-44 | closing a reader's segments in order unmaps exactly the given mappings and leaves names and objects alone |
| SegmentSet.CreateThenCloseWriter | cpufreq_stats_shm_seg.cc:33-47 | a successful create followed by the writer's close gives back exactly the names and mappings that existed before |
| SegmentSet.CloseWritersRestores | cpufreq_stats_data.cc:22-30 | closing every segment a writer created, in order, restores the names and mappings from before the first create |
| SegmentSet.CreateFailRollsBack | cpufreq_stats_data.cc:22-30 | when a create fails part-way through the devices, closing the segments created so far restores the namespace and mappings from before the constructor |
| SegmentSet.WriterAttach | cpufreq_stats_data.cc:8-31 | when a writer attaches to every device, each device gets its own new name, bound to a distinct fresh object that holds the device's initial record through a writable mapping |
| SegmentSet.ReaderAttach | cpufreq_stats_data.cc:8-31 | a reader attaches if and only if every device's segment exists and opens. It never changes the namespace, and on failure every mapping held before is still there |
| SegmentSet.Attach | cpufreq_stats_data.cc:8-31 | a writer's attach either holds one fresh segment per device, or fails with the names and mappings exactly as before |
| SegmentSet.AttachDetach | cpufreq_stats_data.cc:33-45 | destroying a data object after a successful attach restores the names and mappings from before the attach, for writers and readers alike |
| SegmentSet.Detach | cpufreq_stats_data.cc:33-45 | the destructor unmaps every segment the object holds and keeps every other mapping; a writer's also unlinks every device name and keeps every other name, while a reader's leaves the namespace alone |
| SegmentSet.ForEach | cpufreq_stats_data.cc:52-58 | an update pass applies the per-device step to each device's own record. The names and mappings stay, and objects not attached are untouched |
| Layout.Lines | cpufreq_stats_data.cc:129 | the number of rows is the least whose three columns hold every nonzero bucket |
| Layout.OrderIsPermutation | cpufreq_stats_data.cc:129-153 | walking the rows, with each row running through the three columns, visits every listed bucket exactly once |
| Layout.OrderFind | cpufreq_stats_data.cc:131-136 | every listed bucket has a position in the printed order |
| Layout.OrderStartsAtZero | cpufreq_stats_data.cc:131-136 | the first cell printed is the first entry of the listing |
| Layout.Order | cpufreq_stats_data.cc:129-136 | the printing order has one cell per listed bucket and each cell is a position in the listing (that it hits each position once is `Layout.OrderIsPermutation`) |
| Renderer.NonZero | cpufreq_stats_data.cc:80-93 | every listed bucket has ticks, and the buckets are listed in strictly ascending order |
| Renderer.NonZeroKeeps | cpufreq_stats_data.cc:80-93 | every bucket with ticks is listed |
| Renderer.MaxScan | cpufreq_stats_data.cc:88-91 | the chosen entry holds the largest count, and it is the first entry that does (a strict comparison keeps the earliest maximum) |
| Renderer.Percentages | cpufreq_stats_data.cc:95-103 | there is one printed percentage per listed bucket (their sum and their closeness to the exact shares are the next two rows) |
| Renderer.PercentagesSum | cpufreq_stats_data.cc:95-103 | the percentages add up to exactly 100 once the largest bucket takes the remainder |
| Renderer.PercentagesClose | cpufreq_stats_data.cc:95-102 | every percentage other than the largest bucket's is within 0.005 of that bucket's exact share |
| Renderer.PartialSums | cpufreq_stats_data.cc:104-106 | there is one running total per percentage (its value is the next row) |
| Renderer.PartialSumsAre | cpufreq_stats_data.cc:105-106 | each partial sum is the sum of the percentages up to and including that entry |
| Renderer.SamplesAreAllTicks | cpufreq_stats_data.cc:80-93 | the sample count printed equals the total of all counters, because empty buckets add nothing |
| Renderer.RowsKept | cpufreq_stats_data.cc:131-137 | every printed row is a bucket with ticks |
| Renderer.RowsDistinct | cpufreq_stats_data.cc:131-137 | no bucket is printed twice |
| Renderer.RowOf | cpufreq_stats_data.cc:131-137 | every bucket with ticks is printed in some row |
| Renderer.ListingDescending | cpufreq_stats_data.cc:107-109 | after the reversal the buckets are listed from the highest down |
| Renderer.ListingCumulative | cpufreq_stats_data.cc:104-109 | after the reversal, each entry's cumulative percentage is the sum of its own percentage and those of all buckets below it |
| Renderer.ListingTopIsHundred | cpufreq_stats_data.cc:104-109 | when there is a tick, the first listed entry (the highest bucket) shows a cumulative 100 % |
| Renderer.PctNearShare | cpufreq_stats_data.cc:95-103 | every printed percentage except the largest bucket's is within 0.005 of its exact share of all ticks |
| Renderer.PctSumExact | cpufreq_stats_data.cc:148-158 | when there is a tick, the printed percentages add up to exactly 100 and no invalid-sum warning is printed |
| Renderer.InvalidSumIff | cpufreq_stats_data.cc:156-158 | the invalid-sum warning appears if and only if the histogram is empty |
| Renderer.MeanIsWeighted | cpufreq_stats_data.cc:148-154 | the average is the percentage-weighted sum of the displayed bucket values, in whatever order the cells are printed |
| Renderer.MidpointMean | power_stats_data.cc:166-170 | for floor-snapped kinds, the mean minus half a step equals the percentage-weighted mean of the bucket midpoints |
| Renderer.RenderFacts | cpufreq_stats_data.cc:61-159 | the report counts every tick; its mean is the percentage-weighted mean of the bucket values; with a tick the percentages add up to exactly 100 and no invalid-sum line appears; without one the table is empty, the mean is 0 and the invalid-sum line appears |
| Renderer.FloorMean | power_stats_data.cc:166-170 | for a floor-snapped kind with at least one tick, the mean less half a step is the percentage-weighted mean of the bucket midpoints |
| Cpufreq.FreqEntriesFromMax | cpufreq_stats.h:52-63 | 36 frequency buckets of 200 MHz cover 0 to 7 GHz |
| Cpufreq.SetLastKHz | cpufreq_stats.h:165-171 | the setter changes the last frequency and no other field |
| Cpufreq.Name | cpufreq_stats_shm_seg.cc:12-17 | a cpu's segment name is `/cpu_stats_f_cpu_` followed by at least three digits, and the digits read back as the cpu number |
| Cpufreq.NameReadsBack | cpufreq_stats_shm_seg.cc:12-17 | a cpu's segment name starts with `/cpu_stats_f_cpu_`, continues only with digits, and the digits read back as the cpu number |
| Cpufreq.NameInjective | cpufreq_stats_shm_seg.cc:12-17 | two cpus share a segment name if and only if they are the same cpu |
| Cpufreq.NewSeg | cpufreq_stats_shm_seg.cc:19-25 | a new segment records the cpu and its min/max frequency and starts with no ticks |
| Cpufreq.FreqToIdx | cpufreq_stats_shm_seg.cc:72-78 | a frequency always lands in one of the 36 buckets, within half a step of the bucket's frequency unless it saturates |
| Cpufreq.RoundF | cpufreq_stats_shm_seg.cc:66-69 | rounding a frequency moves it by at most half a step, onto the 200 MHz grid |
| Cpufreq.IdxToFreq | cpufreq_stats_shm_seg.cc:80-84 | a bucket's frequency lies on the 200 MHz grid, so `round_f` leaves it unchanged |
| Cpufreq.RoundFIdempotent | cpufreq_stats_shm_seg.cc:65-69 | rounding a frequency twice gives the same as rounding it once |
| Cpufreq.FreqRoundTrip | cpufreq_stats_shm_seg.cc:72-84 | the frequency shown for a bucket maps back to that bucket |
| Cpufreq.FreqSaturates | cpufreq_stats_shm_seg.cc:76 | every frequency at or above 7 GHz lands in the last bucket |
| Cpufreq.FreqMonotone | cpufreq_stats_shm_seg.cc:72-78 | a higher frequency never lands in a lower bucket |
| Cpufreq.FreqShowsRounded | cpufreq_stats_shm_seg.cc:66-84 | below saturation, the frequency shown for a sample's bucket is the sample rounded with `round_f` |
| Cpufreq.CreateSeg | cpufreq_stats_shm_seg.cc:33-40 | the create succeeds if and only if the cpu's name is free and nothing fails; the new segment is mapped writable and holds the cpu's fresh record; on failure names and mappings are as before |
| Cpufreq.OpenSeg | cpufreq_stats_shm_seg.cc:49-56 | the open succeeds if and only if the cpu's segment exists and opens. The reader sees the writer's record read-only, and no name or object changes |
| Cpufreq.CloseSeg | cpufreq_stats_shm_seg.cc:27-47 | the writer's close removes the name of the cpu the record belongs to, and its mapping; every other name and mapping survives |
| Cpufreq.CloseSegRo | cpufreq_stats_shm_seg.cc:58-63 | the reader's close drops only its own mapping |
| Cpufreq.CreateThenClose | cpufreq_stats_shm_seg.cc:33-47 | create followed by close leaves no trace in the namespace or the mappings |
| Cpufreq.NewData | cpufreq_stats_data.cc:8-31 | a successful constructor holds one segment per cpu 0..n-1, in order. A writer's segments are new and hold the fresh records. A failed writer leaves names and mappings as they were |
| Cpufreq.Sample | cpufreq_stats_data.cc:54-57 | one update adds the weight to the bucket of the cpu's current frequency, and leaves every other counter and field alone |
| Cpufreq.SampleAddsWeight | cpufreq_stats_data.cc:54-57 | without wrap-around, one update raises the cpu's total tick count by the weight |
| Cpufreq.Update | cpufreq_stats_data.cc:47-59 | a reader's update changes nothing. A writer's update samples every cpu's segment once, keeps names and mappings, and touches no unattached object |
| Cpufreq.DestroyData | cpufreq_stats_data.cc:33-45 | the destructor unmaps every segment the object holds and keeps every other mapping and every object; a writer's also unlinks every cpu's name and keeps every other name, while a reader's leaves the namespace alone |
| Cpufreq.DataLeavesNoTrace | cpufreq_stats_data.cc:8-59 | constructing, updating and destroying a data object leaves the namespace and the mappings as they were before |
| Cpufreq.ToStream | cpufreq_stats_data.cc:61-159 | the report shows the cpu's limits in MHz and counts every tick. The average is the percentage-weighted mean of the bucket frequencies in MHz. With a tick the percentages add up to exactly 100 and there is no invalid-sum line; with none the table is empty, the average is 0 and the invalid-sum line appears |
| Cpufreq.AverageIsWeighted | cpufreq_stats_data.cc:148-155 | the average frequency is the percentage-weighted mean of the bucket frequencies, at 200 MHz per bucket index |
| Cpufreq.FreshReport | cpufreq_stats_data.cc:80-158 | a fresh segment reports no rows, zero samples, an average of 0 and the invalid-sum warning |
| Power.PowerEntriesFromMax | power_stats.h:36-46 | 51 buckets of 5 W cover 0 to 250 W |
| Power.Name | power_stats_shm_seg.cc:12-17 | a package's segment name is `/cpu_stats_p_pkg_` followed by at least three digits, and the digits read back as the package number |
| Power.NameInjective | power_stats_shm_seg.cc:11-17 | two packages share a segment name if and only if they are the same package |
| Power.NewSeg | power_stats_shm_seg.cc:19-23 | a new segment records the package and starts with no ticks |
| Power.PowerToIdx | power_stats_shm_seg.cc:63-70 | a power reading always lands in one of the 51 buckets, and below the last one it lies in that bucket's 5 W interval |
| Power.PowerSaturates | power_stats_shm_seg.cc:63-70 | every reading at or above 250 W lands in the last bucket |
| Power.PowerMonotone | power_stats_shm_seg.cc:63-70 | a higher reading never lands in a lower bucket |
| Power.PowerEdges | power_stats_shm_seg.cc:63-76 | a bucket's lower edge lands in it, and the upper edge it is shown at lands in the next one |
| Power.CreateSeg | power_stats_shm_seg.cc:31-38 | the create succeeds if and only if the package's name is free and nothing fails, and then holds the fresh record writable |
| Power.OpenSeg | power_stats_shm_seg.cc:47-54 | the open succeeds if and only if the package's segment exists and opens, and it is read-only |
| Power.CloseSeg | power_stats_shm_seg.cc:25-45 | the writer's close removes exactly its package's name and its mapping |
| Power.CloseSegRo | power_stats_shm_seg.cc:56-61 | the reader's close drops only its own mapping |
| Power.CreateThenClose | power_stats_shm_seg.cc:25-45 | create followed by close leaves no trace in the namespace or the mappings |
| Power.NewData | power_stats_data.cc:9-36 | a writer that succeeds also remembers every package's energy reading taken at construction, in package order; a reader remembers none |
| Power.Watts | power_stats_data.cc:72-73 | the power times the interval equals the unsigned 64-bit energy difference in joules, which is the plain difference when the counter did not go back |
| Power.IdxToPower | power_stats_shm_seg.cc:72-76 | bucket i is shown at its upper edge: not in bucket i, but the lower edge of bucket i + 1 and 5 W above bucket i's lower edge |
| Power.BackwardsReadingSaturates | power_stats_data.cc:63-75 | a counter that went back (for example, a wrap) gives a huge unsigned difference, and the sample lands in the last bucket |
| Power.Sample | power_stats_data.cc:75-85 | one update adds one tick to the bucket of the interval's average power and leaves every other counter alone |
| Power.SampleAddsOne | power_stats_data.cc:84-85 | without wrap-around, one update raises the package's total by exactly one |
| Power.Note | power_stats_data.cc:63-82 | the package is logged as not increasing exactly when the new reading is at most the last one, and logged as saturated exactly when the computed power is at least 250 W (the bucket test and the `p_in_w > max_power` test together say no more than that) |
| Power.Update | power_stats_data.cc:52-87 | each package's remembered reading becomes its current reading, its segment gets exactly the tick for the interval from the old reading to the new, and the logged conditions are recorded per package |
| Power.DataLeavesNoTrace | power_stats_data.cc:9-87 | constructing, updating and destroying a power data object leaves the namespace and mappings as they were |
| Power.DestroyData | power_stats_data.cc:38-50 | the destructor unmaps every package segment the object holds and keeps every other mapping and every object; a writer's also unlinks every package's name and keeps every other name, while a reader's leaves the namespace alone |
| Power.ToStream | power_stats_data.cc:89-175 | the report counts every tick of the package. With a tick the percentages add up to exactly 100, there is no invalid-sum line, and the average is the percentage-weighted mean of the bucket midpoints; with none the table is empty, the invalid-sum line appears and the average is -2.5 W |
| Power.AverageIsMidpointMean | power_stats_data.cc:166-170 | subtracting half a step turns the printed average into the tick-weighted mean of the bucket midpoints |
| Power.EmptyAverage | power_stats_data.cc:150-174 | an empty histogram prints no rows, an average of -2.5 W and the invalid-sum warning |
| Amdgpu.PowerEntriesFromMax | amdgpu_stats.h:55-65 | 141 buckets of 2.5 W cover 0 to 350 W |
| Amdgpu.Name | amdgpu_stats_shm_seg.cc:28-34 | a device's segment name is `/cpu_stats_p_amdgpu_` followed by at least three digits, and the digits read back as the hwmon number |
| Amdgpu.NameInjective | amdgpu_stats_shm_seg.cc:28-34 | two hwmon devices share a segment name if and only if they are the same device |
| Amdgpu.NewSeg | amdgpu_stats_shm_seg.cc:36-42 | a new segment records the device, with power 0, elapsed time 0 and no ticks |
| Amdgpu.SetPower | amdgpu_stats.h:141-147 | the setter changes the last power and no other field |
| Amdgpu.SetElapsed | amdgpu_stats.h:157-163 | the setter changes the elapsed seconds and no other field |
| Amdgpu.PowerToIdx | amdgpu_stats_shm_seg.cc:82-89 | a power reading always lands in one of the 141 buckets, and below the last one it lies in that bucket's 2.5 W interval |
| Amdgpu.PowerSaturates | amdgpu_stats_shm_seg.cc:82-89 | every reading at or above 350 W lands in the last bucket |
| Amdgpu.PowerMonotone | amdgpu_stats_shm_seg.cc:82-89 | a higher reading never lands in a lower bucket |
| Amdgpu.PowerEdges | amdgpu_stats_shm_seg.cc:82-95 | a bucket's lower edge lands in it, and the upper edge it is shown at lands in the next one |
| Amdgpu.IdxToPower | amdgpu_stats_shm_seg.cc:91-95 | bucket i is shown at its upper edge: not in bucket i, but the lower edge of bucket i + 1 and 2.5 W above bucket i's lower edge |
| Amdgpu.CreateSeg | amdgpu_stats_shm_seg.cc:50-57 | the create succeeds if and only if the device's name is free and nothing fails, and then holds the fresh record writable |
| Amdgpu.OpenSeg | amdgpu_stats_shm_seg.cc:66-73 | the open succeeds if and only if the device's segment exists and opens, and it is read-only |
| Amdgpu.CloseSeg | amdgpu_stats_shm_seg.cc:44-64 | the writer's close removes exactly its device's name and its mapping |
| Amdgpu.CloseSegRo | amdgpu_stats_shm_seg.cc:75-80 | the reader's close drops only its own mapping |
| Amdgpu.CreateThenClose | amdgpu_stats_shm_seg.cc:44-64 | create followed by close leaves no trace in the namespace or the mappings |
| Amdgpu.AmdgpuIds | amdgpu_stats_data.cc:31-33 | the devices attached are amdgpu hwmon numbers below the probe limit, in ascending order |
| Amdgpu.AmdgpuIdsComplete | amdgpu_stats_data.cc:31-33 | a hwmon number is attached if and only if it exists and is an amdgpu device |
| Amdgpu.NewData | amdgpu_stats_data.cc:26-52 | a successful constructor holds one segment per amdgpu device, and a failed writer leaves names and mappings as they were |
| Amdgpu.Watts | amdgpu_stats_data.cc:76-77 | the power in watts is the microwatt reading divided by a million |
| Amdgpu.Sample | amdgpu_stats_data.cc:76-92 | one update adds the weight to the bucket of the current power, records that power, and advances the elapsed seconds by the interval modulo 2^64 |
| Amdgpu.SampleAddsWeight | amdgpu_stats_data.cc:89-90 | without wrap-around, one update raises the device's total by the weight |
| Amdgpu.Saturated | amdgpu_stats_data.cc:79-86 | the saturation log entry is written exactly when the power is at least 350 W (the bucket test and the `p_in_w > max_power` test together say no more than that) |
| Amdgpu.Update | amdgpu_stats_data.cc:68-94 | a reader's update changes nothing. A writer's update samples every device's segment once, records for each device whether its reading was logged as saturated, and touches no unattached object |
| Amdgpu.DataLeavesNoTrace | amdgpu_stats_data.cc:26-94 | constructing, updating and destroying an amdgpu data object leaves the namespace and mappings as they were |
| Amdgpu.DestroyData | amdgpu_stats_data.cc:54-66 | the destructor unmaps every device segment the object holds and keeps every other mapping and every object; a writer's also unlinks every device's name and keeps every other name, while a reader's leaves the namespace alone |
| Amdgpu.Energy | amdgpu_stats_data.cc:180-183 | the printed energy is a whole number of Ws within 0.5 Ws of the exact value, and the kWh figure has at most three decimals and is within 0.0005 kWh of it |
| Amdgpu.ToStream | amdgpu_stats_data.cc:96-193 | the report counts every tick and shows the last power. With a tick the percentages add up to exactly 100, there is no invalid-sum line, and the average is the percentage-weighted mean of the bucket midpoints; with none the average is -1.25 W. The energy printed is a whole number of Ws within 0.5 Ws of elapsed seconds times the average, and the kWh figure has at most three decimals and is within 0.0005 kWh of it |
| Amdgpu.AverageIsMidpointMean | amdgpu_stats_data.cc:175-179 | subtracting half a step turns the printed average into the tick-weighted mean of the bucket midpoints |
| Amdgpu.EmptyAverage | amdgpu_stats_data.cc:179-192 | an empty histogram prints an average of -1.25 W and the invalid-sum warning; the energy is negative after one second or more and zero at zero seconds |
| Rapl.Name | rapl_stats_shm_seg.cc:28-34 | a package's RAPL segment name is `/cpu_stats_p_pkg_` followed by at least three digits, and the digits read back as the package number |
| Rapl.SharesPowerNames | rapl_stats_shm_seg.cc:28-34 | a RAPL segment and a power segment have the same name if and only if they are for the same package |
| Rapl.NewSeg | rapl_stats_shm_seg.cc:36-41 | a new segment records the package, with both energy halves zero and no ticks |
| Rapl.PowerToIdx | rapl_stats_shm_seg.cc:81-88 | a reading always lands in an existing bucket, in that bucket's interval below the last one and in the last one only at saturation |
| Rapl.PowerMonotone | rapl_stats_shm_seg.cc:81-88 | a higher reading never lands in a lower bucket |
| Rapl.PowerEdges | rapl_stats_shm_seg.cc:81-94 | a bucket's lower edge lands in it, and the upper edge it is shown at lands in the next one |
| Rapl.IdxToPower | rapl_stats_shm_seg.cc:90-94 | bucket i is shown at its upper edge: positive, not in bucket i, but the lower edge of bucket i + 1 and one step above bucket i's lower edge |
| Rapl.CreateSeg | rapl_stats_shm_seg.cc:49-56 | the create succeeds if and only if the package's name is free and nothing fails, and then holds the fresh record writable |
| Rapl.OpenSeg | rapl_stats_shm_seg.cc:65-72 | the open succeeds if and only if the package's segment exists and opens, and it is read-only |
| Rapl.CloseSeg | rapl_stats_shm_seg.cc:43-63 | the writer's close removes exactly its package's name and its mapping |
| Rapl.CloseSegRo | rapl_stats_shm_seg.cc:74-79 | the reader's close drops only its own mapping |
| Rapl.CreateThenClose | rapl_stats_shm_seg.cc:43-63 | create followed by close leaves no trace in the namespace or the mappings |
| Rapl.PowerCannotCreateBeside | rapl_stats_shm_seg.cc:28-56 | once a RAPL writer holds a package's segment, a power writer cannot create its own for the same package |
| KindNames.KindsNeverCollide | amdgpu_stats_shm_seg.cc:29-34 | the segment names of cpufreq, power and amdgpu never collide with one another, and neither cpufreq's nor amdgpu's collide with RAPL's |

## Left out

- Floating point: doubles are modelled as exact reals. The model ignores the rounding error of `f*inv_freq_step`, `1e-6/tmo_sec` and the percentage arithmetic, and ignores infinities and NaN.
- Output formatting: `setw`, `setprecision`, the header lines, `short_output` and the text of each line are left out. The renderer returns the numbers the text shows.
- syslog: the two log conditions of the power and amdgpu samplers are returned as flags, and the message text is left out.
- Sysfs and hwmon reads, and the `exists` probes: these are inputs. The probe loops are a device count, plus an `is_amdgpu` predicate for amdgpu.
- Concurrency between the daemon and readers: the model is sequential, with a reader seeing whatever record the writer last stored.
- The cast of a negative double to `size_t` in `power_to_idx` and `freq_to_idx` is undefined behaviour, so inputs are non-negative (`NonNeg`).
- Power.Update: requires a nonzero `tmo_sec`. In the source, zero divides by zero, which gives an infinite factor and then an undefined cast.
- Power.Watts: requires a nonzero interval, for the same reason.
- Cpufreq.FreqToIdx: the program computes `f*inv_freq_step` in doubles, where `inv_freq_step` is itself rounded. So 2500000 kHz times 1/200000 gives 12.500000000000002, and `rint` puts 2.5 GHz in bucket 13. The model divides exactly, sees the tie 12.5 and rounds to even, giving bucket 12. The same happens at 1.3, 2.9, 4.5, 4.9, 5.3, 5.7 and 6.1 GHz. At these odd multiples of 100 MHz the ties-to-even statements (`Rounding.Rint`, `Cpufreq.FreqToIdx`) describe exact arithmetic, not the program.
- Device numbers are `uint32_t` in the source and `nat` here. Names are modelled for numbers of any width.
- The power sampler makes no wrap correction: `e_now - e_last` is plain unsigned 64-bit subtraction, and the model follows that. `max_energy_range_uj` is never read by the sampler, and the `_vp`/`priv_data` members declared in `power_stats.h` are unused. The sampler keeps the previous readings in `_v_energy_uj`, and the model follows that.
- The cpufreq constructor does not initialise `_last_f_khz`. The segment is freshly created and therefore zero-filled, so the model starts it at 0.
- The RAPL sampler and its `data` class are not part of this model, and neither is `rapl_stats.h`. RAPL's step and bucket count are therefore a parameter (`Rapl.Params`), and the widths of the two energy halves are taken as 64 bits.
- The daemon (`cpu-stats-daemon.cc`: pid file, signal handling, timer loop) and the reader program `cpu-stats.cc` are left out. They only construct `data` objects and call `update` and `to_stream`.
- The segment's byte size is the `size` parameter instead of `sizeof(shm_seg)`, and the mode bits `0644` and the umask are left out.
