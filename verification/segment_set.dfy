/** The per-kind `data` object's handling of its segments, which all three
    kinds implement identically: attach one segment per device (the writer
    creates, a reader opens), roll back on the first failure, apply one
    sample to every owned segment, and detach. Each kind supplies its
    segment naming, its freshly constructed record and its record size. */
module SegmentSet {
  import opened ShmStore

  /** `shm_seg::close(shm_seg*)`: the destructor unlinks the segment's name,
      then the mapping is released. */
  function CloseWriter<R>(st: Store<R>, h: nat, name: string): (r: Store<R>)
    requires Valid(st)
    ensures Valid(r)
    ensures r.names == st.names - {name}
    ensures r.maps == st.maps - {h}
    ensures r.objects == st.objects && r.next == st.next
  {
    Unmap(Unlink(st, name), h)
  }

  /** A writer's create followed by its close of the same name leaves the
      namespace and the mappings as they were. */
  lemma CreateThenCloseWriter<R>(st: Store<R>, name: string, size: nat, init: R)
    requires Valid(st) && name !in st.names
    ensures var c := Create(st, name, size, init, NoFault);
      && c.result.Ok?
      && CloseWriter(c.store, c.result.value, name).names == st.names
      && CloseWriter(c.store, c.result.value, name).maps == st.maps
  {
    var c := Create(st, name, size, init, NoFault);
    var h := c.result.value;
    assert c.store.names - {name} == st.names;
    assert c.store.maps - {h} == st.maps;
  }

  /** `shm_seg::close(const shm_seg*)`: only the mapping is released. */
  function CloseReader<R>(st: Store<R>, h: nat): (r: Store<R>)
    requires Valid(st)
    ensures Valid(r)
    ensures r.names == st.names && r.objects == st.objects
    ensures r.maps == st.maps - {h}
  {
    Unmap(st, h)
  }

  /** The device ids `0, 1, ..., n - 1` that a `for (i=0; exists(i); ++i)`
      loop visits when device `n` is the first one missing. */
  function Devices(n: nat): (ids: seq<nat>)
    ensures |ids| == n && forall j | 0 <= j < n :: ids[j] == j
  {
    seq(n, j => j)
  }

  /** The segment names of a list of device ids. */
  function NamesOf(name: nat -> string, ids: seq<nat>): (ns: seq<string>)
    ensures |ns| == |ids|
    ensures forall j | 0 <= j < |ids| :: ns[j] == name(ids[j])
  {
    seq(|ids|, j requires 0 <= j < |ids| => name(ids[j]))
  }

  ghost predicate Distinct<T>(s: seq<T>) {
    forall j, k | 0 <= j < k < |s| :: s[j] != s[k]
  }

  /** `st`'s namespace is `st0`'s plus the distinct new names `ns`. */
  ghost predicate NamesExtend<R>(st0: Store<R>, st: Store<R>, ns: seq<string>) {
    && Distinct(ns)
    && (forall j | 0 <= j < |ns| :: ns[j] !in st0.names && ns[j] in st.names)
    && (forall n | n in st0.names :: n in st.names && st.names[n] == st0.names[n])
    && (forall n | n in st.names :: n in st0.names || n in ns)
  }

  /** `st`'s mappings are `st0`'s plus the distinct new handles `hs`. */
  ghost predicate MapsExtend<R>(st0: Store<R>, st: Store<R>, hs: seq<nat>) {
    && Distinct(hs)
    && (forall j | 0 <= j < |hs| :: hs[j] !in st0.maps && hs[j] in st.maps)
    && (forall h | h in st0.maps :: h in st.maps && st.maps[h] == st0.maps[h])
    && (forall h | h in st.maps :: h in st0.maps || h in hs)
  }

  /** Every handle is a mapping of a distinct object. */
  predicate DistinctObjects<R>(st: Store<R>, hs: seq<nat>) {
    && (forall j | 0 <= j < |hs| :: hs[j] in st.maps)
    && (forall j, k | 0 <= j < k < |hs| && hs[j] in st.maps && hs[k] in st.maps ::
          st.maps[hs[j]].obj != st.maps[hs[k]].obj)
  }

  /** The writer's hold on its segments: handle j is a read-write mapping of
      the object named ns[j], and the objects are pairwise distinct. */
  predicate Owns<R>(st: Store<R>, ns: seq<string>, hs: seq<nat>) {
    && |ns| == |hs|
    && DistinctObjects(st, hs)
    && (forall j | 0 <= j < |hs| ::
          && hs[j] in st.maps && st.maps[hs[j]].writable
          && ns[j] in st.names && st.names[ns[j]] == st.maps[hs[j]].obj)
  }

  lemma NamesExtendNothing<R>(st0: Store<R>, st: Store<R>)
    requires NamesExtend(st0, st, [])
    ensures st.names == st0.names
  {
  }

  lemma MapsExtendNothing<R>(st0: Store<R>, st: Store<R>)
    requires MapsExtend(st0, st, [])
    ensures st.maps == st0.maps
  {
  }

  /** Removing the keys of a sequence one at a time, first key first. */
  lemma RemoveFirst<K, V>(m: map<K, V>, ks: seq<K>)
    requires |ks| > 0
    ensures (m - {ks[0]}) - (set k | k in ks[1..]) == m - (set k | k in ks)
  {
    assert (set k | k in ks) == {ks[0]} + (set k | k in ks[1..]);
  }

  /** Close a writer's segments in order (the destructor, and the rollback of
      a failed construction). */
  function CloseWriters<R>(st: Store<R>, ns: seq<string>, hs: seq<nat>): (r: Store<R>)
    requires Valid(st) && |ns| == |hs|
    ensures Valid(r) && r.objects == st.objects
    ensures r.names == st.names - (set n | n in ns)
    ensures r.maps == st.maps - (set h | h in hs)
    decreases |hs|
  {
    if |hs| == 0 then st
    else
      RemoveFirst(st.names, ns);
      RemoveFirst(st.maps, hs);
      CloseWriters(CloseWriter(st, hs[0], ns[0]), ns[1..], hs[1..])
  }

  /** Close a reader's segments in order. */
  function CloseReaders<R>(st: Store<R>, hs: seq<nat>): (r: Store<R>)
    requires Valid(st)
    ensures Valid(r) && r.names == st.names && r.objects == st.objects
    ensures r.maps == st.maps - (set h | h in hs)
    decreases |hs|
  {
    if |hs| == 0 then st
    else
      RemoveFirst(st.maps, hs);
      CloseReaders(CloseReader(st, hs[0]), hs[1..])
  }

  /** Removing the first added name keeps the rest an extension. */
  lemma NamesShrink<R>(st0: Store<R>, st: Store<R>, ns: seq<string>, st1: Store<R>)
    requires NamesExtend(st0, st, ns) && |ns| > 0
    requires st1.names == st.names - {ns[0]}
    ensures NamesExtend(st0, st1, ns[1..])
  {
    forall n | n in st1.names
      ensures n in st0.names || n in ns[1..]
    {
      if n !in st0.names {
        var j :| 0 <= j < |ns| && ns[j] == n;
        assert ns[1..][j - 1] == n;
      }
    }
  }

  /** Removing the first added mapping keeps the rest an extension. */
  lemma MapsShrink<R>(st0: Store<R>, st: Store<R>, hs: seq<nat>, st1: Store<R>)
    requires MapsExtend(st0, st, hs) && |hs| > 0
    requires st1.maps == st.maps - {hs[0]}
    ensures MapsExtend(st0, st1, hs[1..])
  {
    forall h | h in st1.maps
      ensures h in st0.maps || h in hs[1..]
    {
      if h !in st0.maps {
        var j :| 0 <= j < |hs| && hs[j] == h;
        assert hs[1..][j - 1] == h;
      }
    }
  }

  /** Closing everything a writer added gives back the namespace and the
      mappings it started from. */
  lemma {:induction false} CloseWritersRestores<R>(st0: Store<R>, st: Store<R>, ns: seq<string>, hs: seq<nat>)
    requires Valid(st) && |ns| == |hs|
    requires NamesExtend(st0, st, ns) && MapsExtend(st0, st, hs)
    ensures CloseWriters(st, ns, hs).names == st0.names
    ensures CloseWriters(st, ns, hs).maps == st0.maps
    decreases |hs|
  {
    if |hs| == 0 {
      NamesExtendNothing(st0, st);
      MapsExtendNothing(st0, st);
    } else {
      var st1 := CloseWriter(st, hs[0], ns[0]);
      NamesShrink(st0, st, ns, st1);
      MapsShrink(st0, st, hs, st1);
      CloseWritersRestores(st0, st1, ns[1..], hs[1..]);
    }
  }

  /** Closing every mapping a reader added gives back the mappings it started from. */
  lemma {:induction false} CloseReadersRestores<R>(st0: Store<R>, st: Store<R>, hs: seq<nat>)
    requires Valid(st) && MapsExtend(st0, st, hs)
    ensures CloseReaders(st, hs).maps == st0.maps
    decreases |hs|
  {
    if |hs| == 0 {
      MapsExtendNothing(st0, st);
    } else {
      var st1 := CloseReader(st, hs[0]);
      MapsShrink(st0, st, hs, st1);
      CloseReadersRestores(st0, st1, hs[1..]);
    }
  }

  /** One attach per device id, in order, collecting the handles in `hs`
      (`_v.push_back`). On the first failure a writer closes every segment
      it already created, then the error propagates; a reader propagates it
      without closing anything. */
  function AttachFrom<R>(st: Store<R>, create: bool, ids: seq<nat>, faults: seq<Fault>,
                         name: nat -> string, init: nat -> R, size: nat, hs: seq<nat>): (r: Step<R, seq<nat>>)
    requires Valid(st) && |faults| == |ids| && |hs| <= |ids|
    ensures Valid(r.store)
    ensures !create ==> r.store.names == st.names && r.store.objects == st.objects
    ensures r.result.Ok? ==> |r.result.value| == |ids|
    decreases |ids| - |hs|
  {
    var i := |hs|;
    if i == |ids| then Step(st, Ok(hs))
    else
      var s := if create then Create(st, name(ids[i]), size, init(ids[i]), faults[i])
               else OpenRo(st, name(ids[i]), size, faults[i]);
      if s.result.Err? then
        if create then Step(CloseWriters(s.store, NamesOf(name, ids[..i]), hs), Err(s.result.error))
        else Step(s.store, Err(s.result.error))
      else
        AttachFrom(s.store, create, ids, faults, name, init, size, hs + [s.result.value])
  }

  /** Everything a partly built writer holds: the names and mappings it added
      to `st0`, fresh objects holding the records it constructed. */
  ghost predicate WriterHolds<R>(st0: Store<R>, st: Store<R>, ns: seq<string>, hs: seq<nat>,
                                 recs: seq<R>) {
    && Valid(st)
    && |recs| == |hs|
    && NamesExtend(st0, st, ns)
    && MapsExtend(st0, st, hs)
    && Owns(st, ns, hs)
    && st0.objects.Keys <= st.objects.Keys
    && (forall j | 0 <= j < |hs| :: st.maps[hs[j]].obj !in st0.objects)
    && (forall j | 0 <= j < |hs| :: Load(st, hs[j]) == recs[j])
  }

  /** A writer's hold, segment by segment. */
  lemma WriterHoldsEach<R>(st0: Store<R>, st: Store<R>, ns: seq<string>, hs: seq<nat>, recs: seq<R>)
    requires WriterHolds(st0, st, ns, hs, recs)
    ensures DistinctObjects(st, hs)
    ensures forall j | 0 <= j < |hs| ::
      && hs[j] in st.maps && st.maps[hs[j]].writable
      && ns[j] !in st0.names && ns[j] in st.names && st.names[ns[j]] == st.maps[hs[j]].obj
      && Load(st, hs[j]) == recs[j]
  {
  }

  function InitsOf<R>(init: nat -> R, ids: seq<nat>): (rs: seq<R>)
    ensures |rs| == |ids|
    ensures forall j | 0 <= j < |ids| :: rs[j] == init(ids[j])
  {
    seq(|ids|, j requires 0 <= j < |ids| => init(ids[j]))
  }

  /** One more successful create keeps the names extension. */
  lemma CreateExtendsNames<R>(st0: Store<R>, st: Store<R>, ns: seq<string>, n: string, st1: Store<R>)
    requires NamesExtend(st0, st, ns)
    requires n !in st.names && n in st1.names
    requires forall m | m in st.names :: m in st1.names && st1.names[m] == st.names[m]
    requires forall m | m in st1.names :: m in st.names || m == n
    ensures NamesExtend(st0, st1, ns + [n])
  {
    var ns1 := ns + [n];
    forall m | m in st1.names
      ensures m in st0.names || m in ns1
    {
      if m != n && m !in st0.names {
        var j :| 0 <= j < |ns| && ns[j] == m;
        assert ns1[j] == m;
      }
    }
    assert ns1[|ns|] == n;
  }

  /** One more successful mapping keeps the mappings extension. */
  lemma CreateExtendsMaps<R>(st0: Store<R>, st: Store<R>, hs: seq<nat>, h: nat, st1: Store<R>)
    requires MapsExtend(st0, st, hs)
    requires h !in st.maps && h in st1.maps
    requires forall g | g in st.maps :: g in st1.maps && st1.maps[g] == st.maps[g]
    requires forall g | g in st1.maps :: g in st.maps || g == h
    ensures MapsExtend(st0, st1, hs + [h])
  {
    var hs1 := hs + [h];
    forall g | g in st1.maps
      ensures g in st0.maps || g in hs1
    {
      if g != h && g !in st0.maps {
        var j :| 0 <= j < |hs| && hs[j] == g;
        assert hs1[j] == g;
      }
    }
    assert hs1[|hs|] == h;
  }

  /** One more successful create keeps the writer's ownership. */
  lemma CreateExtendsOwns<R>(st: Store<R>, ns: seq<string>, hs: seq<nat>, n: string, h: nat, st1: Store<R>)
    requires Valid(st) && Owns(st, ns, hs)
    requires n !in st.names && n in st1.names
    requires forall m | m in st.names :: m in st1.names && st1.names[m] == st.names[m]
    requires h !in st.maps && h in st1.maps && st1.maps[h].writable
    requires forall g | g in st.maps :: g in st1.maps && st1.maps[g] == st.maps[g]
    requires st1.names[n] == st1.maps[h].obj && st1.maps[h].obj !in st.objects
    ensures Owns(st1, ns + [n], hs + [h])
  {
    var ns1, hs1 := ns + [n], hs + [h];
    assert forall j | 0 <= j < |hs| :: hs1[j] == hs[j] && ns1[j] == ns[j];
    assert forall j | 0 <= j < |hs| :: st.maps[hs[j]].obj in st.objects;
    assert forall j | 0 <= j < |hs| :: st1.maps[hs1[j]] == st.maps[hs[j]];
    assert DistinctObjects(st1, hs1);
  }

  /** Records seen through the old handles survive a create that leaves
      every old mapping and object in place. */
  lemma CreateKeepsRecords<R>(st0: Store<R>, st: Store<R>, hs: seq<nat>, recs: seq<R>,
                              h: nat, rec: R, st1: Store<R>)
    requires Valid(st) && Valid(st1) && |recs| == |hs|
    requires forall j | 0 <= j < |hs| ::
      hs[j] in st.maps && Load(st, hs[j]) == recs[j] && st.maps[hs[j]].obj !in st0.objects
    requires forall g | g in st.maps :: g in st1.maps && st1.maps[g] == st.maps[g]
    requires forall o | o in st.objects :: o in st1.objects && st1.objects[o] == st.objects[o]
    requires h in st1.maps && Load(st1, h) == rec && st1.maps[h].obj !in st0.objects
    ensures var hs1, recs1 := hs + [h], recs + [rec];
      forall j | 0 <= j < |hs1| ::
        hs1[j] in st1.maps && Load(st1, hs1[j]) == recs1[j] && st1.maps[hs1[j]].obj !in st0.objects
  {
    var hs1, recs1 := hs + [h], recs + [rec];
    forall j | 0 <= j < |hs1|
      ensures hs1[j] in st1.maps && Load(st1, hs1[j]) == recs1[j] && st1.maps[hs1[j]].obj !in st0.objects
    {
      if j < |hs| {
        assert hs1[j] == hs[j] && recs1[j] == recs[j];
      }
    }
  }

  /** A successful create adds one owned segment to a partly built writer. */
  lemma CreateExtendsHold<R>(st0: Store<R>, st: Store<R>, ns: seq<string>, hs: seq<nat>, recs: seq<R>,
                             n: string, size: nat, rec: R, fault: Fault)
    requires WriterHolds(st0, st, ns, hs, recs)
    requires Create(st, n, size, rec, fault).result.Ok?
    ensures var s := Create(st, n, size, rec, fault);
      WriterHolds(st0, s.store, ns + [n], hs + [s.result.value], recs + [rec])
  {
    var s := Create(st, n, size, rec, fault);
    var st1, h := s.store, s.result.value;
    CreateExtendsNames(st0, st, ns, n, st1);
    CreateExtendsMaps(st0, st, hs, h, st1);
    CreateExtendsOwns(st, ns, hs, n, h, st1);
    CreateKeepsRecords(st0, st, hs, recs, h, rec, st1);
  }

  /** A failed create followed by the rollback leaves the names and mappings
      the writer started from. */
  lemma CreateFailRollsBack<R>(st0: Store<R>, st: Store<R>, ns: seq<string>, hs: seq<nat>, recs: seq<R>,
                               n: string, size: nat, rec: R, fault: Fault)
    requires WriterHolds(st0, st, ns, hs, recs)
    requires Create(st, n, size, rec, fault).result.Err?
    ensures var s := Create(st, n, size, rec, fault);
      && CloseWriters(s.store, ns, hs).names == st0.names
      && CloseWriters(s.store, ns, hs).maps == st0.maps
  {
    var s := Create(st, n, size, rec, fault);
    assert NamesExtend(st0, s.store, ns);
    assert MapsExtend(st0, s.store, hs);
    CloseWritersRestores(st0, s.store, ns, hs);
  }

  /** Names and records of one more device. */
  lemma OneMoreDevice<R>(name: nat -> string, init: nat -> R, ids: seq<nat>, i: nat)
    requires i < |ids|
    ensures NamesOf(name, ids[..i + 1]) == NamesOf(name, ids[..i]) + [name(ids[i])]
    ensures InitsOf(init, ids[..i + 1]) == InitsOf(init, ids[..i]) + [init(ids[i])]
  {
  }

  lemma {:induction false} WriterAttachFrom<R>(st0: Store<R>, st: Store<R>, ids: seq<nat>, faults: seq<Fault>,
                                               name: nat -> string, init: nat -> R, size: nat, hs: seq<nat>)
    requires Valid(st) && |faults| == |ids| && |hs| <= |ids|
    requires WriterHolds(st0, st, NamesOf(name, ids[..|hs|]), hs, InitsOf(init, ids[..|hs|]))
    ensures var r := AttachFrom(st, true, ids, faults, name, init, size, hs);
      && (r.result.Err? ==> r.store.names == st0.names && r.store.maps == st0.maps)
      && (r.result.Ok? ==>
            && |r.result.value| == |ids|
            && WriterHolds(st0, r.store, NamesOf(name, ids), r.result.value, InitsOf(init, ids)))
    decreases |ids| - |hs|
  {
    var i := |hs|;
    var ns := NamesOf(name, ids[..i]);
    var recs := InitsOf(init, ids[..i]);
    if i == |ids| {
      assert ids[..i] == ids;
    } else {
      var s := Create(st, name(ids[i]), size, init(ids[i]), faults[i]);
      if s.result.Err? {
        CreateFailRollsBack(st0, st, ns, hs, recs, name(ids[i]), size, init(ids[i]), faults[i]);
      } else {
        CreateExtendsHold(st0, st, ns, hs, recs, name(ids[i]), size, init(ids[i]), faults[i]);
        OneMoreDevice(name, init, ids, i);
        WriterAttachFrom(st0, s.store, ids, faults, name, init, size, hs + [s.result.value]);
      }
    }
  }

  /** The data constructor's segment loop (`data::data(bool create)`). */
  function Attach<R>(st: Store<R>, create: bool, ids: seq<nat>, faults: seq<Fault>,
                     name: nat -> string, init: nat -> R, size: nat): (r: Step<R, seq<nat>>)
    requires Valid(st) && |faults| == |ids|
    ensures Valid(r.store)
    ensures r.result.Ok? ==> |r.result.value| == |ids|
    ensures create && r.result.Ok? ==>
      WriterHolds(st, r.store, NamesOf(name, ids), r.result.value, InitsOf(init, ids))
    ensures create && r.result.Err? ==> r.store.names == st.names && r.store.maps == st.maps
  {
    if create then
      WriterAttachFrom(st, st, ids, faults, name, init, size, []);
      AttachFrom(st, create, ids, faults, name, init, size, [])
    else
      AttachFrom(st, create, ids, faults, name, init, size, [])
  }

  /** A writer that attached all its segments holds, for each device, a
      fresh read-write mapping of a new object under the device's name,
      holding the device's constructed record. */
  lemma WriterAttach<R>(st: Store<R>, ids: seq<nat>, faults: seq<Fault>,
                        name: nat -> string, init: nat -> R, size: nat)
    requires Valid(st) && |faults| == |ids|
    ensures var a := Attach(st, true, ids, faults, name, init, size);
      a.result.Ok? ==>
        var hs := a.result.value;
        && DistinctObjects(a.store, hs)
        && forall j | 0 <= j < |ids| ::
          && hs[j] in a.store.maps && a.store.maps[hs[j]].writable
          && name(ids[j]) !in st.names && name(ids[j]) in a.store.names
          && a.store.names[name(ids[j])] == a.store.maps[hs[j]].obj
          && Load(a.store, hs[j]) == init(ids[j])
  {
    var a := Attach(st, true, ids, faults, name, init, size);
    if a.result.Ok? {
      WriterHoldsEach(st, a.store, NamesOf(name, ids), a.result.value, InitsOf(init, ids));
    }
  }

  /** Whether every device from position `from` on can be opened read-only. */
  predicate AllOpenable<R>(st: Store<R>, ids: seq<nat>, faults: seq<Fault>, name: nat -> string, from: nat)
    requires |faults| == |ids|
  {
    forall j | from <= j < |ids| :: name(ids[j]) in st.names && !faults[j].OpenFails? && !faults[j].MapFails?
  }

  /** Everything a partly built reader holds: read-only mappings of the
      objects named after its devices, added to `st0`'s mappings. */
  ghost predicate ReaderHolds<R>(st0: Store<R>, st: Store<R>, ns: seq<string>, hs: seq<nat>) {
    && Valid(st)
    && |ns| == |hs|
    && st.names == st0.names && st.objects == st0.objects
    && MapsExtend(st0, st, hs)
    && (forall j | 0 <= j < |hs| ::
          ns[j] in st0.names && !st.maps[hs[j]].writable && st.maps[hs[j]].obj == st0.names[ns[j]])
  }

  /** A successful read-only open adds one held mapping to a partly built reader. */
  lemma OpenExtendsHold<R>(st0: Store<R>, st: Store<R>, ns: seq<string>, hs: seq<nat>,
                           n: string, size: nat, fault: Fault)
    requires ReaderHolds(st0, st, ns, hs)
    requires OpenRo(st, n, size, fault).result.Ok?
    ensures var s := OpenRo(st, n, size, fault);
      ReaderHolds(st0, s.store, ns + [n], hs + [s.result.value])
  {
    var s := OpenRo(st, n, size, fault);
    var h := s.result.value;
    var hs1, ns1 := hs + [h], ns + [n];
    CreateExtendsMaps(st0, st, hs, h, s.store);
    assert forall j | 0 <= j < |hs| :: hs1[j] == hs[j] && ns1[j] == ns[j];
    assert forall j | 0 <= j < |hs| :: s.store.maps[hs1[j]] == st.maps[hs[j]];
  }

  lemma AllOpenableStep<R>(st: Store<R>, ids: seq<nat>, faults: seq<Fault>, name: nat -> string, i: nat)
    requires |faults| == |ids| && i < |ids|
    ensures AllOpenable(st, ids, faults, name, i) <==>
      && name(ids[i]) in st.names && !faults[i].OpenFails? && !faults[i].MapFails?
      && AllOpenable(st, ids, faults, name, i + 1)
  {
  }

  lemma {:induction false} ReaderAttachFrom<R>(st0: Store<R>, st: Store<R>, ids: seq<nat>, faults: seq<Fault>,
                                               name: nat -> string, init: nat -> R, size: nat, hs: seq<nat>)
    requires Valid(st) && |faults| == |ids| && |hs| <= |ids|
    requires ReaderHolds(st0, st, NamesOf(name, ids[..|hs|]), hs)
    ensures var r := AttachFrom(st, false, ids, faults, name, init, size, hs);
      && (r.result.Ok? <==> AllOpenable(st0, ids, faults, name, |hs|))
      && (r.result.Ok? ==> ReaderHolds(st0, r.store, NamesOf(name, ids), r.result.value))
      && (r.result.Err? ==> forall g | g in st0.maps :: g in r.store.maps && r.store.maps[g] == st0.maps[g])
    decreases |ids| - |hs|
  {
    var i := |hs|;
    var ns := NamesOf(name, ids[..i]);
    if i == |ids| {
      assert ids[..i] == ids;
    } else {
      var s := OpenRo(st, name(ids[i]), size, faults[i]);
      AllOpenableStep(st0, ids, faults, name, i);
      if s.result.Ok? {
        OpenExtendsHold(st0, st, ns, hs, name(ids[i]), size, faults[i]);
        OneMoreDevice(name, init, ids, i);
        ReaderAttachFrom(st0, s.store, ids, faults, name, init, size, hs + [s.result.value]);
      }
    }
  }

  /** A reader attaches all its segments exactly when every one of them is
      present and can be mapped; it never changes the namespace. */
  lemma ReaderAttach<R>(st: Store<R>, ids: seq<nat>, faults: seq<Fault>,
                        name: nat -> string, init: nat -> R, size: nat)
    requires Valid(st) && |faults| == |ids|
    ensures var r := Attach(st, false, ids, faults, name, init, size);
      && r.store.names == st.names && r.store.objects == st.objects
      && (r.result.Ok? <==> AllOpenable(st, ids, faults, name, 0))
      && (r.result.Ok? ==> ReaderHolds(st, r.store, NamesOf(name, ids), r.result.value))
      && (r.result.Err? ==> forall g | g in st.maps :: g in r.store.maps && r.store.maps[g] == st.maps[g])
  {
    ReaderAttachFrom(st, st, ids, faults, name, init, size, []);
  }

  /** The data destructor: a writer closes (unlinks and unmaps) every
      segment, a reader only unmaps. */
  function Detach<R>(st: Store<R>, create: bool, ns: seq<string>, hs: seq<nat>): (r: Store<R>)
    requires Valid(st) && |ns| == |hs|
    ensures Valid(r) && r.objects == st.objects
    ensures !create ==> r.names == st.names
    ensures create ==> r.names == st.names - (set n | n in ns)
    ensures r.maps == st.maps - (set h | h in hs)
    ensures forall j | 0 <= j < |hs| :: hs[j] !in r.maps
    ensures create ==> forall j | 0 <= j < |ns| :: ns[j] !in r.names
  {
    if create then CloseWriters(st, ns, hs) else CloseReaders(st, hs)
  }

  /** Constructing a `data` object and destroying it again, with any sampling
      in between, leaves the namespace and the mappings as they were: a
      writer leaves no segment behind, a reader leaves no mapping. */
  lemma AttachDetach<R>(st: Store<R>, create: bool, ids: seq<nat>, faults: seq<Fault>,
                        name: nat -> string, init: nat -> R, size: nat, later: Store<R>)
    requires Valid(st) && |faults| == |ids|
    requires Attach(st, create, ids, faults, name, init, size).result.Ok?
    requires Valid(later)
    requires later.names == Attach(st, create, ids, faults, name, init, size).store.names
    requires later.maps == Attach(st, create, ids, faults, name, init, size).store.maps
    ensures var hs := Attach(st, create, ids, faults, name, init, size).result.value;
      var r := Detach(later, create, NamesOf(name, ids), hs);
      r.names == st.names && r.maps == st.maps
  {
    var a := Attach(st, create, ids, faults, name, init, size);
    var hs := a.result.value;
    if create {
      assert NamesExtend(st, later, NamesOf(name, ids));
      assert MapsExtend(st, later, hs);
      CloseWritersRestores(st, later, NamesOf(name, ids), hs);
    } else {
      ReaderAttach(st, ids, faults, name, init, size);
      assert MapsExtend(st, later, hs);
      CloseReadersRestores(st, later, hs);
    }
  }

  /** The handles' objects are not `o`. */
  predicate Untouched<R>(st: Store<R>, hs: seq<nat>, o: nat) {
    forall j | 0 <= j < |hs| && hs[j] in st.maps :: st.maps[hs[j]].obj != o
  }

  /** Writing the first handle's record leaves the other handles' objects
      alone, and they stay distinct and writable. */
  lemma WriteFirst<R>(st: Store<R>, hs: seq<nat>, rec: R)
    requires Valid(st) && |hs| > 0 && DistinctObjects(st, hs)
    requires forall j | 0 <= j < |hs| :: st.maps[hs[j]].writable
    ensures var st1 := Write(st, hs[0], rec);
      && DistinctObjects(st1, hs[1..])
      && (forall j | 0 <= j < |hs| - 1 :: st1.maps[hs[1..][j]].writable)
      && (forall j | 1 <= j < |hs| :: Load(st1, hs[j]) == Load(st, hs[j]))
      && Untouched(st1, hs[1..], st.maps[hs[0]].obj)
      && (forall o | o in st.objects && Untouched(st, hs, o) ::
            Untouched(st1, hs[1..], o) && st1.objects[o] == st.objects[o])
  {
    var st1 := Write(st, hs[0], rec);
    assert forall j | 0 <= j < |hs| - 1 :: hs[1..][j] == hs[j + 1];
    assert forall j | 1 <= j < |hs| :: st.maps[hs[j]].obj != st.maps[hs[0]].obj;
  }

  /** The head's record and the tail's records, put back together. */
  lemma ShiftedLoads<R, I>(st: Store<R>, st1: Store<R>, r: Store<R>, hs: seq<nat>, inputs: seq<I>, step: (R, I) -> R)
    requires |hs| > 0 && |inputs| == |hs| && Valid(st) && Valid(st1) && Valid(r)
    requires forall j | 0 <= j < |hs| :: hs[j] in st.maps && hs[j] in st1.maps && hs[j] in r.maps
    requires Load(r, hs[0]) == step(Load(st, hs[0]), inputs[0])
    requires forall j | 1 <= j < |hs| :: Load(st1, hs[j]) == Load(st, hs[j])
    requires forall j | 0 <= j < |hs| - 1 :: Load(r, hs[1..][j]) == step(Load(st1, hs[1..][j]), inputs[1..][j])
    ensures forall j | 0 <= j < |hs| :: Load(r, hs[j]) == step(Load(st, hs[j]), inputs[j])
  {
    forall j | 1 <= j < |hs|
      ensures Load(r, hs[j]) == step(Load(st, hs[j]), inputs[j])
    {
      assert hs[j] == hs[1..][j - 1] && inputs[j] == inputs[1..][j - 1];
    }
  }

  /** One sampling pass (`data::update`): every owned segment, in order, gets
      its record replaced by `step` of its record and its own input. No name,
      no mapping and no other object changes. */
  function ForEach<R, I>(st: Store<R>, hs: seq<nat>, inputs: seq<I>, step: (R, I) -> R): (r: Store<R>)
    requires Valid(st) && |inputs| == |hs| && DistinctObjects(st, hs)
    requires forall j | 0 <= j < |hs| :: st.maps[hs[j]].writable
    ensures Valid(r)
    ensures r.names == st.names && r.maps == st.maps && r.next == st.next
    ensures r.objects.Keys == st.objects.Keys
    ensures forall j | 0 <= j < |hs| :: Load(r, hs[j]) == step(Load(st, hs[j]), inputs[j])
    ensures forall o | o in st.objects && Untouched(st, hs, o) :: r.objects[o] == st.objects[o]
    decreases |hs|
  {
    if |hs| == 0 then st
    else
      var st1 := Write(st, hs[0], step(Load(st, hs[0]), inputs[0]));
      WriteFirst(st, hs, step(Load(st, hs[0]), inputs[0]));
      var r := ForEach(st1, hs[1..], inputs[1..], step);
      ShiftedLoads(st, st1, r, hs, inputs, step);
      r
  }
}
