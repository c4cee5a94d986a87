/** The named shared-memory store behind every histogram segment
    (`tools::shm::create`, `open_ro`, `unmap`, `unlink` in tools.cc), as an
    abstract state machine.

    A name refers to an object; an object holds the record constructed in it;
    a mapping (the address `mmap` returns) refers to an object and is either
    read-write or read-only. Unlinking a name leaves existing mappings
    working, as POSIX shared memory does, and unmapping leaves the name.
    System-call failures the store cannot predict (`shm_open` refusing for a
    reason other than an existing name, `ftruncate`, `mmap`) are a `Fault`
    parameter. */
module ShmStore {

  /** The `std::runtime_error` messages of tools.cc. */
  datatype ShmError =
    | CouldNotCreate(name: string)
    | CouldNotResize(name: string)
    | CouldNotMap(name: string)
    | CouldNotOpen(name: string)

  datatype Result<T> = Ok(value: T) | Err(error: ShmError)

  /** The one system call that fails for a reason outside the model, if any. */
  datatype Fault = NoFault | OpenFails | ResizeFails | MapFails

  datatype Obj<R> = Obj(size: nat, rec: R)

  datatype Mapping = Mapping(obj: nat, size: nat, writable: bool)

  /** `next` supplies fresh object ids and mapping handles. */
  datatype Store<R> = Store(
    names: map<string, nat>,
    objects: map<nat, Obj<R>>,
    maps: map<nat, Mapping>,
    next: nat)

  /** A store operation's new state together with its outcome: failing
      operations may still have changed the store. */
  datatype Step<R, T> = Step(store: Store<R>, result: Result<T>)

  predicate Valid<R>(st: Store<R>) {
    && (forall n | n in st.names :: st.names[n] in st.objects)
    && (forall h | h in st.maps :: st.maps[h].obj in st.objects)
    && (forall o | o in st.objects :: o < st.next)
    && (forall h | h in st.maps :: h < st.next)
  }

  function Empty<R>(): (st: Store<R>)
    ensures Valid(st) && st.names == map[] && st.maps == map[]
  {
    Store(map[], map[], map[], 0)
  }

  /** The record seen through a mapping. */
  function Load<R>(st: Store<R>, h: nat): R
    requires Valid(st) && h in st.maps
  {
    st.objects[st.maps[h].obj].rec
  }

  /** A store through a read-write mapping; every other object keeps its record. */
  function Write<R>(st: Store<R>, h: nat, rec: R): (r: Store<R>)
    requires Valid(st) && h in st.maps && st.maps[h].writable
    ensures Valid(r)
    ensures r.names == st.names && r.maps == st.maps && r.next == st.next
    ensures Load(r, h) == rec
    ensures r.objects.Keys == st.objects.Keys
    ensures forall o | o in st.objects && o != st.maps[h].obj :: r.objects[o] == st.objects[o]
  {
    var o := st.maps[h].obj;
    st.(objects := st.objects[o := Obj(st.objects[o].size, rec)])
  }

  /** `tools::shm::unlink`: removes the name only. Mappings keep working and
      an absent name is ignored, as the result of `shm_unlink` is. */
  function Unlink<R>(st: Store<R>, name: string): (r: Store<R>)
    requires Valid(st)
    ensures Valid(r)
    ensures name !in r.names
    ensures forall n | n in st.names && n != name :: n in r.names && r.names[n] == st.names[n]
    ensures r.names.Keys <= st.names.Keys
    ensures r.maps == st.maps && r.objects == st.objects
    ensures name !in st.names ==> r == st
  {
    st.(names := st.names - {name})
  }

  /** `tools::shm::unmap`: releases the mapping only; the name stays. */
  function Unmap<R>(st: Store<R>, h: nat): (r: Store<R>)
    requires Valid(st)
    ensures Valid(r)
    ensures h !in r.maps
    ensures forall g | g in st.maps && g != h :: g in r.maps && r.maps[g] == st.maps[g]
    ensures r.maps.Keys <= st.maps.Keys
    ensures r.names == st.names && r.objects == st.objects
    ensures h !in st.maps ==> r == st
  {
    st.(maps := st.maps - {h})
  }

  /** `tools::shm::create`: exclusive create (`O_CREAT|O_EXCL`), resize, then a
      shared read-write mapping of exactly `size` bytes holding `init`, the
      record the caller constructs in place. A resize or map failure unlinks
      the new name before reporting, so no half-made segment stays visible. */
  function Create<R>(st: Store<R>, name: string, size: nat, init: R, fault: Fault): (r: Step<R, nat>)
    requires Valid(st)
    ensures Valid(r.store)
    ensures name in st.names ==> r == Step(st, Err(CouldNotCreate(name)))
    ensures r.result.Ok? <==> name !in st.names && fault == NoFault
    ensures r.result.Err? ==> r.result.error.name == name
    ensures r.result.Err? ==> r.store.names == st.names && r.store.maps == st.maps
    ensures r.result.Ok? ==>
      var h := r.result.value;
      && h !in st.maps
      && name in r.store.names
      && r.store.names[name] !in st.objects
      && r.store.names == st.names[name := r.store.names[name]]
      && r.store.maps == st.maps[h := Mapping(r.store.names[name], size, true)]
      && r.store.objects[r.store.names[name]] == Obj(size, init)
      && Load(r.store, h) == init
    ensures st.objects.Keys <= r.store.objects.Keys
    ensures forall o | o in st.objects :: r.store.objects[o] == st.objects[o]
    ensures st.next <= r.store.next
  {
    if name in st.names || fault.OpenFails? then
      Step(st, Err(CouldNotCreate(name)))
    else
      var o := st.next;
      var linked := st.(names := st.names[name := o],
                        objects := st.objects[o := Obj(0, init)],
                        next := o + 1);
      if fault.ResizeFails? then
        Step(Unlink(linked, name), Err(CouldNotResize(name)))
      else
        var sized := linked.(objects := linked.objects[o := Obj(size, init)]);
        if fault.MapFails? then
          Step(Unlink(sized, name), Err(CouldNotMap(name)))
        else
          var h := sized.next;
          Step(sized.(maps := sized.maps[h := Mapping(o, size, true)], next := h + 1), Ok(h))
  }

  /** `tools::shm::open_ro`: opens an existing name read-only (no create flag)
      and maps it read-only. It never creates, resizes or unlinks anything;
      a failed map reports without touching the name. `ResizeFails` does not
      apply here and is treated as no fault. */
  function OpenRo<R>(st: Store<R>, name: string, size: nat, fault: Fault): (r: Step<R, nat>)
    requires Valid(st)
    ensures Valid(r.store)
    ensures r.store.names == st.names && r.store.objects == st.objects
    ensures name !in st.names ==> r == Step(st, Err(CouldNotOpen(name)))
    ensures r.result.Ok? <==> name in st.names && fault != OpenFails && fault != MapFails
    ensures r.result.Err? ==> r.store == st && r.result.error.name == name
    ensures r.result.Ok? ==>
      var h := r.result.value;
      && h !in st.maps
      && r.store.maps == st.maps[h := Mapping(st.names[name], size, false)]
      && Load(r.store, h) == st.objects[st.names[name]].rec
    ensures st.next <= r.store.next
  {
    if name !in st.names || fault.OpenFails? then
      Step(st, Err(CouldNotOpen(name)))
    else if fault.MapFails? then
      Step(st, Err(CouldNotMap(name)))
    else
      var h := st.next;
      Step(st.(maps := st.maps[h := Mapping(st.names[name], size, false)], next := h + 1), Ok(h))
  }

  /** Creating a name that exists fails and keeps the existing segment's
      record, whoever holds it. */
  lemma CreateKeepsExisting<R>(st: Store<R>, name: string, size: nat, init: R, fault: Fault)
    requires Valid(st) && name in st.names
    ensures var r := Create(st, name, size, init, fault);
      r.result == Err(CouldNotCreate(name))
      && name in r.store.names
      && r.store.objects[r.store.names[name]] == st.objects[st.names[name]]
  {
  }

  /** A successful create is immediately visible to readers: opening the
      same name afterwards shows the constructed record read-only. */
  lemma CreateThenOpen<R>(st: Store<R>, name: string, size: nat, init: R)
    requires Valid(st) && name !in st.names
    ensures var c := Create(st, name, size, init, NoFault);
      var o := OpenRo(c.store, name, size, NoFault);
      && o.result.Ok?
      && !o.store.maps[o.result.value].writable
      && Load(o.store, o.result.value) == init
  {
  }

  /** A read-only open never makes a later create of the same name fail
      unless the name already existed. */
  lemma OpenNeverCreates<R>(st: Store<R>, name: string, size: nat, f: Fault, g: Fault, init: R)
    requires Valid(st) && name !in st.names
    ensures var o := OpenRo(st, name, size, f);
      Create(o.store, name, size, init, g).result.Ok? <==> g == NoFault
  {
  }
}
