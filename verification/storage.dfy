/** The access wrappers a system receives: a payload container (a Vec of
    options or a map keyed by entity) together with its presence bitset,
    or just a bitset. Each has a mask, the set of indices at which it may be
    accessed, and a `get` that reads the payload at an index. */
module Storages {
  import opened Wrappers
  import opened Entities
  import opened Components

  /** The `BitSetLike` values built here: a bitset, `BitSetNot` of a mask,
      and `BitSetAnd` of two masks. */
  datatype BitMask = Bits(members: set<u32>) | Complement(inner: BitMask) | Both(left: BitMask, right: BitMask)

  /** `BitSetLike::contains`. */
  predicate Contains(m: BitMask, i: u32) {
    match m
    case Bits(s) => i in s
    case Complement(x) => !Contains(x, i)
    case Both(l, r) => Contains(l, i) && Contains(r, i)
  }

  /** The storage wrappers. `EntitiesOf` holds the alive bitset. */
  datatype Storage<T> =
    | Read(backend: Backend<T>, bits: set<u32>)
    | ReadOpt(backend: Backend<T>, bits: set<u32>)
    | ReadNot(bits: set<u32>)
    | Write(backend: Backend<T>, bits: set<u32>)
    | WriteOpt(backend: Backend<T>, bits: set<u32>)
    | WriteOptRef(backend: Backend<T>, bits: set<u32>)
    | WriteNot(bits: set<u32>)
    | EntitiesOf(bits: set<u32>)

  /** What `get` yields: a payload (by reference), an optional payload, unit (`NoValue`),
      or an entity handle. */
  datatype Element<T> = Ref(value: T) | MaybeRef(opt: Option<T>) | NoValue | Handle(entity: Entity)

  /** `ReadStorage`/`WriteStorage` wrap only a Vec or a map. */
  predicate Backed<T>(st: Storage<T>) {
    (st.ReadNot? || st.WriteNot? || st.EntitiesOf? || !st.backend.NullB?)
  }

  /** The soundness condition `unsafe` relies on: the bitset reports
      exactly the stored payloads. */
  ghost predicate StorageSound<T>(st: Storage<T>) {
    Backed(st) && (st.ReadNot? || st.WriteNot? || st.EntitiesOf? || Coherent(st.backend, st.bits))
  }

  /** `mask`: the complement of the bitset for the `Not` wrappers, the
      bitset itself for every other one (the optional ones included). */
  function Mask<T>(st: Storage<T>): (m: BitMask)
    ensures forall i: u32 :: Contains(m, i) <==> if st.ReadNot? || st.WriteNot? then i !in st.bits else i in st.bits
  {
    match st
    case ReadNot(b) => Complement(Bits(b))
    case WriteNot(b) => Complement(Bits(b))
    case _ => Bits(st.bits)
  }

  /** The optional lookup `get(i).unwrap().as_ref()` (Vec) or `get(&e)`
      (map): a Vec index past the end panics, anything else yields the
      slot. */
  function Probe<T>(b: Backend<T>, i: u32): (r: Result<Option<T>, Fault>)
    requires !b.NullB?
    ensures r.Err? <==> b.VecB? && i >= |b.slots|
    ensures r.Ok? ==> r.value == Lookup(b, i)
  {
    match b
    case VecB(sl) => if i < |sl| then Ok(sl[i]) else Err(IndexOutOfBounds)
    case MapB(_) => Ok(Lookup(b, i))
  }

  /** `get`: `Read` and `Write` unwrap the probe, the optional wrappers
      return it, the `Not` wrappers yield unit and `Entities` yields the
      handle. */
  function Get<T>(st: Storage<T>, i: u32): (r: Result<Element<T>, Fault>)
    requires Backed(st)
    ensures (st.Read? || st.Write?) ==> (r.Ok? <==> Lookup(st.backend, i).Some?)
    ensures (st.Read? || st.Write?) && r.Ok? ==> r.value == Ref(Lookup(st.backend, i).value)
    ensures (st.ReadOpt? || st.WriteOpt? || st.WriteOptRef?) ==>
      (r.Err? <==> st.backend.VecB? && i >= |st.backend.slots|)
    ensures (st.ReadOpt? || st.WriteOpt? || st.WriteOptRef?) && r.Ok? ==> r.value == MaybeRef(Lookup(st.backend, i))
    ensures (st.ReadNot? || st.WriteNot?) ==> r == Ok(NoValue)
    ensures st.EntitiesOf? ==> r == Ok(Handle(Entity(i)))
  {
    match st
    case Read(b, _) => Deref(b, i)
    case Write(b, _) => Deref(b, i)
    case ReadOpt(b, _) => (match Probe(b, i) case Ok(o) => Ok(MaybeRef(o)) case Err(e) => Err(e))
    case WriteOpt(b, _) => (match Probe(b, i) case Ok(o) => Ok(MaybeRef(o)) case Err(e) => Err(e))
    case WriteOptRef(b, _) => (match Probe(b, i) case Ok(o) => Ok(MaybeRef(o)) case Err(e) => Err(e))
    case ReadNot(_) => Ok(NoValue)
    case WriteNot(_) => Ok(NoValue)
    case EntitiesOf(_) => Ok(Handle(Entity(i)))
  }

  /** The probe, unwrapped. */
  function Deref<T>(b: Backend<T>, i: u32): (r: Result<Element<T>, Fault>)
    requires !b.NullB?
    ensures r.Ok? <==> Lookup(b, i).Some?
    ensures r.Ok? ==> r.value == Ref(Lookup(b, i).value)
  {
    match Probe(b, i)
    case Err(e) => Err(e)
    case Ok(None) => Err(UnwrapNone)
    case Ok(Some(v)) => Ok(Ref(v))
  }

  /** `Storage::opt`: `Read` becomes `ReadOpt` and `Write` becomes
      `WriteOptRef`, over the same backend and bitset. */
  function Opt<T>(st: Storage<T>): (r: Storage<T>)
    requires st.Read? || st.Write?
    ensures r.ReadOpt? || r.WriteOptRef?
  {
    if st.Read? then ReadOpt(st.backend, st.bits) else WriteOptRef(st.backend, st.bits)
  }

  /** `Storage::not` (and `!`): only the bitset is kept. */
  function Not<T>(st: Storage<T>): (r: Storage<T>)
    requires st.Read? || st.Write?
    ensures r.ReadNot? || r.WriteNot?
  {
    if st.Read? then ReadNot(st.bits) else WriteNot(st.bits)
  }

  // ---------------------------------------------------------------------
  // Properties

  /** The probe is the optional read the generated store uses. */
  lemma ProbeIsOptionalRead<T>(b: Backend<T>, i: u32, present: bool, dflt: T)
    requires !b.NullB?
    ensures Probe(b, i) == ReadOptional(b, i, present, dflt)
  {
  }

  /** A non-optional `get` succeeds exactly when a payload is stored: a Vec
      slot in range holding `Some`, or a present map key. */
  lemma {:induction false} GetNeedsPresence<T>(b: Backend<T>, bits: set<u32>, i: u32)
    requires !b.NullB?
    ensures Get(Read(b, bits), i).Ok? <==> Lookup(b, i).Some?
    ensures Get(Write(b, bits), i) == Get(Read(b, bits), i)
    ensures Get(Read(b, bits), i).Ok? ==> Get(Read(b, bits), i).value == Ref(Lookup(b, i).value)
  {
  }

  /** An optional `get` returns the lookup without requiring presence; only
      a Vec index past the end panics. */
  lemma OptGetIsLookup<T>(b: Backend<T>, bits: set<u32>, i: u32)
    requires !b.NullB?
    ensures Get(ReadOpt(b, bits), i).Err? <==> b.VecB? && i >= |b.slots|
    ensures Get(ReadOpt(b, bits), i).Ok? ==> Get(ReadOpt(b, bits), i).value == MaybeRef(Lookup(b, i))
    ensures Get(WriteOpt(b, bits), i) == Get(ReadOpt(b, bits), i)
    ensures Get(WriteOptRef(b, bits), i) == Get(ReadOpt(b, bits), i)
  {
  }

  /** `opt` keeps the backend, the bitset and so the mask; `not` keeps the
      bitset and complements the mask. Past the mask check, the optional
      read of a storage wraps what the plain read yields. */
  lemma {:induction false} OptNotKeepStorage<T>(st: Storage<T>, i: u32)
    requires (st.Read? || st.Write?) && Backed(st)
    ensures Opt(st).backend == st.backend && Opt(st).bits == st.bits && Not(st).bits == st.bits
    ensures Contains(Mask(Opt(st)), i) <==> Contains(Mask(st), i)
    ensures Contains(Mask(Not(st)), i) <==> !Contains(Mask(st), i)
    ensures Get(Not(st), i) == Ok(NoValue)
    ensures Get(st, i).Ok? ==> Get(Opt(st), i) == Ok(MaybeRef(Some(Get(st, i).value.value)))
  {
    if Get(st, i).Ok? {
      assert Lookup(st.backend, i).Some?;
    }
  }

  /** `Entities` has the alive bitset as its mask and yields the handle of
      the index. */
  lemma EntitiesYieldHandles<T>(alive: set<u32>, i: u32)
    ensures Contains(Mask<T>(EntitiesOf(alive)), i) <==> i in alive
    ensures Get<T>(EntitiesOf(alive), i) == Ok(Handle(Entity(i)))
  {
  }

  /** The mask check is what makes `get` safe: on a sound storage, every
      index in the mask can be read without a panic. */
  lemma {:induction false} MaskedGetIsSafe<T>(st: Storage<T>, i: u32)
    requires StorageSound(st) && Contains(Mask(st), i)
    ensures Get(st, i).Ok?
    ensures (st.Read? || st.Write?) ==> Get(st, i).value == Ref(Lookup(st.backend, i).value)
  {
    if !(st.ReadNot? || st.WriteNot? || st.EntitiesOf?) {
      assert i in st.bits <==> Lookup(st.backend, i).Some?;
    }
  }
}
