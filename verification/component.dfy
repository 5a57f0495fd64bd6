/** Storage kinds of a component and the runtime meaning of the code each kind
    emits for reading, writing, removing and clearing a payload. */
module Components {
  import opened Wrappers
  import opened Entities

  /** `ComponentStorage`. */
  datatype StorageKind = Vec | HashMap | BTreeMap | DenseVec | Null | Flagged(inner: StorageKind)

  /** A declared component: its payload type path, its name, its storage kind
      and the lifetimes its type mentions. */
  datatype Component = Component(path: string, name: string, storage: StorageKind, lifetimes: Option<seq<string>>)

  /** The storage type a kind is given in the generated store. */
  datatype StorageType = VecOfOptions | FxHashMapByEntity | BTreeMapByEntity | DenseVecOf | Unit | FlaggedOf(inner: StorageType)

  /** A kind that is `Null` once every `Flagged` wrapper is looked through. */
  predicate WrapsNull(k: StorageKind) {
    match k
    case Null => true
    case Flagged(inner) => WrapsNull(inner)
    case _ => false
  }

  /** The kind under every `Flagged` wrapper. */
  function Innermost(k: StorageKind): StorageKind {
    if k.Flagged? then Innermost(k.inner) else k
  }

  predicate HasLifetimes(c: Component) {
    c.lifetimes.Some? && |c.lifetimes.value| > 0
  }

  /** How many `Flagged` wrappers a kind has; the type has as many. */
  function FlagDepth(k: StorageKind): nat {
    if k.Flagged? then 1 + FlagDepth(k.inner) else 0
  }

  function TypeDepth(t: StorageType): nat {
    if t.FlaggedOf? then 1 + TypeDepth(t.inner) else 0
  }

  /** `as_type`: the storage type of kind `k` for component `c`. A Null kind
      (also under `Flagged`) is rejected when `c` declares lifetimes. */
  function AsType(c: Component, k: StorageKind): (r: Result<StorageType, Fault>)
    ensures r.Err? <==> WrapsNull(k) && HasLifetimes(c)
    ensures r.Err? ==> r.error == NullWithLifetimes(c.name)
    ensures r.Ok? ==> TypeDepth(r.value) == FlagDepth(k)
  {
    match k
    case Vec => Ok(VecOfOptions)
    case HashMap => Ok(FxHashMapByEntity)
    case BTreeMap => Ok(BTreeMapByEntity)
    case DenseVec => Ok(DenseVecOf)
    case Null => if HasLifetimes(c) then Err(NullWithLifetimes(c.name)) else Ok(Unit)
    case Flagged(inner) =>
      match AsType(c, inner)
      case Err(e) => Err(e)
      case Ok(t) => Ok(FlaggedOf(t))
  }

  /** The kind whose remove and clear code a kind emits: `Flagged` delegates
      to its inner storage; `DenseVec` emits none of its own. */
  function Effective(k: StorageKind): (r: Option<StorageKind>)
    ensures r.Some? ==> !r.value.Flagged? && !r.value.DenseVec?
    ensures r.Some? ==> (r.value.Null? <==> WrapsNull(k))
    ensures r.None? <==> Innermost(k) == DenseVec
    ensures r.Some? ==> r.value == Innermost(k)
  {
    match k
    case DenseVec => None
    case Flagged(inner) => Effective(inner)
    case _ => Some(k)
  }

  /** The payload container of one component. */
  datatype Backend<T> = VecB(slots: seq<Option<T>>) | MapB(entries: map<u32, T>) | NullB

  /** A backend of the shape a kind declares. DenseVec and Flagged have
      none: their storage initialisers are `todo!()`. */
  predicate Fits<T>(k: StorageKind, b: Backend<T>) {
    match k
    case Vec => b.VecB?
    case HashMap => b.MapB?
    case BTreeMap => b.MapB?
    case Null => b.NullB?
    case _ => false
  }

  /** The payload stored for index `i`, if any. */
  function Lookup<T>(b: Backend<T>, i: u32): Option<T> {
    match b
    case VecB(sl) => if i < |sl| then sl[i] else None
    case MapB(m) => if i in m then Some(m[i]) else None
    case NullB => None
  }

  /** Presence/payload coherence: the bit of `i` is set iff a payload is
      stored for `i` (a Null backend stores nothing; its bits are the data). */
  ghost predicate Coherent<T>(b: Backend<T>, bits: set<u32>) {
    b.NullB? || forall i: u32 :: i in bits <==> Lookup(b, i).Some?
  }

  /** `storage_init` (and `storage_init_with_capacity`, which only reserves
      memory): an empty backend, or `None` where the initialiser is `todo!()`. */
  function Init<T>(k: StorageKind): (r: Option<Backend<T>>)
    ensures r.Some? <==> k.Vec? || k.HashMap? || k.BTreeMap? || k.Null?
    ensures r.Some? ==> Fits(k, r.value) && Coherent(r.value, {})
  {
    match k
    case Vec => Some(VecB([]))
    case HashMap => Some(MapB(map[]))
    case BTreeMap => Some(MapB(map[]))
    case Null => Some(NullB)
    case _ => None
  }

  /** `read_function` with `optional`: a Vec is indexed with
      `get(i).unwrap()` (so `i` must be in range) and yields its slot; a map
      yields its lookup; a Null kind yields `Some(default)` iff the bit is set. */
  function ReadOptional<T>(b: Backend<T>, i: u32, present: bool, dflt: T): (r: Result<Option<T>, Fault>)
    ensures r.Err? <==> b.VecB? && i >= |b.slots|
    ensures r.Ok? && !b.NullB? ==> r.value == Lookup(b, i)
    ensures b.NullB? ==> (r.Ok? && (r.value.Some? <==> present))
  {
    match b
    case VecB(sl) => if i < |sl| then Ok(sl[i]) else Err(IndexOutOfBounds)
    case MapB(m) => Ok(Lookup(b, i))
    case NullB => Ok(if present then Some(dflt) else None)
  }

  /** `read_function` without `optional`: the optional read, unwrapped. */
  function Read<T>(b: Backend<T>, i: u32, present: bool, dflt: T): (r: Result<T, Fault>)
    ensures r.Ok? <==> ReadOptional(b, i, present, dflt).Ok? && ReadOptional(b, i, present, dflt).value.Some?
    ensures r.Ok? ==> ReadOptional(b, i, present, dflt) == Ok(Some(r.value))
    ensures r.Err? ==> r.error == if b.VecB? && i >= |b.slots| then IndexOutOfBounds else UnwrapNone
  {
    match ReadOptional(b, i, present, dflt)
    case Err(e) => Err(e)
    case Ok(None) => Err(UnwrapNone)
    case Ok(Some(v)) => Ok(v)
  }

  /** `write_function`: a Vec shorter than `i + 1` is first resized with
      `None`, then slot `i` is set; a map inserts or overwrites; a Null kind
      stores nothing. */
  function Write<T>(b: Backend<T>, i: u32, v: T): (r: Backend<T>)
    ensures r.VecB? == b.VecB? && r.MapB? == b.MapB? && r.NullB? == b.NullB?
    ensures b.VecB? ==> |r.slots| == if |b.slots| <= i then i + 1 else |b.slots|
    ensures b.VecB? ==> forall j :: 0 <= j < |r.slots| && j != i ==>
      r.slots[j] == if j < |b.slots| then b.slots[j] else None
    ensures !b.NullB? ==> Lookup(r, i) == Some(v)
    ensures forall j: u32 :: j != i ==> Lookup(r, j) == Lookup(b, j)
  {
    match b
    case VecB(sl) =>
      var grown := if |sl| <= i then sl + seq(i + 1 - |sl|, _ => None) else sl;
      VecB(grown[i := Some(v)])
    case MapB(m) => MapB(m[i := v])
    case NullB => NullB
  }

  /** The backend after the payload of `i` is removed: a Vec slot in range is
      `take`n, a map key removed. */
  function Drop<T>(b: Backend<T>, i: u32): (r: Backend<T>)
    ensures r.VecB? == b.VecB? && r.MapB? == b.MapB? && r.NullB? == b.NullB?
    ensures b.VecB? ==> |r.slots| == |b.slots|
    ensures Lookup(r, i).None?
    ensures forall j: u32 :: j != i ==> Lookup(r, j) == Lookup(b, j)
  {
    match b
    case VecB(sl) => if i < |sl| then VecB(sl[i := None]) else b
    case MapB(m) => MapB(m - {i})
    case NullB => NullB
  }

  /** `remove_function`: the payload of `i` is taken out and returned; a Null
      kind returns `Some(default)` iff the presence bit was set. */
  function Take<T>(b: Backend<T>, i: u32, had: bool, dflt: T): (r: (Backend<T>, Option<T>))
    ensures r.0 == Drop(b, i)
    ensures !b.NullB? ==> r.1 == Lookup(b, i)
    ensures b.NullB? ==> (r.1.Some? <==> had) && (had ==> r.1 == Some(dflt))
  {
    (Drop(b, i), if b.NullB? then (if had then Some(dflt) else None) else Lookup(b, i))
  }

  /** `remove_function` exactly as emitted: the Vec slot is indexed
      (`v[i].take()`) without a range check. */
  function TakeAsWritten<T>(b: Backend<T>, i: u32, had: bool, dflt: T): (r: Result<(Backend<T>, Option<T>), Fault>)
    ensures r.Err? <==> b.VecB? && i >= |b.slots|
    ensures r.Ok? ==> r.value == Take(b, i, had, dflt)
  {
    if b.VecB? && i >= |b.slots| then Err(IndexOutOfBounds) else Ok(Take(b, i, had, dflt))
  }

  /** `clear_function` exactly as emitted: for a Vec the test is
      `i <= len`, so `i == len` indexes one past the end. */
  function ClearAsWritten<T>(b: Backend<T>, bits: set<u32>, i: u32): (r: Result<(Backend<T>, set<u32>), Fault>)
    ensures r.Err? <==> b.VecB? && i == |b.slots|
    ensures r.Err? ==> r.error == IndexOutOfBounds
    ensures r.Ok? ==> r.value.1 == if b.VecB? && i > |b.slots| then bits else bits - {i}
  {
    match b
    case VecB(sl) =>
      if i <= |sl| then
        (if i < |sl| then Ok((VecB(sl[i := None]), bits - {i})) else Err(IndexOutOfBounds))
      else Ok((VecB(sl + seq(i + 1 - |sl|, _ => None)), bits))
    case MapB(m) => Ok((MapB(m - {i}), bits - {i}))
    case NullB => Ok((NullB, bits - {i}))
  }

  /** `clear_function` with the evidently intended test `i < len`: a slot in
      range is emptied and its bit cleared; otherwise the Vec grows to
      `i + 1` and the bit is left alone. Maps and Null clear key and bit. */
  function Clear<T>(b: Backend<T>, bits: set<u32>, i: u32): (r: (Backend<T>, set<u32>))
    ensures r.0.VecB? == b.VecB? && r.0.MapB? == b.MapB? && r.0.NullB? == b.NullB?
  {
    match b
    case VecB(sl) =>
      if i < |sl| then (VecB(sl[i := None]), bits - {i})
      else (VecB(sl + seq(i + 1 - |sl|, _ => None)), bits)
    case MapB(m) => (MapB(m - {i}), bits - {i})
    case NullB => (NullB, bits - {i})
  }

  // ---------------------------------------------------------------------
  // Properties of the backend operations

  /** A write keeps presence and payload coherent once the bit is set. */
  lemma WriteKeepsCoherent<T>(b: Backend<T>, bits: set<u32>, i: u32, v: T)
    requires Coherent(b, bits)
    ensures Coherent(Write(b, i, v), bits + {i})
  {
    var r := Write(b, i, v);
    if !b.NullB? {
      forall j: u32 ensures j in bits + {i} <==> Lookup(r, j).Some? {
        if j != i { assert Lookup(r, j) == Lookup(b, j); }
      }
    }
  }

  /** Removing a payload keeps coherence once the bit is cleared. */
  lemma DropKeepsCoherent<T>(b: Backend<T>, bits: set<u32>, i: u32)
    requires Coherent(b, bits)
    ensures Coherent(Drop(b, i), bits - {i})
  {
    var r := Drop(b, i);
    if !b.NullB? {
      forall j: u32 ensures j in bits - {i} <==> Lookup(r, j).Some? {
        if j != i { assert Lookup(r, j) == Lookup(b, j); }
      }
    }
  }

  /** Read after write returns the written value. */
  lemma ReadAfterWrite<T>(b: Backend<T>, i: u32, v: T, dflt: T)
    requires !b.NullB?
    ensures Read(Write(b, i, v), i, true, dflt) == Ok(v)
    ensures ReadOptional(Write(b, i, v), i, true, dflt) == Ok(Some(v))
  {
    var r := Write(b, i, v);
    assert Lookup(r, i) == Some(v);
    if r.VecB? { assert i < |r.slots|; }
  }

  /** Read after remove yields nothing (an `unwrap` failure for the
      non-optional read), and the value returned by the removal is the
      payload that was there. */
  lemma ReadAfterTake<T>(b: Backend<T>, bits: set<u32>, i: u32, dflt: T)
    requires Coherent(b, bits) && !b.NullB?
    ensures Take(b, i, i in bits, dflt).1.Some? <==> i in bits
    ensures ReadOptional(Drop(b, i), i, false, dflt) in {Ok(None), Err(IndexOutOfBounds)}
    ensures Read(Drop(b, i), i, false, dflt).Err?
  {
    assert Lookup(b, i).Some? <==> i in bits;
  }

  /** A Null kind's read and remove yield `Some(default)` exactly when the
      presence bit is set; its write stores nothing. */
  lemma NullIsPresence<T>(bits: set<u32>, i: u32, v: T, dflt: T)
    ensures Read(NullB, i, i in bits, dflt) == (if i in bits then Ok(dflt) else Err(UnwrapNone))
    ensures Take(NullB, i, i in bits, dflt).1 == (if i in bits then Some(dflt) else None)
    ensures Write<T>(NullB, i, v).NullB?
  {
  }

  /** Under coherence a non-optional read succeeds exactly when the bit is
      set: the unwraps in `read_function` need presence, and a Vec's range is
      implied by it. */
  lemma ReadSucceedsIffPresent<T>(b: Backend<T>, bits: set<u32>, i: u32, dflt: T)
    requires Coherent(b, bits)
    ensures Read(b, i, i in bits, dflt).Ok? <==> i in bits
    ensures i in bits ==> ReadOptional(b, i, true, dflt).Ok?
  {
    if !b.NullB? {
      assert i in bits <==> Lookup(b, i).Some?;
    }
  }

  /** The intended clear empties slot `i`, clears its bit, leaves every other
      index alone and keeps coherence. */
  lemma ClearRemovesComponent<T>(b: Backend<T>, bits: set<u32>, i: u32)
    requires Coherent(b, bits)
    ensures Coherent(Clear(b, bits, i).0, Clear(b, bits, i).1)
    ensures i !in Clear(b, bits, i).1 && Lookup(Clear(b, bits, i).0, i).None?
    ensures forall j: u32 :: j != i ==>
      (j in Clear(b, bits, i).1 <==> j in bits) && Lookup(Clear(b, bits, i).0, j) == Lookup(b, j)
  {
    var (r, rb) := Clear(b, bits, i);
    match b
    case VecB(sl) =>
      if i >= |sl| {
        assert Lookup(b, i).None?;
        forall j: u32 ensures Lookup(r, j) == Lookup(b, j) {
          if j < |sl| { assert r.slots[j] == sl[j]; }
        }
      } else {
        forall j: u32 | j != i ensures Lookup(r, j) == Lookup(b, j) {
        }
      }
    case MapB(m) =>
    case NullB =>
  }

  /** The emitted clear and the intended one agree everywhere except at the
      one index where the emitted test `i <= len` indexes past the end. */
  lemma ClearAsWrittenFailsOnlyAtLength<T>(b: Backend<T>, bits: set<u32>, i: u32)
    ensures ClearAsWritten(b, bits, i).Err? <==> b.VecB? && i == |b.slots|
    ensures ClearAsWritten(b, bits, i).Ok? ==> ClearAsWritten(b, bits, i).value == Clear(b, bits, i)
  {
  }

  /** The input that shows the off-by-one: clearing index 0 of an empty Vec
      (a freshly reserved entity on a fresh store) panics. */
  lemma ClearAsWrittenPanicsOnEmptyVec<T>()
    ensures ClearAsWritten<T>(VecB([]), {}, 0) == Err(IndexOutOfBounds)
    ensures Clear<T>(VecB([]), {}, 0) == (VecB([None]), {})
  {
    var empty: seq<Option<T>> := [];
    assert empty + seq(1, _ => None) == [None];
  }
}
