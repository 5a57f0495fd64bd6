/** The generated component store: the alive set, one presence bitset and
    one payload backend per declared component, and the shared id allocator.
    The per-component code the generator unrolls is modelled as a loop over
    the component indices. */
module Store {
  import opened Wrappers
  import opened Entities
  import opened Components
  import opened Builders
  import opened Allocation

  /** The observable contents of a store. */
  datatype State<T> = State(alive: set<u32>, bits: seq<set<u32>>, backends: seq<Backend<T>>)

  predicate Shaped<T>(s: State<T>) {
    |s.bits| == |s.backends|
  }

  /** The kinds a store can be generated for (the others' initialisers are
      `todo!()`). */
  predicate Supported(kinds: seq<StorageKind>) {
    forall c :: 0 <= c < |kinds| ==> kinds[c] in {Vec, HashMap, BTreeMap, Null}
  }

  /** The store invariant: one bitset and one backend of the declared shape
      per component, presence bits agree with stored payloads, and only
      alive entities have components. */
  ghost predicate Inv<T>(kinds: seq<StorageKind>, s: State<T>) {
    |s.bits| == |kinds| && |s.backends| == |kinds|
    && forall c :: 0 <= c < |kinds| ==>
         Fits(kinds[c], s.backends[c]) && Coherent(s.backends[c], s.bits[c]) && s.bits[c] <= s.alive
  }

  /** `new` / `with_capacity`: nothing alive, every bitset and backend empty. */
  function Empty<T>(kinds: seq<StorageKind>): (s: State<T>)
    requires Supported(kinds)
    ensures Inv(kinds, s) && s.alive == {}
    ensures forall c, i: u32 :: 0 <= c < |kinds| ==> i !in s.bits[c] && Lookup(s.backends[c], i).None?
  {
    State({}, seq(|kinds|, _ => {}), seq(|kinds|, c requires 0 <= c < |kinds| => Init<T>(kinds[c]).value))
  }

  /** What an entity looks like through the store's getters: a component is
      visible only when the entity is alive and its presence bit is set; a
      Null component reads as the default value. */
  function View<T>(s: State<T>, c: nat, i: u32, dflt: T): (r: Option<T>)
    requires c < |s.bits| && Shaped(s)
    ensures r.Some? ==> i in s.alive && i in s.bits[c]
    ensures s.backends[c].NullB? ==> (r.Some? <==> i in s.alive && i in s.bits[c])
    ensures s.backends[c].NullB? && r.Some? ==> r.value == dflt
    ensures !s.backends[c].NullB? && Coherent(s.backends[c], s.bits[c]) ==>
      (r.Some? <==> i in s.alive && i in s.bits[c])
    ensures !s.backends[c].NullB? && r.Some? ==> r == Lookup(s.backends[c], i)
  {
    if i !in s.alive || i !in s.bits[c] then None
    else if s.backends[c].NullB? then Some(dflt)
    else Lookup(s.backends[c], i)
  }

  // ---------------------------------------------------------------------
  // The store operations as functions of the state

  /** `kill` as intended: an alive entity leaves the alive set and loses
      every presence bit and payload; a dead one changes nothing. */
  function KillS<T>(s: State<T>, i: u32): (r: State<T>)
    requires Shaped(s)
    ensures Shaped(r) && |r.bits| == |s.bits|
  {
    if i !in s.alive then s
    else
      State(s.alive - {i},
            seq(|s.bits|, c requires 0 <= c < |s.bits| => s.bits[c] - {i}),
            seq(|s.bits|, c requires 0 <= c < |s.bits| => Drop(s.backends[c], i)))
  }

  /** `kill` as emitted: the Vec payload is taken with an unchecked index,
      so an alive entity whose index is past the end of a Vec backend makes
      it panic. */
  function KillAsWritten<T>(s: State<T>, i: u32, dflt: T): (r: Result<State<T>, Fault>)
    requires Shaped(s)
    ensures r.Err? <==> i in s.alive && exists c :: 0 <= c < |s.bits| && s.backends[c].VecB? && i >= |s.backends[c].slots|
  {
    if i !in s.alive then Ok(s)
    else if exists c :: 0 <= c < |s.bits| && s.backends[c].VecB? && i >= |s.backends[c].slots| then Err(IndexOutOfBounds)
    else Ok(KillS(s, i))
  }

  /** One component's part of `build`: a filled slot sets the bit and writes
      the payload; an empty slot clears the bit and removes the payload if
      the bit was set. */
  function BuildComponent<T>(bits: set<u32>, b: Backend<T>, i: u32, slot: Option<T>): (r: (set<u32>, Backend<T>))
    ensures i in r.0 <==> slot.Some?
    ensures r.0 - {i} == bits - {i}
    ensures !b.NullB? && (slot.Some? || Coherent(b, bits)) ==> Lookup(r.1, i) == slot
    ensures forall j: u32 :: j != i ==> Lookup(r.1, j) == Lookup(b, j)
    ensures Coherent(b, bits) ==> Coherent(r.1, r.0)
  {
    match slot
    case Some(v) => (bits + {i}, Write(b, i, v))
    case None => (bits - {i}, if i in bits then Drop(b, i) else b)
  }

  /** `build`: the builder's entity becomes alive and gets exactly the
      components its slots hold. */
  function BuildS<T>(s: State<T>, b: EntityBuilder<T>): (r: State<T>)
    requires Shaped(s) && |b.slots| == |s.bits|
    ensures Shaped(r) && |r.bits| == |s.bits|
  {
    var i := b.entity.id;
    State(s.alive + {i},
          seq(|s.bits|, c requires 0 <= c < |s.bits| => BuildComponent(s.bits[c], s.backends[c], i, b.slots[c]).0),
          seq(|s.bits|, c requires 0 <= c < |s.bits| => BuildComponent(s.bits[c], s.backends[c], i, b.slots[c]).1))
  }

  /** `reset` as intended (with the clear that tests `i < len`): the entity
      becomes alive with no component. */
  function ResetS<T>(s: State<T>, i: u32): (r: State<T>)
    requires Shaped(s)
    ensures Shaped(r) && |r.bits| == |s.bits|
  {
    State(s.alive + {i},
          seq(|s.bits|, c requires 0 <= c < |s.bits| => Clear(s.backends[c], s.bits[c], i).1),
          seq(|s.bits|, c requires 0 <= c < |s.bits| => Clear(s.backends[c], s.bits[c], i).0))
  }

  /** `reset` as emitted: it fails exactly when some Vec backend is exactly
      `i` long, the case the emitted test `i <= len` lets through. */
  function ResetAsWritten<T>(s: State<T>, i: u32): (r: Result<State<T>, Fault>)
    requires Shaped(s)
    ensures r.Err? <==> exists c :: 0 <= c < |s.bits| && ClearAsWritten(s.backends[c], s.bits[c], i).Err?
    ensures r.Ok? ==> r.value == ResetS(s, i)
  {
    if exists c :: 0 <= c < |s.bits| && ClearAsWritten(s.backends[c], s.bits[c], i).Err? then Err(IndexOutOfBounds)
    else
      assert forall c :: 0 <= c < |s.bits| ==> ClearAsWritten(s.backends[c], s.bits[c], i).value == Clear(s.backends[c], s.bits[c], i) by {
        forall c | 0 <= c < |s.bits| ensures ClearAsWritten(s.backends[c], s.bits[c], i).value == Clear(s.backends[c], s.bits[c], i) {
          ClearAsWrittenFailsOnlyAtLength(s.backends[c], s.bits[c], i);
        }
      }
      Ok(ResetS(s, i))
  }

  /** The `add_<component>` setter: refused (by `assert!`) for a dead
      entity; otherwise sets the bit and writes the payload. */
  function AddS<T>(s: State<T>, c: nat, i: u32, v: T): (r: Result<State<T>, Fault>)
    requires Shaped(s) && c < |s.bits|
    ensures r.Err? <==> i !in s.alive
    ensures r.Err? ==> r.error == NotAlive
    ensures r.Ok? ==> Shaped(r.value) && |r.value.bits| == |s.bits| && r.value.alive == s.alive
  {
    if i !in s.alive then Err(NotAlive)
    else Ok(State(s.alive, s.bits[c := s.bits[c] + {i}], s.backends[c := Write(s.backends[c], i, v)]))
  }

  /** The `del_<component>` setter: refused for a dead entity; otherwise
      clears the bit and, when it was set, takes the payload out and
      returns it. */
  function DelS<T>(s: State<T>, c: nat, i: u32, dflt: T): (r: Result<(State<T>, Option<T>), Fault>)
    requires Shaped(s) && c < |s.bits|
    ensures r.Err? <==> i !in s.alive
    ensures r.Err? ==> r.error == NotAlive
    ensures r.Ok? && i !in s.bits[c] ==> r.value == (s, None)
    ensures r.Ok? ==> Shaped(r.value.0) && |r.value.0.bits| == |s.bits| && r.value.0.alive == s.alive
  {
    if i !in s.alive then Err(NotAlive)
    else if i !in s.bits[c] then Ok((s, None))
    else
      var (b, out) := Take(s.backends[c], i, true, dflt);
      Ok((State(s.alive, s.bits[c := s.bits[c] - {i}], s.backends[c := b]), out))
  }

  // ---------------------------------------------------------------------
  // Properties of the operations

  /** `new` leaves nothing to see. */
  lemma EmptyShowsNothing<T>(kinds: seq<StorageKind>, c: nat, i: u32, dflt: T)
    requires Supported(kinds) && c < |kinds|
    ensures View(Empty<T>(kinds), c, i, dflt).None?
  {
  }

  /** Under the invariant a getter finds a payload exactly when the entity
      is alive and its bit is set, and never panics on the way. */
  lemma ViewIsPresence<T>(kinds: seq<StorageKind>, s: State<T>, c: nat, i: u32, dflt: T)
    requires Inv(kinds, s) && c < |kinds|
    ensures View(s, c, i, dflt).Some? <==> i in s.alive && i in s.bits[c]
    ensures i in s.bits[c] ==> ReadOptional(s.backends[c], i, true, dflt).Ok?
  {
    if !s.backends[c].NullB? {
      assert i in s.bits[c] <==> Lookup(s.backends[c], i).Some?;
    }
  }

  lemma {:induction false} KillKeepsInv<T>(kinds: seq<StorageKind>, s: State<T>, i: u32)
    requires Inv(kinds, s)
    ensures Inv(kinds, KillS(s, i))
  {
    if i in s.alive {
      var r := KillS(s, i);
      forall c | 0 <= c < |kinds|
        ensures Fits(kinds[c], r.backends[c]) && Coherent(r.backends[c], r.bits[c]) && r.bits[c] <= r.alive
      {
        DropKeepsCoherent(s.backends[c], s.bits[c], i);
      }
    }
  }

  /** After `kill` the entity is dead and has no component; every other
      entity is untouched. */
  lemma {:induction false} KillRemovesEverything<T>(kinds: seq<StorageKind>, s: State<T>, i: u32, c: nat, j: u32)
    requires Inv(kinds, s) && c < |kinds| && j != i
    ensures i !in KillS(s, i).alive && i !in KillS(s, i).bits[c]
    ensures Lookup(KillS(s, i).backends[c], i).None?
    ensures (j in KillS(s, i).alive <==> j in s.alive) && (j in KillS(s, i).bits[c] <==> j in s.bits[c])
    ensures Lookup(KillS(s, i).backends[c], j) == Lookup(s.backends[c], j)
  {
    if i !in s.alive && !s.backends[c].NullB? {
      assert i in s.bits[c] <==> Lookup(s.backends[c], i).Some?;
    }
  }

  /** Killing twice is killing once. */
  lemma KillIdempotent<T>(s: State<T>, i: u32)
    requires Shaped(s)
    ensures KillS(KillS(s, i), i) == KillS(s, i)
  {
  }

  lemma {:induction false} BuildKeepsInv<T>(kinds: seq<StorageKind>, s: State<T>, b: EntityBuilder<T>)
    requires Inv(kinds, s) && |b.slots| == |kinds|
    ensures Inv(kinds, BuildS(s, b))
  {
    var r := BuildS(s, b);
    var i := b.entity.id;
    forall c | 0 <= c < |kinds|
      ensures Fits(kinds[c], r.backends[c]) && Coherent(r.backends[c], r.bits[c]) && r.bits[c] <= r.alive
    {
      match b.slots[c]
      case Some(v) => WriteKeepsCoherent(s.backends[c], s.bits[c], i, v);
      case None =>
        if i in s.bits[c] {
          DropKeepsCoherent(s.backends[c], s.bits[c], i);
        } else {
          assert s.bits[c] - {i} == s.bits[c];
        }
    }
  }

  /** After `build` the entity is alive and has exactly the components its
      builder holds, with their payloads; every other entity is untouched. */
  lemma {:induction false} BuildInstallsBuilder<T>(kinds: seq<StorageKind>, s: State<T>, b: EntityBuilder<T>, c: nat, dflt: T)
    requires Inv(kinds, s) && |b.slots| == |kinds| && c < |kinds|
    ensures b.entity.id in BuildS(s, b).alive
    ensures b.entity.id in BuildS(s, b).bits[c] <==> b.slots[c].Some?
    ensures !kinds[c].Null? ==> View(BuildS(s, b), c, b.entity.id, dflt) == b.slots[c]
    ensures forall j: u32 :: j != b.entity.id ==> View(BuildS(s, b), c, j, dflt) == View(s, c, j, dflt)
  {
    var i := b.entity.id;
    var r := BuildS(s, b);
    if b.slots[c].None? && i !in s.bits[c] && !s.backends[c].NullB? {
      assert Lookup(s.backends[c], i).None?;
    }
    forall j: u32 | j != i ensures View(r, c, j, dflt) == View(s, c, j, dflt) {
      if b.slots[c].None? && i in s.bits[c] {
        assert Lookup(r.backends[c], j) == Lookup(s.backends[c], j);
      }
    }
  }

  /** A second `build` of the same entity replaces the first entirely. */
  lemma {:induction false} BuildTwiceReplaces<T>(kinds: seq<StorageKind>, s: State<T>, b1: EntityBuilder<T>, b2: EntityBuilder<T>, dflt: T)
    requires Inv(kinds, s) && |b1.slots| == |kinds| && |b2.slots| == |kinds| && b1.entity == b2.entity
    ensures forall c, j: u32 :: 0 <= c < |kinds| ==> View(BuildS(BuildS(s, b1), b2), c, j, dflt) == View(BuildS(s, b2), c, j, dflt)
  {
    BuildKeepsInv(kinds, s, b1);
    var s1 := BuildS(s, b1);
    forall c, j: u32 | 0 <= c < |kinds|
      ensures View(BuildS(s1, b2), c, j, dflt) == View(BuildS(s, b2), c, j, dflt)
    {
      BuildInstallsBuilder(kinds, s1, b2, c, dflt);
      BuildInstallsBuilder(kinds, s, b2, c, dflt);
      if j != b1.entity.id {
        BuildInstallsBuilder(kinds, s, b1, c, dflt);
      } else if kinds[c].Null? {
        assert View(BuildS(s1, b2), c, j, dflt) == (if b2.slots[c].Some? then Some(dflt) else None);
      }
    }
  }

  /** Building and then killing an entity leaves the store looking as
      killing it alone would. */
  lemma {:induction false} BuildThenKill<T>(kinds: seq<StorageKind>, s: State<T>, b: EntityBuilder<T>, dflt: T)
    requires Inv(kinds, s) && |b.slots| == |kinds|
    ensures forall c, j: u32 :: 0 <= c < |kinds| ==>
      View(KillS(BuildS(s, b), b.entity.id), c, j, dflt) == View(KillS(s, b.entity.id), c, j, dflt)
  {
    var i := b.entity.id;
    forall c, j: u32 | 0 <= c < |kinds|
      ensures View(KillS(BuildS(s, b), i), c, j, dflt) == View(KillS(s, i), c, j, dflt)
    {
      if j != i {
        BuildInstallsBuilder(kinds, s, b, c, dflt);
      }
    }
  }

  lemma {:induction false} ResetKeepsInv<T>(kinds: seq<StorageKind>, s: State<T>, i: u32)
    requires Inv(kinds, s)
    ensures Inv(kinds, ResetS(s, i))
  {
    var r := ResetS(s, i);
    forall c | 0 <= c < |kinds|
      ensures Fits(kinds[c], r.backends[c]) && Coherent(r.backends[c], r.bits[c]) && r.bits[c] <= r.alive
    {
      ClearRemovesComponent(s.backends[c], s.bits[c], i);
    }
  }

  /** After `reset` the entity is alive with no component; every other
      entity is untouched. */
  lemma {:induction false} ResetClears<T>(kinds: seq<StorageKind>, s: State<T>, i: u32, dflt: T)
    requires Inv(kinds, s)
    ensures i in ResetS(s, i).alive
    ensures forall c :: 0 <= c < |kinds| ==> View(ResetS(s, i), c, i, dflt).None?
    ensures forall c, j: u32 :: 0 <= c < |kinds| && j != i ==> View(ResetS(s, i), c, j, dflt) == View(s, c, j, dflt)
  {
    forall c | 0 <= c < |kinds| ensures View(ResetS(s, i), c, i, dflt).None? {
      ClearRemovesComponent(s.backends[c], s.bits[c], i);
    }
    forall c, j: u32 | 0 <= c < |kinds| && j != i ensures View(ResetS(s, i), c, j, dflt) == View(s, c, j, dflt) {
      ClearRemovesComponent(s.backends[c], s.bits[c], i);
    }
  }

  lemma {:induction false} AddKeepsInv<T>(kinds: seq<StorageKind>, s: State<T>, c: nat, i: u32, v: T)
    requires Inv(kinds, s) && c < |kinds| && AddS(s, c, i, v).Ok?
    ensures Inv(kinds, AddS(s, c, i, v).value)
  {
    WriteKeepsCoherent(s.backends[c], s.bits[c], i, v);
  }

  /** Adding then deleting a component returns the added payload (the
      default for a Null kind) and leaves the component absent. */
  lemma {:induction false} DelReturnsAdded<T>(kinds: seq<StorageKind>, s: State<T>, c: nat, i: u32, v: T, dflt: T)
    requires Inv(kinds, s) && c < |kinds| && i in s.alive
    ensures AddS(s, c, i, v).Ok?
    ensures DelS(AddS(s, c, i, v).value, c, i, dflt).Ok?
    ensures DelS(AddS(s, c, i, v).value, c, i, dflt).value.1 == (if kinds[c].Null? then Some(dflt) else Some(v))
    ensures View(DelS(AddS(s, c, i, v).value, c, i, dflt).value.0, c, i, dflt).None?
  {
    var s1 := AddS(s, c, i, v).value;
    assert Lookup(s1.backends[c], i) == Some(v) || kinds[c].Null?;
  }

  lemma {:induction false} DelKeepsInv<T>(kinds: seq<StorageKind>, s: State<T>, c: nat, i: u32, dflt: T)
    requires Inv(kinds, s) && c < |kinds| && DelS(s, c, i, dflt).Ok?
    ensures Inv(kinds, DelS(s, c, i, dflt).value.0)
  {
    DropKeepsCoherent(s.backends[c], s.bits[c], i);
  }

  /** Deleting a component returns what the getter showed and hides it. */
  lemma {:induction false} DelReturnsView<T>(kinds: seq<StorageKind>, s: State<T>, c: nat, i: u32, dflt: T)
    requires Inv(kinds, s) && c < |kinds| && i in s.alive
    ensures DelS(s, c, i, dflt).Ok?
    ensures DelS(s, c, i, dflt).value.1 == View(s, c, i, dflt)
    ensures View(DelS(s, c, i, dflt).value.0, c, i, dflt).None?
  {
    if !s.backends[c].NullB? {
      assert i in s.bits[c] <==> Lookup(s.backends[c], i).Some?;
    }
  }

  /** `kill` seen through the getters: the killed entity shows nothing,
      every other entity shows what it did. */
  lemma {:induction false} KillView<T>(kinds: seq<StorageKind>, s: State<T>, i: u32, c: nat, j: u32, dflt: T)
    requires Inv(kinds, s) && c < |kinds|
    ensures View(KillS(s, i), c, j, dflt) == if j == i then None else View(s, c, j, dflt)
  {
    if j != i {
      KillRemovesEverything(kinds, s, i, c, j);
    }
  }

  /** `add_<component>` seen through the getters: the entity now shows the
      added value (the default for a Null kind), every other entity shows
      what it did, and no other component changes at all. */
  lemma {:induction false} AddView<T>(kinds: seq<StorageKind>, s: State<T>, c: nat, i: u32, v: T, dflt: T)
    requires Inv(kinds, s) && c < |kinds| && i in s.alive
    ensures AddS(s, c, i, v).Ok?
    ensures forall j: u32 ::
              View(AddS(s, c, i, v).value, c, j, dflt)
              == if j == i then (if kinds[c].Null? then Some(dflt) else Some(v)) else View(s, c, j, dflt)
    ensures forall d :: 0 <= d < |kinds| && d != c ==>
      AddS(s, c, i, v).value.bits[d] == s.bits[d] && AddS(s, c, i, v).value.backends[d] == s.backends[d]
  {
    var r := AddS(s, c, i, v).value;
    forall j: u32 ensures View(r, c, j, dflt) == if j == i then (if kinds[c].Null? then Some(dflt) else Some(v)) else View(s, c, j, dflt) {
      if j != i {
        assert Lookup(r.backends[c], j) == Lookup(s.backends[c], j);
      }
    }
  }

  /** `del_<component>` seen through the getters: the entity no longer shows
      the component, every other entity shows what it did, and no other
      component changes at all. */
  lemma {:induction false} DelView<T>(kinds: seq<StorageKind>, s: State<T>, c: nat, i: u32, dflt: T)
    requires Inv(kinds, s) && c < |kinds| && i in s.alive
    ensures DelS(s, c, i, dflt).Ok?
    ensures forall j: u32 :: View(DelS(s, c, i, dflt).value.0, c, j, dflt) == if j == i then None else View(s, c, j, dflt)
    ensures forall d :: 0 <= d < |kinds| && d != c ==>
      DelS(s, c, i, dflt).value.0.bits[d] == s.bits[d] && DelS(s, c, i, dflt).value.0.backends[d] == s.backends[d]
  {
    var r := DelS(s, c, i, dflt).value.0;
    forall j: u32 ensures View(r, c, j, dflt) == if j == i then None else View(s, c, j, dflt) {
      if j != i && i in s.bits[c] {
        assert Lookup(r.backends[c], j) == Lookup(s.backends[c], j);
      }
    }
  }

  /** The emitted `kill` and the intended one agree whenever the emitted one
      does not panic. */
  lemma KillAsWrittenAgrees<T>(s: State<T>, i: u32, dflt: T)
    requires Shaped(s) && KillAsWritten(s, i, dflt).Ok?
    ensures KillAsWritten(s, i, dflt).value == KillS(s, i)
  {
  }

  /** The input that shows the unchecked index in `kill`: on a fresh store
      with one Vec component, entity 0 built with that slot empty is alive
      but the Vec is still empty, so killing it panics. */
  lemma KillAsWrittenPanicsAfterEmptyBuild<T>(dflt: T)
    ensures KillAsWritten(BuildS(Empty<T>([Vec]), NewBuilder(Entity(0), 1)), 0, dflt) == Err(IndexOutOfBounds)
    ensures KillS(BuildS(Empty<T>([Vec]), NewBuilder(Entity(0), 1)), 0).alive == {}
  {
    var s := BuildS(Empty<T>([Vec]), NewBuilder(Entity(0), 1));
    assert s.backends[0] == VecB([]);
  }

  /** The input that shows the off-by-one in `reset`: on a fresh store with
      one Vec component, resetting entity 0 panics, while the intended
      clear grows the Vec and leaves the entity alive and empty. */
  lemma ResetAsWrittenPanicsOnFreshStore<T>()
    ensures ResetAsWritten(Empty<T>([Vec]), 0).Err?
    ensures ResetS(Empty<T>([Vec]), 0) == State({0}, [{}], [VecB([None])])
  {
    var s := Empty<T>([Vec]);
    assert s.backends[0] == VecB([]);
    ClearAsWrittenPanicsOnEmptyVec<T>();
  }

  // ---------------------------------------------------------------------
  // The store object

  class ComponentStore<T> {
    const kinds: seq<StorageKind>
    const dflt: T
    const alloc: Allocator
    var alive: set<u32>
    var bits: seq<set<u32>>
    var backends: seq<Backend<T>>

    function Snapshot(): State<T>
      reads this
    {
      State(alive, bits, backends)
    }

    ghost predicate Valid()
      reads this
    {
      Inv(kinds, Snapshot())
    }

    /** `new` and `with_capacity` (the capacity only reserves memory): a
        fresh allocator and every component empty. */
    constructor (kinds: seq<StorageKind>, dflt: T)
      requires Supported(kinds)
      ensures Valid() && fresh(alloc)
      ensures this.kinds == kinds && this.dflt == dflt
      ensures Snapshot() == Empty<T>(kinds) && alloc.max == 0 && alloc.freed == []
    {
      this.kinds := kinds;
      this.dflt := dflt;
      alloc := new Allocator();
      alive := {};
      bits := seq(|kinds|, _ => {});
      backends := seq(|kinds|, c requires 0 <= c < |kinds| => Init<T>(kinds[c]).value);
    }

    /** `alive`. */
    function Alive(e: Entity): (r: bool)
      reads this
      ensures r <==> e.id in Snapshot().alive
    {
      e.id in alive
    }

    /** `next`: reserve an id from the shared allocator; the entity stays
        dead until it is built. */
    method Next() returns (e: Entity)
      modifies alloc
      ensures Reservation(e, alloc.max, alloc.freed) == ReserveS(old(alloc.max), old(alloc.freed))
      ensures e.id !in alive || !old(Discipline(alive, alloc.max, alloc.freed))
        || (old(alloc.freed) == [] && old(alloc.max) + 1 == U32_LIMIT)
    {
      if (alloc.freed != [] || alloc.max + 1 < U32_LIMIT) && Discipline(alive, alloc.max, alloc.freed) {
        ReserveIsFresh(alive, alloc.max, alloc.freed);
      }
      e := alloc.Reserve();
    }

    /** The component getter (and its `_mut` twin): `None` unless the entity
        is alive and its bit is set; under the invariant the read behind it
        cannot panic. */
    function Get(c: nat, e: Entity): (r: Option<T>)
      requires Valid() && c < |kinds| && !kinds[c].Null?
      reads this
      ensures r.Some? <==> e.id in alive && e.id in bits[c]
      ensures r.Some? ==> Lookup(backends[c], e.id) == r
    {
      if e.id !in alive || e.id !in bits[c] then None
      else
        assert Lookup(backends[c], e.id).Some?;
        ReadOptional(backends[c], e.id, true, dflt).value
    }

    /** The getter of a Null component: whether the entity is alive and has
        the component. */
    function Has(c: nat, e: Entity): (r: bool)
      requires Valid() && c < |kinds| && kinds[c].Null?
      reads this
      ensures r <==> View(Snapshot(), c, e.id, dflt) == Some(dflt)
    {
      e.id in alive && e.id in bits[c]
    }

    /** `kill`: an alive entity's id is queued for reuse and every component
        it has is removed. */
    method Kill(e: Entity) returns (wasAlive: bool)
      requires Valid()
      modifies this, alloc
      ensures Valid()
      ensures wasAlive <==> e.id in old(alive)
      ensures Snapshot() == KillS(old(Snapshot()), e.id)
      ensures alloc.max == old(alloc.max)
      ensures alloc.freed == old(alloc.freed) + (if wasAlive then [e.id] else [])
    {
      KillKeepsInv(kinds, Snapshot(), e.id);
      ghost var goal := KillS(Snapshot(), e.id);
      if e.id !in alive {
        return false;
      }
      alive := alive - {e.id};
      alloc.Free(e.id);
      var c := 0;
      while c < |kinds|
        invariant 0 <= c <= |kinds| && |bits| == |kinds| && |backends| == |kinds|
        invariant alive == goal.alive
        invariant alloc.max == old(alloc.max) && alloc.freed == old(alloc.freed) + [e.id]
        invariant forall j :: 0 <= j < c ==> bits[j] == goal.bits[j] && backends[j] == goal.backends[j]
        invariant forall j :: c <= j < |kinds| ==> bits[j] == old(bits)[j] && backends[j] == old(backends)[j]
      {
        bits := bits[c := bits[c] - {e.id}];
        backends := backends[c := Drop(backends[c], e.id)];
        c := c + 1;
      }
      assert bits == goal.bits && backends == goal.backends;
      return true;
    }

    /** `build`: the builder's entity becomes alive with exactly the
        components its slots hold. */
    method Build(b: EntityBuilder<T>)
      requires Valid() && |b.slots| == |kinds|
      modifies this
      ensures Valid()
      ensures Snapshot() == BuildS(old(Snapshot()), b)
    {
      BuildKeepsInv(kinds, Snapshot(), b);
      ghost var goal := BuildS(Snapshot(), b);
      var i := b.entity.id;
      alive := alive + {i};
      var c := 0;
      while c < |kinds|
        invariant 0 <= c <= |kinds| && |bits| == |kinds| && |backends| == |kinds|
        invariant alive == goal.alive
        invariant forall j :: 0 <= j < c ==> bits[j] == goal.bits[j] && backends[j] == goal.backends[j]
        invariant forall j :: c <= j < |kinds| ==> bits[j] == old(bits)[j] && backends[j] == old(backends)[j]
      {
        match b.slots[c] {
          case Some(v) =>
            bits := bits[c := bits[c] + {i}];
            backends := backends[c := Write(backends[c], i, v)];
          case None =>
            var had := i in bits[c];
            bits := bits[c := bits[c] - {i}];
            if had {
              backends := backends[c := Drop(backends[c], i)];
            }
        }
        c := c + 1;
      }
      assert bits == goal.bits && backends == goal.backends;
    }

    /** `reset`: the entity becomes alive and every component is cleared
        (with the Vec range test `i < len`). */
    method Reset(e: Entity)
      requires Valid()
      modifies this
      ensures Valid()
      ensures Snapshot() == ResetS(old(Snapshot()), e.id)
    {
      ResetKeepsInv(kinds, Snapshot(), e.id);
      ghost var goal := ResetS(Snapshot(), e.id);
      alive := alive + {e.id};
      var c := 0;
      while c < |kinds|
        invariant 0 <= c <= |kinds| && |bits| == |kinds| && |backends| == |kinds|
        invariant alive == goal.alive
        invariant forall j :: 0 <= j < c ==> bits[j] == goal.bits[j] && backends[j] == goal.backends[j]
        invariant forall j :: c <= j < |kinds| ==> bits[j] == old(bits)[j] && backends[j] == old(backends)[j]
      {
        var (nb, nbits) := Clear(backends[c], bits[c], e.id);
        bits := bits[c := nbits];
        backends := backends[c := nb];
        c := c + 1;
      }
      assert bits == goal.bits && backends == goal.backends;
    }

    /** `add_<component>`: panics (`assert!`) unless the entity is alive. */
    method Add(c: nat, e: Entity, v: T) returns (r: Result<(), Fault>)
      requires Valid() && c < |kinds|
      modifies this
      ensures Valid()
      ensures r.Err? <==> e.id !in old(alive)
      ensures r.Err? ==> r.error == NotAlive && Snapshot() == old(Snapshot())
      ensures r.Ok? ==> Snapshot() == AddS(old(Snapshot()), c, e.id, v).value
    {
      if e.id !in alive {
        return Err(NotAlive);
      }
      AddKeepsInv(kinds, Snapshot(), c, e.id, v);
      bits := bits[c := bits[c] + {e.id}];
      backends := backends[c := Write(backends[c], e.id, v)];
      return Ok(());
    }

    /** `del_<component>`: panics unless the entity is alive; returns the
        payload it had, if any. */
    method Del(c: nat, e: Entity) returns (r: Result<Option<T>, Fault>)
      requires Valid() && c < |kinds|
      modifies this
      ensures Valid()
      ensures r.Err? <==> e.id !in old(alive)
      ensures r.Err? ==> r.error == NotAlive && Snapshot() == old(Snapshot())
      ensures r.Ok? ==> (Snapshot(), r.value) == DelS(old(Snapshot()), c, e.id, dflt).value
    {
      if e.id !in alive {
        return Err(NotAlive);
      }
      DelKeepsInv(kinds, Snapshot(), c, e.id, dflt);
      var had := e.id in bits[c];
      bits := bits[c := bits[c] - {e.id}];
      if had {
        var (nb, out) := Take(backends[c], e.id, true, dflt);
        backends := backends[c := nb];
        return Ok(out);
      }
      assert old(bits)[c] - {e.id} == old(bits)[c];
      assert bits == old(bits);
      return Ok(None);
    }
  }
}
