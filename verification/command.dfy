/** The generated command buffer: a deferred log of entity creations,
    entity deletions and per-component additions and removals, applied to a
    component store by `build` in a fixed order: every kill, then every
    creation, then per component its additions and then its removals, both
    only for entities alive at that point.

    The pending deletions and removals are hash sets and the pending
    additions hash maps, whose drain order is unspecified; the flush is
    therefore specified for any enumeration order, which it returns as
    ghost results. */
module Commands {
  import opened Wrappers
  import opened Entities
  import opened Components
  import opened Builders
  import opened Allocation
  import opened Store

  predicate Distinct<X(==)>(xs: seq<X>) {
    forall i, j :: 0 <= i < j < |xs| ==> xs[i] != xs[j]
  }

  /** `xs` lists every element of `s` exactly once: a possible drain order. */
  ghost predicate Enumerates(xs: seq<Entity>, s: set<Entity>) {
    Distinct(xs) && forall x :: x in s <==> x in xs
  }

  function Ids(es: seq<Entity>): set<u32> {
    set e | e in es :: e.id
  }

  function BuiltIds<T>(bs: seq<EntityBuilder<T>>): set<u32> {
    set k | 0 <= k < |bs| :: bs[k].entity.id
  }

  /** The ids, in order, of those entities of `es` that are in `alive`:
      what a run of kills sends to the free-id channel. */
  function AliveIds(es: seq<Entity>, alive: set<u32>): (r: seq<u32>)
    ensures forall k :: 0 <= k < |r| ==> r[k] in alive && Entity(r[k]) in es
    decreases |es|
  {
    if es == [] then []
    else
      var last := es[|es| - 1];
      AliveIds(es[..|es| - 1], alive) + (if last.id in alive then [last.id] else [])
  }

  predicate BuildersFit<T>(bs: seq<EntityBuilder<T>>, n: nat) {
    forall k :: 0 <= k < |bs| ==> |bs[k].slots| == n
  }

  /** Kills, one after another in the given order. */
  function KillAll<T>(s: State<T>, order: seq<Entity>): (r: State<T>)
    requires Shaped(s)
    ensures Shaped(r) && |r.bits| == |s.bits|
    decreases |order|
  {
    if order == [] then s
    else KillS(KillAll(s, order[..|order| - 1]), order[|order| - 1].id)
  }

  /** Builds, one after another in the order the builders were queued. */
  function BuildAll<T>(s: State<T>, bs: seq<EntityBuilder<T>>): (r: State<T>)
    requires Shaped(s) && BuildersFit(bs, |s.bits|)
    ensures Shaped(r) && |r.bits| == |s.bits|
    decreases |bs|
  {
    if bs == [] then s
    else BuildS(BuildAll(s, bs[..|bs| - 1]), bs[|bs| - 1])
  }

  /** The pending additions of component `c`, drained in `order`: each one
      goes through the store's setter only if its entity is alive. */
  function AddAll<T>(s: State<T>, c: nat, order: seq<Entity>, m: map<Entity, T>): (r: State<T>)
    requires Shaped(s) && c < |s.bits|
    requires forall k :: 0 <= k < |order| ==> order[k] in m
    ensures Shaped(r) && |r.bits| == |s.bits| && r.alive == s.alive
    decreases |order|
  {
    if order == [] then s
    else
      var prev := AddAll(s, c, order[..|order| - 1], m);
      var e := order[|order| - 1];
      if e.id in prev.alive then AddS(prev, c, e.id, m[e]).value else prev
  }

  /** The pending removals of component `c`, drained in `order`, each only
      if its entity is alive. */
  function DelAll<T>(s: State<T>, c: nat, order: seq<Entity>, dflt: T): (r: State<T>)
    requires Shaped(s) && c < |s.bits|
    ensures Shaped(r) && |r.bits| == |s.bits| && r.alive == s.alive
    decreases |order|
  {
    if order == [] then s
    else
      var prev := DelAll(s, c, order[..|order| - 1], dflt);
      var e := order[|order| - 1];
      if e.id in prev.alive then DelS(prev, c, e.id, dflt).value.0 else prev
  }

  /** Drain orders for the first `|aos|` components, each addition order
      drawn from its map. */
  predicate EditsShaped<T>(aos: seq<seq<Entity>>, ams: seq<map<Entity, T>>, dos: seq<seq<Entity>>, n: nat) {
    |aos| == |ams| && |aos| == |dos| && |aos| <= n
    && forall c, k :: 0 <= c < |aos| && 0 <= k < |aos[c]| ==> aos[c][k] in ams[c]
  }

  /** Component by component: its additions, then its removals. */
  function EditAll<T>(s: State<T>, aos: seq<seq<Entity>>, ams: seq<map<Entity, T>>, dos: seq<seq<Entity>>, dflt: T): (r: State<T>)
    requires Shaped(s) && EditsShaped(aos, ams, dos, |s.bits|)
    ensures Shaped(r) && |r.bits| == |s.bits| && r.alive == s.alive
    decreases |aos|
  {
    if aos == [] then s
    else
      var c := |aos| - 1;
      var prev := EditAll(s, aos[..c], ams[..c], dos[..c], dflt);
      DelAll(AddAll(prev, c, aos[c], ams[c]), c, dos[c], dflt)
  }

  /** `build` (the flush): kills, then builds, then the component edits. */
  function FlushS<T>(s: State<T>, kills: seq<Entity>, bs: seq<EntityBuilder<T>>,
                     aos: seq<seq<Entity>>, ams: seq<map<Entity, T>>, dos: seq<seq<Entity>>, dflt: T): (r: State<T>)
    requires Shaped(s) && BuildersFit(bs, |s.bits|) && EditsShaped(aos, ams, dos, |s.bits|)
    ensures Shaped(r) && |r.bits| == |s.bits|
  {
    EditAll(BuildAll(KillAll(s, kills), bs), aos, ams, dos, dflt)
  }

  // ---------------------------------------------------------------------
  // Effect of each phase, for any drain order

  lemma {:induction false} KillAllEffect<T>(kinds: seq<StorageKind>, s: State<T>, order: seq<Entity>, dflt: T)
    requires Inv(kinds, s)
    ensures Inv(kinds, KillAll(s, order))
    ensures KillAll(s, order).alive == s.alive - Ids(order)
    ensures forall c, j: u32 :: 0 <= c < |kinds| ==>
      View(KillAll(s, order), c, j, dflt) == if j in Ids(order) then None else View(s, c, j, dflt)
    decreases |order|
  {
    if order != [] {
      var init := order[..|order| - 1];
      var e := order[|order| - 1];
      assert order == init + [e];
      assert Ids(order) == Ids(init) + {e.id};
      KillAllEffect(kinds, s, init, dflt);
      var p := KillAll(s, init);
      KillKeepsInv(kinds, p, e.id);
      forall c, j: u32 | 0 <= c < |kinds|
        ensures View(KillAll(s, order), c, j, dflt) == if j in Ids(order) then None else View(s, c, j, dflt)
      {
        KillView(kinds, p, e.id, c, j, dflt);
      }
    }
  }

  /** One more kill, of an entity not killed yet: it was alive exactly
      when it was alive at the start, and its id is queued exactly then. */
  lemma KillStep<T>(kinds: seq<StorageKind>, s: State<T>, kills: seq<Entity>, e: Entity, dflt: T)
    requires Inv(kinds, s) && e.id !in Ids(kills)
    ensures e.id in KillAll(s, kills).alive <==> e.id in s.alive
    ensures KillAll(s, kills + [e]) == KillS(KillAll(s, kills), e.id)
    ensures AliveIds(kills + [e], s.alive) == AliveIds(kills, s.alive) + (if e.id in s.alive then [e.id] else [])
  {
    KillAllEffect(kinds, s, kills, dflt);
    assert (kills + [e])[..|kills|] == kills;
  }

  lemma {:induction false} BuildAllEffect<T>(kinds: seq<StorageKind>, s: State<T>, bs: seq<EntityBuilder<T>>)
    requires Inv(kinds, s) && BuildersFit(bs, |kinds|)
    ensures Inv(kinds, BuildAll(s, bs))
    ensures BuildAll(s, bs).alive == s.alive + BuiltIds(bs)
    decreases |bs|
  {
    if bs != [] {
      var init := bs[..|bs| - 1];
      var b := bs[|bs| - 1];
      assert bs == init + [b];
      assert BuiltIds(bs) == BuiltIds(init) + {b.entity.id};
      BuildAllEffect(kinds, s, init);
      BuildKeepsInv(kinds, BuildAll(s, init), b);
    }
  }

  /** The additions of one component: an alive entity listed in the drain
      now shows its scheduled value; a dead one is skipped; no other
      component changes. */
  lemma {:induction false} AddAllEffect<T>(kinds: seq<StorageKind>, s: State<T>, c: nat, order: seq<Entity>, m: map<Entity, T>, dflt: T)
    requires Inv(kinds, s) && c < |kinds|
    requires forall k :: 0 <= k < |order| ==> order[k] in m
    ensures Inv(kinds, AddAll(s, c, order, m))
    ensures forall d :: 0 <= d < |kinds| && d != c ==>
      AddAll(s, c, order, m).bits[d] == s.bits[d] && AddAll(s, c, order, m).backends[d] == s.backends[d]
    ensures forall j: u32 ::
              View(AddAll(s, c, order, m), c, j, dflt)
              == if j in s.alive && Entity(j) in order then (if kinds[c].Null? then Some(dflt) else Some(m[Entity(j)]))
                 else View(s, c, j, dflt)
    decreases |order|
  {
    if order != [] {
      var init := order[..|order| - 1];
      var e := order[|order| - 1];
      assert order == init + [e];
      AddAllEffect(kinds, s, c, init, m, dflt);
      var p := AddAll(s, c, init, m);
      if e.id in p.alive {
        AddKeepsInv(kinds, p, c, e.id, m[e]);
        AddView(kinds, p, c, e.id, m[e], dflt);
      }
    }
  }

  /** The removals of one component: an entity listed in the drain no longer
      shows the component; no other component changes. */
  lemma {:induction false} DelAllEffect<T>(kinds: seq<StorageKind>, s: State<T>, c: nat, order: seq<Entity>, dflt: T)
    requires Inv(kinds, s) && c < |kinds|
    ensures Inv(kinds, DelAll(s, c, order, dflt))
    ensures forall d :: 0 <= d < |kinds| && d != c ==>
      DelAll(s, c, order, dflt).bits[d] == s.bits[d] && DelAll(s, c, order, dflt).backends[d] == s.backends[d]
    ensures forall j: u32 ::
              View(DelAll(s, c, order, dflt), c, j, dflt) == if Entity(j) in order then None else View(s, c, j, dflt)
    decreases |order|
  {
    if order != [] {
      var init := order[..|order| - 1];
      var e := order[|order| - 1];
      assert order == init + [e];
      DelAllEffect(kinds, s, c, init, dflt);
      var p := DelAll(s, c, init, dflt);
      if e.id in p.alive {
        DelKeepsInv(kinds, p, c, e.id, dflt);
        DelView(kinds, p, c, e.id, dflt);
      }
    }
  }

  /** The component edits: for each component, a listed removal hides it, a
      listed addition to an alive entity shows its value, and anything else
      is as before. Components are independent of one another. */
  lemma {:induction false} EditAllEffect<T>(kinds: seq<StorageKind>, s: State<T>, aos: seq<seq<Entity>>,
                                            ams: seq<map<Entity, T>>, dos: seq<seq<Entity>>, dflt: T)
    requires Inv(kinds, s) && EditsShaped(aos, ams, dos, |kinds|)
    ensures Inv(kinds, EditAll(s, aos, ams, dos, dflt))
    ensures forall c, j: u32 :: 0 <= c < |aos| ==>
      View(EditAll(s, aos, ams, dos, dflt), c, j, dflt) ==
        if Entity(j) in dos[c] then None
        else if j in s.alive && Entity(j) in aos[c] then (if kinds[c].Null? then Some(dflt) else Some(ams[c][Entity(j)]))
        else View(s, c, j, dflt)
    ensures forall c :: |aos| <= c < |kinds| ==>
      EditAll(s, aos, ams, dos, dflt).bits[c] == s.bits[c] && EditAll(s, aos, ams, dos, dflt).backends[c] == s.backends[c]
    decreases |aos|
  {
    if aos != [] {
      var c := |aos| - 1;
      EditAllEffect(kinds, s, aos[..c], ams[..c], dos[..c], dflt);
      var p := EditAll(s, aos[..c], ams[..c], dos[..c], dflt);
      AddAllEffect(kinds, p, c, aos[c], ams[c], dflt);
      var q := AddAll(p, c, aos[c], ams[c]);
      DelAllEffect(kinds, q, c, dos[c], dflt);
      var r := DelAll(q, c, dos[c], dflt);
      assert r == EditAll(s, aos, ams, dos, dflt);
      forall d, j: u32 | 0 <= d < c
        ensures View(r, d, j, dflt) == View(p, d, j, dflt)
      {
      }
      forall j: u32 ensures View(p, c, j, dflt) == View(s, c, j, dflt) {
      }
    }
  }

  /** Who is alive after a flush: the alive entities that were not deleted,
      and every entity created in the buffer, deleted or not. */
  lemma {:induction false} FlushAlive<T>(kinds: seq<StorageKind>, s: State<T>, kills: seq<Entity>, bs: seq<EntityBuilder<T>>,
                                         aos: seq<seq<Entity>>, ams: seq<map<Entity, T>>, dos: seq<seq<Entity>>, dflt: T)
    requires Inv(kinds, s) && BuildersFit(bs, |kinds|) && EditsShaped(aos, ams, dos, |kinds|)
    ensures Inv(kinds, FlushS(s, kills, bs, aos, ams, dos, dflt))
    ensures FlushS(s, kills, bs, aos, ams, dos, dflt).alive == (s.alive - Ids(kills)) + BuiltIds(bs)
  {
    KillAllEffect(kinds, s, kills, dflt);
    BuildAllEffect(kinds, KillAll(s, kills), bs);
    EditAllEffect(kinds, BuildAll(KillAll(s, kills), bs), aos, ams, dos, dflt);
  }

  /** A deleted entity that the buffer does not also create ends dead with
      nothing visible, whatever additions were scheduled for it. */
  lemma {:induction false} DeleteBeatsAdd<T>(kinds: seq<StorageKind>, s: State<T>, kills: seq<Entity>, bs: seq<EntityBuilder<T>>,
                                             aos: seq<seq<Entity>>, ams: seq<map<Entity, T>>, dos: seq<seq<Entity>>, dflt: T, e: Entity)
    requires Inv(kinds, s) && BuildersFit(bs, |kinds|) && EditsShaped(aos, ams, dos, |kinds|)
    requires e in kills && e.id !in BuiltIds(bs)
    ensures e.id !in FlushS(s, kills, bs, aos, ams, dos, dflt).alive
    ensures forall c :: 0 <= c < |kinds| ==> View(FlushS(s, kills, bs, aos, ams, dos, dflt), c, e.id, dflt).None?
  {
    FlushAlive(kinds, s, kills, bs, aos, ams, dos, dflt);
    assert e.id in Ids(kills);
  }

  /** An entity created in the buffer is alive after the flush even if the
      buffer also deletes it, and a removal scheduled for one of its
      components leaves it without that component. */
  lemma {:induction false} CreationSurvivesDeletes<T>(kinds: seq<StorageKind>, s: State<T>, kills: seq<Entity>, bs: seq<EntityBuilder<T>>,
                                                      aos: seq<seq<Entity>>, ams: seq<map<Entity, T>>, dos: seq<seq<Entity>>, dflt: T, e: Entity)
    requires Inv(kinds, s) && BuildersFit(bs, |kinds|) && EditsShaped(aos, ams, dos, |kinds|)
    requires e.id in BuiltIds(bs)
    ensures e.id in FlushS(s, kills, bs, aos, ams, dos, dflt).alive
    ensures forall c :: 0 <= c < |aos| && e in dos[c] ==> View(FlushS(s, kills, bs, aos, ams, dos, dflt), c, e.id, dflt).None?
  {
    FlushAlive(kinds, s, kills, bs, aos, ams, dos, dflt);
    KillAllEffect(kinds, s, kills, dflt);
    BuildAllEffect(kinds, KillAll(s, kills), bs);
    EditAllEffect(kinds, BuildAll(KillAll(s, kills), bs), aos, ams, dos, dflt);
  }

  /** A scheduled addition reaches the store exactly when its entity is
      alive once kills and creations are done and no removal of the same
      component is scheduled for it; otherwise it is dropped. */
  lemma {:induction false} AddReachesAliveOnly<T>(kinds: seq<StorageKind>, s: State<T>, kills: seq<Entity>, bs: seq<EntityBuilder<T>>,
                                                  aos: seq<seq<Entity>>, ams: seq<map<Entity, T>>, dos: seq<seq<Entity>>, dflt: T,
                                                  c: nat, e: Entity)
    requires Inv(kinds, s) && BuildersFit(bs, |kinds|) && EditsShaped(aos, ams, dos, |kinds|)
    requires c < |aos| && e in aos[c] && e !in dos[c] && !kinds[c].Null?
    ensures View(FlushS(s, kills, bs, aos, ams, dos, dflt), c, e.id, dflt) ==
      if e.id in (s.alive - Ids(kills)) + BuiltIds(bs) then Some(ams[c][e]) else None
  {
    KillAllEffect(kinds, s, kills, dflt);
    BuildAllEffect(kinds, KillAll(s, kills), bs);
    var t := BuildAll(KillAll(s, kills), bs);
    EditAllEffect(kinds, t, aos, ams, dos, dflt);
    assert Entity(e.id) == e;
  }

  // ---------------------------------------------------------------------
  // The buffer object

  /** The closure given to `entity` runs its setter calls on the lent
      builder, one after another. */
  method RunClosure<T>(cell: BuilderCell<T>, edits: seq<Edit<T>>)
    requires EditsFit(edits, |cell.slots|)
    modifies cell
    ensures cell.Value() == Apply(old(cell.Value()), edits)
  {
    ghost var b0 := cell.Value();
    var k := 0;
    while k < |edits|
      invariant 0 <= k <= |edits| && |cell.slots| == |b0.slots| && cell.entity == b0.entity
      invariant EditsFit(edits[..k], |b0.slots|)
      invariant cell.Value() == Apply(b0, edits[..k])
    {
      assert edits[..k + 1][..k] == edits[..k];
      match edits[k] {
        case Add(c, v) => cell.Add(c, v);
        case Del(c) => cell.Del(c);
      }
      k := k + 1;
    }
    assert edits[..k] == edits;
  }

  /** The pending commands of a buffer, as a value. */
  datatype Pending<T> = Pending(newEntities: seq<EntityBuilder<T>>, deleted: set<Entity>,
                                adds: seq<map<Entity, T>>, dels: seq<set<Entity>>)

  function PendingOf<T>(b: CommandBuffer<T>): Pending<T>
    reads b
  {
    Pending(b.newEntities, b.deleted, b.adds, b.dels)
  }

  class CommandBuffer<T> {
    const n: nat
    const alloc: Allocator
    var newEntities: seq<EntityBuilder<T>>
    var deleted: set<Entity>
    var adds: seq<map<Entity, T>>
    var dels: seq<set<Entity>>

    ghost predicate Valid()
      reads this
    {
      |adds| == n && |dels| == n && BuildersFit(newEntities, n)
    }

    /** `new(store)`: shares the store's counter and free-id channel; every
        pending collection is empty. */
    constructor (store: ComponentStore<T>)
      ensures Valid() && n == |store.kinds| && alloc == store.alloc
      ensures newEntities == [] && deleted == {}
      ensures adds == seq(n, _ => map[]) && dels == seq(n, _ => {})
    {
      n := |store.kinds|;
      alloc := store.alloc;
      newEntities := [];
      deleted := {};
      adds := seq(|store.kinds|, _ => map[]);
      dels := seq(|store.kinds|, _ => {});
    }

    /** `entity(fun)`: reserves an id from the shared allocator (freed ids
        first), lends a fresh builder for it to the closure, queues the
        filled builder and returns the id. */
    method NewEntity(fill: Entity -> seq<Edit<T>>) returns (e: Entity)
      requires Valid() && forall x :: EditsFit(fill(x), n)
      modifies this, alloc
      ensures Valid()
      ensures Reservation(e, alloc.max, alloc.freed) == ReserveS(old(alloc.max), old(alloc.freed))
      ensures newEntities == old(newEntities) + [Apply(NewBuilder(e, n), fill(e))]
      ensures deleted == old(deleted) && adds == old(adds) && dels == old(dels)
    {
      e := alloc.Reserve();
      var cell := new BuilderCell(e, n);
      RunClosure(cell, fill(e));
      newEntities := newEntities + [cell.Value()];
    }

    /** `delete`: schedules a kill; a set insertion. */
    method Delete(e: Entity)
      modifies this
      ensures deleted == old(deleted) + {e}
      ensures newEntities == old(newEntities) && adds == old(adds) && dels == old(dels)
    {
      deleted := deleted + {e};
    }

    /** The scheduling setter `<component>(entity, value)`: a map insertion,
        so a later value for the same entity replaces an earlier one. */
    method Set(c: nat, e: Entity, v: T)
      requires Valid() && c < n
      modifies this
      ensures Valid()
      ensures adds == old(adds)[c := old(adds)[c][e := v]]
      ensures newEntities == old(newEntities) && deleted == old(deleted) && dels == old(dels)
    {
      adds := adds[c := adds[c][e := v]];
    }

    /** `del_<component>(entity)`: schedules a removal; a set insertion. */
    method Unset(c: nat, e: Entity)
      requires Valid() && c < n
      modifies this
      ensures Valid()
      ensures dels == old(dels)[c := old(dels)[c] + {e}]
      ensures newEntities == old(newEntities) && deleted == old(deleted) && adds == old(adds)
    {
      dels := dels[c := dels[c] + {e}];
    }

    /** The component edits of `build`: component by component, its
        pending additions and then its pending removals. */
    method EditPending(store: ComponentStore<T>) returns (ghost addOrders: seq<seq<Entity>>, ghost delOrders: seq<seq<Entity>>)
      requires Valid() && store.Valid() && |store.kinds| == n
      modifies store
      ensures store.Valid()
      ensures |addOrders| == n && |delOrders| == n
      ensures forall c :: 0 <= c < n ==> Enumerates(addOrders[c], adds[c].Keys) && Enumerates(delOrders[c], dels[c])
      ensures EditsShaped(addOrders, adds, delOrders, n)
      ensures store.Snapshot() == EditAll(old(store.Snapshot()), addOrders, adds, delOrders, store.dflt)
    {
      ghost var s2 := store.Snapshot();
      addOrders := [];
      delOrders := [];
      var c := 0;
      while c < n
        invariant 0 <= c <= n && |addOrders| == c && |delOrders| == c
        invariant store.Valid()
        invariant forall d :: 0 <= d < c ==> Enumerates(addOrders[d], adds[d].Keys) && Enumerates(delOrders[d], dels[d])
        invariant EditsShaped(addOrders, adds[..c], delOrders, n)
        invariant store.Snapshot() == EditAll(s2, addOrders, adds[..c], delOrders, store.dflt)
      {
        var ao := AddPending(store, c);
        var dor := DelPending(store, c);
        assert (addOrders + [ao])[..c] == addOrders;
        assert (delOrders + [dor])[..c] == delOrders;
        assert adds[..c + 1][..c] == adds[..c];
        addOrders := addOrders + [ao];
        delOrders := delOrders + [dor];
        c := c + 1;
      }
      assert adds[..c] == adds;
    }

    /** The first phase of `build`: every scheduled kill, in drain order. */
    method KillPending(store: ComponentStore<T>) returns (ghost kills: seq<Entity>)
      requires store.Valid() && store.alloc == alloc
      modifies store, alloc
      ensures store.Valid()
      ensures Enumerates(kills, deleted)
      ensures store.Snapshot() == KillAll(old(store.Snapshot()), kills)
      ensures alloc.max == old(alloc.max) && alloc.freed == old(alloc.freed) + AliveIds(kills, old(store.alive))
    {
      ghost var s0 := store.Snapshot();
      var pending := deleted;
      kills := [];
      while pending != {}
        invariant store.Valid()
        invariant pending <= deleted
        invariant forall x :: x in kills <==> x in deleted && x !in pending
        invariant Distinct(kills)
        invariant store.Snapshot() == KillAll(s0, kills)
        invariant alloc.max == old(alloc.max) && alloc.freed == old(alloc.freed) + AliveIds(kills, s0.alive)
        decreases |pending|
      {
        var e :| e in pending;
        assert e.id !in Ids(kills);
        KillStep(store.kinds, s0, kills, e, store.dflt);
        var wasAlive := store.Kill(e);
        kills := kills + [e];
        pending := pending - {e};
      }
    }

    /** The second phase: every queued builder, in queue order. */
    method BuildPending(store: ComponentStore<T>)
      requires Valid() && store.Valid() && |store.kinds| == n
      modifies store
      ensures store.Valid()
      ensures store.Snapshot() == BuildAll(old(store.Snapshot()), newEntities)
    {
      ghost var s1 := store.Snapshot();
      var k := 0;
      while k < |newEntities|
        invariant 0 <= k <= |newEntities|
        invariant store.Valid()
        invariant store.Snapshot() == BuildAll(s1, newEntities[..k])
      {
        assert newEntities[..k + 1][..k] == newEntities[..k];
        store.Build(newEntities[k]);
        k := k + 1;
      }
      assert newEntities[..k] == newEntities;
    }

    /** The additions of component `c`, each only for an alive entity. */
    method AddPending(store: ComponentStore<T>, c: nat) returns (ghost order: seq<Entity>)
      requires Valid() && store.Valid() && |store.kinds| == n && c < n
      modifies store
      ensures store.Valid()
      ensures Enumerates(order, adds[c].Keys)
      ensures forall k :: 0 <= k < |order| ==> order[k] in adds[c]
      ensures store.Snapshot() == AddAll(old(store.Snapshot()), c, order, adds[c])
    {
      ghost var sc := store.Snapshot();
      var m := adds[c];
      var keys := m.Keys;
      order := [];
      while keys != {}
        invariant store.Valid()
        invariant keys <= m.Keys
        invariant forall x :: x in order <==> x in m.Keys && x !in keys
        invariant Distinct(order)
        invariant store.Snapshot() == AddAll(sc, c, order, m)
        decreases |keys|
      {
        var e :| e in keys;
        assert (order + [e])[..|order|] == order;
        if store.Alive(e) {
          var _ := store.Add(c, e, m[e]);
        }
        order := order + [e];
        keys := keys - {e};
      }
    }

    /** The removals of component `c`, each only for an alive entity. */
    method DelPending(store: ComponentStore<T>, c: nat) returns (ghost order: seq<Entity>)
      requires Valid() && store.Valid() && |store.kinds| == n && c < n
      modifies store
      ensures store.Valid()
      ensures Enumerates(order, dels[c])
      ensures store.Snapshot() == DelAll(old(store.Snapshot()), c, order, store.dflt)
    {
      ghost var sa := store.Snapshot();
      var gone := dels[c];
      order := [];
      while gone != {}
        invariant store.Valid()
        invariant gone <= dels[c]
        invariant forall x :: x in order <==> x in dels[c] && x !in gone
        invariant Distinct(order)
        invariant store.Snapshot() == DelAll(sa, c, order, store.dflt)
        decreases |gone|
      {
        var e :| e in gone;
        assert (order + [e])[..|order|] == order;
        if store.Alive(e) {
          var _ := store.Del(c, e);
        }
        order := order + [e];
        gone := gone - {e};
      }
    }

    /** `build(store)`: drains the buffer into the store. The drain orders of
        the hash sets and maps are returned as ghost results. */
    method Flush(store: ComponentStore<T>)
      returns (ghost kills: seq<Entity>, ghost addOrders: seq<seq<Entity>>, ghost delOrders: seq<seq<Entity>>)
      requires Valid() && store.Valid() && store.alloc == alloc && |store.kinds| == n
      modifies this, store, alloc
      ensures Valid() && store.Valid()
      ensures Enumerates(kills, old(deleted))
      ensures |addOrders| == n && |delOrders| == n
      ensures forall c :: 0 <= c < n ==> Enumerates(addOrders[c], old(adds)[c].Keys) && Enumerates(delOrders[c], old(dels)[c])
      ensures EditsShaped(addOrders, old(adds), delOrders, n)
      ensures store.Snapshot() == FlushS(old(store.Snapshot()), kills, old(newEntities), addOrders, old(adds), delOrders, store.dflt)
      ensures alloc.max == old(alloc.max) && alloc.freed == old(alloc.freed) + AliveIds(kills, old(store.alive))
      ensures newEntities == [] && deleted == {}
      ensures adds == seq(n, _ => map[]) && dels == seq(n, _ => {})
    {
      kills := KillPending(store);
      BuildPending(store);
      addOrders, delOrders := EditPending(store);
      deleted := {};
      newEntities := [];
      adds := seq(n, _ => map[]);
      dels := seq(n, _ => {});
    }
  }

  /** Scheduling an addition twice for the same entity keeps the last value;
      scheduling a deletion or a removal twice is scheduling it once. */
  lemma ScheduleTwice<T>(m: map<Entity, T>, s: set<Entity>, e: Entity, v: T, w: T)
    ensures m[e := v][e := w] == m[e := w]
    ensures s + {e} + {e} == s + {e}
  {
  }

  // ---------------------------------------------------------------------
  // Flushing an empty buffer

  /** A drain order lists as many entities as the collection holds. */
  lemma {:induction false} EnumerationCounts(xs: seq<Entity>, s: set<Entity>)
    requires Enumerates(xs, s)
    ensures |xs| == |s|
    decreases |xs|
  {
    if xs == [] {
      assert s == {};
    } else {
      var rest := xs[1..];
      forall i, j | 0 <= i < j < |rest| ensures rest[i] != rest[j] {
        assert rest[i] == xs[i + 1] && rest[j] == xs[j + 1];
      }
      forall x ensures x in s - {xs[0]} <==> x in rest {
        if x in rest {
          var k :| 0 <= k < |rest| && rest[k] == x;
          assert xs[k + 1] == x && xs[0] != xs[k + 1];
        }
        if x in xs && x != xs[0] {
          var k :| 0 <= k < |xs| && xs[k] == x;
          assert rest[k - 1] == x;
        }
      }
      EnumerationCounts(rest, s - {xs[0]});
      assert xs[0] in s;
    }
  }

  /** An empty collection has only the empty drain order. */
  lemma NothingToEnumerate(xs: seq<Entity>)
    requires Enumerates(xs, {})
    ensures xs == []
  {
    EnumerationCounts(xs, {});
  }

  lemma {:induction false} EditAllOfNothing<T>(s: State<T>, aos: seq<seq<Entity>>, ams: seq<map<Entity, T>>, dos: seq<seq<Entity>>, dflt: T)
    requires Shaped(s) && EditsShaped(aos, ams, dos, |s.bits|)
    requires forall c :: 0 <= c < |aos| ==> aos[c] == [] && dos[c] == []
    ensures EditAll(s, aos, ams, dos, dflt) == s
    decreases |aos|
  {
    if aos != [] {
      var c := |aos| - 1;
      EditAllOfNothing(s, aos[..c], ams[..c], dos[..c], dflt);
    }
  }

  /** Flushing a buffer with nothing pending leaves the store as it is and
      frees no id. */
  lemma {:induction false} FlushOfNothing<T>(s: State<T>, kills: seq<Entity>, aos: seq<seq<Entity>>,
                                             ams: seq<map<Entity, T>>, dos: seq<seq<Entity>>, dflt: T)
    requires Shaped(s) && EditsShaped(aos, ams, dos, |s.bits|) && |aos| == |s.bits|
    requires Enumerates(kills, {})
    requires forall c :: 0 <= c < |aos| ==> ams[c] == map[] && Enumerates(aos[c], ams[c].Keys) && Enumerates(dos[c], {})
    ensures FlushS(s, kills, [], aos, ams, dos, dflt) == s
    ensures AliveIds(kills, s.alive) == []
  {
    NothingToEnumerate(kills);
    forall c | 0 <= c < |aos| ensures aos[c] == [] && dos[c] == [] {
      assert ams[c].Keys == {};
      NothingToEnumerate(aos[c]);
      NothingToEnumerate(dos[c]);
    }
    EditAllOfNothing(s, aos, ams, dos, dflt);
  }
}
