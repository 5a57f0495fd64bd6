/** The generated entity builder: the target entity and one optional payload
    slot per component. The builder is exclusively owned, so its `&mut self`
    setters are modelled as functions returning the updated builder. */
module Builders {
  import opened Wrappers
  import opened Entities

  datatype EntityBuilder<T> = EntityBuilder(entity: Entity, slots: seq<Option<T>>) {

    /** The fluent setter `<component>(self, value)` and `add_<component>`:
        slot `c` holds `value`, every other slot and the entity stay. */
    function With(c: nat, value: T): (r: EntityBuilder<T>)
      requires c < |slots|
      ensures r.entity == entity && |r.slots| == |slots|
      ensures r.slots[c] == Some(value)
      ensures forall j :: 0 <= j < |slots| && j != c ==> r.slots[j] == slots[j]
    {
      EntityBuilder(entity, slots[c := Some(value)])
    }

    /** `del_<component>`: slot `c` is emptied, every other slot and the
        entity stay. */
    function Without(c: nat): (r: EntityBuilder<T>)
      requires c < |slots|
      ensures r.entity == entity && |r.slots| == |slots|
      ensures r.slots[c] == None
      ensures forall j :: 0 <= j < |slots| && j != c ==> r.slots[j] == slots[j]
    {
      EntityBuilder(entity, slots[c := None])
    }
  }

  /** `new(entity)`: the given entity and every slot empty. */
  function NewBuilder<T>(e: Entity, n: nat): (b: EntityBuilder<T>)
    ensures b.entity == e && |b.slots| == n
    ensures forall c :: 0 <= c < n ==> b.slots[c].None?
  {
    EntityBuilder(e, seq(n, _ => None))
  }

  /** One setter call made on a builder through `&mut`. */
  datatype Edit<T> = Add(component: nat, value: T) | Del(component: nat)

  predicate EditsFit<T>(edits: seq<Edit<T>>, n: nat) {
    forall k :: 0 <= k < |edits| ==> edits[k].component < n
  }

  /** A closure's effect on the builder it is lent: its setter calls, in order. */
  function Apply<T>(b: EntityBuilder<T>, edits: seq<Edit<T>>): (r: EntityBuilder<T>)
    requires EditsFit(edits, |b.slots|)
    ensures r.entity == b.entity && |r.slots| == |b.slots|
    decreases |edits|
  {
    if edits == [] then b
    else
      var last := edits[|edits| - 1];
      var before := Apply(b, edits[..|edits| - 1]);
      match last
      case Add(c, v) => before.With(c, v)
      case Del(c) => before.Without(c)
  }

  /** The slot a sequence of edits leaves for component `c`: that of its last
      edit to `c`, or the original one when it never touches `c`. */
  function LastFor<T>(edits: seq<Edit<T>>, c: nat, original: Option<T>): Option<T>
    decreases |edits|
  {
    if edits == [] then original
    else
      var last := edits[|edits| - 1];
      if last.component != c then LastFor(edits[..|edits| - 1], c, original)
      else if last.Add? then Some(last.value) else None
  }

  /** Setting a slot twice keeps the last value. */
  lemma LastWriteWins<T>(b: EntityBuilder<T>, c: nat, v: T, w: T)
    requires c < |b.slots|
    ensures b.With(c, v).With(c, w) == b.With(c, w)
    ensures b.With(c, v).Without(c) == b.Without(c)
  {
  }

  /** Setters on different components commute. */
  lemma SettersCommute<T>(b: EntityBuilder<T>, c: nat, d: nat, v: T, w: T)
    requires c < |b.slots| && d < |b.slots| && c != d
    ensures b.With(c, v).With(d, w) == b.With(d, w).With(c, v)
  {
  }

  /** Whatever edits a closure makes, each slot ends up as the last edit to
      that slot says, and the entity never changes. */
  lemma {:induction false} ApplyLastEdit<T>(b: EntityBuilder<T>, edits: seq<Edit<T>>, c: nat)
    requires EditsFit(edits, |b.slots|) && c < |b.slots|
    ensures Apply(b, edits).slots[c] == LastFor(edits, c, b.slots[c])
    decreases |edits|
  {
    if edits != [] {
      var init := edits[..|edits| - 1];
      assert EditsFit(init, |b.slots|);
      ApplyLastEdit(b, init, c);
    }
  }

  /** The builder while it is lent to a closure through `&mut`: `add_*` and
      `del_*` update its slots in place. */
  class BuilderCell<T> {
    const entity: Entity
    var slots: seq<Option<T>>

    function Value(): EntityBuilder<T>
      reads this
    {
      EntityBuilder(entity, slots)
    }

    /** `new(entity)`. */
    constructor (e: Entity, n: nat)
      ensures Value() == NewBuilder(e, n)
    {
      entity := e;
      slots := seq(n, _ => None);
    }

    /** `add_<component>(&mut self, value)`. */
    method Add(c: nat, v: T)
      requires c < |slots|
      modifies this
      ensures Value() == old(Value()).With(c, v)
    {
      slots := slots[c := Some(v)];
    }

    /** `del_<component>(&mut self)`. */
    method Del(c: nat)
      requires c < |slots|
      modifies this
      ensures Value() == old(Value()).Without(c)
    {
      slots := slots[c := None];
    }
  }
}
