/** The store generated for the example application: entities numbered by
    a plain counter, three Vec-backed components (position, velocity,
    acceleration) each with its bitset, a Null component `enabled` that is
    only a bitset, and one for-each system over enabled, velocity and
    position. */
module Example {
  import opened Wrappers
  import opened Entities

  /** The payload of the Null component `enabled`: its default value. */
  datatype Enabled = Enabled

  /** A Vec storage agrees with its bitset: an index is in the bitset
      exactly when the Vec holds a payload there. */
  ghost predicate Coherent<X>(slots: seq<Option<X>>, bits: set<u32>) {
    forall i: u32 :: i in bits <==> i < |slots| && slots[i].Some?
  }

  /** Emptying a slot and clearing its bit keeps a Vec and its bitset in
      agreement. */
  lemma CoherentClear<X>(slots: seq<Option<X>>, bits: set<u32>, i: u32)
    requires Coherent(slots, bits) && i < |slots|
    ensures Coherent(slots[i := None], bits - {i})
  {
  }

  /** So do filling a slot and setting its bit. */
  lemma CoherentFill<X>(slots: seq<Option<X>>, bits: set<u32>, i: u32, v: X)
    requires Coherent(slots, bits) && i < |slots|
    ensures Coherent(slots[i := Some(v)], bits + {i})
  {
  }

  /** And so does appending an empty slot. */
  lemma CoherentGrow<X>(slots: seq<Option<X>>, bits: set<u32>)
    requires Coherent(slots, bits)
    ensures Coherent(slots + [None], bits)
  {
  }

  /** The indices the system visits: alive, enabled, with a velocity and a
      position. */
  function PhysicsMask(alive: set<u32>, enabled: set<u32>, velocity: set<u32>, position: set<u32>): (m: set<u32>)
    ensures forall i :: i in m <==> i in alive && i in enabled && i in velocity && i in position
  {
    (enabled * (velocity * position)) * alive
  }

  /** The positions after the system ran: at each visited index, the
      system's new position from the old one, the velocity and `enabled`;
      everywhere else the old position. */
  function Moved<P, V>(position: seq<Option<P>>, velocity: seq<Option<V>>, mask: set<u32>,
                       f: (P, V, Enabled) -> P): (r: seq<Option<P>>)
    requires |velocity| == |position|
    ensures |r| == |position|
  {
    seq(|position|, k requires 0 <= k < |position| =>
      if k < U32_LIMIT && k as u32 in mask && position[k].Some? && velocity[k].Some?
      then Some(f(position[k].value, velocity[k].value, Enabled))
      else position[k])
  }

  class MyEcs<P, V, A> {
    var index: nat
    var alive: set<u32>
    var position: seq<Option<P>>
    var velocity: seq<Option<V>>
    var acceleration: seq<Option<A>>
    var positionBits: set<u32>
    var velocityBits: set<u32>
    var accelerationBits: set<u32>
    var enabledBits: set<u32>

    /** Every Vec has one slot per id handed out, every alive id was handed
        out, each Vec agrees with its bitset, and only alive entities hold
        components. */
    ghost predicate Valid()
      reads this
    {
      |position| == index && |velocity| == index && |acceleration| == index
      && (forall i :: i in alive ==> i < index)
      && Coherent(position, positionBits) && Coherent(velocity, velocityBits)
      && Coherent(acceleration, accelerationBits)
      && positionBits <= alive && velocityBits <= alive && accelerationBits <= alive
      && enabledBits <= alive
    }

    /** The builder's `build` and `with_capacity` (the capacity only
        reserves memory): nothing handed out, every set and Vec empty. */
    constructor ()
      ensures Valid()
      ensures index == 0 && alive == {} && position == [] && velocity == [] && acceleration == []
      ensures positionBits == {} && velocityBits == {} && accelerationBits == {} && enabledBits == {}
    {
      index := 0;
      alive := {};
      position, velocity, acceleration := [], [], [];
      positionBits, velocityBits, accelerationBits, enabledBits := {}, {}, {}, {};
    }

    /** `push`: the entity of the counter (truncated to 32 bits), now
        alive; the counter goes up and every Vec grows by an empty slot. */
    method Push() returns (e: Entity)
      requires Valid()
      modifies this
      ensures Valid()
      ensures e == Entity(old(index) % U32_LIMIT)
      ensures index == old(index) + 1 && alive == old(alive) + {e.id}
      ensures position == old(position) + [None] && velocity == old(velocity) + [None]
      ensures acceleration == old(acceleration) + [None]
      ensures positionBits == old(positionBits) && velocityBits == old(velocityBits)
      ensures accelerationBits == old(accelerationBits) && enabledBits == old(enabledBits)
    {
      e := Entity(index % U32_LIMIT);
      CoherentGrow(position, positionBits);
      CoherentGrow(velocity, velocityBits);
      CoherentGrow(acceleration, accelerationBits);
      alive := alive + {e.id};
      index := index + 1;
      position := position + [None];
      velocity := velocity + [None];
      acceleration := acceleration + [None];
    }

    /** `delete`: true exactly when the entity was alive; it is then dead,
        out of every bitset, and its slot in every Vec is emptied.
        Otherwise nothing changes. */
    method Delete(e: Entity) returns (wasAlive: bool)
      requires Valid()
      modifies this
      ensures Valid()
      ensures wasAlive <==> e.id in old(alive)
      ensures index == old(index)
      ensures !wasAlive ==> (alive == old(alive) && position == old(position) && velocity == old(velocity)
        && acceleration == old(acceleration) && positionBits == old(positionBits)
        && velocityBits == old(velocityBits) && accelerationBits == old(accelerationBits)
        && enabledBits == old(enabledBits))
      ensures wasAlive ==> (alive == old(alive) - {e.id}
        && position == old(position)[e.id := None] && velocity == old(velocity)[e.id := None]
        && acceleration == old(acceleration)[e.id := None]
        && positionBits == old(positionBits) - {e.id} && velocityBits == old(velocityBits) - {e.id}
        && accelerationBits == old(accelerationBits) - {e.id} && enabledBits == old(enabledBits) - {e.id})
    {
      wasAlive := e.id in alive;
      if wasAlive {
        CoherentClear(position, positionBits, e.id);
        CoherentClear(velocity, velocityBits, e.id);
        CoherentClear(acceleration, accelerationBits, e.id);
        alive := alive - {e.id};
        positionBits := positionBits - {e.id};
        position := position[e.id := None];
        velocityBits := velocityBits - {e.id};
        velocity := velocity[e.id := None];
        accelerationBits := accelerationBits - {e.id};
        acceleration := acceleration[e.id := None];
        enabledBits := enabledBits - {e.id};
      }
    }

    /** The two assertions every setter and remover starts with: the id
        was handed out, and the entity is alive. */
    function Check(e: Entity): (r: Result<(), Fault>)
      reads this
      ensures r.Ok? <==> e.id < index && e.id in alive
      ensures r.Err? && e.id >= index ==> r.error == IdOutOfRange
      ensures r.Err? && e.id < index ==> r.error == NotAlive
    {
      if e.id >= index then Err(IdOutOfRange)
      else if e.id !in alive then Err(NotAlive)
      else Ok(())
    }

    /** `comp_position`: the bit is set and the slot holds the value;
        nothing else changes. */
    method CompPosition(e: Entity, v: P) returns (r: Result<(), Fault>)
      requires Valid()
      modifies this
      ensures Valid()
      ensures r == old(Check(e))
      ensures r.Err? ==> position == old(position) && positionBits == old(positionBits)
      ensures r.Ok? ==> position == old(position)[e.id := Some(v)] && positionBits == old(positionBits) + {e.id}
      ensures index == old(index) && alive == old(alive)
      ensures velocity == old(velocity) && acceleration == old(acceleration)
      ensures velocityBits == old(velocityBits) && accelerationBits == old(accelerationBits) && enabledBits == old(enabledBits)
    {
      r := Check(e);
      if r.Ok? {
        CoherentFill(position, positionBits, e.id, v);
        positionBits := positionBits + {e.id};
        position := position[e.id := Some(v)];
      }
    }

    /** `remove_comp_position`: the bit is cleared and the slot taken; the
        taken payload is returned. */
    method RemoveCompPosition(e: Entity) returns (r: Result<Option<P>, Fault>)
      requires Valid()
      modifies this
      ensures Valid()
      ensures r.Err? <==> old(Check(e)).Err?
      ensures r.Err? ==> r.error == old(Check(e)).error && position == old(position) && positionBits == old(positionBits)
      ensures r.Ok? ==> r.value == old(position)[e.id] && (r.value.Some? <==> e.id in old(positionBits))
      ensures r.Ok? ==> position == old(position)[e.id := None] && positionBits == old(positionBits) - {e.id}
      ensures index == old(index) && alive == old(alive)
      ensures velocity == old(velocity) && acceleration == old(acceleration)
      ensures velocityBits == old(velocityBits) && accelerationBits == old(accelerationBits) && enabledBits == old(enabledBits)
    {
      var c := Check(e);
      if c.Err? {
        return Err(c.error);
      }
      CoherentClear(position, positionBits, e.id);
      positionBits := positionBits - {e.id};
      r := Ok(position[e.id]);
      position := position[e.id := None];
    }

    /** `comp_velocity`. */
    method CompVelocity(e: Entity, v: V) returns (r: Result<(), Fault>)
      requires Valid()
      modifies this
      ensures Valid()
      ensures r == old(Check(e))
      ensures r.Err? ==> velocity == old(velocity) && velocityBits == old(velocityBits)
      ensures r.Ok? ==> velocity == old(velocity)[e.id := Some(v)] && velocityBits == old(velocityBits) + {e.id}
      ensures index == old(index) && alive == old(alive)
      ensures position == old(position) && acceleration == old(acceleration)
      ensures positionBits == old(positionBits) && accelerationBits == old(accelerationBits) && enabledBits == old(enabledBits)
    {
      r := Check(e);
      if r.Ok? {
        CoherentFill(velocity, velocityBits, e.id, v);
        velocityBits := velocityBits + {e.id};
        velocity := velocity[e.id := Some(v)];
      }
    }

    /** `remove_comp_velocity`. */
    method RemoveCompVelocity(e: Entity) returns (r: Result<Option<V>, Fault>)
      requires Valid()
      modifies this
      ensures Valid()
      ensures r.Err? <==> old(Check(e)).Err?
      ensures r.Err? ==> r.error == old(Check(e)).error && velocity == old(velocity) && velocityBits == old(velocityBits)
      ensures r.Ok? ==> r.value == old(velocity)[e.id] && (r.value.Some? <==> e.id in old(velocityBits))
      ensures r.Ok? ==> velocity == old(velocity)[e.id := None] && velocityBits == old(velocityBits) - {e.id}
      ensures index == old(index) && alive == old(alive)
      ensures position == old(position) && acceleration == old(acceleration)
      ensures positionBits == old(positionBits) && accelerationBits == old(accelerationBits) && enabledBits == old(enabledBits)
    {
      var c := Check(e);
      if c.Err? {
        return Err(c.error);
      }
      CoherentClear(velocity, velocityBits, e.id);
      velocityBits := velocityBits - {e.id};
      r := Ok(velocity[e.id]);
      velocity := velocity[e.id := None];
    }

    /** `comp_acceleration`. */
    method CompAcceleration(e: Entity, v: A) returns (r: Result<(), Fault>)
      requires Valid()
      modifies this
      ensures Valid()
      ensures r == old(Check(e))
      ensures r.Err? ==> acceleration == old(acceleration) && accelerationBits == old(accelerationBits)
      ensures r.Ok? ==> acceleration == old(acceleration)[e.id := Some(v)] && accelerationBits == old(accelerationBits) + {e.id}
      ensures index == old(index) && alive == old(alive)
      ensures position == old(position) && velocity == old(velocity)
      ensures positionBits == old(positionBits) && velocityBits == old(velocityBits) && enabledBits == old(enabledBits)
    {
      r := Check(e);
      if r.Ok? {
        CoherentFill(acceleration, accelerationBits, e.id, v);
        accelerationBits := accelerationBits + {e.id};
        acceleration := acceleration[e.id := Some(v)];
      }
    }

    /** `remove_comp_acceleration`. */
    method RemoveCompAcceleration(e: Entity) returns (r: Result<Option<A>, Fault>)
      requires Valid()
      modifies this
      ensures Valid()
      ensures r.Err? <==> old(Check(e)).Err?
      ensures r.Err? ==> r.error == old(Check(e)).error && acceleration == old(acceleration) && accelerationBits == old(accelerationBits)
      ensures r.Ok? ==> r.value == old(acceleration)[e.id] && (r.value.Some? <==> e.id in old(accelerationBits))
      ensures r.Ok? ==> acceleration == old(acceleration)[e.id := None] && accelerationBits == old(accelerationBits) - {e.id}
      ensures index == old(index) && alive == old(alive)
      ensures position == old(position) && velocity == old(velocity)
      ensures positionBits == old(positionBits) && velocityBits == old(velocityBits) && enabledBits == old(enabledBits)
    {
      var c := Check(e);
      if c.Err? {
        return Err(c.error);
      }
      CoherentClear(acceleration, accelerationBits, e.id);
      accelerationBits := accelerationBits - {e.id};
      r := Ok(acceleration[e.id]);
      acceleration := acceleration[e.id := None];
    }

    /** `comp_enabled`: only the bit is set; a Null component stores
        nothing. */
    method CompEnabled(e: Entity, v: Enabled) returns (r: Result<(), Fault>)
      requires Valid()
      modifies this
      ensures Valid()
      ensures r == old(Check(e))
      ensures enabledBits == if r.Ok? then old(enabledBits) + {e.id} else old(enabledBits)
      ensures index == old(index) && alive == old(alive)
      ensures position == old(position) && velocity == old(velocity) && acceleration == old(acceleration)
      ensures positionBits == old(positionBits) && velocityBits == old(velocityBits) && accelerationBits == old(accelerationBits)
    {
      r := Check(e);
      if r.Ok? {
        enabledBits := enabledBits + {e.id};
      }
    }

    /** `remove_comp_enabled`: the bit is cleared; the default value comes
        back exactly when the bit was set. */
    method RemoveCompEnabled(e: Entity) returns (r: Result<Option<Enabled>, Fault>)
      requires Valid()
      modifies this
      ensures Valid()
      ensures r.Err? <==> old(Check(e)).Err?
      ensures r.Err? ==> r.error == old(Check(e)).error && enabledBits == old(enabledBits)
      ensures r.Ok? ==> (r.value == Some(Enabled) <==> e.id in old(enabledBits)) && (r.value.None? <==> e.id !in old(enabledBits))
      ensures r.Ok? ==> enabledBits == old(enabledBits) - {e.id}
      ensures index == old(index) && alive == old(alive)
      ensures position == old(position) && velocity == old(velocity) && acceleration == old(acceleration)
      ensures positionBits == old(positionBits) && velocityBits == old(velocityBits) && accelerationBits == old(accelerationBits)
    {
      var c := Check(e);
      if c.Err? {
        return Err(c.error);
      }
      var present := e.id in enabledBits;
      enabledBits := enabledBits - {e.id};
      r := Ok(if present then Some(Enabled) else None);
    }

    /** `run`: the physics system at every index of enabled, velocity,
        position and alive, in ascending order, with the position updated in
        place from the position, the velocity and `enabled`. Under the
        invariant no unwrap panics. `visited` lists the visited indices. */
    method Run(f: (P, V, Enabled) -> P) returns (r: Result<(), Fault>, ghost visited: seq<u32>)
      requires Valid()
      modifies this
      ensures Valid() && r == Ok(())
      ensures position == Moved(old(position), old(velocity), PhysicsMask(old(alive), old(enabledBits), old(velocityBits), old(positionBits)), f)
      ensures forall i :: i in visited <==> i in PhysicsMask(old(alive), old(enabledBits), old(velocityBits), old(positionBits))
      ensures forall p, q :: 0 <= p < q < |visited| ==> visited[p] < visited[q]
      ensures index == old(index) && alive == old(alive) && velocity == old(velocity) && acceleration == old(acceleration)
      ensures positionBits == old(positionBits) && velocityBits == old(velocityBits)
      ensures accelerationBits == old(accelerationBits) && enabledBits == old(enabledBits)
    {
      var mask := PhysicsMask(alive, enabledBits, velocityBits, positionBits);
      ghost var start := position;
      visited := [];
      var k := 0;
      while k < index && k < U32_LIMIT
        invariant k <= index && |position| == index
        invariant index == old(index) && alive == old(alive) && velocity == old(velocity) && acceleration == old(acceleration)
        invariant positionBits == old(positionBits) && velocityBits == old(velocityBits)
        invariant accelerationBits == old(accelerationBits) && enabledBits == old(enabledBits)
        invariant forall i :: i in visited <==> i in mask && i < k
        invariant forall p, q :: 0 <= p < q < |visited| ==> visited[p] < visited[q]
        invariant forall p :: 0 <= p < |visited| ==> visited[p] < k
        invariant forall j :: 0 <= j < index ==>
          position[j] == (if j < k then Moved(start, velocity, mask, f)[j] else start[j])
        invariant forall j: u32 :: j in positionBits <==> j < |position| && position[j].Some?
      {
        if k as u32 in mask {
          var id := Entity(k);
          var pos := position[id.Index()].value;
          var vel := velocity[id.Index()].value;
          var enabled := if id.id in enabledBits then Some(Enabled) else None;
          position := position[id.Index() := Some(f(pos, vel, enabled.value))];
          visited := visited + [k as u32];
        }
        k := k + 1;
      }
      assert position == Moved(start, velocity, mask, f);
      r := Ok(());
    }
  }
}
