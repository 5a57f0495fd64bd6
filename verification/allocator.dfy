/** The entity id allocator shared by a component store and its command
    buffers: an atomic 32-bit counter of never-used ids and an unbounded
    FIFO channel of ids freed by `kill`. */
module Allocation {
  import opened Entities

  /** `fetch_add(1)` on an `AtomicU32`: past the largest value it wraps to 0. */
  function WrappingInc(x: u32): (r: u32)
    ensures x + 1 < U32_LIMIT ==> r == x + 1
    ensures x + 1 == U32_LIMIT ==> r == 0
  {
    (x + 1) % U32_LIMIT
  }

  /** The entity handed out, and the counter and queue left behind. */
  datatype Reservation = Reservation(entity: Entity, max: u32, freed: seq<u32>)

  /** `next`: the oldest freed id when the channel holds one, otherwise the
      counter's value, after which the counter is incremented. */
  function ReserveS(max: u32, freed: seq<u32>): (r: Reservation)
    ensures r.entity.id == max || r.entity.id in freed
    ensures |r.freed| + (if freed == [] then 0 else 1) == |freed|
  {
    if freed != [] then Reservation(Entity(freed[0]), max, freed[1..])
    else Reservation(Entity(max), WrappingInc(max), [])
  }

  /** The allocator discipline: every alive id and every queued id is below
      the counter, a queued id is not alive, and no id is queued twice.
      Ids below the counter that are neither alive nor queued are reserved
      and not yet built. */
  ghost predicate Discipline(alive: set<u32>, max: u32, freed: seq<u32>) {
    (forall x :: x in alive ==> x < max)
    && (forall k :: 0 <= k < |freed| ==> freed[k] < max && freed[k] !in alive)
    && (forall k, l :: 0 <= k < l < |freed| ==> freed[k] != freed[l])
  }

  /** While the counter does not wrap, a reservation never hands out an
      alive id or one that is still queued, and keeps the discipline. */
  lemma ReserveIsFresh(alive: set<u32>, max: u32, freed: seq<u32>)
    requires Discipline(alive, max, freed)
    requires freed == [] ==> max + 1 < U32_LIMIT
    ensures ReserveS(max, freed).entity.id !in alive
    ensures ReserveS(max, freed).entity.id < ReserveS(max, freed).max
    ensures ReserveS(max, freed).entity.id !in ReserveS(max, freed).freed
    ensures Discipline(alive, ReserveS(max, freed).max, ReserveS(max, freed).freed)
  {
    var r := ReserveS(max, freed);
    if freed != [] {
      assert r.freed == freed[1..];
      forall k | 0 <= k < |r.freed| ensures r.freed[k] != r.entity.id {
        assert r.freed[k] == freed[k + 1];
      }
    }
  }

  /** Two reservations in a row give two different entities. */
  lemma {:induction false} SuccessiveReservationsDiffer(alive: set<u32>, max: u32, freed: seq<u32>)
    requires Discipline(alive, max, freed)
    requires |freed| <= 1 ==> max + 2 < U32_LIMIT
    ensures ReserveS(max, freed).entity
      != ReserveS(ReserveS(max, freed).max, ReserveS(max, freed).freed).entity
  {
    ReserveIsFresh(alive, max, freed);
    var r := ReserveS(max, freed);
    if r.freed != [] {
      assert r.freed[0] in r.freed;
    }
  }

  /** `kill` of an alive entity queues its id and keeps the discipline. */
  lemma KillQueuesId(alive: set<u32>, max: u32, freed: seq<u32>, i: u32)
    requires Discipline(alive, max, freed) && i in alive
    ensures Discipline(alive - {i}, max, freed + [i])
  {
    var f := freed + [i];
    forall k, l | 0 <= k < l < |f| ensures f[k] != f[l] {
      if l == |freed| { assert f[k] == freed[k]; }
    }
  }

  /** Building a reserved entity (one below the counter and not queued)
      keeps the discipline. */
  lemma BuildReservedKeepsDiscipline(alive: set<u32>, max: u32, freed: seq<u32>, i: u32)
    requires Discipline(alive, max, freed) && i < max
    requires forall k :: 0 <= k < |freed| ==> freed[k] != i
    ensures Discipline(alive + {i}, max, freed)
  {
  }

  /** Freed ids are handed out again oldest first, before any new id. */
  lemma FreedIdsComeBackFirst(max: u32, freed: seq<u32>, i: u32)
    ensures ReserveS(max, freed + [i]).entity.id == (if freed == [] then i else freed[0])
    ensures ReserveS(max, freed + [i]).max == max
  {
  }

  /** The counter is 32 bits wide: once `2^32` ids have been drawn it wraps
      and hands out id 0 again, whether or not entity 0 is alive. */
  lemma CounterWraps()
    ensures ReserveS(U32_LIMIT - 1, []).max == 0
    ensures ReserveS(0, []).entity == Entity(0)
    ensures !Discipline({0}, ReserveS(U32_LIMIT - 1, []).max, [])
  {
  }

  /** The shared counter and channel. */
  class Allocator {
    var max: u32
    var freed: seq<u32>

    /** A fresh counter at 0 and an empty channel. */
    constructor ()
      ensures max == 0 && freed == []
    {
      max := 0;
      freed := [];
    }

    /** `next` (also used by `CommandBuffer::entity`): `try_recv`, falling
        back to `fetch_add(1)`. */
    method Reserve() returns (e: Entity)
      modifies this
      ensures Reservation(e, max, freed) == ReserveS(old(max), old(freed))
    {
      if freed != [] {
        e := Entity(freed[0]);
        freed := freed[1..];
      } else {
        e := Entity(max);
        max := WrappingInc(max);
      }
    }

    /** `freed_tx.send(i)`: the channel is unbounded and the receiver lives
        as long as the store, so the send cannot fail. */
    method Free(i: u32)
      modifies this
      ensures max == old(max) && freed == old(freed) + [i]
    {
      freed := freed + [i];
    }
  }
}
