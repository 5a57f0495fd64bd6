/** Joining storages: a storage on its own, or a tuple of joins, opened
    into the conjunction of their masks and the tuple of their values, and
    iterated over the indices of that mask in ascending order. */
module Joins {
  import opened Wrappers
  import opened Entities
  import opened Components
  import opened Storages

  /** A joinable value: one storage, or a tuple of 1 to 16 joins (the
      arities for which a `BitAnd` exists). */
  datatype Join<T> = Single(storage: Storage<T>) | Tuple(parts: seq<Join<T>>)

  /** What a join yields at an index: one element, or a tuple of them. */
  datatype Item<T> = One(element: Element<T>) | Many(items: seq<Item<T>>)

  /** Every tuple has an implemented arity and every storage wraps a
      payload container where it needs one. */
  predicate WellFormed<T>(j: Join<T>) {
    match j
    case Single(st) => Backed(st)
    case Tuple(ps) => 1 <= |ps| <= 16 && forall k :: 0 <= k < |ps| ==> WellFormed(ps[k])
  }

  /** `m` is a `BitSetAnd` tree over `ms`: a one-tuple is its own mask, a
      longer tuple is split in two non-empty halves, each combined in turn.
      The split point is left open. */
  ghost predicate IsAndTree(m: BitMask, ms: seq<BitMask>)
    decreases |ms|
  {
    if |ms| == 1 then m == ms[0]
    else
      |ms| > 1 && m.Both? &&
      exists k :: 0 < k < |ms| && IsAndTree(m.left, ms[..k]) && IsAndTree(m.right, ms[k..])
  }

  /** `BitAnd::and`, splitting a tuple at its middle. */
  function AndAll(ms: seq<BitMask>): (m: BitMask)
    requires |ms| >= 1
    ensures IsAndTree(m, ms)
    decreases |ms|
  {
    if |ms| == 1 then ms[0]
    else
      var k := |ms| / 2;
      var m := Both(AndAll(ms[..k]), AndAll(ms[k..]));
      assert 0 < k < |ms| && IsAndTree(m.left, ms[..k]) && IsAndTree(m.right, ms[k..]);
      m
  }

  /** Whatever the split points, an index is in an `and` tree exactly when
      it is in every combined mask. */
  lemma {:induction false} AndTreeIsIntersection(m: BitMask, ms: seq<BitMask>, i: u32)
    requires IsAndTree(m, ms)
    ensures Contains(m, i) <==> forall k :: 0 <= k < |ms| ==> Contains(ms[k], i)
    decreases |ms|
  {
    if |ms| > 1 {
      var k :| 0 < k < |ms| && IsAndTree(m.left, ms[..k]) && IsAndTree(m.right, ms[k..]);
      AndTreeIsIntersection(m.left, ms[..k], i);
      AndTreeIsIntersection(m.right, ms[k..], i);
      if forall l :: 0 <= l < |ms| ==> Contains(ms[l], i) {
        assert forall l :: 0 <= l < k ==> ms[..k][l] == ms[l];
        assert forall l :: 0 <= l < |ms| - k ==> ms[k..][l] == ms[k + l];
      }
      if Contains(m, i) {
        forall l | 0 <= l < |ms| ensures Contains(ms[l], i) {
          if l < k { assert ms[..k][l] == ms[l]; } else { assert ms[k..][l - k] == ms[l]; }
        }
      }
    }
  }

  /** The mask `open` returns. */
  function JoinMask<T>(j: Join<T>): BitMask
    requires WellFormed(j)
    decreases j
  {
    match j
    case Single(st) => Mask(st)
    case Tuple(ps) => AndAll(seq(|ps|, k requires 0 <= k < |ps| => JoinMask(ps[k])))
  }

  /** An index is in the opened mask exactly when it is in the mask of every
      storage of the join. */
  lemma {:induction false} JoinMaskIsIntersection<T>(j: Join<T>, i: u32)
    requires WellFormed(j) && j.Tuple?
    ensures Contains(JoinMask(j), i) <==> forall k :: 0 <= k < |j.parts| ==> Contains(JoinMask(j.parts[k]), i)
  {
    var ms := seq(|j.parts|, k requires 0 <= k < |j.parts| => JoinMask(j.parts[k]));
    assert JoinMask(j) == AndAll(ms);
    AndTreeIsIntersection(JoinMask(j), ms, i);
    assert forall k :: 0 <= k < |j.parts| ==> ms[k] == JoinMask(j.parts[k]);
  }

  /** Every storage of the join is sound: its bitset reports its contents. */
  ghost predicate Sound<T>(j: Join<T>) {
    match j
    case Single(st) => StorageSound(st)
    case Tuple(ps) => 1 <= |ps| <= 16 && forall k :: 0 <= k < |ps| ==> Sound(ps[k])
  }

  /** `get` can be called at `i` without a panic in any storage. */
  predicate Safe<T>(j: Join<T>, i: u32) {
    match j
    case Single(st) => Backed(st) && Get(st, i).Ok?
    case Tuple(ps) => forall k :: 0 <= k < |ps| ==> Safe(ps[k], i)
  }

  /** `Join::get`: each storage's `get` at the same index. */
  function JoinGet<T>(j: Join<T>, i: u32): (r: Item<T>)
    requires Safe(j, i)
    ensures j.Single? ==> r == One(Get(j.storage, i).value)
    ensures j.Tuple? ==> r.Many? && |r.items| == |j.parts|
    decreases j
  {
    match j
    case Single(st) => One(Get(st, i).value)
    case Tuple(ps) => Many(seq(|ps|, k requires 0 <= k < |ps| && Safe(ps[k], i) => JoinGet(ps[k], i)))
  }

  /** The contract of `Join::get`: on sound storages, an index in the
      opened mask can be read in every storage without a panic. */
  lemma {:induction false} MaskedJoinIsSafe<T>(j: Join<T>, i: u32)
    requires WellFormed(j) && Sound(j) && Contains(JoinMask(j), i)
    ensures Safe(j, i)
    decreases j
  {
    match j
    case Single(st) => MaskedGetIsSafe(st, i);
    case Tuple(ps) =>
      JoinMaskIsIntersection(j, i);
      forall k | 0 <= k < |ps| ensures Safe(ps[k], i) {
        MaskedJoinIsSafe(ps[k], i);
      }
  }

  /** The least index at or past `from` in the mask, if any: the next key
      `BitIter` yields. */
  function NextMember(m: BitMask, from: nat): (r: Option<u32>)
    ensures r.Some? ==> from <= r.value && Contains(m, r.value)
    decreases U32_LIMIT - from
  {
    if from >= U32_LIMIT then None
    else if Contains(m, from) then Some(from)
    else NextMember(m, from + 1)
  }

  /** No index of the mask lies between `from` and the next member, nor past
      `from` when there is none. */
  lemma {:induction false} NextMemberIsLeast(m: BitMask, from: nat)
    ensures NextMember(m, from).Some? ==> forall i: u32 :: from <= i < NextMember(m, from).value ==> !Contains(m, i)
    ensures NextMember(m, from).None? ==> forall i: u32 :: from <= i ==> !Contains(m, i)
    decreases U32_LIMIT - from
  {
    if from < U32_LIMIT && !Contains(m, from) {
      NextMemberIsLeast(m, from + 1);
    }
  }

  /** The keys `BitIter` yields from `from` on: every index of the mask at
      or past `from`, in ascending order. */
  function Keys(m: BitMask, from: nat): seq<u32>
    decreases U32_LIMIT - from
  {
    match NextMember(m, from)
    case None => []
    case Some(i) => [i] + Keys(m, i + 1)
  }

  /** The keys are indices of the mask at or past `from`, strictly
      ascending. */
  lemma {:induction false} KeysAscend(m: BitMask, from: nat)
    ensures forall k :: 0 <= k < |Keys(m, from)| ==> from <= Keys(m, from)[k] && Contains(m, Keys(m, from)[k])
    ensures forall k, l :: 0 <= k < l < |Keys(m, from)| ==> Keys(m, from)[k] < Keys(m, from)[l]
    decreases U32_LIMIT - from
  {
    var n := NextMember(m, from);
    if n.Some? {
      var next: nat := n.value as nat + 1;
      var rest := Keys(m, next);
      KeysAscend(m, next);
      assert Keys(m, from) == [n.value] + rest;
    }
  }

  /** No index of the mask is skipped by the keys. */
  lemma {:induction false} KeysAreComplete(m: BitMask, from: nat, i: u32)
    requires from <= i && Contains(m, i)
    ensures i in Keys(m, from)
    decreases U32_LIMIT - from
  {
    var n := NextMember(m, from);
    NextMemberIsLeast(m, from);
    assert n.Some?;
    if n.value != i {
      KeysAreComplete(m, n.value + 1, i);
    }
  }

  /** `JoinIter`: the opened mask, the opened values, and the position of
      the key iterator (every mask index below `pos` has been yielded). The
      index-by-index scan stands for `BitIter`'s layered skipping. */
  class JoinIter<T> {
    const mask: BitMask
    const values: Join<T>
    var pos: nat

    ghost predicate Valid()
      reads this
    {
      WellFormed(values) && Sound(values) && mask == JoinMask(values) && pos <= U32_LIMIT
    }

    /** `JoinIter::new`: open the join and start before index 0. */
    constructor (j: Join<T>)
      requires WellFormed(j) && Sound(j)
      ensures Valid() && values == j && pos == 0
    {
      mask := JoinMask(j);
      values := j;
      pos := 0;
    }

    /** `get_unchecked`: the joined values at a raw index when the mask
        holds it, nothing otherwise. */
    function GetUnchecked(index: u32): (r: Option<Item<T>>)
      reads this
      requires Valid()
      ensures r.Some? <==> Contains(mask, index)
      ensures r.Some? ==> Safe(values, index) && r.value == JoinGet(values, index)
    {
      if Contains(mask, index) then
        MaskedJoinIsSafe(values, index);
        Some(JoinGet(values, index))
      else None
    }

    /** `get`: the same lookup at the index of an entity. */
    function Get(e: Entity): (r: Option<Item<T>>)
      reads this
      requires Valid()
      ensures r.Some? <==> Contains(mask, e.Index())
      ensures r == GetUnchecked(e.Index())
    {
      GetUnchecked(e.Index())
    }

    /** `next`: advance the key iterator to the next mask index and read the
        joined values there; once past the last index, nothing. */
    method Next() returns (r: Option<Item<T>>)
      requires Valid()
      modifies this
      ensures Valid()
      ensures match NextMember(mask, old(pos))
        case None => r.None? && pos == U32_LIMIT
        case Some(i) => pos == i + 1 && Safe(values, i) && r == Some(JoinGet(values, i))
      ensures Keys(mask, old(pos)) == (if r.None? then [] else [Keys(mask, old(pos))[0]] + Keys(mask, pos))
    {
      while pos < U32_LIMIT && !Contains(mask, pos)
        invariant old(pos) <= pos <= U32_LIMIT
        invariant NextMember(mask, pos) == NextMember(mask, old(pos))
        decreases U32_LIMIT - pos
      {
        pos := pos + 1;
      }
      if pos == U32_LIMIT {
        r := None;
      } else {
        MaskedJoinIsSafe(values, pos);
        r := Some(JoinGet(values, pos));
        pos := pos + 1;
      }
    }
  }
}
