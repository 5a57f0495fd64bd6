/** The single-threaded executor that drives the futures of one stage's
    async systems to completion, using a caller-supplied vector as its work
    buffer. */
module Executor {
  import opened Wrappers

  /** A future, seen through its polls: the number of further polls that
      return `Pending` before one returns `Ready`. */
  datatype Future = Future(remaining: nat)

  /** `poll` on a pinned future: `Ready` once no work is left, otherwise
      `Pending`, one step of work done. */
  function Poll(f: Future): (r: (bool, Future))
    ensures r.0 <==> f.remaining == 0
    ensures !r.0 ==> r.1.remaining + 1 == f.remaining
  {
    if f.remaining == 0 then (true, f) else (false, Future(f.remaining - 1))
  }

  /** `poll_once`: the future back when it is still pending, nothing when
      it completed. */
  function PollOnce(f: Future): (r: Option<Future>)
    ensures r.None? <==> Poll(f).0
    ensures r.Some? ==> r.value == Poll(f).1
  {
    var (ready, g) := Poll(f);
    if ready then None else Some(g)
  }

  /** Polls still owed to a future before it completes, the completing one
      included. */
  function Cost(f: Future): nat {
    f.remaining + 1
  }

  /** The polls owed to a whole buffer. */
  function Work(s: seq<Future>): (w: nat)
    ensures s != [] ==> w > 0
    decreases |s|
  {
    if s == [] then 0 else Work(s[..|s| - 1]) + Cost(s[|s| - 1])
  }

  /** Replacing one future changes the owed polls by the difference. */
  lemma {:induction false} WorkUpdate(s: seq<Future>, i: nat, x: Future)
    requires i < |s|
    ensures Work(s[i := x]) + Cost(s[i]) == Work(s) + Cost(x)
    decreases |s|
  {
    var t := s[i := x];
    if i < |s| - 1 {
      assert t[..|t| - 1] == s[..|s| - 1][i := x];
      WorkUpdate(s[..|s| - 1], i, x);
    } else {
      assert t[..|t| - 1] == s[..|s| - 1];
    }
  }

  /** `Vec::swap_remove`: the last element takes the place of the removed one. */
  function SwapRemove<X>(s: seq<X>, i: nat): (r: seq<X>)
    requires i < |s|
    ensures |r| + 1 == |s|
    ensures forall k :: 0 <= k < |r| ==> r[k] == (if k == i then s[|s| - 1] else s[k])
  {
    s[i := s[|s| - 1]][..|s| - 1]
  }

  /** Removing a future drops exactly the polls it owed. */
  lemma WorkSwapRemove(s: seq<Future>, i: nat)
    requires i < |s|
    ensures Work(SwapRemove(s, i)) + Cost(s[i]) == Work(s)
  {
    var t := s[i := s[|s| - 1]];
    WorkUpdate(s, i, s[|s| - 1]);
    assert SwapRemove(s, i) == t[..|t| - 1];
  }

  /** The caller's `&mut Vec<F>`. */
  class FutureBuffer {
    var items: seq<Future>

    constructor ()
      ensures items == []
    {
      items := [];
    }
  }

  /** Bookkeeping of `run_all`: `origin[p]` is the position in the input of
      the future held at buffer position `p`, and `polls[j]` counts the
      polls made of input future `j`. A future still held has been polled
      as often as its work went down; one that is gone was polled until it
      was ready and never again; one not yet taken was never polled. */
  ghost predicate Accounted(input: seq<Future>, k: nat, items: seq<Future>, origin: seq<nat>, polls: seq<nat>) {
    k <= |input| && |polls| == |input| && |origin| == |items|
    && (forall p :: 0 <= p < |origin| ==>
          origin[p] < k && polls[origin[p]] + items[p].remaining == input[origin[p]].remaining)
    && (forall p, q :: 0 <= p < q < |origin| ==> origin[p] != origin[q])
    && (forall j :: 0 <= j < k && j !in origin ==> polls[j] == input[j].remaining + 1)
    && (forall j :: k <= j < |input| ==> polls[j] == 0)
  }

  /** The bookkeeping survives a `swap_remove` of a future that has just
      been polled to completion. */
  lemma {:induction false} AccountedSwapRemove(input: seq<Future>, items: seq<Future>, origin: seq<nat>, polls: seq<nat>, i: nat)
    requires |items| == |origin| && i < |items| && |polls| == |input| && origin[i] < |input|
    requires Accounted(input, |input|, items[i := Future(0)], origin, polls[origin[i] := input[origin[i]].remaining])
    ensures Accounted(input, |input|, SwapRemove(items, i), SwapRemove(origin, i), polls[origin[i] := input[origin[i]].remaining + 1])
  {
    var o := SwapRemove(origin, i);
    var it := SwapRemove(items, i);
    var ps := polls[origin[i] := input[origin[i]].remaining + 1];
    forall p | 0 <= p < |origin| && origin[p] != origin[i]
      ensures origin[p] in o
    {
      if p == |origin| - 1 {
        assert o[i] == origin[p];
      } else {
        assert o[p] == origin[p];
      }
    }
    forall p | 0 <= p < |o| ensures o[p] != origin[i] {
      if p == i { assert origin[|origin| - 1] != origin[i]; }
    }
  }

  /** The bookkeeping survives one poll at `i`: a pending future stays
      with one poll more counted, a ready one is `swap_remove`d. */
  lemma {:induction false} AccountedPoll(input: seq<Future>, items: seq<Future>, origin: seq<nat>, polls: seq<nat>, i: nat)
    requires Accounted(input, |input|, items, origin, polls) && i < |items|
    ensures !Poll(items[i]).0 ==>
      Accounted(input, |input|, items[i := Poll(items[i]).1], origin, polls[origin[i] := polls[origin[i]] + 1])
    ensures Poll(items[i]).0 ==>
      Accounted(input, |input|, SwapRemove(items, i), SwapRemove(origin, i), polls[origin[i] := polls[origin[i]] + 1])
  {
    if Poll(items[i]).0 {
      assert items[i := Future(0)] == items;
      assert polls[origin[i] := input[origin[i]].remaining] == polls;
      AccountedSwapRemove(input, items, origin, polls, i);
    } else {
      var it := items[i := Poll(items[i]).1];
      var ps := polls[origin[i] := polls[origin[i]] + 1];
      forall p | 0 <= p < |origin|
        ensures ps[origin[p]] + it[p].remaining == input[origin[p]].remaining
      {
        if p != i { assert origin[p] != origin[i]; }
      }
    }
  }

  /** The `extend` step of `run_all`: every input future polled once, the
      pending ones kept in input order. */
  method PollInput(input: seq<Future>, futures: FutureBuffer) returns (ghost origin: seq<nat>, ghost polls: seq<nat>)
    requires futures.items == []
    modifies futures
    ensures Accounted(input, |input|, futures.items, origin, polls)
  {
    origin := [];
    polls := seq(|input|, _ => 0);
    var k := 0;
    while k < |input|
      invariant Accounted(input, k, futures.items, origin, polls)
    {
      polls := polls[k := 1];
      var pending := PollOnce(input[k]);
      if pending.Some? {
        futures.items := futures.items + [pending.value];
        origin := origin + [k];
      }
      k := k + 1;
    }
  }

  /** One step of the inner loop of `run_all`: poll the future at `i`;
      once ready it is `swap_remove`d (and `i` stays), otherwise it is kept
      with its work one poll lower (and `i` moves on). */
  method PollAt(input: seq<Future>, futures: FutureBuffer, i: nat, ghost origin: seq<nat>, ghost polls: seq<nat>)
    returns (ready: bool, ghost origin': seq<nat>, ghost polls': seq<nat>)
    requires Accounted(input, |input|, futures.items, origin, polls) && i < |futures.items|
    modifies futures
    ensures Accounted(input, |input|, futures.items, origin', polls')
    ensures ready ==> futures.items == SwapRemove(old(futures.items), i) && Work(futures.items) + 1 == Work(old(futures.items))
    ensures !ready ==> (futures.items == old(futures.items)[i := Poll(old(futures.items)[i]).1]
      && Work(futures.items) + 1 == Work(old(futures.items)))
  {
    var polled := Poll(futures.items[i]);
    ready := polled.0;
    AccountedPoll(input, futures.items, origin, polls, i);
    WorkUpdate(futures.items, i, polled.1);
    polls' := polls[origin[i] := polls[origin[i]] + 1];
    if ready {
      WorkSwapRemove(futures.items, i);
      futures.items := SwapRemove(futures.items, i);
      origin' := SwapRemove(origin, i);
    } else {
      futures.items := futures.items[i := polled.1];
      origin' := origin;
    }
  }

  /** One pass of the inner loop of `run_all` over a non-empty buffer: each
      future is polled once, and the ready ones are removed, so the work left
      drops by one unit per future in the buffer. */
  method Sweep(input: seq<Future>, futures: FutureBuffer, ghost origin: seq<nat>, ghost polls: seq<nat>)
    returns (ghost origin': seq<nat>, ghost polls': seq<nat>)
    requires Accounted(input, |input|, futures.items, origin, polls) && futures.items != []
    modifies futures
    ensures Accounted(input, |input|, futures.items, origin', polls')
    ensures Work(futures.items) < Work(old(futures.items))
    ensures Work(futures.items) + old(|futures.items|) == Work(old(futures.items))
  {
    origin', polls' := origin, polls;
    ghost var w0 := Work(futures.items);
    ghost var len0 := |futures.items|;
    var i := 0;
    var len := |futures.items|;
    while i < len
      invariant Accounted(input, |input|, futures.items, origin', polls')
      invariant len == |futures.items| <= len0 && i <= len
      invariant Work(futures.items) + i + (len0 - len) == w0
      decreases len - i
    {
      var ready;
      ready, origin', polls' := PollAt(input, futures, i, origin', polls');
      if ready {
        len := len - 1;
      } else {
        i := i + 1;
      }
    }
  }

  /** `run_all`: clear the buffer, poll every future of the input once and
      keep the pending ones, then sweep the buffer, polling each future and
      `swap_remove`-ing it once ready, until the buffer is empty. Every
      input future is polled until it is ready and never after: exactly
      `remaining + 1` times. */
  method RunAll(input: seq<Future>, futures: FutureBuffer) returns (ghost polls: seq<nat>)
    modifies futures
    ensures futures.items == []
    ensures |polls| == |input|
    ensures forall j :: 0 <= j < |input| ==> polls[j] == input[j].remaining + 1
  {
    futures.items := [];
    ghost var origin;
    origin, polls := PollInput(input, futures);
    while futures.items != []
      invariant Accounted(input, |input|, futures.items, origin, polls)
      decreases Work(futures.items)
    {
      origin, polls := Sweep(input, futures, origin, polls);
    }
  }
}
