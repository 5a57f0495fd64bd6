/** The generated ECS: its systems grouped by stage and scheduled stage by
    stage, each non-empty stage followed by one flush of the command
    buffer, and the generated `run`, `next` and `build`. */
module Scheduling {
  import opened Wrappers
  import opened Entities
  import opened Components
  import opened Storages
  import opened Joins
  import opened Builders
  import opened Allocation
  import opened Store
  import opened Commands
  import opened Registry
  import opened Systems

  // ---------------------------------------------------------------------
  // Grouping systems by stage

  /** The positions, in registration order, of the systems of stage `st`. */
  function StageMembers(systems: seq<ForEachSystem>, st: string): seq<nat>
    decreases |systems|
  {
    if systems == [] then []
    else
      var k := |systems| - 1;
      StageMembers(systems[..k], st) + (if systems[k].stage == st then [k] else [])
  }

  /** A stage's members are exactly the systems registered for it. */
  lemma {:induction false} StageMembersExact(systems: seq<ForEachSystem>, st: string)
    ensures forall j: nat :: j in StageMembers(systems, st) <==> j < |systems| && systems[j].stage == st
    decreases |systems|
  {
    if systems != [] {
      var k := |systems| - 1;
      StageMembersExact(systems[..k], st);
      forall j: nat | j < k ensures systems[..k][j] == systems[j] { }
    }
  }

  /** A stage's members are listed in ascending registration order. */
  lemma {:induction false} StageMembersAscend(systems: seq<ForEachSystem>, st: string)
    ensures forall p, q :: 0 <= p < q < |StageMembers(systems, st)| ==>
      StageMembers(systems, st)[p] < StageMembers(systems, st)[q]
    decreases |systems|
  {
    if systems != [] {
      var k := |systems| - 1;
      var front := StageMembers(systems[..k], st);
      StageMembersAscend(systems[..k], st);
      StageMembersExact(systems[..k], st);
      forall p | 0 <= p < |front| ensures front[p] < k {
        assert front[p] in front;
      }
    }
  }

  /** A stage's members are exactly the systems registered for it, listed
      once each in ascending registration order; there are none exactly
      when no system is registered for it. */
  lemma StageMembersInOrder(systems: seq<ForEachSystem>, st: string)
    ensures forall j: nat :: j in StageMembers(systems, st) <==> j < |systems| && systems[j].stage == st
    ensures forall p, q :: 0 <= p < q < |StageMembers(systems, st)| ==>
      StageMembers(systems, st)[p] < StageMembers(systems, st)[q]
    ensures StageMembers(systems, st) == [] <==> forall j :: 0 <= j < |systems| ==> systems[j].stage != st
  {
    StageMembersExact(systems, st);
    StageMembersAscend(systems, st);
    var m := StageMembers(systems, st);
    if m != [] {
      assert m[0] in m;
    }
  }

  /** The first system whose stage is not declared. */
  predicate FirstUnknownAt(stages: seq<string>, systems: seq<ForEachSystem>, j: nat) {
    j < |systems| && systems[j].stage !in stages
    && forall i :: 0 <= i < j ==> systems[i].stage in stages
  }

  /** One step of the regrouping: appending system `k` to its stage's list
      (created when it is the stage's first) keeps every list the stage's
      members among the first `k + 1` systems. */
  lemma GroupStep(systems: seq<ForEachSystem>, k: nat, g: map<string, seq<nat>>, g': map<string, seq<nat>>)
    requires k < |systems|
    requires g.Keys == set j | 0 <= j < k :: systems[j].stage
    requires forall st :: st in g ==> g[st] == StageMembers(systems[..k], st)
    requires g' == if systems[k].stage in g then g[systems[k].stage := g[systems[k].stage] + [k]]
      else g[systems[k].stage := [k]]
    ensures g'.Keys == set j | 0 <= j < k + 1 :: systems[j].stage
    ensures forall st :: st in g' ==> g'[st] == StageMembers(systems[..k + 1], st)
  {
    assert systems[..k + 1][..k] == systems[..k];
    var st := systems[k].stage;
    if st !in g {
      StageMembersInOrder(systems[..k], st);
    }
    assert g'.Keys == set j | 0 <= j < k + 1 :: systems[j].stage by {
      assert st in g';
    }
  }

  /** The regrouping loop of `make_struct`: every system's stage must be
      declared (otherwise generation panics with "Unknown stage" at the
      first system that has another one); the systems are appended to
      their stage's list, which is created at its first system. */
  method GroupByStage(stages: seq<string>, systems: seq<ForEachSystem>)
    returns (r: Result<map<string, seq<nat>>, Fault>)
    ensures r.Err? <==> exists j :: 0 <= j < |systems| && systems[j].stage !in stages
    ensures r.Err? ==> exists j: nat :: FirstUnknownAt(stages, systems, j) && r.error == UnknownStage(systems[j].stage)
    ensures r.Ok? ==> r.value.Keys == set j | 0 <= j < |systems| :: systems[j].stage
    ensures r.Ok? ==> forall st :: st in r.value ==> r.value[st] == StageMembers(systems, st)
  {
    var g: map<string, seq<nat>> := map[];
    for k := 0 to |systems|
      invariant forall i :: 0 <= i < k ==> systems[i].stage in stages
      invariant g.Keys == set j | 0 <= j < k :: systems[j].stage
      invariant forall st :: st in g ==> g[st] == StageMembers(systems[..k], st)
    {
      var sys := systems[k];
      if sys.stage !in stages {
        assert FirstUnknownAt(stages, systems, k);
        return Err(UnknownStage(sys.stage));
      }
      var g' := if sys.stage in g then g[sys.stage := g[sys.stage] + [k]] else g[sys.stage := [k]];
      GroupStep(systems, k, g, g');
      if sys.stage in g {
        g := g[sys.stage := g[sys.stage] + [k]];
      } else {
        g := g[sys.stage := [k]];
      }
    }
    assert systems[..|systems|] == systems;
    r := Ok(g);
  }

  // ---------------------------------------------------------------------
  // The plan of `run`

  /** One statement of the generated `run`: a system's run, or a flush of
      the command buffer into the store. */
  datatype Step = RunSystem(system: nat) | FlushCommands

  function Runs(js: seq<nat>): (r: seq<Step>)
    ensures |r| == |js| && forall k :: 0 <= k < |js| ==> r[k] == RunSystem(js[k])
  {
    seq(|js|, k requires 0 <= k < |js| => RunSystem(js[k]))
  }

  /** The statements of one stage: its systems' runs and a flush, or
      nothing when no system is registered for it. */
  function Segment(st: string, g: map<string, seq<nat>>): seq<Step> {
    if st in g then Runs(g[st]) + [FlushCommands] else []
  }

  /** The statements of `run`, stage by stage in declared order. */
  function PlanS(stages: seq<string>, g: map<string, seq<nat>>): seq<Step>
    decreases |stages|
  {
    if stages == [] then []
    else PlanS(stages[..|stages| - 1], g) + Segment(stages[|stages| - 1], g)
  }

  /** The plan of one more stage is followed by that stage's segment. */
  lemma PlanStep(stages: seq<string>, k: nat, g: map<string, seq<nat>>)
    requires k < |stages|
    ensures PlanS(stages[..k + 1], g) == PlanS(stages[..k], g) + Segment(stages[k], g)
  {
    assert stages[..k + 1][..k] == stages[..k];
  }

  /** The runs of one more system end with that system's run. */
  lemma RunsStep(js: seq<nat>, m: nat)
    requires m < |js|
    ensures Runs(js[..m + 1]) == Runs(js[..m]) + [RunSystem(js[m])]
  {
    assert js[..m + 1][m] == js[m];
  }

  /** The segment of a stage with systems: their runs, then the flush. */
  lemma SegmentShape(st: string, g: map<string, seq<nat>>)
    requires st in g && g[st] != []
    ensures |Segment(st, g)| == |g[st]| + 1
    ensures Segment(st, g)[|g[st]|] == FlushCommands
    ensures Segment(st, g)[|g[st]| - 1] == RunSystem(g[st][|g[st]| - 1])
    ensures forall k :: 0 <= k < |g[st]| ==> Segment(st, g)[k] != FlushCommands
  {
  }

  /** The inner loop of the scheduling: one run per system of a stage, in
      registration order. */
  method AppendRuns(plan: seq<Step>, js: seq<nat>) returns (p: seq<Step>)
    ensures p == plan + Runs(js)
  {
    p := plan;
    for m := 0 to |js|
      invariant p == plan + Runs(js[..m])
    {
      RunsStep(js, m);
      p := p + [RunSystem(js[m])];
    }
    assert js[..|js|] == js;
  }

  /** The scheduling loop of `make_struct`: for each declared stage that
      has systems, their runs in order, then the flush. */
  method PlanRuns(stages: seq<string>, g: map<string, seq<nat>>) returns (plan: seq<Step>)
    ensures plan == PlanS(stages, g)
  {
    plan := [];
    for k := 0 to |stages|
      invariant plan == PlanS(stages[..k], g)
    {
      PlanStep(stages, k, g);
      var st := stages[k];
      if st in g {
        plan := AppendRuns(plan, g[st]);
        plan := plan + [FlushCommands];
      }
    }
    assert stages[..|stages|] == stages;
  }

  /** Every run statement of the plan names a system whose code can be
      generated. */
  predicate PlanGenerable(plan: seq<Step>, systems: seq<ForEachSystem>, components: seq<Component>, resources: seq<Resource>) {
    forall k :: 0 <= k < |plan| && plan[k].RunSystem? ==>
      plan[k].system < |systems| && Generable(systems[plan[k].system].signature, components, resources)
  }

  /** The first run statement of the plan whose system's code cannot be
      generated. */
  predicate FirstUngenerableAt(plan: seq<Step>, systems: seq<ForEachSystem>, components: seq<Component>,
                               resources: seq<Resource>, k: nat) {
    k < |plan| && plan[k].RunSystem? && plan[k].system < |systems|
    && !Generable(systems[plan[k].system].signature, components, resources)
    && PlanGenerable(plan[..k], systems, components, resources)
  }

  /** The `make_run` calls of the scheduling loop, one per run statement in
      plan order: the first system whose code cannot be generated ends the
      generation with its fault. */
  method GenerateRuns(plan: seq<Step>, systems: seq<ForEachSystem>, components: seq<Component>, resources: seq<Resource>)
    returns (r: Result<(), Fault>)
    requires forall k :: 0 <= k < |plan| && plan[k].RunSystem? ==> plan[k].system < |systems|
    ensures r.Ok? <==> PlanGenerable(plan, systems, components, resources)
    ensures r.Err? ==> exists k: nat ::
      FirstUngenerableAt(plan, systems, components, resources, k)
      && r.error == GenFault(systems[plan[k].system].signature, components, resources).value
  {
    for k := 0 to |plan|
      invariant PlanGenerable(plan[..k], systems, components, resources)
    {
      assert forall q :: 0 <= q < k ==> plan[..k + 1][q] == plan[..k][q];
      if plan[k].RunSystem? {
        var code := Generate(systems[plan[k].system], components, resources);
        if code.Err? {
          assert FirstUngenerableAt(plan, systems, components, resources, k);
          return Err(code.error);
        }
      }
    }
    assert plan[..|plan|] == plan;
    r := Ok(());
  }

  /** The whole scheduling of `make_struct`: the grouping (an undeclared
      stage panics first), then the plan, generating the code of each run
      statement in order. */
  method Schedule(stages: seq<string>, systems: seq<ForEachSystem>, components: seq<Component>, resources: seq<Resource>)
    returns (r: Result<seq<Step>, Fault>)
    ensures r.Err? <==> (exists j :: 0 <= j < |systems| && systems[j].stage !in stages)
                        || (exists j :: 0 <= j < |systems| && !Generable(systems[j].signature, components, resources))
    ensures (exists j :: 0 <= j < |systems| && systems[j].stage !in stages) ==>
      exists j: nat :: FirstUnknownAt(stages, systems, j) && r == Err(UnknownStage(systems[j].stage))
    ensures r.Err? && (forall j :: 0 <= j < |systems| ==> systems[j].stage in stages) ==>
      exists k: nat ::
        FirstUngenerableAt(PlanS(stages, Grouping(systems)), systems, components, resources, k)
        && r.error == GenFault(systems[PlanS(stages, Grouping(systems))[k].system].signature, components, resources).value
    ensures r.Ok? ==> r.value == PlanS(stages, Grouping(systems))
    ensures r.Ok? ==> forall j :: 0 <= j < |systems| ==> Generable(systems[j].signature, components, resources)
  {
    var g := GroupByStage(stages, systems);
    if g.Err? {
      return Err(g.error);
    }
    var plan := PlanRuns(stages, g.value);
    assert g.value == Grouping(systems);
    forall k | 0 <= k < |plan| && plan[k].RunSystem? ensures plan[k].system < |systems| {
      EverySystemRuns(stages, systems, plan[k].system);
    }
    var gen := GenerateRuns(plan, systems, components, resources);
    if gen.Err? {
      return Err(gen.error);
    }
    forall j | 0 <= j < |systems| ensures Generable(systems[j].signature, components, resources) {
      EverySystemRuns(stages, systems, j);
      var k :| 0 <= k < |plan| && plan[k] == RunSystem(j);
    }
    r := Ok(plan);
  }

  /** The grouping `GroupByStage` computes. */
  function Grouping(systems: seq<ForEachSystem>): map<string, seq<nat>> {
    map st | st in (set j | 0 <= j < |systems| :: systems[j].stage) :: StageMembers(systems, st)
  }

  // ---------------------------------------------------------------------
  // Properties of the plan

  lemma {:induction false} PlanConcat(a: seq<string>, b: seq<string>, g: map<string, seq<nat>>)
    ensures PlanS(a + b, g) == PlanS(a, g) + PlanS(b, g)
    decreases |b|
  {
    if b != [] {
      var c := b[..|b| - 1];
      assert (a + b)[..|a + b| - 1] == a + c;
      assert (a + b)[|a + b| - 1] == b[|b| - 1];
      PlanConcat(a, c, g);
      assert PlanS(a + b, g) == PlanS(a + c, g) + Segment(b[|b| - 1], g);
    } else {
      assert a + b == a;
    }
  }

  function Flushes(plan: seq<Step>): nat
    decreases |plan|
  {
    if plan == [] then 0
    else Flushes(plan[..|plan| - 1]) + (if plan[|plan| - 1].FlushCommands? then 1 else 0)
  }

  /** The number of declared stages (counted with repetition) that have
      systems. */
  function StagesWithSystems(stages: seq<string>, g: map<string, seq<nat>>): nat
    decreases |stages|
  {
    if stages == [] then 0
    else StagesWithSystems(stages[..|stages| - 1], g) + (if stages[|stages| - 1] in g then 1 else 0)
  }

  lemma {:induction false} FlushesConcat(a: seq<Step>, b: seq<Step>)
    ensures Flushes(a + b) == Flushes(a) + Flushes(b)
    decreases |b|
  {
    if b != [] {
      var c := b[..|b| - 1];
      assert (a + b)[..|a + b| - 1] == a + c;
      assert (a + b)[|a + b| - 1] == b[|b| - 1];
      FlushesConcat(a, c);
    } else {
      assert a + b == a;
    }
  }

  lemma {:induction false} RunsHaveNoFlush(js: seq<nat>)
    ensures Flushes(Runs(js)) == 0
    decreases |js|
  {
    if js != [] {
      var front := js[..|js| - 1];
      assert Runs(js)[..|js| - 1] == Runs(front);
      RunsHaveNoFlush(front);
    }
  }

  /** Exactly one flush per stage that has systems. */
  lemma {:induction false} OneFlushPerStage(stages: seq<string>, g: map<string, seq<nat>>)
    ensures Flushes(PlanS(stages, g)) == StagesWithSystems(stages, g)
    decreases |stages|
  {
    if stages != [] {
      var front := stages[..|stages| - 1];
      var st := stages[|stages| - 1];
      OneFlushPerStage(front, g);
      FlushesConcat(PlanS(front, g), Segment(st, g));
      if st in g {
        RunsHaveNoFlush(g[st]);
        FlushesConcat(Runs(g[st]), [FlushCommands]);
        assert Flushes([FlushCommands]) == Flushes([]) + 1;
      }
    }
  }

  /** No flush comes without a system run just before it, and a non-empty
      plan ends with a flush. */
  predicate FlushesFollowRuns(p: seq<Step>) {
    (forall k :: 0 <= k < |p| && p[k].FlushCommands? ==> k > 0 && p[k - 1].RunSystem?)
    && (p != [] ==> p[|p| - 1].FlushCommands?)
  }

  /** Two such plans put one after the other make one. */
  lemma FlushesFollowRunsConcat(a: seq<Step>, b: seq<Step>)
    requires FlushesFollowRuns(a) && FlushesFollowRuns(b)
    ensures FlushesFollowRuns(a + b)
  {
    forall k | 0 <= k < |a + b| && (a + b)[k].FlushCommands?
      ensures k > 0 && (a + b)[k - 1].RunSystem?
    {
      if k < |a| {
        assert (a + b)[k] == a[k] && (a + b)[k - 1] == a[k - 1];
      } else {
        assert (a + b)[k] == b[k - |a|];
        if k - |a| > 0 {
          assert (a + b)[k - 1] == b[k - |a| - 1];
        }
      }
    }
    if b != [] {
      assert (a + b)[|a + b| - 1] == b[|b| - 1];
    }
  }

  /** The segment of a stage with at least one system is such a plan. */
  lemma SegmentFlushesFollowRuns(st: string, g: map<string, seq<nat>>)
    requires st in g ==> g[st] != []
    ensures FlushesFollowRuns(Segment(st, g))
  {
    if st in g {
      SegmentShape(st, g);
    }
  }

  /** When every group has a system, no flush comes without a system run
      just before it, and a non-empty plan ends with a flush: every system
      run is followed by a flush. */
  lemma {:induction false} NoEmptyFlush(stages: seq<string>, g: map<string, seq<nat>>)
    requires forall st :: st in g ==> g[st] != []
    ensures var p := PlanS(stages, g);
      (forall k :: 0 <= k < |p| && p[k].FlushCommands? ==> k > 0 && p[k - 1].RunSystem?)
      && (p != [] ==> p[|p| - 1].FlushCommands?)
    decreases |stages|
  {
    if stages != [] {
      var front := stages[..|stages| - 1];
      var st := stages[|stages| - 1];
      NoEmptyFlush(front, g);
      SegmentFlushesFollowRuns(st, g);
      FlushesFollowRunsConcat(PlanS(front, g), Segment(st, g));
    }
  }

  /** A run step of a stage's segment is one of that stage's systems. */
  lemma RunInSegment(st: string, g: map<string, seq<nat>>, j: nat)
    ensures RunSystem(j) in Segment(st, g) <==> st in g && j in g[st]
  {
    if st in g && j in g[st] {
      var m :| 0 <= m < |g[st]| && g[st][m] == j;
      assert Segment(st, g)[m] == RunSystem(j);
    }
  }

  /** A system belongs to a declared stage of `front + [st]` exactly when it
      belongs to one of `front`, or to `st`. */
  lemma GroupedSnoc(front: seq<string>, st: string, g: map<string, seq<nat>>, j: nat)
    ensures (exists k :: 0 <= k < |front + [st]| && (front + [st])[k] in g && j in g[(front + [st])[k]])
      <==> (exists k :: 0 <= k < |front| && front[k] in g && j in g[front[k]]) || (st in g && j in g[st])
  {
    var stages := front + [st];
    if exists k :: 0 <= k < |stages| && stages[k] in g && j in g[stages[k]] {
      var k :| 0 <= k < |stages| && stages[k] in g && j in g[stages[k]];
      if k < |front| {
        assert front[k] == stages[k];
      }
    }
    if exists k :: 0 <= k < |front| && front[k] in g && j in g[front[k]] {
      var k :| 0 <= k < |front| && front[k] in g && j in g[front[k]];
      assert stages[k] == front[k];
    }
    assert stages[|front|] == st;
  }

  /** A run step of the plan is one of a declared stage's systems. */
  lemma {:induction false} PlannedRunsAreGrouped(stages: seq<string>, g: map<string, seq<nat>>, j: nat)
    ensures RunSystem(j) in PlanS(stages, g) <==> exists k :: 0 <= k < |stages| && stages[k] in g && j in g[stages[k]]
    decreases |stages|
  {
    if stages != [] {
      var front := stages[..|stages| - 1];
      var st := stages[|stages| - 1];
      PlannedRunsAreGrouped(front, g, j);
      RunInSegment(st, g, j);
      GroupedSnoc(front, st, g, j);
      assert stages == front + [st];
      assert PlanS(stages, g) == PlanS(front, g) + Segment(st, g);
    }
  }

  /** Over the grouping of `make_struct`, the plan runs every system whose
      stage is declared, and only those. */
  lemma {:induction false} EverySystemRuns(stages: seq<string>, systems: seq<ForEachSystem>, j: nat)
    ensures RunSystem(j) in PlanS(stages, Grouping(systems)) <==> j < |systems| && systems[j].stage in stages
  {
    var g := Grouping(systems);
    PlannedRunsAreGrouped(stages, g, j);
    if j < |systems| && systems[j].stage in stages {
      var k :| 0 <= k < |stages| && stages[k] == systems[j].stage;
      StageMembersInOrder(systems, stages[k]);
      assert stages[k] in g;
    }
    if RunSystem(j) in PlanS(stages, g) {
      var k :| 0 <= k < |stages| && stages[k] in g && j in g[stages[k]];
      StageMembersInOrder(systems, stages[k]);
    }
  }

  /** Stages run in declared order: the whole of the plan of the stages
      before stage `b` comes before the plan of stage `b` and those after
      it. */
  lemma {:induction false} StagesRunInOrder(stages: seq<string>, g: map<string, seq<nat>>, a: nat, b: nat, i: nat, j: nat)
    requires a < b < |stages|
    requires stages[a] in g && i in g[stages[a]] && stages[b] in g && j in g[stages[b]]
    ensures PlanS(stages, g) == PlanS(stages[..b], g) + PlanS(stages[b..], g)
    ensures RunSystem(i) in PlanS(stages[..b], g) && RunSystem(j) in PlanS(stages[b..], g)
  {
    assert stages == stages[..b] + stages[b..];
    PlanConcat(stages[..b], stages[b..], g);
    PlannedRunsAreGrouped(stages[..b], g, i);
    assert stages[..b][a] == stages[a];
    PlannedRunsAreGrouped(stages[b..], g, j);
    assert stages[b..][0] == stages[b];
  }

  /** Within a stage, systems run in registration order. */
  lemma {:induction false} StageRunsInRegistrationOrder(systems: seq<ForEachSystem>, st: string, p: nat, q: nat)
    requires st in Grouping(systems)
    requires p < q < |Segment(st, Grouping(systems))| - 1
    ensures Segment(st, Grouping(systems))[p].RunSystem? && Segment(st, Grouping(systems))[q].RunSystem?
    ensures Segment(st, Grouping(systems))[p].system < Segment(st, Grouping(systems))[q].system
    ensures var x := Segment(st, Grouping(systems))[q].system; x < |systems| && systems[x].stage == st
  {
    StageMembersInOrder(systems, st);
    var js := StageMembers(systems, st);
    assert Segment(st, Grouping(systems)) == Runs(js) + [FlushCommands];
    assert js[q] in js;
  }

  // ---------------------------------------------------------------------
  // The generated ECS

  /** Why `run` stops early: a system returned an error through `?`, or
      the run panicked. */
  datatype RunError = SystemError(error: nat) | Panic(fault: Fault)

  /** What `run` makes of a system run's outcome: an error returned through
      `?` is returned, a panic ends everything, and a run that went through
      its entities or stopped under `control_flow` lets `run` go on. */
  function Failure(o: Outcome): (r: Option<RunError>)
    ensures r.None? <==> o.Completed? || o.Stopped?
    ensures o.Raised? ==> r == Some(SystemError(o.error))
    ensures o.Panicked? ==> r == Some(Panic(o.fault))
  {
    match o
    case Raised(e) => Some(SystemError(e))
    case Panicked(f) => Some(Panic(f))
    case _ => None
  }

  /** A system run ends with an error only if the system was declared with
      `result`. */
  lemma {:induction false} RaisedNeedsResult<T>(run: Run<T>, keys: seq<u32>)
    requires RunShaped(run) && Visit(run, keys).1.Raised?
    ensures run.sys.result
  {
    VisitIsPrefix(run, keys);
    var v := Visit(run, keys).0;
    var e := StepEnding(run, keys[|v| - 1]);
    assert e == Some(Visit(run, keys).1);
    assert BindAt(run, keys[|v| - 1]).Ok?;
  }

  /** The declarations the component store's kinds are taken from. */
  function KindsOf(components: seq<Component>): (r: seq<StorageKind>)
    ensures |r| == |components| && forall c :: 0 <= c < |r| ==> r[c] == components[c].storage
  {
    seq(|components|, c requires 0 <= c < |components| => components[c].storage)
  }

  /** A plan prefix without a flush has no shorter prefix with one. */
  lemma NoFlushInPrefix(plan: seq<Step>, k: nat)
    requires k <= |plan| && FlushCommands !in plan[..k]
    ensures forall q :: 0 <= q <= k ==> FlushCommands !in plan[..q]
  {
  }

  /** The generated ECS struct: the component store, the command buffer
      sharing its allocator, and what the generator knew: the declared
      components and resources, the systems with their functions, and the
      statements of `run`. */
  class World<T> {
    const store: ComponentStore<T>
    const buffer: CommandBuffer<T>
    const components: seq<Component>
    const resources: seq<Resource>
    const systems: seq<ForEachSystem>
    const calls: seq<seq<Arg<T>> -> Reply>
    const plan: seq<Step>

    ghost predicate Valid()
      reads this, store, buffer
    {
      store.Valid() && buffer.Valid() && buffer.alloc == store.alloc && buffer.n == |store.kinds|
      && store.kinds == KindsOf(components) && |calls| == |systems|
      && (forall j :: 0 <= j < |systems| ==> Generable(systems[j].signature, components, resources))
      && forall k :: 0 <= k < |plan| && plan[k].RunSystem? ==> plan[k].system < |systems|
    }

    /** How the run of system `j` over the store contents `s` ends: the
        generated mask over `s`, visited in ascending order with the
        generated initialisers. */
    ghost function OutcomeOver(j: nat, s: State<T>): Outcome
      requires j < |systems| && j < |calls| && Generable(systems[j].signature, components, resources)
      requires Declares(components, s)
    {
      var code := CodeOf(systems[j].signature, components, resources);
      Visit(Systems.Run(systems[j], code, s, store.dflt, calls[j]), Keys(MaskOf(code.mask, s.bits, s.alive), 0)).1
    }

    /** The builder's `build` (and `with_capacity`): a new store, and a
        command buffer created from it. */
    constructor (components: seq<Component>, resources: seq<Resource>, systems: seq<ForEachSystem>,
                 calls: seq<seq<Arg<T>> -> Reply>, plan: seq<Step>, dflt: T)
      requires Supported(KindsOf(components)) && |calls| == |systems|
      requires forall j :: 0 <= j < |systems| ==> Generable(systems[j].signature, components, resources)
      requires forall k :: 0 <= k < |plan| && plan[k].RunSystem? ==> plan[k].system < |systems|
      ensures Valid() && fresh(store) && fresh(buffer) && fresh(store.alloc)
      ensures this.components == components && this.resources == resources
      ensures this.systems == systems && this.calls == calls && this.plan == plan
      ensures store.Snapshot() == Empty<T>(KindsOf(components)) && store.alloc.max == 0 && store.alloc.freed == []
      ensures PendingOf(buffer) == Pending([], {}, seq(|components|, _ => map[]), seq(|components|, _ => {}))
    {
      var s := new ComponentStore(KindsOf(components), dflt);
      store := s;
      buffer := new CommandBuffer(s);
      this.components := components;
      this.resources := resources;
      this.systems := systems;
      this.calls := calls;
      this.plan := plan;
    }

    /** Nothing has been flushed: the store, the pending commands and the
        allocator are as they were. */
    ghost predicate Untouched(s0: State<T>, b0: Pending<T>, max0: u32, freed0: seq<u32>)
      reads store, buffer, store.alloc
    {
      store.Snapshot() == s0 && PendingOf(buffer) == b0
      && store.alloc.max == max0 && store.alloc.freed == freed0
    }

    /** The pending commands `b0` have been flushed into the store `s0`, in
        the drain orders given: the store is what the flush specifies, the
        alive entities killed went to the free-id channel and nothing is
        pending any more. */
    ghost predicate Flushed(s0: State<T>, b0: Pending<T>, max0: u32, freed0: seq<u32>,
                            kills: seq<Entity>, addOrders: seq<seq<Entity>>, delOrders: seq<seq<Entity>>)
      reads store, buffer, store.alloc
    {
      var n := buffer.n;
      Shaped(s0) && |s0.bits| == n && BuildersFit(b0.newEntities, n)
      && Enumerates(kills, b0.deleted)
      && |addOrders| == n && |delOrders| == n && |b0.adds| == n && |b0.dels| == n
      && (forall c :: 0 <= c < n ==>
            Enumerates(addOrders[c], b0.adds[c].Keys) && Enumerates(delOrders[c], b0.dels[c]))
      && EditsShaped(addOrders, b0.adds, delOrders, n)
      && store.Snapshot() == FlushS(s0, kills, b0.newEntities, addOrders, b0.adds, delOrders, store.dflt)
      && store.alloc.max == max0 && store.alloc.freed == freed0 + AliveIds(kills, s0.alive)
      && PendingOf(buffer) == Pending([], {}, seq(n, _ => map[]), seq(n, _ => {}))
    }

    /** The store contents a statement of the plan starts from: the store
        `run` started with until the first flush, the flushed one after. */
    ghost function Before(q: nat, s0: State<T>, s1: State<T>): State<T>
      requires q <= |plan|
    {
      if FlushCommands in plan[..q] then s1 else s0
    }

    /** Every system statement among the first `k` of the plan ran without
        a failure, each over the store contents it started from. */
    ghost predicate RunsWent(k: nat, s0: State<T>, s1: State<T>)
      requires k <= |plan| && Declares(components, s0) && Declares(components, s1)
    {
      forall q :: 0 <= q < k && plan[q].RunSystem? ==>
        plan[q].system < |systems| && plan[q].system < |calls|
        && Generable(systems[plan[q].system].signature, components, resources)
        && Failure(OutcomeOver(plan[q].system, Before(q, s0, s1))).None?
    }

    /** One more statement that did not fail. */
    lemma RunsWentStep(k: nat, s0: State<T>, s1: State<T>)
      requires k < |plan| && Declares(components, s0) && Declares(components, s1) && RunsWent(k, s0, s1)
      requires plan[k].RunSystem? ==>
        plan[k].system < |systems| && plan[k].system < |calls|
        && Generable(systems[plan[k].system].signature, components, resources)
        && Failure(OutcomeOver(plan[k].system, Before(k, s0, s1))).None?
      ensures RunsWent(k + 1, s0, s1)
    {
      assert forall q :: 0 <= q <= k ==> plan[..k + 1][..q] == plan[..q];
    }

    /** Until the first flush every statement started from `s0`, so what
        the flush produces does not matter to them. */
    lemma RunsWentBeforeFlush(k: nat, s0: State<T>, s1: State<T>, s1': State<T>)
      requires k <= |plan| && Declares(components, s0) && Declares(components, s1) && Declares(components, s1')
      requires FlushCommands !in plan[..k] && RunsWent(k, s0, s1)
      ensures RunsWent(k, s0, s1')
    {
      NoFlushInPrefix(plan, k);
    }

    /** `run`: the statements of the plan in order. A system run computes
        its mask and visits it; an error returned through `?` returns it
        from `run` at once, and a panic ends everything; a stop under
        `control_flow` ends only that system. A flush applies the command
        buffer to the store. `run` returns `Ok` only once every statement
        has run. `steps` counts the statements that completed; the store
        changes only at the first flush, since the systems enqueue nothing,
        and that flush's drain orders are returned. */
    method Run() returns (r: Result<(), RunError>, ghost steps: nat,
                          ghost kills: seq<Entity>, ghost addOrders: seq<seq<Entity>>, ghost delOrders: seq<seq<Entity>>)
      requires Valid()
      modifies store, buffer, store.alloc
      ensures Valid()
      ensures steps <= |plan| && (r.Ok? <==> steps == |plan|)
      ensures r.Err? ==> plan[steps].RunSystem?
      ensures r.Err? && r.error.SystemError? ==> systems[plan[steps].system].result
      ensures RunsWent(steps, old(store.Snapshot()), store.Snapshot())
      ensures r.Err? ==> Failure(OutcomeOver(plan[steps].system, Before(steps, old(store.Snapshot()), store.Snapshot()))) == Some(r.error)
      ensures FlushCommands !in plan[..steps] ==>
        Untouched(old(store.Snapshot()), old(PendingOf(buffer)), old(store.alloc.max), old(store.alloc.freed))
      ensures FlushCommands in plan[..steps] ==>
        Flushed(old(store.Snapshot()), old(PendingOf(buffer)), old(store.alloc.max), old(store.alloc.freed),
                kills, addOrders, delOrders)
    {
      ghost var s0, b0, max0, freed0 := store.Snapshot(), PendingOf(buffer), store.alloc.max, store.alloc.freed;
      kills, addOrders, delOrders := [], [], [];
      ghost var s1 := s0;
      var k := 0;
      while k < |plan|
        invariant k <= |plan| && Valid()
        invariant FlushCommands !in plan[..k] ==> Untouched(s0, b0, max0, freed0)
        invariant FlushCommands in plan[..k] ==> Flushed(s0, b0, max0, freed0, kills, addOrders, delOrders)
        invariant Declares(components, s0) && store.Snapshot() == s1
        invariant RunsWent(k, s0, s1)
      {
        var failure;
        failure, s1, kills, addOrders, delOrders := Statement(k, s0, b0, max0, freed0, s1, kills, addOrders, delOrders);
        if failure.Some? {
          r, steps := Err(failure.value), k;
          return;
        }
        k := k + 1;
      }
      assert plan[..k] == plan;
      r, steps := Ok(()), k;
    }

    /** Statement `k` of the plan, with what `run` knows before it: a
        system run either fails, changing nothing, or goes on; a flush
        applies the pending commands if it is the first one. */
    method Statement(k: nat, ghost s0: State<T>, ghost b0: Pending<T>, ghost max0: u32, ghost freed0: seq<u32>,
                     ghost s1: State<T>, ghost kills: seq<Entity>, ghost addOrders: seq<seq<Entity>>, ghost delOrders: seq<seq<Entity>>)
      returns (failure: Option<RunError>, ghost s1': State<T>,
               ghost kills': seq<Entity>, ghost addOrders': seq<seq<Entity>>, ghost delOrders': seq<seq<Entity>>)
      requires k < |plan| && Valid()
      requires FlushCommands !in plan[..k] ==> Untouched(s0, b0, max0, freed0)
      requires FlushCommands in plan[..k] ==> Flushed(s0, b0, max0, freed0, kills, addOrders, delOrders)
      requires Declares(components, s0) && store.Snapshot() == s1
      requires RunsWent(k, s0, s1)
      modifies store, buffer, store.alloc
      ensures Valid() && Declares(components, s0) && store.Snapshot() == s1'
      ensures failure.Some? ==>
        plan[k].RunSystem? && s1' == s1 && kills' == kills && addOrders' == addOrders && delOrders' == delOrders
        && (FlushCommands !in plan[..k] ==> Untouched(s0, b0, max0, freed0))
        && (FlushCommands in plan[..k] ==> Flushed(s0, b0, max0, freed0, kills, addOrders, delOrders))
        && RunsWent(k, s0, s1)
        && Failure(OutcomeOver(plan[k].system, Before(k, s0, s1))) == failure
        && (failure.value.SystemError? ==> systems[plan[k].system].result)
      ensures failure.None? ==>
        (FlushCommands !in plan[..k + 1] ==> Untouched(s0, b0, max0, freed0))
        && (FlushCommands in plan[..k + 1] ==> Flushed(s0, b0, max0, freed0, kills', addOrders', delOrders'))
        && RunsWent(k + 1, s0, s1')
    {
      assert plan[..k + 1] == plan[..k] + [plan[k]];
      s1', kills', addOrders', delOrders' := s1, kills, addOrders, delOrders;
      if plan[k].RunSystem? {
        ghost var outcome;
        failure, outcome := RunSystemStep(plan[k].system);
        if failure.None? {
          RunsWentStep(k, s0, s1);
        }
      } else {
        failure := None;
        ghost var flushed := FlushCommands in plan[..k];
        kills', addOrders', delOrders' := FlushStep(flushed, s0, b0, max0, freed0, kills, addOrders, delOrders);
        if !flushed {
          RunsWentBeforeFlush(k, s0, s1, store.Snapshot());
        }
        s1' := store.Snapshot();
        RunsWentStep(k, s0, s1');
      }
    }

    /** A flush statement of `run`: the first one applies what was pending
        when `run` started; any later one finds nothing pending and leaves
        the store as it is. */
    method FlushStep(ghost flushed: bool, ghost s0: State<T>, ghost b0: Pending<T>, ghost max0: u32, ghost freed0: seq<u32>,
                     ghost kills: seq<Entity>, ghost addOrders: seq<seq<Entity>>, ghost delOrders: seq<seq<Entity>>)
      returns (ghost kills': seq<Entity>, ghost addOrders': seq<seq<Entity>>, ghost delOrders': seq<seq<Entity>>)
      requires Valid()
      requires !flushed ==> Untouched(s0, b0, max0, freed0)
      requires flushed ==> Flushed(s0, b0, max0, freed0, kills, addOrders, delOrders)
      modifies store, buffer, store.alloc
      ensures Valid()
      ensures Flushed(s0, b0, max0, freed0, kills', addOrders', delOrders')
      ensures flushed ==> store.Snapshot() == old(store.Snapshot())
    {
      ghost var s1 := store.Snapshot();
      ghost var ks, aos, dos;
      ks, aos, dos := buffer.Flush(store);
      if !flushed {
        kills', addOrders', delOrders' := ks, aos, dos;
      } else {
        FlushOfNothing(s1, ks, aos, seq(buffer.n, _ => map[]), dos, store.dflt);
        kills', addOrders', delOrders' := kills, addOrders, delOrders;
      }
    }

    /** One system statement of `run`: the generated mask over the store,
        then the visit of its keys with the generated initialisers; a
        binding panic, or an error returned through `?`, is reported,
        anything else lets `run` go on. */
    method RunSystemStep(j: nat) returns (failure: Option<RunError>, ghost outcome: Outcome)
      requires Valid() && j < |systems|
      ensures outcome == OutcomeOver(j, store.Snapshot())
      ensures failure == Failure(outcome)
      ensures failure.Some? && failure.value.SystemError? ==> systems[j].result
    {
      var sys := systems[j];
      var code := CodeOf(sys.signature, components, resources);
      var mask := MaskOf(code.mask, store.bits, store.alive);
      var run: Systems.Run<T> := Systems.Run(sys, code, store.Snapshot(), store.dflt, calls[j]);
      var o, visited := RunForEach(run, mask);
      outcome := o;
      failure := Failure(o);
      if o.Raised? {
        RaisedNeedsResult(run, Keys(mask, 0));
      }
    }

    /** `next`: a builder for an id reserved from the store. */
    method Next() returns (b: EntityBuilder<T>)
      requires Valid()
      modifies store.alloc
      ensures Valid()
      ensures b == NewBuilder(b.entity, |store.kinds|)
      ensures Reservation(b.entity, store.alloc.max, store.alloc.freed) == ReserveS(old(store.alloc.max), old(store.alloc.freed))
    {
      var e := store.Next();
      b := NewBuilder(e, |store.kinds|);
    }

    /** `build`: the store's `build`. */
    method Build(b: EntityBuilder<T>)
      requires Valid() && |b.slots| == |store.kinds|
      modifies store
      ensures Valid()
      ensures store.Snapshot() == BuildS(old(store.Snapshot()), b)
    {
      store.Build(b);
    }
  }
}
