/** Whole histories of an execution: how often nodes run, that runs end and how, and what pausing,
    failing and skipping amount to. */
module Histories {
  import opened Guarantees
  import opened Scheduler
  import opened Sequences
  import opened Workflows

  // ---------- at most once ----------

  /** Every task record stands for exactly one executor invocation, and an invocation that is not
      going on has made its task final. */
  ghost predicate OncePerTask(s: State) {
    && s.started == multiset(s.tasks.Keys)
    && (forall v :: v in s.tasks ==> IsFinal(s.tasks[v]) || At(s, v, Executing))
    && (forall v :: At(s, v, Executing) ==> v in s.tasks)
  }

  lemma StepOncePerTask(wf: Workflow, slots: nat, s: State, e: Event)
    requires Tidy(s) && OncePerTask(s) && Enabled(wf, slots, s, e)
    ensures OncePerTask(Apply(wf, slots, s, e))
  {
    if e.Begin? {
      BeginOncePerTask(s, Apply(wf, slots, s, e), e.v);
    } else {
      StepStillFinal(wf, slots, s, e);
    }
  }

  lemma BeginOncePerTask(s: State, s': State, v: string)
    requires OncePerTask(s) && At(s, v, Spawned)
    requires v in s.tasks && IsFinal(s.tasks[v]) ==>
               s'.tasks == s.tasks && s'.started == s.started && s'.flight == s.flight[v := Leaving]
    requires !(v in s.tasks && IsFinal(s.tasks[v])) ==>
               && s'.tasks == s.tasks[v := Running] && s'.started == s.started + multiset{v}
               && s'.flight == s.flight[v := Executing]
    ensures OncePerTask(s')
  {
    assert v in s.tasks ==> IsFinal(s.tasks[v]);
    assert s.tasks[v := Running].Keys == s.tasks.Keys + {v};
  }

  lemma StepStillFinal(wf: Workflow, slots: nat, s: State, e: Event)
    requires Tidy(s) && OncePerTask(s) && Enabled(wf, slots, s, e) && !e.Begin?
    ensures OncePerTask(Apply(wf, slots, s, e))
  {
    var s' := Apply(wf, slots, s, e);
    assert e.Dispatch? ==> s.queue[0] in s.queue;
    assert s'.tasks.Keys == s.tasks.Keys;
    forall v | v in s'.tasks ensures IsFinal(s'.tasks[v]) || At(s', v, Executing) {
      assert IsFinal(s.tasks[v]) || At(s, v, Executing);
    }
  }

  lemma {:induction false} RunOncePerTask(wf: Workflow, slots: nat, s: State, es: seq<Event>)
    requires Tidy(s) && OncePerTask(s) && Runs(wf, slots, s, es)
    ensures var s' := After(wf, slots, s, es); Tidy(s') && OncePerTask(s')
    decreases |es|
  {
    if es != [] {
      StepTidy(wf, slots, s, es[0]);
      StepOncePerTask(wf, slots, s, es[0]);
      RunOncePerTask(wf, slots, Apply(wf, slots, s, es[0]), es[1..]);
    }
  }

  lemma FreshOncePerTask(wf: Workflow, s: State)
    requires Fresh(wf, s)
    ensures Tidy(s) && OncePerTask(s)
  {
    assert s.tasks.Keys == {};
  }

  /** Over the whole history of an execution, with failures, pauses and resumptions anywhere, no node
      is executed twice, and between groups the executed nodes are exactly those with a final task. */
  lemma AtMostOnceTheorem(wf: Workflow, slots: nat, s0: State, es: seq<Event>)
    requires Fresh(wf, s0) && Runs(wf, slots, s0, es)
    ensures var s := After(wf, slots, s0, es);
            && (forall v :: s.started[v] <= 1)
            && (forall v :: v in s.started <==> v in s.tasks)
            && (s.flight == map[] ==> forall v :: v in s.started ==> IsFinal(s.tasks[v]))
  {
    FreshOncePerTask(wf, s0);
    RunOncePerTask(wf, slots, s0, es);
  }

  // ---------- error-free histories ----------

  /** The nodes of depth below k. */
  ghost function Layer(wf: Workflow, k: nat): set<string> {
    if k == 0 then {} else wf.UpToDepth(k - 1)
  }

  lemma LayerStep(wf: Workflow, k: nat)
    requires wf.EdgesInside()
    ensures Layer(wf, k + 1) == Layer(wf, k) + wf.Ready(Layer(wf, k))
    ensures wf.PredClosed(Layer(wf, k))
  {
    DepthStep(wf, if k == 0 then 0 else k - 1);
  }

  lemma {:induction false} RootsInEveryLayer(wf: Workflow, k: nat)
    requires wf.EdgesInside() && k >= 1
    ensures wf.Ready({}) <= Layer(wf, k)
  {
    LayerStep(wf, k - 1);
    if k > 1 {
      RootsInEveryLayer(wf, k - 1);
    }
  }

  /** Nothing wrong with node v: its task belongs to a completed node or to one in flight. */
  ghost predicate HealthyAt(s: State, v: string) {
    && (v in s.tasks ==> s.tasks[v] == Running || EndedWell(s.tasks, v))
    && (v in s.tasks <==> v in s.completed || (v in s.flight && s.flight[v] != Spawned))
    && (v in s.completed ==> EndedWell(s.tasks, v) && !At(s, v, Spawned))
    && (At(s, v, Leaving) ==> v in s.completed)
  }

  /** No failure so far. */
  ghost predicate Healthy(s: State) {
    s.errs == [] && s.phase != Returned(Error) && forall v :: HealthyAt(s, v)
  }

  lemma HealthySeed(s: State)
    requires Healthy(s) && s.flight == map[]
    ensures Seed(s.tasks) == s.completed
  {
    forall v ensures v in Seed(s.tasks) <==> v in s.completed {
      assert HealthyAt(s, v);
    }
  }

  lemma StepHealthy(wf: Workflow, slots: nat, s: State, e: Event)
    requires Tidy(s) && Tracked(s) && Healthy(s) && Enabled(wf, slots, s, e) && !e.FinishFail?
    ensures Healthy(Apply(wf, slots, s, e))
  {
    if OfGoroutine(e) {
      GoroutineHealthy(wf, slots, s, e);
    } else {
      assert e.Dispatch? ==> s.queue[0] in s.queue;
      if e.Resume? {
        HealthySeed(s);
      }
      forall u ensures HealthyAt(Apply(wf, slots, s, e), u) {
        assert HealthyAt(s, u);
      }
    }
  }

  lemma GoroutineHealthy(wf: Workflow, slots: nat, s: State, e: Event)
    requires Tracked(s) && Healthy(s) && Enabled(wf, slots, s, e) && OfGoroutine(e) && !e.FinishFail?
    ensures Healthy(Apply(wf, slots, s, e))
  {
    GoroutineSteps(wf, slots, s, e);
    assert HealthyAt(s, e.v);
    OthersHealthy(s, Apply(wf, slots, s, e), e.v);
  }

  lemma OthersHealthy(s: State, s': State, v: string)
    requires Healthy(s) && GoroutineFrame(s, s', v) && s'.errs == [] && HealthyAt(s', v)
    ensures Healthy(s')
  {
    forall u ensures HealthyAt(s', u) {
      assert HealthyAt(s, u);
    }
  }

  /** Everything the current group's nodes and their predecessors amount to. */
  ghost function Covered(s: State): set<string> {
    s.completed + Elems(s.queue) + s.flight.Keys
  }

  /** The groups follow the layers. */
  ghost predicate Layered(layer: nat -> set<string>, s: State) {
    && (s.phase == Roots ==> Covered(s) == layer(if s.layers == 0 then 1 else s.layers))
    && (s.phase == Batch ==> Covered(s) == layer(s.layers + 1))
    && (s.phase == Between || s.phase.Returned? ==> s.completed == layer(s.layers))
    && (s.phase != Roots ==> s.layers >= 1)
  }

  /** All that the run needs to know of the layers. */
  ghost predicate IsLayering(wf: Workflow, layer: nat -> set<string>) {
    forall j: nat, k: nat {:trigger layer(j), layer(k)} ::
      k == j + 1 ==> layer(k) == layer(j) + wf.Ready(layer(j)) && wf.Ready({}) <= layer(k)
  }

  /** The layers of the source graph: nodes by the length of the longest walk that ends there. */
  ghost function DepthLayers(wf: Workflow): nat -> set<string> {
    (k: nat) => Layer(wf, k)
  }

  lemma DepthLayering(wf: Workflow)
    requires wf.EdgesInside()
    ensures IsLayering(wf, DepthLayers(wf))
  {
    var layer := DepthLayers(wf);
    forall j: nat, k: nat {:trigger layer(j), layer(k)} | k == j + 1
      ensures layer(k) == layer(j) + wf.Ready(layer(j)) && wf.Ready({}) <= layer(k)
    {
      assert layer(j) == Layer(wf, j) && layer(k) == Layer(wf, k);
      LayerStep(wf, j);
      RootsInEveryLayer(wf, k);
    }
  }

  lemma GoroutineCovers(s: State, s': State, v: string)
    requires GoroutineFrame(s, s', v) && (v in s'.completed || v in s'.flight)
    ensures Covered(s') == Covered(s)
  {
    assert s'.completed + s'.flight.Keys == s.completed + s.flight.Keys;
  }

  lemma LaunchCovers(s: State, s': State)
    requires s.queue != [] && s'.queue == s.queue[1..] && s'.completed == s.completed
    requires s'.flight.Keys == s.flight.Keys + {s.queue[0]} ||
             (s'.flight == s.flight && s.queue[0] in s.completed)
    ensures Covered(s') == Covered(s)
  {
    assert s.queue == [s.queue[0]] + s.queue[1..];
    assert Elems(s.queue) == Elems(s.queue[1..]) + {s.queue[0]};
  }

  lemma IdleCovers(s: State)
    requires s.queue == [] && s.flight == map[]
    ensures Covered(s) == s.completed
  {
    assert s.flight.Keys == {} && Elems(s.queue) == {};
  }

  lemma StepLayered(wf: Workflow, layer: nat -> set<string>, slots: nat, s: State, e: Event)
    requires IsLayering(wf, layer) && Tidy(s) && Healthy(s) && Layered(layer, s)
    requires Enabled(wf, slots, s, e) && !e.FinishFail?
    ensures Layered(layer, Apply(wf, slots, s, e))
  {
    if OfGoroutine(e) || e.Dispatch? || e.SkipDone? {
      WithinGroup(wf, slots, s, e);
      SameGroupLayered(layer, s, Apply(wf, slots, s, e));
    } else {
      GroupLayered(wf, layer, slots, s, e);
    }
  }

  lemma SameGroupLayered(layer: nat -> set<string>, s: State, s': State)
    requires Layered(layer, s) && Covered(s') == Covered(s) && s'.phase == s.phase && s'.layers == s.layers
    requires s.phase == Roots || s.phase == Batch
    ensures Layered(layer, s')
  {
  }

  lemma WithinGroup(wf: Workflow, slots: nat, s: State, e: Event)
    requires Tidy(s) && Healthy(s) && Enabled(wf, slots, s, e) && !e.FinishFail?
    requires OfGoroutine(e) || e.Dispatch? || e.SkipDone?
    ensures var s' := Apply(wf, slots, s, e);
            && Covered(s') == Covered(s) && s'.phase == s.phase && s'.layers == s.layers
            && (s.phase == Roots || s.phase == Batch)
  {
    if OfGoroutine(e) {
      GoroutineWithin(wf, slots, s, e);
    } else {
      LaunchWithin(wf, slots, s, e);
    }
  }

  lemma LaunchWithin(wf: Workflow, slots: nat, s: State, e: Event)
    requires Enabled(wf, slots, s, e) && (e.Dispatch? || e.SkipDone?)
    ensures var s' := Apply(wf, slots, s, e);
            && Covered(s') == Covered(s) && s'.phase == s.phase && s'.layers == s.layers
            && (s.phase == Roots || s.phase == Batch)
  {
    var s' := Apply(wf, slots, s, e);
    assert e.Dispatch? ==> s'.flight.Keys == s.flight.Keys + {s.queue[0]};
    LaunchCovers(s, s');
  }

  lemma GoroutineWithin(wf: Workflow, slots: nat, s: State, e: Event)
    requires Tidy(s) && Healthy(s) && Enabled(wf, slots, s, e) && !e.FinishFail? && OfGoroutine(e)
    ensures var s' := Apply(wf, slots, s, e);
            && Covered(s') == Covered(s) && s'.phase == s.phase && s'.layers == s.layers
            && (s.phase == Roots || s.phase == Batch)
  {
    GoroutineSteps(wf, slots, s, e);
    assert HealthyAt(s, e.v);
    GoroutineCovers(s, Apply(wf, slots, s, e), e.v);
  }

  lemma GroupLayered(wf: Workflow, layer: nat -> set<string>, slots: nat, s: State, e: Event)
    requires IsLayering(wf, layer) && Healthy(s) && Layered(layer, s) && Enabled(wf, slots, s, e)
    requires s.phase == Between || s.phase.Returned? ==> s.queue == [] && s.flight == map[]
    requires !OfGoroutine(e) && !e.Dispatch? && !e.SkipDone?
    ensures Layered(layer, Apply(wf, slots, s, e))
  {
    var s' := Apply(wf, slots, s, e);
    if e.FormBatch? {
      BatchCovers(wf, layer, s, s');
    } else if e.Resume? {
      HealthySeed(s);
      ResumeCovers(wf, layer, s, s');
    } else {
      IdleCovers(s);
    }
  }

  lemma BatchCovers(wf: Workflow, layer: nat -> set<string>, s: State, s': State)
    requires IsLayering(wf, layer) && s.completed == layer(s.layers)
    requires s'.completed == s.completed && s'.flight == map[] && Elems(s'.queue) == wf.Ready(s.completed)
    ensures Covered(s') == layer(s.layers + 1)
  {
    assert s'.flight.Keys == {};
    assert layer(s.layers + 1) == layer(s.layers) + wf.Ready(layer(s.layers));
  }

  lemma ResumeCovers(wf: Workflow, layer: nat -> set<string>, s: State, s': State)
    requires IsLayering(wf, layer) && s.completed == layer(s.layers) && s.layers >= 1
    requires s'.completed == s.completed && s'.flight == map[] && Elems(s'.queue) == wf.Ready({})
    ensures Covered(s') == layer(s.layers)
  {
    assert s'.flight.Keys == {};
    var j: nat := s.layers - 1;
    assert layer(j) == layer(j) && wf.Ready({}) <= layer(s.layers);
  }

  lemma StepOrderlyHealthy(wf: Workflow, slots: nat, s: State, e: Event)
    requires Orderly(wf, slots, s) && Healthy(s) && Enabled(wf, slots, s, e)
    ensures Orderly(wf, slots, Apply(wf, slots, s, e))
  {
    if e.Resume? {
      HealthySeed(s);
      StartOrderly(wf, slots, Apply(wf, slots, s, e));
    } else {
      StepOrderly(wf, slots, s, e);
    }
  }

  lemma {:induction false} RunLayered(wf: Workflow, layer: nat -> set<string>, slots: nat, s: State, es: seq<Event>)
    requires IsLayering(wf, layer) && Orderly(wf, slots, s) && Tracked(s)
    requires Healthy(s) && Layered(layer, s)
    requires Runs(wf, slots, s, es) && forall e :: e in es ==> !e.FinishFail?
    ensures var s' := After(wf, slots, s, es);
            Orderly(wf, slots, s') && Healthy(s') && Layered(layer, s')
    decreases |es|
  {
    if es != [] {
      var e := es[0];
      assert e in es;
      StepOrderlyHealthy(wf, slots, s, e);
      StepTracked(wf, slots, s, e);
      StepHealthy(wf, slots, s, e);
      StepLayered(wf, layer, slots, s, e);
      RunLayered(wf, layer, slots, Apply(wf, slots, s, e), es[1..]);
    }
  }

  /** An error-free history, paused and resumed at batch boundaries any number of times. It never
      returns an error; after the root phase and k - 1 batches exactly the nodes of depth below k have
      been executed, the next batch is the nodes of depth k, the stored tasks reseed exactly the
      completed nodes, and a nil return means that every node has run exactly once. */
  lemma ExactlyOnceTheorem(wf: Workflow, slots: nat, s0: State, es: seq<Event>)
    requires wf.EdgesInside() && wf.Acyclic() && Fresh(wf, s0)
    requires Runs(wf, slots, s0, es) && forall e :: e in es ==> !e.FinishFail?
    ensures var s := After(wf, slots, s0, es);
            && (forall v :: s.started[v] <= 1)
            && s.errs == [] && s.phase != Returned(Error)
            && (s.phase == Between || s.phase.Returned? ==>
                  s.layers >= 1 && s.completed == Layer(wf, s.layers) &&
                  s.started == multiset(s.completed) && Seed(s.tasks) == s.completed)
            && (forall ready :: Enabled(wf, slots, s, FormBatch(ready)) ==>
                  Elems(ready) == Layer(wf, s.layers + 1) - Layer(wf, s.layers))
            && (s.phase == Returned(Nil) ==> s.completed == wf.Ids() && s.started == multiset(wf.Ids()))
  {
    ErrorFree(wf, slots, s0, es);
    AtMostOnceTheorem(wf, slots, s0, es);
    RunEndsComplete(wf, slots, s0, es);
    var s := After(wf, slots, s0, es);
    if s.phase == Between || s.phase.Returned? {
      HealthyIdleMeans(s);
    }
    forall ready | Enabled(wf, slots, s, FormBatch(ready))
      ensures Elems(ready) == Layer(wf, s.layers + 1) - Layer(wf, s.layers)
    {
      BatchIsNextLayer(wf, DepthLayers(wf), slots, s, ready);
    }
  }

  lemma ErrorFree(wf: Workflow, slots: nat, s0: State, es: seq<Event>)
    requires wf.EdgesInside() && Fresh(wf, s0)
    requires Runs(wf, slots, s0, es) && forall e :: e in es ==> !e.FinishFail?
    ensures var s := After(wf, slots, s0, es);
            && Orderly(wf, slots, s) && Healthy(s) && OncePerTask(s)
            && IsLayering(wf, DepthLayers(wf)) && Layered(DepthLayers(wf), s)
  {
    DepthLayering(wf);
    FreshLayered(wf, slots, s0);
    FreshOncePerTask(wf, s0);
    RunLayered(wf, DepthLayers(wf), slots, s0, es);
    RunOncePerTask(wf, slots, s0, es);
  }

  lemma BatchIsNextLayer(wf: Workflow, layer: nat -> set<string>, slots: nat, s: State, ready: seq<string>)
    requires IsLayering(wf, layer) && Layered(layer, s) && Enabled(wf, slots, s, FormBatch(ready))
    ensures Elems(ready) == layer(s.layers + 1) - layer(s.layers)
  {
    NextLayer(wf, layer, s.layers);
  }

  lemma HealthyIdleMeans(s: State)
    requires Tidy(s) && Healthy(s) && OncePerTask(s) && s.flight == map[]
    ensures s.started == multiset(s.completed) && Seed(s.tasks) == s.completed
  {
    HealthySeed(s);
    IdleTasks(s);
  }

  lemma NextLayer(wf: Workflow, layer: nat -> set<string>, k: nat)
    requires IsLayering(wf, layer)
    ensures wf.Ready(layer(k)) == layer(k + 1) - layer(k)
  {
    assert layer(k + 1) == layer(k) + wf.Ready(layer(k));
  }

  lemma IdleTasks(s: State)
    requires Healthy(s) && s.flight == map[]
    ensures s.tasks.Keys == s.completed
  {
    forall v ensures v in s.tasks <==> v in s.completed { assert HealthyAt(s, v); }
  }

  lemma FreshLayered(wf: Workflow, slots: nat, s: State)
    requires wf.EdgesInside() && Fresh(wf, s)
    ensures Orderly(wf, slots, s) && Tracked(s) && Healthy(s)
    ensures Layered(DepthLayers(wf), s)
  {
    FreshHealthy(s);
    StartOrderly(wf, slots, s);
    LayerStep(wf, 0);
    assert s.flight.Keys == {};
    assert Covered(s) == wf.Ready({}) == Layer(wf, 1);
  }

  lemma FreshHealthy(s: State)
    requires s.phase == Roots && s.tasks == map[] && s.flight == map[] && s.errs == [] && s.completed == {}
    ensures Healthy(s) && Tracked(s)
  {
    forall v ensures HealthyAt(s, v) { }
  }

  // ---------- progress and termination ----------

  function StageWork(stage: Stage): nat {
    match stage
    case Spawned => 4
    case Executing => 3
    case Marking => 2
    case Reporting => 2
    case Leaving => 1
  }

  function NodeWork(s: State, v: string): nat {
    if v in s.flight then StageWork(s.flight[v]) else if v in s.queue then 5 else 0
  }

  /** Steps left in the current group. */
  function Work(nodes: seq<Node>, s: State): nat {
    if nodes == [] then 0 else NodeWork(s, nodes[0].id) + Work(nodes[1..], s)
  }

  lemma {:induction false} WorkDrops(nodes: seq<Node>, s: State, s': State, v: string)
    requires forall u :: u != v ==> NodeWork(s', u) <= NodeWork(s, u)
    requires NodeWork(s', v) < NodeWork(s, v)
    ensures Work(nodes, s') <= Work(nodes, s)
    ensures (exists n :: n in nodes && n.id == v) ==> Work(nodes, s') < Work(nodes, s)
  {
    if nodes != [] {
      WorkDrops(nodes[1..], s, s', v);
      if n :| n in nodes && n.id == v {
        assert n == nodes[0] || n in nodes[1..];
      }
    }
  }

  lemma {:induction false} WorkBound(nodes: seq<Node>, s: State)
    ensures Work(nodes, s) <= 5 * |nodes|
  {
    if nodes != [] {
      WorkBound(nodes[1..], s);
    }
  }

  function Times(c: nat, n: nat): nat {
    if n == 0 then 0 else c + Times(c, n - 1)
  }

  lemma {:induction false} TimesGrows(c: nat, m: nat, n: nat)
    requires m <= n
    ensures Times(c, m) <= Times(c, n)
    ensures m < n ==> c + Times(c, m) <= Times(c, n)
  {
    if m < n {
      TimesGrows(c, m, n - 1);
    }
  }

  /** More than the steps that any one group can take. */
  function GroupCost(wf: Workflow): nat {
    5 * |wf.nodes| + 3
  }

  /** A bound on the number of steps left in the run. */
  ghost function Measure(wf: Workflow, s: State): nat {
    match s.phase
    case Roots => Times(GroupCost(wf), |wf.Ids()| + 1) + 1 + Work(wf.nodes, s)
    case Between => Times(GroupCost(wf), |wf.Ids() - s.completed|) + GroupCost(wf) - 1
    case Batch => Times(GroupCost(wf), |wf.Ids() - s.start|) + 1 + Work(wf.nodes, s)
    case Returned(_) => 0
  }

  /** A batch is not empty, and each of its nodes is queued, in flight, completed or has reported. */
  ghost predicate Accounted(wf: Workflow, s: State) {
    && (forall v :: At(s, v, Leaving) ==> v in s.completed || v in s.errs)
    && (s.phase == Batch ==> wf.Ready(s.start) != {} && wf.Ready(s.start) <= Covered(s) + Elems(s.errs))
  }

  lemma StepAccounted(wf: Workflow, slots: nat, s: State, e: Event)
    requires Tidy(s) && Accounted(wf, s) && Enabled(wf, slots, s, e)
    ensures Accounted(wf, Apply(wf, slots, s, e))
  {
    var s' := Apply(wf, slots, s, e);
    if OfGoroutine(e) {
      GoroutineSteps(wf, slots, s, e);
      assert e.Report? ==> s'.errs[|s.errs|] == e.v;
      GoroutineAccounted(wf, s, s', e.v);
    } else if e.Dispatch? || e.SkipDone? {
      LaunchAccounted(wf, slots, s, e);
    } else if e.FormBatch? {
      assert e.ready[0] in Elems(e.ready);
    }
  }

  lemma LaunchAccounted(wf: Workflow, slots: nat, s: State, e: Event)
    requires Accounted(wf, s) && Enabled(wf, slots, s, e) && (e.Dispatch? || e.SkipDone?)
    ensures Accounted(wf, Apply(wf, slots, s, e))
  {
    LaunchWithin(wf, slots, s, e);
    CoverAccounted(wf, s, Apply(wf, slots, s, e));
  }

  lemma CoverAccounted(wf: Workflow, s: State, s': State)
    requires Accounted(wf, s) && Covered(s') == Covered(s)
    requires s'.phase == s.phase && s'.start == s.start && s'.completed == s.completed && s'.errs == s.errs
    requires forall v :: At(s', v, Leaving) ==> At(s, v, Leaving)
    ensures Accounted(wf, s')
  {
  }

  lemma GoroutineAccounted(wf: Workflow, s: State, s': State, v: string)
    requires Accounted(wf, s) && GoroutineFrame(s, s', v)
    requires forall u :: u in s.errs ==> u in s'.errs
    requires v !in s'.flight || s'.flight[v] == Leaving ==> v in s'.completed || v in s'.errs
    ensures Accounted(wf, s')
  {
    assert Covered(s) + Elems(s.errs) <= Covered(s') + Elems(s'.errs);
  }

  lemma StepWork(wf: Workflow, slots: nat, s: State, e: Event)
    requires Tidy(s) && Enabled(wf, slots, s, e) && (OfGoroutine(e) || e.Dispatch? || e.SkipDone?)
    ensures var s' := Apply(wf, slots, s, e);
            var v := if OfGoroutine(e) then e.v else s.queue[0];
            && (v in s.flight || v in s.queue) && NodeWork(s', v) < NodeWork(s, v)
            && (forall u :: u != v ==> NodeWork(s', u) <= NodeWork(s, u))
            && s'.phase == s.phase && s'.start == s.start && (s.phase == Roots || s.phase == Batch)
  {
    if OfGoroutine(e) {
      GoroutineSteps(wf, slots, s, e);
    } else {
      assert s.queue[0] in s.queue;
      forall u ensures u in s.queue[1..] <==> u in s.queue && u != s.queue[0] {
        assert s.queue == [s.queue[0]] + s.queue[1..];
      }
    }
  }

  /** Every step of a run brings it closer to returning. */
  lemma StepDecreases(wf: Workflow, slots: nat, s: State, e: Event)
    requires wf.EdgesInside() && Orderly(wf, slots, s) && Accounted(wf, s)
    requires Enabled(wf, slots, s, e) && !e.Resume?
    ensures Measure(wf, Apply(wf, slots, s, e)) < Measure(wf, s)
  {
    if OfGoroutine(e) || e.Dispatch? || e.SkipDone? {
      var v := if OfGoroutine(e) then e.v else s.queue[0];
      StepWork(wf, slots, s, e);
      assert v in wf.Ids();
      WorkDrops(wf.nodes, s, Apply(wf, slots, s, e), v);
    } else {
      GroupDecreases(wf, slots, s, e);
    }
  }

  lemma GroupDecreases(wf: Workflow, slots: nat, s: State, e: Event)
    requires s.start <= s.completed && Accounted(wf, s) && Enabled(wf, slots, s, e)
    requires !OfGoroutine(e) && !e.Dispatch? && !e.SkipDone? && !e.Resume?
    ensures Measure(wf, Apply(wf, slots, s, e)) < Measure(wf, s)
  {
    var s' := Apply(wf, slots, s, e);
    if s'.phase.Returned? {
      ReturnCost(wf, s, s');
    } else if e.EndRoots? {
      RootsCost(wf, s);
    } else if e.FormBatch? {
      BatchCost(wf, s, s');
    } else {
      EndBatchCost(wf, s, s');
    }
  }

  lemma ReturnCost(wf: Workflow, s: State, s': State)
    requires !s.phase.Returned? && s'.phase.Returned?
    ensures Measure(wf, s') < Measure(wf, s)
  {
  }

  lemma EndBatchCost(wf: Workflow, s: State, s': State)
    requires s.phase == Batch && s.queue == [] && s.flight == map[] && s.errs == []
    requires Accounted(wf, s) && s.start <= s.completed
    requires s'.phase == Between && s'.completed == s.completed
    ensures Measure(wf, s') < Measure(wf, s)
  {
    BatchAdvances(wf, s);
    TimesGrows(GroupCost(wf), |wf.Ids() - s.completed|, |wf.Ids() - s.start|);
  }

  lemma RootsCost(wf: Workflow, s: State)
    ensures Times(GroupCost(wf), |wf.Ids() - s.completed|) + GroupCost(wf) <=
            Times(GroupCost(wf), |wf.Ids()| + 1)
  {
    SubsetSize(wf.Ids() - s.completed, wf.Ids());
    TimesGrows(GroupCost(wf), |wf.Ids() - s.completed|, |wf.Ids()| + 1);
  }

  lemma BatchCost(wf: Workflow, s: State, s': State)
    requires s.phase == Between && s'.phase == Batch && s'.start == s.completed
    ensures Measure(wf, s') < Measure(wf, s)
  {
    WorkBound(wf.nodes, s');
  }

  lemma BatchAdvances(wf: Workflow, s: State)
    requires s.phase == Batch && s.queue == [] && s.flight == map[] && s.errs == []
    requires Accounted(wf, s) && s.start <= s.completed
    ensures |wf.Ids() - s.completed| < |wf.Ids() - s.start|
  {
    IdleCovers(s);
    assert Elems(s.errs) == {};
    var v :| v in wf.Ready(s.start);
    assert v in s.completed;
    SubsetSize(wf.Ids() - s.completed, wf.Ids() - s.start);
  }

  lemma {:induction false} RunIsBounded(wf: Workflow, slots: nat, s: State, es: seq<Event>)
    requires wf.EdgesInside() && Orderly(wf, slots, s) && Accounted(wf, s)
    requires Runs(wf, slots, s, es) && forall e :: e in es ==> !e.Resume?
    ensures |es| <= Measure(wf, s)
    decreases |es|
  {
    if es != [] {
      assert es[0] in es;
      StepOrderly(wf, slots, s, es[0]);
      StepAccounted(wf, slots, s, es[0]);
      StepDecreases(wf, slots, s, es[0]);
      RunIsBounded(wf, slots, Apply(wf, slots, s, es[0]), es[1..]);
    }
  }

  lemma {:induction false} SetListing(ids: set<string>) returns (r: seq<string>)
    ensures Lists(ids, r)
  {
    if ids == {} {
      r := [];
    } else {
      var v :| v in ids;
      var rest := SetListing(ids - {v});
      assert forall u :: u in rest ==> u in Elems(rest);
      r := [v] + rest;
      assert Elems(r) == {v} + Elems(rest);
    }
  }

  /** No deadlock: a run that has not returned can take a step. */
  lemma CanStep(wf: Workflow, slots: nat, s: State) returns (e: Event)
    requires wf.EdgesInside() && slots > 0 && Orderly(wf, slots, s) && Tracked(s) && !s.phase.Returned?
    ensures Enabled(wf, slots, s, e) && !e.Pause? && !e.Resume?
  {
    if s.phase == Between {
      var ready := SetListing(wf.Ready(s.completed));
      e := if ready == [] then ReturnNil else FormBatch(ready);
      assert ready == [] ==> Elems(ready) == {};
    } else if s.flight != map[] {
      var v :| v in s.flight;
      match s.flight[v] {
        case Spawned => e := Begin(v);
        case Executing => e := if wf.HasExecutor(v) then FinishOk(v) else FinishFail(v);
        case Marking => e := Mark(v);
        case Reporting =>
          SendNeverBlocks(wf, slots, s, v);
          e := Report(v);
        case Leaving => e := Release(v);
      }
    } else if s.queue != [] {
      e := if s.queue[0] in s.completed then SkipDone else Dispatch;
    } else {
      e := if s.phase == Roots then EndRoots else EndBatch;
    }
  }

  /** Every run, with failures or without, takes a bounded number of steps, and stops only by returning. */
  lemma TerminationTheorem(wf: Workflow, slots: nat, s0: State, es: seq<Event>)
    requires wf.EdgesInside() && slots > 0 && Start(wf, s0) && wf.PredClosed(s0.completed)
    requires Runs(wf, slots, s0, es) && forall e :: e in es ==> !e.Resume?
    ensures |es| <= Measure(wf, s0)
    ensures var s := After(wf, slots, s0, es);
            (forall e :: Enabled(wf, slots, s, e) ==> e.Pause? || e.Resume?) ==> s.phase.Returned?
  {
    StartOrderly(wf, slots, s0);
    RunIsBounded(wf, slots, s0, es);
    RunOrderly(wf, slots, s0, es);
    RunTracked(wf, slots, s0, es);
    var s := After(wf, slots, s0, es);
    if !s.phase.Returned? {
      var e := CanStep(wf, slots, s);
    }
  }

  lemma {:induction false} RunTracked(wf: Workflow, slots: nat, s: State, es: seq<Event>)
    requires Orderly(wf, slots, s) && Tracked(s)
    requires Runs(wf, slots, s, es) && forall e :: e in es ==> !e.Resume?
    ensures Tracked(After(wf, slots, s, es))
    decreases |es|
  {
    if es != [] {
      assert es[0] in es;
      StepOrderly(wf, slots, s, es[0]);
      StepTracked(wf, slots, s, es[0]);
      RunTracked(wf, slots, Apply(wf, slots, s, es[0]), es[1..]);
    }
  }

  lemma {:induction false} NeverPaused(wf: Workflow, slots: nat, s: State, es: seq<Event>)
    requires s.phase != Returned(Paused) && Runs(wf, slots, s, es) && forall e :: e in es ==> !e.Pause?
    ensures After(wf, slots, s, es).phase != Returned(Paused)
    decreases |es|
  {
    if es != [] {
      assert es[0] in es;
      NeverPaused(wf, slots, Apply(wf, slots, s, es[0]), es[1..]);
    }
  }

  /** A first run without errors that is not paused: it cannot go on forever, and when nothing but a
      pause could still happen it has returned nil with every node executed exactly once. */
  lemma CompletionTheorem(wf: Workflow, slots: nat, s0: State, es: seq<Event>)
    requires wf.EdgesInside() && wf.Acyclic() && slots > 0 && Fresh(wf, s0)
    requires Runs(wf, slots, s0, es) && forall e :: e in es ==> !e.FinishFail? && !e.Pause? && !e.Resume?
    ensures |es| <= Measure(wf, s0)
    ensures var s := After(wf, slots, s0, es);
            (forall e :: Enabled(wf, slots, s, e) ==> e.Pause? || e.Resume?) ==>
              s.phase == Returned(Nil) && s.completed == wf.Ids() && s.started == multiset(wf.Ids())
  {
    TerminationTheorem(wf, slots, s0, es);
    ExactlyOnceTheorem(wf, slots, s0, es);
    NeverPaused(wf, slots, s0, es);
    Outcomes(After(wf, slots, s0, es).phase);
  }

  lemma {:induction false} RunsAppend(wf: Workflow, slots: nat, s: State, es: seq<Event>, more: seq<Event>)
    requires Runs(wf, slots, s, es) && Runs(wf, slots, After(wf, slots, s, es), more)
    ensures Runs(wf, slots, s, es + more)
    ensures After(wf, slots, s, es + more) == After(wf, slots, After(wf, slots, s, es), more)
    decreases |es|
  {
    if es == [] {
      assert es + more == more;
    } else {
      assert (es + more)[0] == es[0] && (es + more)[1..] == es[1..] + more;
      RunsAppend(wf, slots, Apply(wf, slots, s, es[0]), es[1..], more);
    }
  }

  lemma PausedRestarts(wf: Workflow, slots: nat, s0: State, before: seq<Event>, roots: seq<string>)
    requires wf.EdgesInside() && Fresh(wf, s0)
    requires Runs(wf, slots, s0, before) && forall e :: e in before ==> !e.FinishFail?
    requires Enabled(wf, slots, After(wf, slots, s0, before), Resume(roots))
    ensures var resumed := Apply(wf, slots, After(wf, slots, s0, before), Resume(roots));
            Start(wf, resumed) && wf.PredClosed(resumed.completed)
  {
    ErrorFree(wf, slots, s0, before);
    HealthyIdleMeans(After(wf, slots, s0, before));
  }

  /** The same after any number of pauses: a history without errors that is resumed once more and then
      left alone takes a bounded number of steps, and it ends with a nil return and every node executed
      exactly once over the whole history. */
  lemma ResumedCompletionTheorem(wf: Workflow, slots: nat, s0: State, before: seq<Event>, roots: seq<string>,
                                 after: seq<Event>)
    requires wf.EdgesInside() && wf.Acyclic() && slots > 0 && Fresh(wf, s0)
    requires Runs(wf, slots, s0, before) && Enabled(wf, slots, After(wf, slots, s0, before), Resume(roots))
    requires Runs(wf, slots, Apply(wf, slots, After(wf, slots, s0, before), Resume(roots)), after)
    requires forall e :: e in before ==> !e.FinishFail?
    requires forall e :: e in after ==> !e.FinishFail? && !e.Pause? && !e.Resume?
    ensures var resumed := Apply(wf, slots, After(wf, slots, s0, before), Resume(roots));
            var s := After(wf, slots, resumed, after);
            && |after| <= Measure(wf, resumed)
            && ((forall e :: Enabled(wf, slots, s, e) ==> e.Pause? || e.Resume?) ==>
                  s.phase == Returned(Nil) && s.completed == wf.Ids() && s.started == multiset(wf.Ids()))
  {
    var resumed := Apply(wf, slots, After(wf, slots, s0, before), Resume(roots));
    PausedRestarts(wf, slots, s0, before, roots);
    TerminationTheorem(wf, slots, resumed, after);
    NeverPaused(wf, slots, resumed, after);
    RunsAppend(wf, slots, s0, before, [Resume(roots)] + after);
    ExactlyOnceTheorem(wf, slots, s0, before + ([Resume(roots)] + after));
    Outcomes(After(wf, slots, resumed, after).phase);
  }

  lemma Outcomes(p: Phase)
    ensures p.Returned? ==> p == Returned(Nil) || p == Returned(Error) || p == Returned(Paused)
  {
    match p
    case Returned(outcome) => assert outcome == Nil || outcome == Error || outcome == Paused;
    case _ =>
  }

  // ---------- pausing after a failure ----------

  lemma StepRootFailures(wf: Workflow, slots: nat, s: State, e: Event)
    requires Tidy(s) && Sourced(wf, s) && FailuresPending(s) && RootFailures(wf, s)
    requires Enabled(wf, slots, s, e) && (e.Resume? ==> NoneFailed(s))
    ensures RootFailures(wf, Apply(wf, slots, s, e))
  {
    var s' := Apply(wf, slots, s, e);
    if e.FinishFail? && s.phase == Roots {
      assert wf.DepsIn({}, e.v);
    } else if e.EndBatch? && s.errs == [] {
      assert NoneFailed(s);
    }
    forall v | HasFailed(s', v) ensures HasFailed(s, v) || e == FinishFail(v) { }
  }

  /** A node whose stored task failed, in a run resumed from that store. */
  ghost predicate CountsFailed(s: State, f: string) {
    && HasFailed(s, f)
    && (s.phase == Roots ==> f in s.queue || f in s.completed || At(s, f, Spawned))
    && (s.phase == Between ==> f in s.completed)
    && (s.phase == Roots || s.phase == Between)
  }

  lemma StepCountsFailed(wf: Workflow, slots: nat, s: State, e: Event, f: string)
    requires Tracked(s) && CountsFailed(s, f) && Enabled(wf, slots, s, e)
    requires !e.FormBatch? && !e.ReturnNil? && !e.Pause? && !e.Resume?
    ensures CountsFailed(Apply(wf, slots, s, e), f)
  {
    if OfGoroutine(e) {
      GoroutineSteps(wf, slots, s, e);
      GoroutineCountsFailed(s, Apply(wf, slots, s, e), e.v, f);
    } else if e.Dispatch? || e.SkipDone? {
      LaunchCountsFailed(s, Apply(wf, slots, s, e), f);
    }
  }

  lemma LaunchCountsFailed(s: State, s': State, f: string)
    requires CountsFailed(s, f) && s.queue != [] && s'.queue == s.queue[1..]
    requires s'.phase == s.phase && s'.completed == s.completed && s'.tasks == s.tasks
    requires At(s, f, Spawned) ==> At(s', f, Spawned)
    requires s.queue[0] in s.completed || At(s', s.queue[0], Spawned)
    ensures CountsFailed(s', f)
  {
    assert s.queue == [s.queue[0]] + s.queue[1..];
  }

  lemma GoroutineCountsFailed(s: State, s': State, v: string, f: string)
    requires CountsFailed(s, f) && GoroutineFrame(s, s', v)
    requires f == v ==> HasFailed(s', f) && (At(s, f, Spawned) ==> f in s'.completed)
    ensures CountsFailed(s', f)
  {
  }

  lemma {:induction false} ResumedCountsFailed(wf: Workflow, slots: nat, s: State, es: seq<Event>, f: string)
    requires Tidy(s) && Tracked(s) && CountsFailed(s, f) && Runs(wf, slots, s, es)
    requires forall e :: e in es ==> !e.FormBatch? && !e.ReturnNil? && !e.Pause? && !e.Resume?
    ensures CountsFailed(After(wf, slots, s, es), f)
    decreases |es|
  {
    if es != [] {
      var e := es[0];
      assert e in es;
      StepTracked(wf, slots, s, e);
      StepTidy(wf, slots, s, e);
      StepCountsFailed(wf, slots, s, e, f);
      ResumedCountsFailed(wf, slots, Apply(wf, slots, s, e), es[1..], f);
    }
  }

  /** Nothing reads the error channel between the root phase and the pause, and a resumed run takes
      a failed task for final. So when a resumed run has been through its roots, the nodes it counts
      as completed all ended well if and only if no task had failed when the execution was paused. */
  lemma PauseTheorem(wf: Workflow, slots: nat, s0: State, before: seq<Event>, roots: seq<string>, after: seq<Event>)
    requires CleanStart(wf, s0) && Runs(wf, slots, s0, before) && ResumesClean(wf, slots, s0, before)
    requires Enabled(wf, slots, After(wf, slots, s0, before), Resume(roots))
    requires Runs(wf, slots, Apply(wf, slots, After(wf, slots, s0, before), Resume(roots)), after)
    requires forall e :: e in after ==> !e.FormBatch? && !e.ReturnNil? && !e.Pause? && !e.Resume?
    ensures var paused := After(wf, slots, s0, before);
            var s := After(wf, slots, Apply(wf, slots, paused, Resume(roots)), after);
            s.phase == Between ==>
              ((forall v :: v in s.completed ==> EndedWell(s.tasks, v)) <==> NoneFailed(paused))
  {
    StartContained(wf, slots, s0);
    RunRootFailures(wf, slots, s0, before);
    ResumeIff(wf, slots, After(wf, slots, s0, before), roots, after);
  }

  lemma ResumeIff(wf: Workflow, slots: nat, paused: State, roots: seq<string>, after: seq<Event>)
    requires Orderly(wf, slots, paused) && Tracked(paused) && Contained(wf, paused) && RootFailures(wf, paused)
    requires Enabled(wf, slots, paused, Resume(roots))
    requires Runs(wf, slots, Apply(wf, slots, paused, Resume(roots)), after)
    requires forall e :: e in after ==> !e.FormBatch? && !e.ReturnNil? && !e.Pause? && !e.Resume?
    ensures var s := After(wf, slots, Apply(wf, slots, paused, Resume(roots)), after);
            s.phase == Between ==>
              ((forall v :: v in s.completed ==> EndedWell(s.tasks, v)) <==> NoneFailed(paused))
  {
    if NoneFailed(paused) {
      ResumedContained(wf, slots, paused, roots, after);
    } else {
      ResumeCountsFailed(wf, slots, paused, roots, after);
    }
  }

  lemma ResumedContained(wf: Workflow, slots: nat, paused: State, roots: seq<string>, after: seq<Event>)
    requires Orderly(wf, slots, paused) && Tracked(paused) && Contained(wf, paused) && NoneFailed(paused)
    requires Enabled(wf, slots, paused, Resume(roots))
    requires Runs(wf, slots, Apply(wf, slots, paused, Resume(roots)), after)
    requires forall e :: e in after ==> !e.Resume?
    ensures var s := After(wf, slots, Apply(wf, slots, paused, Resume(roots)), after);
            Orderly(wf, slots, s) && Tracked(s) && Contained(wf, s)
  {
    var resumed := Apply(wf, slots, paused, Resume(roots));
    StepContained(wf, slots, paused, Resume(roots));
    NoResumes(wf, slots, resumed, after);
    RunContained(wf, slots, resumed, after);
  }

  lemma ResumeCountsFailed(wf: Workflow, slots: nat, paused: State, roots: seq<string>, after: seq<Event>)
    requires Tidy(paused) && Tracked(paused) && RootFailures(wf, paused) && !NoneFailed(paused)
    requires Enabled(wf, slots, paused, Resume(roots))
    requires Runs(wf, slots, Apply(wf, slots, paused, Resume(roots)), after)
    requires forall e :: e in after ==> !e.FormBatch? && !e.ReturnNil? && !e.Pause? && !e.Resume?
    ensures var s := After(wf, slots, Apply(wf, slots, paused, Resume(roots)), after);
            s.phase == Between ==> exists f :: f in s.completed && !EndedWell(s.tasks, f)
  {
    var f :| HasFailed(paused, f);
    assert f in Elems(roots);
    StepTracked(wf, slots, paused, Resume(roots));
    StepTidy(wf, slots, paused, Resume(roots));
    ResumedCountsFailed(wf, slots, Apply(wf, slots, paused, Resume(roots)), after, f);
    assert HasFailed(After(wf, slots, Apply(wf, slots, paused, Resume(roots)), after), f);
  }

  lemma {:induction false} RunRootFailures(wf: Workflow, slots: nat, s: State, es: seq<Event>)
    requires Orderly(wf, slots, s) && Tracked(s) && Contained(wf, s) && RootFailures(wf, s)
    requires Runs(wf, slots, s, es) && ResumesClean(wf, slots, s, es)
    ensures var s' := After(wf, slots, s, es);
            Orderly(wf, slots, s') && Tracked(s') && Contained(wf, s') && RootFailures(wf, s')
    decreases |es|
  {
    if es != [] {
      StepContained(wf, slots, s, es[0]);
      StepRootFailures(wf, slots, s, es[0]);
      RunRootFailures(wf, slots, Apply(wf, slots, s, es[0]), es[1..]);
    }
  }

  lemma {:induction false} NoResumes(wf: Workflow, slots: nat, s: State, es: seq<Event>)
    requires Runs(wf, slots, s, es) && forall e :: e in es ==> !e.Resume?
    ensures ResumesClean(wf, slots, s, es)
    decreases |es|
  {
    if es != [] {
      assert es[0] in es;
      NoResumes(wf, slots, Apply(wf, slots, s, es[0]), es[1..]);
    }
  }

  // ---------- failures are for good ----------

  lemma {:induction false} FailedForGood(wf: Workflow, slots: nat, s: State, es: seq<Event>, f: string)
    requires Tidy(s) && Tracked(s) && HasFailed(s, f) && Runs(wf, slots, s, es)
    ensures HasFailed(After(wf, slots, s, es), f)
    decreases |es|
  {
    if es != [] {
      StepTracked(wf, slots, s, es[0]);
      StepTidy(wf, slots, s, es[0]);
      FailedForGood(wf, slots, Apply(wf, slots, s, es[0]), es[1..], f);
    }
  }

  /** A resumption after a failure leaves that failure in every later state. */
  lemma {:induction false} UncleanKeepsFailure(wf: Workflow, slots: nat, s: State, es: seq<Event>)
    requires Tidy(s) && Tracked(s) && Runs(wf, slots, s, es) && !ResumesClean(wf, slots, s, es)
    ensures !NoneFailed(After(wf, slots, s, es))
    decreases |es|
  {
    if es[0].Resume? && !NoneFailed(s) {
      var f :| HasFailed(s, f);
      FailedForGood(wf, slots, s, es, f);
    } else {
      StepTracked(wf, slots, s, es[0]);
      StepTidy(wf, slots, s, es[0]);
      UncleanKeepsFailure(wf, slots, Apply(wf, slots, s, es[0]), es[1..]);
    }
  }

  /** What a nil return is worth, in any history: it means that nothing has failed if and only if
      the execution was never resumed while some stored task had failed. */
  lemma NilTheorem(wf: Workflow, slots: nat, s0: State, es: seq<Event>)
    requires wf.EdgesInside() && wf.Acyclic() && CleanStart(wf, s0) && Runs(wf, slots, s0, es)
    ensures var s := After(wf, slots, s0, es);
            s.phase == Returned(Nil) ==> (NoneFailed(s) <==> ResumesClean(wf, slots, s0, es))
  {
    if ResumesClean(wf, slots, s0, es) {
      ContainmentTheorem(wf, slots, s0, es);
    } else {
      StartContained(wf, slots, s0);
      UncleanKeepsFailure(wf, slots, s0, es);
    }
  }

  /** The same for one pause and the whole run that is resumed from it. */
  lemma PausedNilTheorem(wf: Workflow, slots: nat, s0: State, before: seq<Event>, roots: seq<string>,
                         after: seq<Event>)
    requires wf.EdgesInside() && wf.Acyclic() && CleanStart(wf, s0)
    requires Runs(wf, slots, s0, before) && ResumesClean(wf, slots, s0, before)
    requires Enabled(wf, slots, After(wf, slots, s0, before), Resume(roots))
    requires Runs(wf, slots, Apply(wf, slots, After(wf, slots, s0, before), Resume(roots)), after)
    requires forall e :: e in after ==> !e.Resume?
    ensures var paused := After(wf, slots, s0, before);
            var s := After(wf, slots, Apply(wf, slots, paused, Resume(roots)), after);
            s.phase == Returned(Nil) ==> (NoneFailed(s) <==> NoneFailed(paused))
  {
    var paused := After(wf, slots, s0, before);
    var resumed := Apply(wf, slots, paused, Resume(roots));
    StartContained(wf, slots, s0);
    RunContained(wf, slots, s0, before);
    if NoneFailed(paused) {
      ResumedContained(wf, slots, paused, roots, after);
      RunEndsComplete(wf, slots, resumed, after);
      if After(wf, slots, resumed, after).phase == Returned(Nil) {
        NilIsClean(wf, After(wf, slots, resumed, after));
      }
    } else {
      var f :| HasFailed(paused, f);
      StepTracked(wf, slots, paused, Resume(roots));
      StepTidy(wf, slots, paused, Resume(roots));
      FailedForGood(wf, slots, resumed, after, f);
    }
  }

  // ---------- skipping on failure ----------

  /** The task of a node that is skipped on failure ends by its executor, or fails for want of one. */
  ghost predicate SkipsAt(wf: Workflow, s: State, v: string) {
    && (HasFailed(s, v) ==> !wf.HasExecutor(v))
    && (EndedWell(s.tasks, v) ==> wf.HasExecutor(v))
    && (v in s.tasks ==> s.tasks[v] != Cancelled)
  }

  lemma {:induction false} RunSkips(wf: Workflow, slots: nat, s: State, es: seq<Event>, v: string)
    requires wf.SkipsOnFailure(v) && SkipsAt(wf, s, v) && Runs(wf, slots, s, es)
    ensures SkipsAt(wf, After(wf, slots, s, es), v)
    decreases |es|
  {
    if es != [] {
      RunSkips(wf, slots, Apply(wf, slots, s, es[0]), es[1..], v);
    }
  }

  /** A node marked to be skipped on failure fails, once executed, exactly when it has no executor. */
  lemma SkipTheorem(wf: Workflow, slots: nat, s0: State, es: seq<Event>, v: string)
    requires Fresh(wf, s0) && Runs(wf, slots, s0, es) && wf.SkipsOnFailure(v)
    ensures var s := After(wf, slots, s0, es);
            && (HasFailed(s, v) ==> !wf.HasExecutor(v))
            && (v in s.started && !At(s, v, Executing) ==>
                  (HasFailed(s, v) <==> !wf.HasExecutor(v)) && (EndedWell(s.tasks, v) <==> wf.HasExecutor(v)))
  {
    FreshOncePerTask(wf, s0);
    RunOncePerTask(wf, slots, s0, es);
    RunSkips(wf, slots, s0, es, v);
  }

  /** Two nodes, a before b. */
  function Chain(): Workflow {
    Workflow([Node("a", 0, false, true), Node("b", 1, false, true)], [Edge("a", "b", false)])
  }

  lemma ChainFacts()
    ensures Chain().WellFormed() && Chain().Acyclic() && Chain().Reaches("a", "b")
    ensures Chain().Ids() == {"a", "b"}
    ensures Chain().Ready({}) == {"a"} && Chain().Ready({"a"}) == {"b"} && Chain().Ready({"a", "b"}) == {}
    ensures Chain().HasExecutor("a") && Chain().HasExecutor("b") && !Chain().SkipsOnFailure("a")
  {
    var wf := Chain();
    var a, b, e := wf.nodes[0], wf.nodes[1], wf.edges[0];
    assert a in wf.nodes && b in wf.nodes && e in wf.edges;
    assert wf.Ids() == {"a", "b"};
    assert forall u, v :: wf.HasEdge(u, v) <==> u == "a" && v == "b";
    RankedIsAcyclic(wf, map["a" := 0, "b" := 1]);
    assert wf.IsWalk(["a", "b"]);
    assert forall done, v {:trigger wf.DepsIn(done, v)} :: wf.DepsIn(done, v) <==> (v == "b" ==> "a" in done) by {
      assert wf.HasEdge("a", "b");
    }
    assert wf.Ready({}) == {"a"};
    assert wf.Ready({"a"}) == {"b"};
    assert wf.Ready({"a", "b"}) == {};
  }

  ghost predicate Reachable(wf: Workflow, s0: State, s: State) {
    exists es :: Runs(wf, 1, s0, es) && After(wf, 1, s0, es) == s
  }

  lemma Then(wf: Workflow, s0: State, s: State, e: Event, s': State)
    requires Reachable(wf, s0, s) && Enabled(wf, 1, s, e) && Apply(wf, 1, s, e) == s'
    ensures Reachable(wf, s0, s')
  {
    var es :| Runs(wf, 1, s0, es) && After(wf, 1, s0, es) == s;
    RunsSnoc(wf, 1, s0, es, e);
  }

  lemma LaunchAlone(wf: Workflow, s0: State, s: State, v: string) returns (s': State)
    requires Reachable(wf, s0, s) && (s.phase == Roots || s.phase == Batch)
    requires s.queue == [v] && s.flight == map[] && v !in s.completed
    ensures Reachable(wf, s0, s') && s' == s.(queue := [], flight := map[v := Spawned])
  {
    s' := s.(queue := [], flight := map[v := Spawned]);
    Then(wf, s0, s, Dispatch, s');
  }

  lemma BeginAlone(wf: Workflow, s0: State, s: State, v: string) returns (s': State)
    requires Reachable(wf, s0, s) && s.flight == map[v := Spawned] && v !in s.tasks
    ensures Reachable(wf, s0, s')
    ensures s' == s.(flight := map[v := Executing], tasks := s.tasks[v := Running],
                     started := s.started + multiset{v})
  {
    s' := s.(flight := map[v := Executing], tasks := s.tasks[v := Running], started := s.started + multiset{v});
    Then(wf, s0, s, Begin(v), s');
  }

  lemma ReleaseAlone(wf: Workflow, s0: State, s: State, v: string) returns (s': State)
    requires Reachable(wf, s0, s) && s.flight == map[v := Leaving]
    ensures Reachable(wf, s0, s') && s' == s.(flight := map[])
  {
    s' := s.(flight := map[]);
    assert s.flight - {v} == map[];
    Then(wf, s0, s, Release(v), s');
  }

  lemma FailAlone(wf: Workflow, s0: State, s: State, v: string) returns (s': State)
    requires Reachable(wf, s0, s) && s.flight == map[v := Executing]
    requires !(wf.HasExecutor(v) && wf.SkipsOnFailure(v)) && |s.errs| < |wf.nodes|
    ensures Reachable(wf, s0, s')
    ensures s' == s.(flight := map[], tasks := s.tasks[v := Failed], errs := s.errs + [v])
  {
    var s1 := s.(flight := map[v := Reporting], tasks := s.tasks[v := Failed]);
    Then(wf, s0, s, FinishFail(v), s1);
    s' := ReportAlone(wf, s0, s1, v);
  }

  lemma ReportAlone(wf: Workflow, s0: State, s: State, v: string) returns (s': State)
    requires Reachable(wf, s0, s) && s.flight == map[v := Reporting] && |s.errs| < |wf.nodes|
    ensures Reachable(wf, s0, s') && s' == s.(flight := map[], errs := s.errs + [v])
  {
    var s1 := s.(flight := map[v := Leaving], errs := s.errs + [v]);
    Then(wf, s0, s, Report(v), s1);
    s' := ReleaseAlone(wf, s0, s1, v);
  }

  lemma SucceedAlone(wf: Workflow, s0: State, s: State, v: string) returns (s': State)
    requires Reachable(wf, s0, s) && s.flight == map[v := Executing] && wf.HasExecutor(v)
    ensures Reachable(wf, s0, s')
    ensures s' == s.(flight := map[], tasks := s.tasks[v := Completed], completed := s.completed + {v})
  {
    var s1 := s.(flight := map[v := Marking], tasks := s.tasks[v := Completed]);
    Then(wf, s0, s, FinishOk(v), s1);
    s' := MarkAlone(wf, s0, s1, v);
  }

  lemma MarkAlone(wf: Workflow, s0: State, s: State, v: string) returns (s': State)
    requires Reachable(wf, s0, s) && s.flight == map[v := Marking]
    ensures Reachable(wf, s0, s') && s' == s.(flight := map[], completed := s.completed + {v})
  {
    var s1 := s.(flight := map[v := Leaving], completed := s.completed + {v});
    Then(wf, s0, s, Mark(v), s1);
    s' := ReleaseAlone(wf, s0, s1, v);
  }

  /** A queued node that has not run yet, launched and executed with success. */
  lemma RunAlone(wf: Workflow, s0: State, s: State, v: string) returns (s': State)
    requires Reachable(wf, s0, s) && (s.phase == Roots || s.phase == Batch) && wf.HasExecutor(v)
    requires s.queue == [v] && s.flight == map[] && v !in s.completed && v !in s.tasks
    ensures Reachable(wf, s0, s')
    ensures s' == s.(queue := [], tasks := s.tasks[v := Completed], completed := s.completed + {v},
                     started := s.started + multiset{v})
  {
    var s1 := LaunchAlone(wf, s0, s, v);
    var s2 := BeginAlone(wf, s0, s1, v);
    s' := SucceedAlone(wf, s0, s2, v);
    assert s.tasks[v := Running][v := Completed] == s.tasks[v := Completed];
  }

  /** The failing family is not empty, and goes all the way: a root fails, the execution is paused
      and resumed, and the resumed run executes the failed node's successor and returns nil. */
  lemma PauseHidesFailure() returns (wf: Workflow, s0: State, es: seq<Event>)
    ensures wf.WellFormed() && wf.Acyclic() && Fresh(wf, s0) && Runs(wf, 1, s0, es)
    ensures var s := After(wf, 1, s0, es);
            s.phase == Returned(Nil) && HasFailed(s, "a") && s.started["b"] == 1 && wf.Reaches("a", "b")
  {
    wf := Chain();
    ChainFacts();
    assert Elems(["a"]) == {"a"};
    s0 := State(Roots, ["a"], map[], {}, map[], [], {}, 0, multiset{});
    assert Seed(map[]) == {};
    assert Runs(wf, 1, s0, []) && After(wf, 1, s0, []) == s0;
    var s3 := FailAndPause(wf, s0);
    var s4 := ResumedRoots(wf, s0, s3);
    s4 := ResumedBatch(wf, s0, s4);
    es :| Runs(wf, 1, s0, es) && After(wf, 1, s0, es) == s4;
  }

  lemma FailAndPause(wf: Workflow, s0: State) returns (s': State)
    requires wf == Chain() && s0 == State(Roots, ["a"], map[], {}, map[], [], {}, 0, multiset{})
    requires Reachable(wf, s0, s0)
    ensures Reachable(wf, s0, s') && s' == s0.(phase := Returned(Paused), queue := [], tasks := map["a" := Failed],
                                               errs := ["a"], layers := 1, started := multiset{"a"})
  {
    ChainFacts();
    var s1 := LaunchAlone(wf, s0, s0, "a");
    var s2 := BeginAlone(wf, s0, s1, "a");
    var s3 := FailAlone(wf, s0, s2, "a");
    assert s0.tasks["a" := Running]["a" := Failed] == map["a" := Failed];
    var s4 := s3.(phase := Between, layers := 1);
    Then(wf, s0, s3, EndRoots, s4);
    s' := s4.(phase := Returned(Paused));
    Then(wf, s0, s4, Pause, s');
  }

  lemma ResumedRoots(wf: Workflow, s0: State, s: State) returns (s': State)
    requires wf == Chain() && Reachable(wf, s0, s)
    requires s.phase == Returned(Paused) && s.flight == map[] && s.tasks == map["a" := Failed] && s.layers == 1
    ensures Reachable(wf, s0, s')
    ensures s' == s.(phase := Between, queue := [], completed := {"a"}, errs := [], start := {})
  {
    var s1 := ResumeAlone(wf, s0, s);
    var s2 := LaunchAlone(wf, s0, s1, "a");
    s' := ReenterAlone(wf, s0, s2, "a");
  }

  lemma ResumeAlone(wf: Workflow, s0: State, s: State) returns (s': State)
    requires wf == Chain() && Reachable(wf, s0, s) && s.phase == Returned(Paused) && s.tasks == map["a" := Failed]
    ensures Reachable(wf, s0, s')
    ensures s' == s.(phase := Roots, queue := ["a"], completed := {}, errs := [], start := {})
  {
    ChainFacts();
    assert Elems(["a"]) == {"a"};
    assert Seed(map["a" := Failed]) == {};
    s' := s.(phase := Roots, queue := ["a"], completed := {}, errs := [], start := {});
    Then(wf, s0, s, Resume(["a"]), s');
  }

  /** The goroutine of a root whose stored task is final, and the end of the root phase. */
  lemma ReenterAlone(wf: Workflow, s0: State, s: State, v: string) returns (s': State)
    requires Reachable(wf, s0, s) && s.phase == Roots && s.queue == [] && s.flight == map[v := Spawned]
    requires v in s.tasks && IsFinal(s.tasks[v]) && s.layers == 1
    ensures Reachable(wf, s0, s')
    ensures s' == s.(phase := Between, flight := map[], completed := s.completed + {v})
  {
    var s1 := s.(completed := s.completed + {v}, flight := map[v := Leaving]);
    Then(wf, s0, s, Begin(v), s1);
    var s2 := ReleaseAlone(wf, s0, s1, v);
    s' := s2.(phase := Between);
    Then(wf, s0, s2, EndRoots, s');
  }

  lemma ResumedBatch(wf: Workflow, s0: State, s: State) returns (s': State)
    requires wf == Chain() && Reachable(wf, s0, s)
    requires s.phase == Between && s.queue == [] && s.flight == map[] && s.completed == {"a"} && s.errs == []
    requires s.tasks == map["a" := Failed] && s.started == multiset{"a"}
    ensures Reachable(wf, s0, s') && s'.phase == Returned(Nil) && HasFailed(s', "a") && s'.started["b"] == 1
  {
    ChainFacts();
    var s1 := FormAlone(wf, s0, s);
    var s2 := RunAlone(wf, s0, s1, "b");
    assert s2.completed == {"a", "b"};
    s' := NothingLeft(wf, s0, s2);
  }

  lemma FormAlone(wf: Workflow, s0: State, s: State) returns (s': State)
    requires wf == Chain() && Reachable(wf, s0, s) && s.phase == Between && s.completed == {"a"}
    ensures Reachable(wf, s0, s') && s' == s.(phase := Batch, queue := ["b"], start := {"a"})
  {
    ChainFacts();
    assert Elems(["b"]) == {"b"};
    s' := s.(phase := Batch, queue := ["b"], start := {"a"});
    Then(wf, s0, s, FormBatch(["b"]), s');
  }

  lemma NothingLeft(wf: Workflow, s0: State, s: State) returns (s': State)
    requires wf == Chain() && Reachable(wf, s0, s) && s.completed == {"a", "b"}
    requires s.phase == Batch && s.queue == [] && s.flight == map[] && s.errs == []
    ensures Reachable(wf, s0, s') && s' == s.(phase := Returned(Nil), layers := s.layers + 1)
  {
    ChainFacts();
    var s1 := s.(phase := Between, layers := s.layers + 1);
    Then(wf, s0, s, EndBatch, s1);
    s' := s1.(phase := Returned(Nil));
    Then(wf, s0, s1, ReturnNil, s');
  }

  /** A single node that is marked to be skipped on failure but has no executor. */
  function Lone(): Workflow {
    Workflow([Node("a", 0, true, false)], [])
  }

  lemma LoneFacts()
    ensures Lone().WellFormed() && Lone().Acyclic() && Lone().SkipsOnFailure("a") && !Lone().HasExecutor("a")
    ensures Lone().Ids() == {"a"} && Lone().Ready({}) == {"a"}
  {
    var wf := Lone();
    assert wf.nodes[0] in wf.nodes;
    RankedIsAcyclic(wf, map["a" := 0]);
  }

  /** It is executed, and the run, instead of completing, holds a failed task and an error. */
  lemma SkipWithoutExecutor() returns (wf: Workflow, s0: State, es: seq<Event>)
    ensures wf.WellFormed() && wf.Acyclic() && wf.SkipsOnFailure("a") && Fresh(wf, s0) && Runs(wf, 1, s0, es)
    ensures var s := After(wf, 1, s0, es); HasFailed(s, "a") && s.errs == ["a"] && s.started["a"] == 1
  {
    wf := Lone();
    LoneFacts();
    assert Elems(["a"]) == {"a"};
    s0 := State(Roots, ["a"], map[], {}, map[], [], {}, 0, multiset{});
    assert Seed(map[]) == {};
    assert Runs(wf, 1, s0, []) && After(wf, 1, s0, []) == s0;
    var s1 := LaunchAlone(wf, s0, s0, "a");
    var s2 := BeginAlone(wf, s0, s1, "a");
    var s3 := FailAlone(wf, s0, s2, "a");
    es :| Runs(wf, 1, s0, es) && After(wf, 1, s0, es) == s3;
  }
}
