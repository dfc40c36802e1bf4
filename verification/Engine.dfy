/** executeDAG as a loop over a DAGGraph: what it does is a run of the state machine that is true to its
    surroundings, and it returns. */
module Engine {
  import opened Sequences
  import opened Workflows
  import opened DagGraph
  import opened Environments
  import opened Guarantees
  import opened Histories
  import opened Scheduler

  /** The steps taken so far lead from s0 to s, and s keeps the invariants of a run. */
  ghost predicate Begun(wf: Workflow, slots: nat, env: Environment, s0: State, es: seq<Event>, s: State) {
    && Runs(wf, slots, s0, es) && After(wf, slots, s0, es) == s && Faithful(wf, slots, env, s0, es)
    && (forall e :: e in es ==> !e.Resume?)
    && Orderly(wf, slots, s) && Tracked(s) && Accounted(wf, s)
  }

  method Take(ghost wf: Workflow, ghost slots: nat, ghost env: Environment, s: State, e: Event, ghost s0: State,
              ghost es: seq<Event>)
    returns (s': State, ghost es': seq<Event>)
    requires wf.EdgesInside() && Begun(wf, slots, env, s0, es, s) && Enabled(wf, slots, s, e) && !e.Resume?
    requires Meets(wf, env, s, e)
    ensures s' == Apply(wf, slots, s, e) && Begun(wf, slots, env, s0, es', s')
    ensures Measure(wf, s') < Measure(wf, s)
  {
    s', es' := Apply(wf, slots, s, e), es + [e];
    RunsSnoc(wf, slots, s0, es, e);
    FaithfulSnoc(wf, slots, env, s0, es, e);
    StepOrderly(wf, slots, s, e);
    StepTracked(wf, slots, s, e);
    StepAccounted(wf, slots, s, e);
    StepDecreases(wf, slots, s, e);
  }

  /** One step of some goroutine in flight; how an execution ends is up to the executor. */
  method GoroutineStep(wf: Workflow, ghost slots: nat, env: Environment, s: State) returns (e: Event)
    requires wf.EdgesInside() && Orderly(wf, slots, s) && Tracked(s) && s.flight != map[] && s.phase != Between
    ensures OfGoroutine(e) && Enabled(wf, slots, s, e) && Meets(wf, env, s, e)
  {
    var v :| v in s.flight;
    match s.flight[v] {
      case Spawned => e := Begin(v);
      case Executing =>
        if wf.HasExecutor(v) && v !in env.failing {
          e := FinishOk(v);
        } else if wf.HasExecutor(v) && wf.SkipsOnFailure(v) {
          e := FinishSkip(v);
        } else {
          e := FinishFail(v);
        }
      case Marking => e := Mark(v);
      case Reporting =>
        SendNeverBlocks(wf, slots, s, v);
        e := Report(v);
      case Leaving => e := Release(v);
    }
  }

  /** A step of a group: the launcher's next one, if it does not wait for a slot, or a goroutine's. */
  method GroupStep(wf: Workflow, slots: nat, env: Environment, s: State) returns (e: Event)
    requires wf.EdgesInside() && slots > 0 && Orderly(wf, slots, s) && Tracked(s)
    requires (s.phase == Roots || s.phase == Batch) && (s.queue != [] || s.flight != map[])
    ensures Enabled(wf, slots, s, e) && Meets(wf, env, s, e) && (e.SkipDone? || e.Dispatch? || OfGoroutine(e))
  {
    if {
      case s.queue != [] && s.queue[0] in s.completed => e := SkipDone;
      case s.queue != [] && s.queue[0] !in s.completed && |s.flight| < slots => e := Dispatch;
      case s.flight != map[] => e := GoroutineStep(wf, slots, env, s);
    }
  }

  method GroupTurn(wf: Workflow, slots: nat, env: Environment, s: State, ghost s0: State, ghost es: seq<Event>)
    returns (s': State, ghost es': seq<Event>)
    requires wf.EdgesInside() && slots > 0 && Begun(wf, slots, env, s0, es, s)
    requires (s.phase == Roots || s.phase == Batch) && (s.queue != [] || s.flight != map[])
    ensures Begun(wf, slots, env, s0, es', s') && s'.phase == s.phase && Measure(wf, s') < Measure(wf, s)
  {
    var e := GroupStep(wf, slots, env, s);
    s', es' := Take(wf, slots, env, s, e, s0, es);
  }

  /** Launches the queued nodes as slots become free and waits for the last goroutine. */
  method RunGroup(wf: Workflow, slots: nat, env: Environment, s: State, ghost s0: State, ghost es: seq<Event>)
    returns (s': State, ghost es': seq<Event>)
    requires wf.EdgesInside() && slots > 0 && Begun(wf, slots, env, s0, es, s) && (s.phase == Roots || s.phase == Batch)
    ensures Begun(wf, slots, env, s0, es', s') && Measure(wf, s') <= Measure(wf, s)
    ensures s'.phase == s.phase && s'.queue == [] && s'.flight == map[]
  {
    s', es' := s, es;
    while s'.queue != [] || s'.flight != map[]
      invariant Begun(wf, slots, env, s0, es', s') && s'.phase == s.phase
      invariant Measure(wf, s') <= Measure(wf, s)
      decreases Measure(wf, s')
    {
      s', es' := GroupTurn(wf, slots, env, s', s0, es');
    }
  }

  lemma LaunchLists(wf: Workflow, ids: set<string>, r: seq<Node>)
    requires LaunchList(wf, ids, r) && ids <= wf.Ids()
    ensures Lists(ids, IdsOf(r))
  {
    var order := IdsOf(r);
    forall i | 0 <= i < |order| ensures order[i] in ids {
      assert r[i] in Elems(r);
    }
    forall v | v in ids ensures v in order {
      var n :| n in wf.nodes && n.id == v;
      assert n in Elems(r);
      var i :| 0 <= i < |r| && r[i] == n;
      assert order[i] == v;
    }
  }

  /** One batch: launch the ready nodes, wait for all of them, then look for an error. */
  method RunBatch(wf: Workflow, slots: nat, env: Environment, s: State, ready: seq<string>, ghost s0: State,
                  ghost es: seq<Event>)
    returns (s': State, ghost es': seq<Event>)
    requires wf.EdgesInside() && slots > 0 && Begun(wf, slots, env, s0, es, s)
    requires Enabled(wf, slots, s, FormBatch(ready)) && s.layers !in env.pauses
    ensures Begun(wf, slots, env, s0, es', s') && (s'.phase == Between || s'.phase == Returned(Error))
    ensures Measure(wf, s') < Measure(wf, s)
  {
    s', es' := Take(wf, slots, env, s, FormBatch(ready), s0, es);
    s', es' := RunGroup(wf, slots, env, s', s0, es');
    s', es' := CloseBatch(wf, slots, env, s', s0, es');
  }

  /** The end of a batch: the run goes on, or returns an error that it finds in the channel. */
  method CloseBatch(wf: Workflow, slots: nat, ghost env: Environment, s: State, ghost s0: State, ghost es: seq<Event>)
    returns (s': State, ghost es': seq<Event>)
    requires wf.EdgesInside() && Begun(wf, slots, env, s0, es, s)
    requires s.phase == Batch && s.queue == [] && s.flight == map[]
    ensures Begun(wf, slots, env, s0, es', s') && Measure(wf, s') < Measure(wf, s)
    ensures s'.phase == if s.errs == [] then Between else Returned(Error)
  {
    s', es' := Take(wf, slots, env, s, EndBatch, s0, es);
  }

  method ReadyIds(dag: DAGGraph, completed: set<string>) returns (ready: seq<string>)
    requires dag.Valid()
    ensures Lists(dag.workflow.Ready(completed), ready)
    ensures ready == [] ==> dag.workflow.Ready(completed) == {}
  {
    var nodes := dag.GetReadyNodes(completed);
    LaunchLists(dag.workflow, dag.workflow.Ready(completed), nodes);
    ready := IdsOf(nodes);
    assert ready == [] ==> Elems(ready) == {};
  }

  /** One turn of the batch loop: pause if asked to, return when nothing is ready, or run the ready nodes. */
  method Advance(dag: DAGGraph, slots: nat, env: Environment, s: State, ghost s0: State, ghost es: seq<Event>)
    returns (s': State, ghost es': seq<Event>)
    requires dag.Valid() && slots > 0 && s.phase == Between && Begun(dag.workflow, slots, env, s0, es, s)
    ensures Begun(dag.workflow, slots, env, s0, es', s') && (s'.phase == Between || s'.phase.Returned?)
    ensures Measure(dag.workflow, s') < Measure(dag.workflow, s)
    ensures s'.phase == Returned(Paused) <==> s.layers in env.pauses
  {
    if s.layers in env.pauses {
      s', es' := Take(dag.workflow, slots, env, s, Pause, s0, es);
    } else {
      var ready := ReadyIds(dag, s.completed);
      if |ready| == 0 {
        s', es' := Take(dag.workflow, slots, env, s, ReturnNil, s0, es);
      } else {
        s', es' := RunBatch(dag.workflow, slots, env, s, ready, s0, es);
      }
    }
  }

  /** executeDAG, with the goroutines' interleaving chosen arbitrarily, and the executors' failures and the
      requests to pause, seen at batch boundaries, given by the surroundings. Whatever they are, the call
      returns, and what it did is a run of the state machine that is true to them: it pauses exactly
      when asked, and a first execution that is not paused ends in an error exactly if some node fails. */
  method ExecuteDAG(dag: DAGGraph, slots: nat, tasks: map<string, Status>, env: Environment)
    returns (s: State, ghost s0: State, ghost es: seq<Event>)
    requires dag.Valid() && slots > 0
    requires tasks.Keys <= dag.workflow.Ids() && dag.workflow.PredClosed(Seed(tasks))
    ensures Start(dag.workflow, s0) && s0.tasks == tasks && s0.layers == 0
    ensures Runs(dag.workflow, slots, s0, es) && After(dag.workflow, slots, s0, es) == s
    ensures Faithful(dag.workflow, slots, env, s0, es)
    ensures s.phase.Returned?
    ensures s.phase == Returned(Nil) ==> s.completed == dag.workflow.Ids()
    ensures s.phase == Returned(Paused) ==> s.layers in env.pauses
    ensures forall b :: 1 <= b <= s.layers && b in env.pauses ==> s.phase == Returned(Paused) && b == s.layers
    ensures tasks == map[] && s.phase != Returned(Paused) ==>
              (s.phase == Returned(Error) <==> exists v :: v in dag.workflow.Ids() && Fails(dag.workflow, env, v))
    ensures tasks == map[] && s.phase == Returned(Nil) ==> AllDone(dag.workflow, env, s.tasks)
  {
    var wf := dag.workflow;
    s := State(Roots, IdsOf(dag.GetRootNodes()), map[], Seed(tasks), tasks, [], {}, 0, multiset{});
    s0, es := s, [];
    Begin0(wf, slots, env, s0, dag.rootNodes);
    s, es := RunGroup(wf, slots, env, s, s0, es);
    s, es := Take(wf, slots, env, s, EndRoots, s0, es);
    while !s.phase.Returned?
      invariant Begun(wf, slots, env, s0, es, s) && (s.phase == Between || s.phase.Returned?)
      decreases Measure(wf, s)
    {
      s, es := Advance(dag, slots, env, s, s0, es);
    }
    Ended(wf, slots, env, s0, es, s);
  }

  lemma Ended(wf: Workflow, slots: nat, env: Environment, s0: State, es: seq<Event>, s: State)
    requires wf.EdgesInside() && wf.Acyclic() && Start(wf, s0) && s0.layers == 0
    requires Begun(wf, slots, env, s0, es, s) && s.phase.Returned? && (s0.tasks == map[] ==> Fresh(wf, s0))
    ensures s.phase == Returned(Nil) ==> s.completed == wf.Ids()
    ensures s.phase == Returned(Paused) ==> s.layers in env.pauses
    ensures forall b :: 1 <= b <= s.layers && b in env.pauses ==> s.phase == Returned(Paused) && b == s.layers
    ensures s0.tasks == map[] && s.phase != Returned(Paused) ==>
              (s.phase == Returned(Error) <==> exists v :: v in wf.Ids() && Fails(wf, env, v))
    ensures s0.tasks == map[] && s.phase == Returned(Nil) ==> AllDone(wf, env, s.tasks)
  {
    RunEndsComplete(wf, slots, s0, es);
    PausesTheorem(wf, slots, env, s0, es);
    if s0.tasks == map[] && s.phase != Returned(Paused) {
      OutcomeTheorem(wf, slots, env, s0, es);
    }
  }

  lemma Begin0(wf: Workflow, slots: nat, env: Environment, s: State, roots: seq<Node>)
    requires LaunchList(wf, wf.Ready({}), roots) && s.queue == IdsOf(roots)
    requires s.phase == Roots && s.flight == map[] && s.errs == [] && s.start == {}
    requires s.tasks.Keys <= wf.Ids() && s.completed == Seed(s.tasks) && wf.PredClosed(s.completed)
    ensures Start(wf, s) && Begun(wf, slots, env, s, [], s)
  {
    LaunchLists(wf, wf.Ready({}), roots);
    StartOrderly(wf, slots, s);
  }
}
