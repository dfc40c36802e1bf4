/** The engine's execution of a workflow graph, as a state machine over the steps of its goroutines.
    One goroutine launches nodes (first the roots, then one batch of ready nodes after another) and
    waits for each group; every launched node runs in a goroutine of its own. Any interleaving of
    their steps is a run. */
module Scheduler {
  import opened Sequences
  import opened Workflows

  datatype Status = Pending | Running | Completed | Skipped | Failed | Cancelled

  predicate IsFinal(st: Status) {
    st == Completed || st == Failed || st == Skipped || st == Cancelled
  }

  /** How far the goroutine of a launched node has come. It holds a semaphore slot throughout. */
  datatype Stage = Spawned | Executing | Marking | Reporting | Leaving

  datatype Outcome = Nil | Error | Paused

  datatype Phase = Roots | Between | Batch | Returned(outcome: Outcome)

  datatype State = State(
    phase: Phase,
    queue: seq<string>,           // nodes of the current group still to be launched
    flight: map<string, Stage>,   // nodes whose goroutine is alive
    completed: set<string>,       // completedNodes
    tasks: map<string, Status>,   // taskMap, shared with the store
    errs: seq<string>,            // errCh: the nodes whose errors wait in the channel
    start: set<string>,           // completed when the current group was formed ({} for the roots)
    layers: nat,                  // groups finished over the whole history of the execution
    started: multiset<string>)    // executor invocations over the whole history

  predicate EndedWell(tasks: map<string, Status>, v: string) {
    v in tasks && (tasks[v] == Completed || tasks[v] == Skipped)
  }

  /** executeWorkflow's seeding: the tasks that already ended well. */
  function Seed(tasks: map<string, Status>): set<string> {
    set v | v in tasks && EndedWell(tasks, v)
  }

  ghost predicate Lists(ids: set<string>, r: seq<string>) {
    Distinct(r) && Elems(r) == ids
  }

  datatype Event =
    | Dispatch | SkipDone
    | Begin(v: string)
    | FinishOk(v: string) | FinishSkip(v: string) | FinishFail(v: string)
    | Mark(v: string) | Report(v: string) | Release(v: string)
    | EndRoots
    | FormBatch(ready: seq<string>) | EndBatch | ReturnNil
    | Pause | Resume(roots: seq<string>)

  /** executeDAG entered with the stored tasks. */
  ghost predicate Start(wf: Workflow, s: State) {
    && s.phase == Roots && Lists(wf.Ready({}), s.queue) && s.flight == map[]
    && s.tasks.Keys <= wf.Ids() && s.completed == Seed(s.tasks)
    && s.errs == [] && s.start == {}
  }

  /** A first run: nothing stored yet. */
  ghost predicate Fresh(wf: Workflow, s: State) {
    Start(wf, s) && s.tasks == map[] && s.layers == 0 && s.started == multiset{}
  }

  predicate At(s: State, v: string, stage: Stage) {
    v in s.flight && s.flight[v] == stage
  }

  ghost predicate Enabled(wf: Workflow, slots: nat, s: State, e: Event) {
    match e
    case Dispatch => (s.phase == Roots || s.phase == Batch) && s.queue != [] &&
                     s.queue[0] !in s.completed && |s.flight| < slots
    case SkipDone => (s.phase == Roots || s.phase == Batch) && s.queue != [] && s.queue[0] in s.completed
    case Begin(v) => At(s, v, Spawned)
    case FinishOk(v) => At(s, v, Executing) && wf.HasExecutor(v)
    case FinishSkip(v) => At(s, v, Executing) && wf.HasExecutor(v) && wf.SkipsOnFailure(v)
    case FinishFail(v) => At(s, v, Executing) && !(wf.HasExecutor(v) && wf.SkipsOnFailure(v))
    case Mark(v) => At(s, v, Marking)
    case Report(v) => At(s, v, Reporting) && |s.errs| < |wf.nodes|
    case Release(v) => At(s, v, Leaving)
    case EndRoots => s.phase == Roots && s.queue == [] && s.flight == map[]
    case FormBatch(ready) => s.phase == Between && ready != [] && Lists(wf.Ready(s.completed), ready)
    case EndBatch => s.phase == Batch && s.queue == [] && s.flight == map[]
    case ReturnNil => s.phase == Between && wf.Ready(s.completed) == {}
    case Pause => s.phase == Between
    case Resume(roots) => s.phase == Returned(Paused) && Lists(wf.Ready({}), roots)
  }

  function Apply(ghost wf: Workflow, ghost slots: nat, s: State, e: Event): State
    requires Enabled(wf, slots, s, e)
  {
    match e
    case Dispatch => s.(queue := s.queue[1..], flight := s.flight[s.queue[0] := Spawned])
    case SkipDone => s.(queue := s.queue[1..])
    case Begin(v) =>
      // a task that is already final is not executed again: its node just counts as completed
      if v in s.tasks && IsFinal(s.tasks[v]) then
        s.(completed := s.completed + {v}, flight := s.flight[v := Leaving])
      else
        s.(tasks := s.tasks[v := Running], flight := s.flight[v := Executing],
           started := s.started + multiset{v})
    case FinishOk(v) => s.(tasks := s.tasks[v := Completed], flight := s.flight[v := Marking])
    case FinishSkip(v) => s.(tasks := s.tasks[v := Skipped], flight := s.flight[v := Marking])
    case FinishFail(v) => s.(tasks := s.tasks[v := Failed], flight := s.flight[v := Reporting])
    case Mark(v) => s.(completed := s.completed + {v}, flight := s.flight[v := Leaving])
    case Report(v) => s.(errs := s.errs + [v], flight := s.flight[v := Leaving])
    case Release(v) => s.(flight := s.flight - {v})
    case EndRoots => s.(phase := Between, layers := if s.layers == 0 then 1 else s.layers)
    case FormBatch(ready) => s.(phase := Batch, queue := ready, start := s.completed)
    case EndBatch =>
      if s.errs != [] then s.(phase := Returned(Error), errs := s.errs[1..])
      else s.(phase := Between, layers := s.layers + 1)
    case ReturnNil => s.(phase := Returned(Nil))
    case Pause => s.(phase := Returned(Paused))
    case Resume(roots) =>
      s.(phase := Roots, queue := roots, completed := Seed(s.tasks), errs := [], start := {})
  }

  // ---------- safety in every interleaving ----------

  /** No node is launched twice at a time, and between two groups nothing is queued or in flight. */
  ghost predicate Tidy(s: State) {
    && Distinct(s.queue) && (forall v :: v in s.queue ==> v !in s.flight)
    && (s.phase != Roots && s.phase != Batch ==> s.queue == [] && s.flight == map[])
  }

  /** Whatever is queued or in flight is new, and has had all its predecessors completed since
      before its group was formed. */
  ghost predicate Sourced(wf: Workflow, s: State) {
    && s.start <= s.completed
    && forall v :: v in s.queue || v in s.flight ==> v in wf.Ids() && wf.DepsIn(s.start, v) && v !in s.start
  }

  /** The invariant of every run that starts with a predecessor-closed set of completed nodes. */
  ghost predicate Orderly(wf: Workflow, slots: nat, s: State) {
    && Tidy(s) && Sourced(wf, s) && |s.flight| <= slots
    && s.completed <= wf.Ids() && s.tasks.Keys <= wf.Ids()
    && wf.PredClosed(s.completed) && wf.PredClosed(s.start)
  }

  lemma StartOrderly(wf: Workflow, slots: nat, s: State)
    requires Start(wf, s) && wf.PredClosed(s.completed)
    ensures Orderly(wf, slots, s)
  {
    assert forall v :: v in s.queue ==> v in Elems(s.queue);
  }

  predicate OfGoroutine(e: Event) {
    e.Begin? || e.FinishOk? || e.FinishSkip? || e.FinishFail? || e.Mark? || e.Report? || e.Release?
  }

  /** What the goroutine of node v leaves alone: the launcher's own state and the other nodes. */
  ghost predicate GoroutineFrame(s: State, s': State, v: string) {
    && v in s.flight
    && s'.phase == s.phase && s'.queue == s.queue && s'.start == s.start && s'.layers == s.layers
    && s.flight.Keys - {v} <= s'.flight.Keys <= s.flight.Keys
    && (forall u :: u in s'.flight && u != v ==> s'.flight[u] == s.flight[u])
    && s.completed <= s'.completed <= s.completed + {v}
    && s.tasks.Keys <= s'.tasks.Keys <= s.tasks.Keys + {v}
    && (forall u :: u in s'.tasks && u != v ==> s'.tasks[u] == s.tasks[u])
    && s.started <= s'.started
    && (forall u :: u in s'.started ==> u in s.started || (u == v && v in s'.tasks))
  }

  lemma GoroutineSteps(wf: Workflow, slots: nat, s: State, e: Event)
    requires Enabled(wf, slots, s, e) && OfGoroutine(e)
    ensures GoroutineFrame(s, Apply(wf, slots, s, e), e.v)
  {
  }

  /** What the launcher leaves alone, short of starting the next run: all that is recorded of nodes. */
  ghost predicate LauncherFrame(s: State, s': State) {
    && s'.completed == s.completed && s'.tasks == s.tasks && s'.started == s.started
    && (s'.start == s.start || s'.start == s.completed)
  }

  lemma LauncherSteps(wf: Workflow, slots: nat, s: State, e: Event)
    requires Enabled(wf, slots, s, e) && !e.Resume? && !OfGoroutine(e)
    ensures LauncherFrame(s, Apply(wf, slots, s, e))
    ensures !e.FormBatch? ==> Apply(wf, slots, s, e).start == s.start
  {
  }

  lemma StepOrderly(wf: Workflow, slots: nat, s: State, e: Event)
    requires Orderly(wf, slots, s) && Enabled(wf, slots, s, e) && !e.Resume?
    ensures Orderly(wf, slots, Apply(wf, slots, s, e))
  {
    if OfGoroutine(e) {
      GoroutineOrderly(wf, slots, s, e);
    } else if e.Dispatch? || e.SkipDone? {
      LaunchOrderly(wf, slots, s, e);
    } else if e.FormBatch? {
      assert forall v :: v in e.ready ==> v in Elems(e.ready);
    }
  }

  lemma GoroutineOrderly(wf: Workflow, slots: nat, s: State, e: Event)
    requires Orderly(wf, slots, s) && Enabled(wf, slots, s, e) && OfGoroutine(e)
    ensures Orderly(wf, slots, Apply(wf, slots, s, e))
  {
    GoroutineSteps(wf, slots, s, e);
    FrameTidy(s, Apply(wf, slots, s, e), e.v);
    FrameOrderly(wf, slots, s, Apply(wf, slots, s, e), e.v);
  }

  lemma FrameTidy(s: State, s': State, v: string)
    requires Tidy(s) && GoroutineFrame(s, s', v)
    ensures Tidy(s')
  {
  }

  lemma FrameOrderly(wf: Workflow, slots: nat, s: State, s': State, v: string)
    requires Orderly(wf, slots, s) && GoroutineFrame(s, s', v) && Tidy(s')
    ensures Orderly(wf, slots, s')
  {
    SubsetSize(s'.flight.Keys, s.flight.Keys);
    CompletedGrows(wf, s.completed, s'.completed, s.start, v);
  }

  lemma CompletedGrows(wf: Workflow, done: set<string>, done': set<string>, start: set<string>, v: string)
    requires wf.PredClosed(done) && done <= done' <= done + {v} && start <= done && wf.DepsIn(start, v)
    ensures wf.PredClosed(done')
  {
    forall u | u in done' ensures wf.DepsIn(done', u) {
      if u == v {
        assert wf.DepsIn(start, u);
      } else {
        assert wf.DepsIn(done, u);
      }
    }
  }

  lemma LaunchOrderly(wf: Workflow, slots: nat, s: State, e: Event)
    requires Orderly(wf, slots, s) && Enabled(wf, slots, s, e) && (e.Dispatch? || e.SkipDone?)
    ensures Orderly(wf, slots, Apply(wf, slots, s, e))
  {
    var s' := Apply(wf, slots, s, e);
    StepTidy(wf, slots, s, e);
    LaunchSourced(wf, s, s');
    if e.Dispatch? {
      OneMore(s.flight, s.queue[0], Spawned);
    }
  }

  lemma LaunchSourced(wf: Workflow, s: State, s': State)
    requires Sourced(wf, s) && s.queue != [] && s'.queue == s.queue[1..]
    requires s'.start == s.start && s'.completed == s.completed
    requires s'.flight.Keys <= s.flight.Keys + {s.queue[0]}
    ensures Sourced(wf, s')
  {
    assert s.queue[0] in s.queue && forall u :: u in s.queue[1..] ==> u in s.queue;
  }

  lemma OneMore<T>(m: map<string, T>, v: string, x: T)
    ensures |m[v := x]| <= |m| + 1
  {
    assert m[v := x].Keys == m.Keys + {v};
  }

  lemma StepTidy(wf: Workflow, slots: nat, s: State, e: Event)
    requires Tidy(s) && Enabled(wf, slots, s, e)
    ensures Tidy(Apply(wf, slots, s, e))
  {
    if e.Dispatch? || e.SkipDone? {
      var v := s.queue[0];
      forall u | u in s.queue[1..] ensures u in s.queue && u != v {
        var i :| 0 <= i < |s.queue[1..]| && s.queue[1..][i] == u;
        assert s.queue[i + 1] == u;
      }
    }
  }

  // ---------- errors ----------

  /** The task status of a node in flight follows its goroutine's stage, and the errors waiting in
      the channel come from distinct failed nodes whose goroutines have sent them. */
  ghost predicate Tracked(s: State) {
    && (forall v :: v in s.flight && s.flight[v] != Spawned && s.flight[v] != Leaving ==> v in s.tasks)
    && (forall v :: At(s, v, Executing) ==> s.tasks[v] == Running)
    && (forall v :: At(s, v, Marking) ==> s.tasks[v] == Completed || s.tasks[v] == Skipped)
    && (forall v :: At(s, v, Reporting) ==> s.tasks[v] == Failed)
    && Distinct(s.errs)
    && (forall v :: v in s.errs ==> v in s.tasks && s.tasks[v] == Failed && !At(s, v, Reporting))
  }

  lemma StepTracked(wf: Workflow, slots: nat, s: State, e: Event)
    requires Tidy(s) && Tracked(s) && Enabled(wf, slots, s, e)
    ensures Tracked(Apply(wf, slots, s, e))
  {
    if e.Report? {
      ReportTracked(s, Apply(wf, slots, s, e), e.v);
    } else if OfGoroutine(e) {
      GoroutineTracked(wf, slots, s, e);
    } else {
      LauncherTracked(wf, slots, s, e);
    }
  }

  lemma ReportTracked(s: State, s': State, v: string)
    requires Tracked(s) && At(s, v, Reporting)
    requires s' == s.(errs := s.errs + [v], flight := s.flight[v := Leaving])
    ensures Tracked(s')
  {
    assert v !in s.errs;
  }

  lemma GoroutineTracked(wf: Workflow, slots: nat, s: State, e: Event)
    requires Tracked(s) && Enabled(wf, slots, s, e) && OfGoroutine(e) && !e.Report?
    ensures Tracked(Apply(wf, slots, s, e))
  {
    var s' := Apply(wf, slots, s, e);
    GoroutineSteps(wf, slots, s, e);
    OthersTracked(s, s', e.v);
  }

  /** A goroutine that leaves the errors alone and keeps its own node's status in step. */
  lemma OthersTracked(s: State, s': State, v: string)
    requires Tracked(s) && GoroutineFrame(s, s', v) && s'.errs == s.errs
    requires v in s'.flight && s'.flight[v] != Spawned && s'.flight[v] != Leaving ==> v in s'.tasks
    requires At(s', v, Executing) ==> s'.tasks[v] == Running
    requires At(s', v, Marking) ==> s'.tasks[v] == Completed || s'.tasks[v] == Skipped
    requires At(s', v, Reporting) ==> s'.tasks[v] == Failed
    requires v in s.errs ==> v in s'.tasks && s'.tasks[v] == Failed && !At(s', v, Reporting)
    ensures Tracked(s')
  {
    ErrorsTracked(s, s', v);
    forall u | u in s'.flight && u != v
      ensures s'.flight[u] == s.flight[u] && (u in s.tasks ==> s'.tasks[u] == s.tasks[u])
    { }
  }

  lemma ErrorsTracked(s: State, s': State, v: string)
    requires Tracked(s) && GoroutineFrame(s, s', v) && s'.errs == s.errs
    requires v in s.errs ==> v in s'.tasks && s'.tasks[v] == Failed && !At(s', v, Reporting)
    ensures forall u :: u in s'.errs ==> u in s'.tasks && s'.tasks[u] == Failed && !At(s', u, Reporting)
  {
  }

  lemma LauncherTracked(wf: Workflow, slots: nat, s: State, e: Event)
    requires Tidy(s) && Tracked(s) && Enabled(wf, slots, s, e) && !OfGoroutine(e)
    ensures Tracked(Apply(wf, slots, s, e))
  {
    var s' := Apply(wf, slots, s, e);
    if e.Dispatch? {
      assert s.queue[0] in s.queue;
      DispatchTracked(s, s', s.queue[0]);
    } else {
      FewerErrorsTracked(s, s');
    }
  }

  lemma DispatchTracked(s: State, s': State, v: string)
    requires Tracked(s) && v !in s.flight
    requires s'.tasks == s.tasks && s'.errs == s.errs && s'.flight == s.flight[v := Spawned]
    ensures Tracked(s')
  {
  }

  /** The launcher takes errors out of the channel, from the front, and a new run starts with none. */
  lemma FewerErrorsTracked(s: State, s': State)
    requires Tracked(s) && s'.tasks == s.tasks && s'.flight == s.flight
    requires s'.errs == s.errs || s'.errs == [] || (s.errs != [] && s'.errs == s.errs[1..])
    ensures Tracked(s')
  {
    assert forall v :: v in s'.errs ==> v in s.errs;
  }

  /** The error channel holds one slot per node, and that is enough: a goroutine about to send
      never waits. */
  lemma SendNeverBlocks(wf: Workflow, slots: nat, s: State, v: string)
    requires wf.EdgesInside() && Orderly(wf, slots, s) && Tracked(s) && At(s, v, Reporting)
    ensures Enabled(wf, slots, s, Report(v))
  {
    IdsAtMost(wf.nodes);
    DistinctSize(s.errs);
    assert Elems(s.errs) <= wf.Ids() - {v};
    SubsetSize(Elems(s.errs), wf.Ids() - {v});
  }

  // ---------- failure containment ----------

  ghost predicate HasFailed(s: State, v: string) {
    v in s.tasks && s.tasks[v] == Failed
  }

  ghost predicate NoneFailed(s: State) {
    forall v :: !HasFailed(s, v)
  }

  /** The stored tasks of an execution in which nothing has failed so far. */
  ghost predicate CleanStart(wf: Workflow, s: State) {
    && Start(wf, s)
    && (forall v :: v in s.tasks ==> s.tasks[v] != Failed && s.tasks[v] != Cancelled)
    && (forall v :: v in s.tasks ==> wf.DepsIn(Seed(s.tasks), v))
    && (forall v :: v in s.started ==> v in s.tasks)
  }

  /** Executor invocations and task records concern nodes whose predecessors all ended well. */
  ghost predicate CleanUpstream(wf: Workflow, s: State) {
    && (forall v :: v in s.started ==> v in s.tasks)
    && (forall v :: v in s.tasks ==> wf.DepsIn(Seed(s.tasks), v))
    && s.start <= Seed(s.tasks)
  }

  /** A failed root counts as completed only while the next batch runs. */
  ghost predicate CompletedClean(s: State) {
    && (forall v :: v in s.tasks ==> s.tasks[v] != Cancelled)
    && (s.phase == Roots ==> forall v :: v in s.queue || At(s, v, Spawned) ==> !HasFailed(s, v))
    && (s.phase != Returned(Error) ==>
          forall v :: v in s.completed ==> EndedWell(s.tasks, v) || (s.phase == Batch && HasFailed(s, v)))
  }

  /** Every failure is on its way to the launcher, or has made the run return an error. */
  ghost predicate FailuresPending(s: State) {
    if s.phase == Returned(Error) then !NoneFailed(s)
    else forall v :: HasFailed(s, v) ==> v in s.errs || At(s, v, Reporting)
  }

  ghost predicate Contained(wf: Workflow, s: State) {
    CleanUpstream(wf, s) && CompletedClean(s) && FailuresPending(s)
  }

  /** Until the first batch is formed only roots can have failed. */
  ghost predicate RootFailures(wf: Workflow, s: State) {
    && (s.phase == Roots ==> s.start == {})
    && (s.phase == Roots || s.phase == Between || s.phase == Returned(Paused) ==>
          forall v :: HasFailed(s, v) ==> v in wf.Ready({}))
  }

  lemma StartContained(wf: Workflow, slots: nat, s: State)
    requires CleanStart(wf, s)
    ensures Orderly(wf, slots, s) && Tracked(s) && Contained(wf, s) && RootFailures(wf, s)
  {
    StartOrderly(wf, slots, s);
  }

  lemma StepCleanUpstream(wf: Workflow, slots: nat, s: State, e: Event)
    requires Sourced(wf, s) && Tracked(s) && CleanUpstream(wf, s) && Enabled(wf, slots, s, e)
    requires !e.Resume? && (e.FormBatch? ==> s.completed <= Seed(s.tasks))
    ensures CleanUpstream(wf, Apply(wf, slots, s, e))
  {
    if OfGoroutine(e) {
      GoroutineSteps(wf, slots, s, e);
      KeepsEnded(wf, slots, s, e);
      GoroutineUpstream(wf, s, Apply(wf, slots, s, e), e.v);
    } else {
      LauncherSteps(wf, slots, s, e);
      LauncherUpstream(wf, s, Apply(wf, slots, s, e));
    }
  }

  lemma KeepsEnded(wf: Workflow, slots: nat, s: State, e: Event)
    requires Tracked(s) && Enabled(wf, slots, s, e) && OfGoroutine(e)
    ensures EndedWell(s.tasks, e.v) ==> EndedWell(Apply(wf, slots, s, e).tasks, e.v)
  {
  }

  lemma GoroutineUpstream(wf: Workflow, s: State, s': State, v: string)
    requires Sourced(wf, s) && CleanUpstream(wf, s) && GoroutineFrame(s, s', v)
    requires EndedWell(s.tasks, v) ==> EndedWell(s'.tasks, v)
    ensures CleanUpstream(wf, s')
  {
    UpstreamGrows(wf, s.tasks, s'.tasks, s.start, v);
  }

  lemma LauncherUpstream(wf: Workflow, s: State, s': State)
    requires CleanUpstream(wf, s) && LauncherFrame(s, s')
    requires s'.start == s.start || s.completed <= Seed(s.tasks)
    ensures CleanUpstream(wf, s')
  {
  }

  lemma UpstreamGrows(wf: Workflow, tasks: map<string, Status>, tasks': map<string, Status>,
                     start: set<string>, v: string)
    requires forall u :: u in tasks ==> wf.DepsIn(Seed(tasks), u)
    requires start <= Seed(tasks) && wf.DepsIn(start, v)
    requires tasks.Keys <= tasks'.Keys <= tasks.Keys + {v}
    requires forall u :: EndedWell(tasks, u) ==> EndedWell(tasks', u)
    ensures start <= Seed(tasks')
    ensures forall u :: u in tasks' ==> wf.DepsIn(Seed(tasks'), u)
  {
    assert Seed(tasks) <= Seed(tasks');
    forall u | u in tasks' ensures wf.DepsIn(Seed(tasks'), u) {
      if u == v {
        assert wf.DepsIn(start, u);
      } else {
        assert wf.DepsIn(Seed(tasks), u);
      }
    }
  }

  lemma StepCompletedClean(wf: Workflow, slots: nat, s: State, e: Event)
    requires Tidy(s) && Tracked(s) && CompletedClean(s) && FailuresPending(s)
    requires Enabled(wf, slots, s, e) && !e.Resume?
    ensures CompletedClean(Apply(wf, slots, s, e))
  {
    if OfGoroutine(e) {
      GoroutineCompletedClean(wf, slots, s, e);
    } else if e.Dispatch? || e.SkipDone? {
      LaunchCompletedClean(s, Apply(wf, slots, s, e));
    } else if e.EndRoots? || e.EndBatch? {
      assert e.EndBatch? && s.errs == [] ==> NoneFailed(s);
    }
  }

  lemma LaunchCompletedClean(s: State, s': State)
    requires CompletedClean(s) && s.queue != [] && s'.queue == s.queue[1..]
    requires s'.phase == s.phase && s'.tasks == s.tasks && s'.completed == s.completed
    requires forall v :: At(s', v, Spawned) ==> At(s, v, Spawned) || v == s.queue[0]
    ensures CompletedClean(s')
  {
    assert s.queue[0] in s.queue;
    assert forall v :: v in s.queue[1..] ==> v in s.queue;
  }

  lemma GoroutineCompletedClean(wf: Workflow, slots: nat, s: State, e: Event)
    requires Tidy(s) && Tracked(s) && CompletedClean(s) && Enabled(wf, slots, s, e) && OfGoroutine(e)
    ensures CompletedClean(Apply(wf, slots, s, e))
  {
    var s' := Apply(wf, slots, s, e);
    GoroutineSteps(wf, slots, s, e);
    KeepsEnded(wf, slots, s, e);
    NewlyCompletedClean(wf, slots, s, e);
    FrameCompletedClean(s, s', e.v);
  }

  lemma NewlyCompletedClean(wf: Workflow, slots: nat, s: State, e: Event)
    requires Tidy(s) && Tracked(s) && CompletedClean(s) && Enabled(wf, slots, s, e) && OfGoroutine(e)
    ensures var s' := Apply(wf, slots, s, e); var v := e.v;
            && !At(s', v, Spawned) && (v in s'.tasks ==> s'.tasks[v] != Cancelled)
            && (HasFailed(s, v) ==> HasFailed(s', v))
            && (v in s'.completed && v !in s.completed ==>
                  EndedWell(s'.tasks, v) || (s.phase == Batch && HasFailed(s', v)))
  {
  }

  lemma FrameCompletedClean(s: State, s': State, v: string)
    requires Tidy(s) && CompletedClean(s) && GoroutineFrame(s, s', v)
    requires !At(s', v, Spawned) && (v in s'.tasks ==> s'.tasks[v] != Cancelled)
    requires (HasFailed(s, v) ==> HasFailed(s', v)) && (EndedWell(s.tasks, v) ==> EndedWell(s'.tasks, v))
    requires v in s'.completed && v !in s.completed ==>
               EndedWell(s'.tasks, v) || (s.phase == Batch && HasFailed(s', v))
    ensures CompletedClean(s')
  {
    forall u | u != v
      ensures EndedWell(s'.tasks, u) == EndedWell(s.tasks, u) && HasFailed(s', u) == HasFailed(s, u)
    { }
  }

  lemma ErrorsFailed(s: State)
    requires Tracked(s) && s.errs != []
    ensures !NoneFailed(s)
  {
    assert s.errs[0] in s.errs && HasFailed(s, s.errs[0]);
  }

  lemma StepFailuresPending(wf: Workflow, slots: nat, s: State, e: Event)
    requires Tidy(s) && Tracked(s) && FailuresPending(s)
    requires Enabled(wf, slots, s, e) && !e.Resume?
    ensures FailuresPending(Apply(wf, slots, s, e))
  {
    var s' := Apply(wf, slots, s, e);
    if OfGoroutine(e) {
      GoroutineSteps(wf, slots, s, e);
      GoroutineFailuresPending(s, s', e);
    } else if e.EndBatch? && s.errs != [] {
      ErrorReturned(s, s');
    } else {
      assert e.Dispatch? ==> s.queue[0] in s.queue;
      KeptFailuresPending(s, s');
    }
  }

  lemma ErrorReturned(s: State, s': State)
    requires Tracked(s) && s.errs != [] && s'.tasks == s.tasks && s'.phase == Returned(Error)
    ensures FailuresPending(s')
  {
    ErrorsFailed(s);
    var f :| HasFailed(s, f);
    assert HasFailed(s', f);
  }

  lemma KeptFailuresPending(s: State, s': State)
    requires FailuresPending(s) && s.phase != Returned(Error) && s'.phase != Returned(Error)
    requires s'.tasks == s.tasks && s'.errs == s.errs
    requires forall v :: At(s, v, Reporting) ==> At(s', v, Reporting)
    ensures FailuresPending(s')
  {
  }

  lemma GoroutineFailuresPending(s: State, s': State, e: Event)
    requires OfGoroutine(e) && GoroutineFrame(s, s', e.v) && FailuresPending(s) && s.phase != Returned(Error)
    requires s'.errs == if e.Report? then s.errs + [e.v] else s.errs
    requires HasFailed(s', e.v) ==> e.Report? || At(s', e.v, Reporting) || (HasFailed(s, e.v) && !At(s, e.v, Reporting))
    ensures FailuresPending(s')
  {
    forall v | HasFailed(s', v) ensures v in s'.errs || At(s', v, Reporting) {
      if v != e.v {
        assert HasFailed(s, v);
      }
    }
  }

  lemma StepContained(wf: Workflow, slots: nat, s: State, e: Event)
    requires Orderly(wf, slots, s) && Tracked(s) && Contained(wf, s) && Enabled(wf, slots, s, e)
    requires e.Resume? ==> NoneFailed(s)
    ensures var s' := Apply(wf, slots, s, e); Orderly(wf, slots, s') && Tracked(s') && Contained(wf, s')
  {
    if e.Resume? {
      ResumeClean(wf, s, Apply(wf, slots, s, e));
      StartContained(wf, slots, Apply(wf, slots, s, e));
    } else {
      StepTracked(wf, slots, s, e);
      StepOrderly(wf, slots, s, e);
      StepCleanUpstream(wf, slots, s, e);
      StepCompletedClean(wf, slots, s, e);
      StepFailuresPending(wf, slots, s, e);
    }
  }

  /** Resuming while nothing has failed starts cleanly. */
  lemma ResumeClean(wf: Workflow, s: State, s': State)
    requires Contained(wf, s) && NoneFailed(s) && Start(wf, s')
    requires s'.tasks == s.tasks && s'.started == s.started
    ensures CleanStart(wf, s')
  {
    forall v | v in s'.tasks ensures s'.tasks[v] != Failed {
      assert !HasFailed(s, v);
    }
  }
}
