/** What a run owes to its surroundings: which executors fail, and at which batch boundaries a pause has
    been asked for. They decide how a run ends, whatever the interleaving. */
module Environments {
  import opened Guarantees
  import opened Histories
  import opened Scheduler
  import opened TaskRecords
  import opened Workflows

  datatype Environment = Environment(failing: set<string>, pauses: set<nat>)

  /** The event is what the surroundings call for: an executor's outcome is its own, and at a boundary
      the run pauses exactly when that has been asked for. */
  ghost predicate Meets(wf: Workflow, env: Environment, s: State, e: Event) {
    && (e.FinishOk? ==> e.v !in env.failing)
    && (e.FinishSkip? ==> e.v in env.failing)
    && (e.FinishFail? && wf.HasExecutor(e.v) ==> e.v in env.failing)
    && (s.phase == Between ==> (e.Pause? <==> s.layers in env.pauses))
  }

  ghost predicate Faithful(wf: Workflow, slots: nat, env: Environment, s: State, es: seq<Event>)
    requires Runs(wf, slots, s, es)
    decreases |es|
  {
    es == [] || (Meets(wf, env, s, es[0]) && Faithful(wf, slots, env, Apply(wf, slots, s, es[0]), es[1..]))
  }

  lemma {:induction false} FaithfulSnoc(wf: Workflow, slots: nat, env: Environment, s: State, es: seq<Event>, e: Event)
    requires Runs(wf, slots, s, es) && Faithful(wf, slots, env, s, es)
    requires Enabled(wf, slots, After(wf, slots, s, es), e) && Meets(wf, env, After(wf, slots, s, es), e)
    ensures Runs(wf, slots, s, es + [e]) && Faithful(wf, slots, env, s, es + [e])
    decreases |es|
  {
    var longer := es + [e];
    RunsSnoc(wf, slots, s, es, e);
    if es == [] {
      assert longer == [e] && longer[1..] == [];
    } else {
      assert longer[0] == es[0] && longer[1..] == es[1..] + [e];
      FaithfulSnoc(wf, slots, env, Apply(wf, slots, s, es[0]), es[1..], e);
    }
  }

  // ---------- pauses ----------

  /** The boundaries a first run has gone past: after the roots, and after each batch. */
  ghost predicate NoPauseIn(env: Environment, n: nat) {
    forall b :: 1 <= b <= n ==> b !in env.pauses
  }

  /** How far the run has come, against the boundaries at which it was to pause. */
  ghost predicate AtBoundary(env: Environment, s: State) {
    match s.phase
    case Roots => s.layers == 0
    case Between => s.layers >= 1 && NoPauseIn(env, s.layers - 1)
    case Batch => s.layers >= 1 && NoPauseIn(env, s.layers)
    case Returned(outcome) =>
      s.layers >= 1 && if outcome == Paused then s.layers in env.pauses && NoPauseIn(env, s.layers - 1)
                       else NoPauseIn(env, s.layers)
  }

  lemma StepBoundary(wf: Workflow, slots: nat, env: Environment, s: State, e: Event)
    requires AtBoundary(env, s) && Enabled(wf, slots, s, e) && Meets(wf, env, s, e) && !e.Resume?
    requires Tidy(s)
    ensures AtBoundary(env, Apply(wf, slots, s, e))
  {
  }

  lemma {:induction false} RunBoundary(wf: Workflow, slots: nat, env: Environment, s: State, es: seq<Event>)
    requires AtBoundary(env, s) && Tidy(s) && Runs(wf, slots, s, es) && Faithful(wf, slots, env, s, es)
    requires forall e :: e in es ==> !e.Resume?
    ensures AtBoundary(env, After(wf, slots, s, es))
    decreases |es|
  {
    if es != [] {
      assert es[0] in es;
      StepBoundary(wf, slots, env, s, es[0]);
      StepTidy(wf, slots, s, es[0]);
      RunBoundary(wf, slots, env, Apply(wf, slots, s, es[0]), es[1..]);
    }
  }

  /** A run pauses at the first boundary that it reaches of those asked for, and only there. */
  lemma PausesTheorem(wf: Workflow, slots: nat, env: Environment, s0: State, es: seq<Event>)
    requires Start(wf, s0) && s0.layers == 0 && Runs(wf, slots, s0, es) && Faithful(wf, slots, env, s0, es)
    requires forall e :: e in es ==> !e.Resume?
    ensures var s := After(wf, slots, s0, es);
            && (s.phase == Returned(Paused) ==> s.layers in env.pauses)
            && (s.phase.Returned? ==>
                  forall b :: 1 <= b <= s.layers && b in env.pauses ==> s.phase == Returned(Paused) && b == s.layers)
  {
    assert Tidy(s0);
    RunBoundary(wf, slots, env, s0, es);
  }

  // ---------- outcomes ----------

  /** A node whose execution ends in a failure: it has no executor, or its executor fails and it is not
      marked to be skipped. */
  predicate Fails(wf: Workflow, env: Environment, v: string) {
    !wf.HasExecutor(v) || (v in env.failing && !wf.SkipsOnFailure(v))
  }

  /** Every node has a task: a completed one, or a skipped one where the executor failed. */
  ghost predicate AllDone(wf: Workflow, env: Environment, tasks: map<string, Status>) {
    tasks.Keys == wf.Ids() && forall v :: v in tasks ==> tasks[v] == if v in env.failing then Skipped else Completed
  }

  /** Recorded outcomes are those of the executors. */
  lemma {:induction false} OutcomesOf(wf: Workflow, slots: nat, env: Environment, s: State, es: seq<Event>, v: string)
    requires Runs(wf, slots, s, es) && Faithful(wf, slots, env, s, es)
    ensures FinishOk(v) in es ==> wf.HasExecutor(v) && v !in env.failing
    ensures FinishSkip(v) in es ==> wf.HasExecutor(v) && v in env.failing && wf.SkipsOnFailure(v)
    ensures FinishFail(v) in es ==> Fails(wf, env, v)
    decreases |es|
  {
    if es != [] {
      OutcomesOf(wf, slots, env, Apply(wf, slots, s, es[0]), es[1..], v);
      assert es == [es[0]] + es[1..];
    }
  }

  /** How a first run that is not paused ends depends on the executors alone: it returns an error
      if and only if some node fails, and otherwise nil, with every task completed, or skipped where the
      executor failed. */
  lemma OutcomeTheorem(wf: Workflow, slots: nat, env: Environment, s0: State, es: seq<Event>)
    requires wf.EdgesInside() && wf.Acyclic() && Fresh(wf, s0)
    requires Runs(wf, slots, s0, es) && Faithful(wf, slots, env, s0, es)
    requires var p := After(wf, slots, s0, es).phase; p.Returned? && p != Returned(Paused)
    requires forall e :: e in es ==> !e.Resume?
    ensures var s := After(wf, slots, s0, es);
            && s.phase == (if exists v :: v in wf.Ids() && Fails(wf, env, v) then Returned(Error) else Returned(Nil))
            && (s.phase == Returned(Nil) ==>
                  s.completed == wf.Ids() && AllDone(wf, env, s.tasks))
  {
    var s := After(wf, slots, s0, es);
    Outcomes(s.phase);
    NoResumes(wf, slots, s0, es);
    ContainmentTheorem(wf, slots, s0, es);
    if s.phase == Returned(Nil) {
      forall v | v in wf.Ids()
        ensures !Fails(wf, env, v) && v in s.tasks && s.tasks[v] == if v in env.failing then Skipped else Completed
      {
        assert v in Seed(s.tasks);
        FirstRecordTheorem(wf, slots, s0, es, v);
        OutcomesOf(wf, slots, env, s0, es, v);
      }
      StartOrderly(wf, slots, s0);
      RunOrderly(wf, slots, s0, es);
    } else {
      var f :| HasFailed(s, f);
      FirstRecordTheorem(wf, slots, s0, es, f);
      OutcomesOf(wf, slots, env, s0, es, f);
      StartOrderly(wf, slots, s0);
      RunOrderly(wf, slots, s0, es);
      assert f in wf.Ids();
    }
  }
}
