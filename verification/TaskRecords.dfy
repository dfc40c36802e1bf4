/** What the stored tasks record about the history of an execution. */
module TaskRecords {
  import opened Guarantees
  import opened Histories
  import opened Scheduler
  import opened Workflows

  ghost predicate Has(s: State, v: string, st: Status) {
    v in s.tasks && s.tasks[v] == st
  }

  /** What the events since s have made of v's task in s'. */
  ghost predicate Recorded(s: State, s': State, es: seq<Event>, v: string) {
    && (Has(s', v, Completed) <==> Has(s, v, Completed) || FinishOk(v) in es)
    && (Has(s', v, Skipped) <==> Has(s, v, Skipped) || FinishSkip(v) in es)
    && (Has(s', v, Failed) <==> Has(s, v, Failed) || FinishFail(v) in es)
    && (Has(s', v, Cancelled) <==> Has(s, v, Cancelled))
  }

  /** One event makes a task final, with the status that says how the execution went, and no event
      changes a final status. */
  lemma StepRecords(wf: Workflow, slots: nat, s: State, e: Event, v: string)
    requires Tracked(s) && Enabled(wf, slots, s, e)
    ensures Recorded(s, Apply(wf, slots, s, e), [e], v)
  {
    if e.FinishOk? || e.FinishSkip? || e.FinishFail? {
      assert At(s, e.v, Executing) && s.tasks[e.v] == Running;
    } else if !e.Begin? {
      assert Apply(wf, slots, s, e).tasks == s.tasks;
    }
  }

  lemma RecordedFirst(s: State, s1: State, s': State, es: seq<Event>, v: string)
    requires es != [] && Recorded(s, s1, [es[0]], v) && Recorded(s1, s', es[1..], v)
    ensures Recorded(s, s', es, v)
  {
    assert es == [es[0]] + es[1..];
  }

  lemma {:induction false} RunRecords(wf: Workflow, slots: nat, s: State, es: seq<Event>, v: string)
    requires Tidy(s) && Tracked(s) && Runs(wf, slots, s, es)
    ensures Recorded(s, After(wf, slots, s, es), es, v)
    decreases |es|
  {
    if es != [] {
      StepTidy(wf, slots, s, es[0]);
      StepTracked(wf, slots, s, es[0]);
      StepRecords(wf, slots, s, es[0], v);
      RunRecords(wf, slots, Apply(wf, slots, s, es[0]), es[1..], v);
      RecordedFirst(s, Apply(wf, slots, s, es[0]), After(wf, slots, s, es), es, v);
    }
  }

  /** In every history, from any stored tasks, with pauses and resumptions anywhere: a task is completed
      exactly if it was to begin with or its executor has succeeded, skipped exactly if it was or its
      executor has failed and the node is marked to be skipped, failed exactly if it was or a failure has
      been recorded, and nothing else makes a task final. */
  lemma RecordTheorem(wf: Workflow, slots: nat, s0: State, es: seq<Event>, v: string)
    requires Start(wf, s0) && wf.PredClosed(s0.completed) && Runs(wf, slots, s0, es)
    ensures var s := After(wf, slots, s0, es);
            && (Has(s, v, Completed) <==> Has(s0, v, Completed) || FinishOk(v) in es)
            && (Has(s, v, Skipped) <==> Has(s0, v, Skipped) || FinishSkip(v) in es)
            && (Has(s, v, Failed) <==> Has(s0, v, Failed) || FinishFail(v) in es)
            && (Has(s, v, Cancelled) <==> Has(s0, v, Cancelled))
  {
    StartOrderly(wf, slots, s0);
    RunRecords(wf, slots, s0, es, v);
  }

  /** From a first start every task is either running in its executor or has the status that its one
      outcome gave it, and a resumption starts from exactly the nodes that succeeded or were skipped. */
  lemma FirstRecordTheorem(wf: Workflow, slots: nat, s0: State, es: seq<Event>, v: string)
    requires Fresh(wf, s0) && Runs(wf, slots, s0, es)
    ensures var s := After(wf, slots, s0, es);
            && (Has(s, v, Completed) <==> FinishOk(v) in es)
            && (Has(s, v, Skipped) <==> FinishSkip(v) in es)
            && (Has(s, v, Failed) <==> FinishFail(v) in es)
            && (Has(s, v, Running) <==> At(s, v, Executing))
            && !Has(s, v, Pending) && !Has(s, v, Cancelled)
            && (v in Seed(s.tasks) <==> FinishOk(v) in es || FinishSkip(v) in es)
  {
    RecordTheorem(wf, slots, s0, es, v);
    FreshOncePerTask(wf, s0);
    RunOncePerTask(wf, slots, s0, es);
    TrackedThroughout(wf, slots, s0, es);
  }

  lemma {:induction false} TrackedThroughout(wf: Workflow, slots: nat, s: State, es: seq<Event>)
    requires Tidy(s) && Tracked(s) && Runs(wf, slots, s, es)
    ensures Tracked(After(wf, slots, s, es))
    decreases |es|
  {
    if es != [] {
      StepTidy(wf, slots, s, es[0]);
      StepTracked(wf, slots, s, es[0]);
      TrackedThroughout(wf, slots, Apply(wf, slots, s, es[0]), es[1..]);
    }
  }
}
