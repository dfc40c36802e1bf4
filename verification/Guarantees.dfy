/** Runs of the scheduler, and what every one of them guarantees: order, parallelism and the containment
    of failures. */
module Guarantees {
  import opened Scheduler
  import opened Sequences
  import opened Workflows

  // ---------- runs ----------

  ghost predicate Runs(wf: Workflow, slots: nat, s: State, es: seq<Event>)
    decreases |es|
  {
    es == [] || (Enabled(wf, slots, s, es[0]) && Runs(wf, slots, Apply(wf, slots, s, es[0]), es[1..]))
  }

  ghost function After(wf: Workflow, slots: nat, s: State, es: seq<Event>): State
    requires Runs(wf, slots, s, es)
    decreases |es|
  {
    if es == [] then s else After(wf, slots, Apply(wf, slots, s, es[0]), es[1..])
  }

  /** Resumed, if at all, only while nothing has failed. */
  ghost predicate ResumesClean(wf: Workflow, slots: nat, s: State, es: seq<Event>)
    requires Runs(wf, slots, s, es)
    decreases |es|
  {
    es == [] || ((es[0].Resume? ==> NoneFailed(s)) &&
                 ResumesClean(wf, slots, Apply(wf, slots, s, es[0]), es[1..]))
  }

  lemma {:induction false} RunOrderly(wf: Workflow, slots: nat, s: State, es: seq<Event>)
    requires Orderly(wf, slots, s) && Runs(wf, slots, s, es) && forall e :: e in es ==> !e.Resume?
    ensures Orderly(wf, slots, After(wf, slots, s, es))
    decreases |es|
  {
    if es != [] {
      StepOrderly(wf, slots, s, es[0]);
      RunOrderly(wf, slots, Apply(wf, slots, s, es[0]), es[1..]);
    }
  }

  lemma {:induction false} RunContained(wf: Workflow, slots: nat, s: State, es: seq<Event>)
    requires Orderly(wf, slots, s) && Tracked(s) && Contained(wf, s)
    requires Runs(wf, slots, s, es) && ResumesClean(wf, slots, s, es)
    ensures var s' := After(wf, slots, s, es); Orderly(wf, slots, s') && Tracked(s') && Contained(wf, s')
    decreases |es|
  {
    if es != [] {
      StepContained(wf, slots, s, es[0]);
      RunContained(wf, slots, Apply(wf, slots, s, es[0]), es[1..]);
    }
  }

  /** Order and parallelism in every interleaving of one run. */
  lemma OrderTheorem(wf: Workflow, slots: nat, s0: State, es: seq<Event>)
    requires Start(wf, s0) && wf.PredClosed(s0.completed)
    requires Runs(wf, slots, s0, es) && forall e :: e in es ==> !e.Resume?
    ensures var s := After(wf, slots, s0, es);
            && wf.PredClosed(s.completed)
            && (forall v :: v in s.queue || v in s.flight ==> wf.DepsIn(s.completed, v))
            && |s.flight| <= slots
            && (s.phase == Between || s.phase.Returned? ==> s.flight == map[])
  {
    StartOrderly(wf, slots, s0);
    RunOrderly(wf, slots, s0, es);
    var s := After(wf, slots, s0, es);
    forall v | v in s.queue || v in s.flight ensures wf.DepsIn(s.completed, v) {
      assert wf.DepsIn(s.start, v);
    }
  }

  /** Failure containment: nothing downstream of a failed node is ever started, a nil return means
      that every node ended well and no error was sent, and an error return that some node failed. */
  lemma ContainmentTheorem(wf: Workflow, slots: nat, s0: State, es: seq<Event>)
    requires wf.EdgesInside() && wf.Acyclic() && CleanStart(wf, s0)
    requires Runs(wf, slots, s0, es) && ResumesClean(wf, slots, s0, es)
    ensures var s := After(wf, slots, s0, es);
            && (forall f, v :: HasFailed(s, f) && v in s.started ==> !wf.Reaches(f, v))
            && (s.phase == Returned(Nil) ==>
                  s.errs == [] && NoneFailed(s) && s.completed == wf.Ids() == Seed(s.tasks))
            && (s.phase == Returned(Error) ==> exists f :: HasFailed(s, f))
            && (forall v :: At(s, v, Reporting) ==> Enabled(wf, slots, s, Report(v)))
  {
    StartContained(wf, slots, s0);
    RunContained(wf, slots, s0, es);
    RunEndsComplete(wf, slots, s0, es);
    var s := After(wf, slots, s0, es);
    forall f, v | HasFailed(s, f) && v in s.started ensures !wf.Reaches(f, v) {
      FailedReachesNone(wf, s, f, v);
    }
    if s.phase == Returned(Nil) {
      NilIsClean(wf, s);
    }
    forall v | At(s, v, Reporting) ensures Enabled(wf, slots, s, Report(v)) {
      SendNeverBlocks(wf, slots, s, v);
    }
  }

  lemma FailedReachesNone(wf: Workflow, s: State, f: string, v: string)
    requires CleanUpstream(wf, s) && HasFailed(s, f) && v in s.started
    ensures !wf.Reaches(f, v)
  {
    if wf.Reaches(f, v) {
      assert wf.PredClosed(Seed(s.tasks));
      AncestorsIn(wf, Seed(s.tasks), f, v);
      assert false;
    }
  }

  lemma NilIsClean(wf: Workflow, s: State)
    requires s.phase == Returned(Nil) && wf.Ids() <= s.completed <= wf.Ids() && s.tasks.Keys <= wf.Ids()
    requires CompletedClean(s) && Tracked(s)
    ensures s.errs == [] && NoneFailed(s) && s.completed == wf.Ids() == Seed(s.tasks)
  {
    if s.errs != [] {
      ErrorsFailed(s);
    }
    forall v | v in s.tasks ensures EndedWell(s.tasks, v) {
      assert v in s.completed;
    }
  }

  /** A nil return happens only when no node is ready, and then, by acyclicity, none is missing. */
  lemma {:induction false} RunEndsComplete(wf: Workflow, slots: nat, s: State, es: seq<Event>)
    requires wf.EdgesInside() && wf.Acyclic() && Runs(wf, slots, s, es)
    requires s.phase == Returned(Nil) ==> wf.Ids() <= s.completed
    ensures var s' := After(wf, slots, s, es); s'.phase == Returned(Nil) ==> wf.Ids() <= s'.completed
    decreases |es|
  {
    if es != [] {
      var s1 := Apply(wf, slots, s, es[0]);
      if es[0].ReturnNil? && !(wf.Ids() <= s.completed) {
        ReadyExists(wf, s.completed);
        assert false;
      }
      RunEndsComplete(wf, slots, s1, es[1..]);
    }
  }

  /** One more step at the end of a run. */
  lemma {:induction false} RunsSnoc(wf: Workflow, slots: nat, s: State, es: seq<Event>, e: Event)
    requires Runs(wf, slots, s, es) && Enabled(wf, slots, After(wf, slots, s, es), e)
    ensures Runs(wf, slots, s, es + [e])
    ensures After(wf, slots, s, es + [e]) == Apply(wf, slots, After(wf, slots, s, es), e)
    decreases |es|
  {
    var longer := es + [e];
    if es == [] {
      assert longer == [e] && longer[1..] == [];
    } else {
      assert longer[1..] == es[1..] + [e];
      RunsSnoc(wf, slots, Apply(wf, slots, s, es[0]), es[1..], e);
    }
  }
}
