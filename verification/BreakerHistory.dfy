/** What the circuit breaker answers, told from the calls made on it alone: when it opens, when it probes,
    when it forgets its failures, and so which requests it refuses. */
module BreakerHistory {
  import opened CircuitBreaker

  // All of these speak of event k of a history, or of the moment before it.

  /** Event m opened the breaker, and since then it has not been opened again and has let nothing through. */
  ghost predicate Opened(cfg: Config, es: seq<Event>, m: int, k: nat)
    requires k <= |es|
    decreases k, 0
  {
    && 0 <= m < k && Opens(cfg, es, m)
    && forall j :: m < j < k ==> !Opens(cfg, es, j) && (es[j].Ask? ==> Refused(cfg, es, j))
  }

  /** A request is refused when the breaker has been opened, nothing has been let through since, and no
      more than the cool-down has passed since the opening. */
  ghost predicate Refused(cfg: Config, es: seq<Event>, k: nat)
    requires k < |es|
    decreases k, 1
  {
    es[k].Ask? &&
    exists m {:trigger es[m]} :: 0 <= m < k && Opened(cfg, es, m, k) && es[k].at - es[m].at <= cfg.coolDown
  }

  ghost predicate IsOpen(cfg: Config, es: seq<Event>, k: nat)
    requires k <= |es|
    decreases k, 1
  {
    exists m {:trigger es[m]} :: 0 <= m < k && es[m].Failure? && Opened(cfg, es, m, k)
  }

  /** The request at p was let through although the breaker had been opened, and since then no outcome
      has come in. */
  ghost predicate Probe(cfg: Config, es: seq<Event>, p: int, k: nat)
    requires k <= |es|
    decreases k, 2
  {
    && 0 <= p < k && es[p].Ask? && !Refused(cfg, es, p) && IsOpen(cfg, es, p)
    && forall j :: p < j < k ==> es[j].Ask?
  }

  ghost predicate Probing(cfg: Config, es: seq<Event>, k: nat)
    requires k <= |es|
    decreases k, 3
  {
    exists p {:trigger es[p]} :: 0 <= p < k && es[p].Ask? && Probe(cfg, es, p, k)
  }

  /** A success while probing closes the breaker and forgets all failures. */
  ghost predicate Resets(cfg: Config, es: seq<Event>, k: nat)
    requires k < |es|
    decreases k, 4
  {
    es[k].Success? && Probing(cfg, es, k)
  }

  /** The failures after a time, among those before event k that have not been forgotten. */
  ghost function Failures(cfg: Config, es: seq<Event>, k: nat, start: int): nat
    requires k <= |es|
    decreases k, 5
  {
    if k == 0 || Resets(cfg, es, k - 1) then 0
    else Failures(cfg, es, k - 1, start) + if es[k - 1].Failure? && es[k - 1].at > start then 1 else 0
  }

  /** A failure opens the breaker while it probes, or when with it there are enough in the window. */
  ghost predicate Opens(cfg: Config, es: seq<Event>, k: nat)
    requires k < |es|
    decreases k, 6
  {
    && es[k].Failure?
    && (Probing(cfg, es, k) ||
        Failures(cfg, es, k, es[k].at - cfg.window) + (if cfg.window > 0 then 1 else 0) >= cfg.threshold)
  }

  // ---------- one event ----------

  lemma OpenedOnce(cfg: Config, es: seq<Event>, m: int, n: int, k: nat)
    requires k <= |es| && Opened(cfg, es, m, k) && Opened(cfg, es, n, k)
    ensures m == n
  {
  }

  lemma OpenedMeans(cfg: Config, es: seq<Event>, m: int, k: nat)
    requires k <= |es| && Opened(cfg, es, m, k)
    ensures IsOpen(cfg, es, k)
  {
    assert es[m].Failure?;
  }

  lemma RefusedIsOpen(cfg: Config, es: seq<Event>, k: nat)
    requires k < |es| && Refused(cfg, es, k)
    ensures IsOpen(cfg, es, k)
  {
    var m :| 0 <= m < k && Opened(cfg, es, m, k) && es[k].at - es[m].at <= cfg.coolDown;
    OpenedMeans(cfg, es, m, k);
  }

  lemma OpenedNext(cfg: Config, es: seq<Event>, m: int, k: nat)
    requires k < |es|
    ensures Opened(cfg, es, m, k + 1) <==>
            if m == k then Opens(cfg, es, k)
            else Opened(cfg, es, m, k) && !Opens(cfg, es, k) && (es[k].Ask? ==> Refused(cfg, es, k))
  {
  }

  lemma OpenNext(cfg: Config, es: seq<Event>, k: nat)
    requires k < |es|
    ensures IsOpen(cfg, es, k + 1) <==>
            Opens(cfg, es, k) || (IsOpen(cfg, es, k) && (es[k].Ask? ==> Refused(cfg, es, k)))
  {
    var n := k + 1;
    if m :| 0 <= m < n && Opened(cfg, es, m, n) {
      OpenedNext(cfg, es, m, k);
    }
    if m :| 0 <= m < k && Opened(cfg, es, m, k) {
      OpenedNext(cfg, es, m, k);
    }
    OpenedNext(cfg, es, k, k);
  }

  lemma ProbeNext(cfg: Config, es: seq<Event>, p: int, k: nat)
    requires k < |es|
    ensures Probe(cfg, es, p, k + 1) <==>
            if p == k then es[k].Ask? && !Refused(cfg, es, k) && IsOpen(cfg, es, k)
            else es[k].Ask? && Probe(cfg, es, p, k)
  {
  }

  lemma ProbingNext(cfg: Config, es: seq<Event>, k: nat)
    requires k < |es|
    ensures Probing(cfg, es, k + 1) <==>
            es[k].Ask? && (Probing(cfg, es, k) || (!Refused(cfg, es, k) && IsOpen(cfg, es, k)))
  {
    var n := k + 1;
    if p :| 0 <= p < n && Probe(cfg, es, p, n) {
      ProbeNext(cfg, es, p, k);
    }
    if p :| 0 <= p < k && Probe(cfg, es, p, k) {
      ProbeNext(cfg, es, p, k);
    }
    ProbeNext(cfg, es, k, k);
  }

  /** When the breaker was opened last. */
  ghost predicate OpenedAt(cfg: Config, es: seq<Event>, k: nat, at: int)
    requires k <= |es|
  {
    forall m {:trigger es[m]} :: 0 <= m < k && Opened(cfg, es, m, k) ==> es[m].at == at
  }

  lemma OpenedAtNext(cfg: Config, es: seq<Event>, k: nat, at: int)
    requires k < |es| && (!Opens(cfg, es, k) ==> OpenedAt(cfg, es, k, at))
    ensures OpenedAt(cfg, es, k + 1, if Opens(cfg, es, k) then es[k].at else at)
  {
    var n := k + 1;
    forall m | 0 <= m < n && Opened(cfg, es, m, n) ensures es[m].at == if Opens(cfg, es, k) then es[k].at else at {
      OpenedNext(cfg, es, m, k);
    }
  }

  /** The breaker remembers of its failures those that a later window can reach. */
  ghost predicate Remembers(cfg: Config, es: seq<Event>, k: nat, failures: seq<int>, now: int)
    requires k <= |es|
  {
    forall start :: start >= now - cfg.window ==> |Recent(failures, start)| == Failures(cfg, es, k, start)
  }

  /** The breaker's fields say what its history says. */
  ghost predicate Tells(cfg: Config, es: seq<Event>, k: nat, b: Breaker, now: int)
    requires k <= |es|
  {
    && (b.state == Open <==> IsOpen(cfg, es, k))
    && (b.state == HalfOpen <==> Probing(cfg, es, k))
    && OpenedAt(cfg, es, k, b.lastOpen) && Remembers(cfg, es, k, b.failures, now)
  }

  lemma LetsUnlessRefused(cfg: Config, es: seq<Event>, k: nat, b: Breaker, now: int)
    requires k < |es| && Tells(cfg, es, k, b, now) && es[k].Ask?
    ensures Lets(cfg, b, es[k].at) <==> !Refused(cfg, es, k)
  {
    if Refused(cfg, es, k) {
      var n :| 0 <= n < k && Opened(cfg, es, n, k) && es[k].at - es[n].at <= cfg.coolDown;
      OpenedMeans(cfg, es, n, k);
      assert b.lastOpen == es[n].at;
    } else if IsOpen(cfg, es, k) {
      var m :| 0 <= m < k && es[m].Failure? && Opened(cfg, es, m, k);
      assert b.lastOpen == es[m].at;
    }
  }

  lemma NoFailureRemembers(cfg: Config, es: seq<Event>, k: nat, b: Breaker, now: int)
    requires k < |es| && Tells(cfg, es, k, b, now) && !es[k].Failure? && now <= es[k].at
    ensures Remembers(cfg, es, k + 1, After(cfg, b, es[k]).failures, es[k].at)
  {
    var failures := After(cfg, b, es[k]).failures;
    assert Resets(cfg, es, k) ==> failures == [];
    forall start | start >= es[k].at - cfg.window
      ensures |Recent(failures, start)| == Failures(cfg, es, k + 1, start)
    {
      assert Recent([], start) == [];
    }
  }

  lemma NoFailureTells(cfg: Config, es: seq<Event>, k: nat, b: Breaker, now: int)
    requires k < |es| && Tells(cfg, es, k, b, now) && !es[k].Failure? && now <= es[k].at
    ensures Tells(cfg, es, k + 1, After(cfg, b, es[k]), es[k].at)
  {
    if es[k].Ask? {
      LetsUnlessRefused(cfg, es, k, b, now);
    }
    ProbingNext(cfg, es, k);
    OpenNext(cfg, es, k);
    OpenedAtNext(cfg, es, k, b.lastOpen);
    NoFailureRemembers(cfg, es, k, b, now);
  }

  /** What a later window finds in the pruned failures. */
  lemma PrunedSize(failures: seq<int>, at: int, cut: int, start: int)
    requires cut <= start
    ensures |Recent(Recent(failures + [at], cut), start)| == |Recent(failures, start)| + (if at > start then 1 else 0)
  {
    RecentTwice(failures + [at], cut, start);
    RecentAppend(failures, at, start);
  }

  lemma OneMoreFailure(cfg: Config, es: seq<Event>, k: nat, start: int)
    requires k < |es| && es[k].Failure?
    ensures Failures(cfg, es, k + 1, start) == Failures(cfg, es, k, start) + if es[k].at > start then 1 else 0
  {
  }

  lemma Pruned(failures: seq<int>, at: int, cut: int) returns (recent: seq<int>)
    ensures recent == Recent(failures + [at], cut)
    ensures |recent| == |Recent(failures, cut)| + if at > cut then 1 else 0
    ensures forall start :: cut <= start ==>
              |Recent(recent, start)| == |Recent(failures, start)| + if at > start then 1 else 0
  {
    recent := Recent(failures + [at], cut);
    RecentAppend(failures, at, cut);
    forall start | cut <= start
      ensures |Recent(recent, start)| == |Recent(failures, start)| + if at > start then 1 else 0
    {
      PrunedSize(failures, at, cut, start);
    }
  }

  lemma PrunedRemembers(cfg: Config, es: seq<Event>, k: nat, failures: seq<int>, recent: seq<int>, now: int)
    requires k < |es| && Remembers(cfg, es, k, failures, now) && es[k].Failure? && now <= es[k].at
    requires forall start :: es[k].at - cfg.window <= start ==>
               |Recent(recent, start)| == |Recent(failures, start)| + if es[k].at > start then 1 else 0
    ensures Remembers(cfg, es, k + 1, recent, es[k].at)
  {
    forall start | start >= es[k].at - cfg.window ensures |Recent(recent, start)| == Failures(cfg, es, k + 1, start) {
      OneMoreFailure(cfg, es, k, start);
    }
  }

  lemma FailureCounts(cfg: Config, es: seq<Event>, k: nat, failures: seq<int>, now: int) returns (recent: seq<int>)
    requires k < |es| && Remembers(cfg, es, k, failures, now) && es[k].Failure? && now <= es[k].at
    ensures recent == Recent(failures + [es[k].at], es[k].at - cfg.window)
    ensures |recent| == Failures(cfg, es, k, es[k].at - cfg.window) + if cfg.window > 0 then 1 else 0
    ensures Remembers(cfg, es, k + 1, recent, es[k].at)
  {
    var cut := es[k].at - cfg.window;
    recent := Pruned(failures, es[k].at, cut);
    PrunedRemembers(cfg, es, k, failures, recent, now);
    assert |Recent(failures, cut)| == Failures(cfg, es, k, cut);
  }

  lemma FailureTells(cfg: Config, es: seq<Event>, k: nat, b: Breaker, now: int)
    requires k < |es| && Tells(cfg, es, k, b, now) && es[k].Failure? && now <= es[k].at
    ensures Tells(cfg, es, k + 1, After(cfg, b, es[k]), es[k].at)
  {
    var recent := FailureCounts(cfg, es, k, b.failures, now);
    ProbingNext(cfg, es, k);
    OpenNext(cfg, es, k);
    OpenedAtNext(cfg, es, k, b.lastOpen);
  }

  // ---------- whole runs ----------

  lemma {:induction false} RunSnoc(cfg: Config, b: Breaker, es: seq<Event>, e: Event)
    ensures Run(cfg, b, es + [e]) == After(cfg, Run(cfg, b, es), e)
    ensures Answers(cfg, b, es + [e]) ==
            Answers(cfg, b, es) + if e.Ask? then [Lets(cfg, Run(cfg, b, es), e.at)] else []
    decreases |es|
  {
    var longer := es + [e];
    if es == [] {
      assert longer == [e] && longer[1..] == [];
    } else {
      assert longer[0] == es[0] && longer[1..] == es[1..] + [e];
      RunSnoc(cfg, After(cfg, b, es[0]), es[1..], e);
    }
  }

  /** The time of the event before event k. */
  function Clock(now: int, es: seq<Event>, k: nat): int
    requires k <= |es|
  {
    if k == 0 then now else es[k - 1].at
  }

  lemma {:induction false} TimelyAt(now: int, es: seq<Event>, k: nat)
    requires Timely(now, es) && k < |es|
    ensures Clock(now, es, k) <= es[k].at
    decreases k
  {
    if k > 0 {
      TimelyAt(es[0].at, es[1..], k - 1);
    }
  }

  /** The answers that the history calls for. */
  ghost function Verdicts(cfg: Config, es: seq<Event>, k: nat): seq<bool>
    requires k <= |es|
  {
    if k == 0 then []
    else Verdicts(cfg, es, k - 1) + if es[k - 1].Ask? then [!Refused(cfg, es, k - 1)] else []
  }

  lemma NextTells(cfg: Config, es: seq<Event>, k: nat, b: Breaker, now: int)
    requires k < |es| && Tells(cfg, es, k, b, now) && now <= es[k].at
    ensures Tells(cfg, es, k + 1, After(cfg, b, es[k]), es[k].at)
    ensures es[k].Ask? ==> (Lets(cfg, b, es[k].at) <==> !Refused(cfg, es, k))
  {
    if es[k].Failure? {
      FailureTells(cfg, es, k, b, now);
    } else {
      NoFailureTells(cfg, es, k, b, now);
    }
    if es[k].Ask? {
      LetsUnlessRefused(cfg, es, k, b, now);
    }
  }

  lemma {:induction false} TellsThroughout(cfg: Config, now: int, es: seq<Event>, k: nat)
    requires Timely(now, es) && k <= |es|
    ensures Tells(cfg, es, k, Run(cfg, NewBreaker, es[..k]), Clock(now, es, k))
    ensures Answers(cfg, NewBreaker, es[..k]) == Verdicts(cfg, es, k)
    decreases k
  {
    if k > 0 {
      var b, e := Run(cfg, NewBreaker, es[..k - 1]), es[k - 1];
      TellsThroughout(cfg, now, es, k - 1);
      TimelyAt(now, es, k - 1);
      assert es[..k] == es[..k - 1] + [e];
      RunSnoc(cfg, NewBreaker, es[..k - 1], e);
      NextTells(cfg, es, k - 1, b, Clock(now, es, k - 1));
    }
  }

  /** On every run on a clock that never goes back, the breaker refuses exactly the requests that come
      within the cool-down after it was opened last, with nothing let through since. */
  lemma HistoryTheorem(cfg: Config, now: int, es: seq<Event>)
    requires Timely(now, es)
    ensures Answers(cfg, NewBreaker, es) == Verdicts(cfg, es, |es|)
    ensures var state := Run(cfg, NewBreaker, es).state;
            (state == Open <==> IsOpen(cfg, es, |es|)) && (state == HalfOpen <==> Probing(cfg, es, |es|))
  {
    TellsThroughout(cfg, now, es, |es|);
    assert es[..|es|] == es;
  }

  // ---------- recovery ----------

  /** How many failures there are among the events from one index up to another. */
  function FailuresIn(es: seq<Event>, from: nat, to: nat): nat
    requires from <= to <= |es|
  {
    if from == to then 0 else FailuresIn(es, from, to - 1) + if es[to - 1].Failure? then 1 else 0
  }

  lemma {:induction false} NeverBoth(cfg: Config, es: seq<Event>, k: nat)
    requires k <= |es|
    ensures !(IsOpen(cfg, es, k) && Probing(cfg, es, k))
  {
    if k > 0 {
      NeverBoth(cfg, es, k - 1);
      OpenNext(cfg, es, k - 1);
      ProbingNext(cfg, es, k - 1);
    }
  }

  /** After a success while probing the breaker does not open, and so refuses nothing, before there have
      been as many failures again as the threshold. */
  lemma {:induction false} RecoveryTheorem(cfg: Config, es: seq<Event>, q: nat, k: nat)
    requires q < k <= |es| && Resets(cfg, es, q) && FailuresIn(es, q + 1, k) < cfg.threshold
    ensures forall j :: q <= j < k ==> !Opens(cfg, es, j) && !Refused(cfg, es, j)
    ensures !IsOpen(cfg, es, k) && !Probing(cfg, es, k)
    ensures forall start :: Failures(cfg, es, k, start) <= FailuresIn(es, q + 1, k)
    decreases k
  {
    OpenNext(cfg, es, k - 1);
    ProbingNext(cfg, es, k - 1);
    if Refused(cfg, es, k - 1) {
      RefusedIsOpen(cfg, es, k - 1);
    }
    if k == q + 1 {
      NeverBoth(cfg, es, q);
    } else {
      RecoveryTheorem(cfg, es, q, k - 1);
    }
  }
}
