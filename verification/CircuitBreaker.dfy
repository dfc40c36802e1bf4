/** The circuit breaker with its failure window pruned in place, against one that remembers every
    failure since the last reset. */
module CircuitBreaker {

  datatype Config = Config(threshold: int, window: int, coolDown: int)

  datatype State = Closed | Open | HalfOpen

  datatype Breaker = Breaker(state: State, failures: seq<int>, lastOpen: int)

  const NewBreaker := Breaker(Closed, [], 0)

  /** The failures strictly after the start of a window, in order. */
  function Recent(failures: seq<int>, windowStart: int): seq<int> {
    if failures == [] then [] else
      var k := |failures| - 1;
      Recent(failures[..k], windowStart) + if failures[k] > windowStart then [failures[k]] else []
  }

  predicate Lets(cfg: Config, b: Breaker, now: int) {
    b.state == Open ==> now - b.lastOpen > cfg.coolDown
  }

  function Asked(cfg: Config, b: Breaker, now: int): Breaker {
    if b.state == Open && Lets(cfg, b, now) then b.(state := HalfOpen) else b
  }

  function Succeeded(b: Breaker): Breaker {
    if b.state == HalfOpen then b.(state := Closed, failures := []) else b
  }

  function Failed(cfg: Config, b: Breaker, now: int): Breaker {
    var recent := Recent(b.failures + [now], now - cfg.window);
    if b.state == HalfOpen || |recent| >= cfg.threshold then Breaker(Open, recent, now)
    else b.(failures := recent)
  }

  // ---------- the breaker object ----------

  class CircuitBreaker {
    const config: Config
    var state: State
    var buf: array<int>   // the failures slice is buf[..len]
    var len: nat
    var lastOpen: int

    ghost predicate Valid()
      reads this
    {
      len <= buf.Length
    }

    function View(): Breaker
      requires Valid()
      reads this, buf
    {
      Breaker(state, buf[..len], lastOpen)
    }

    constructor (config: Config)
      ensures Valid() && View() == NewBreaker && this.config == config && fresh(buf)
    {
      this.config, state, len, lastOpen := config, Closed, 0, 0;
      buf := new int[0];
    }

    method Allow(now: int) returns (ok: bool)
      requires Valid()
      modifies this`state
      ensures Valid() && ok == Lets(config, old(View()), now) && View() == Asked(config, old(View()), now)
    {
      match state {
        case Closed => return true;
        case Open =>
          if now - lastOpen > config.coolDown {
            state := HalfOpen;
            return true;
          }
          return false;
        case HalfOpen => return true;
      }
    }

    method RecordSuccess()
      requires Valid()
      modifies this`state, this`len
      ensures Valid() && View() == Succeeded(old(View()))
    {
      if state == HalfOpen {
        state, len := Closed, 0;
      }
    }

    /** append: in place while there is room, into a larger buffer otherwise. */
    method Append(t: int)
      requires Valid()
      modifies this`buf, this`len, buf
      ensures Valid() && buf[..len] == old(buf[..len]) + [t] && (buf == old(buf) || fresh(buf))
    {
      if len == buf.Length {
        var larger := new int[2 * len + 1];
        for i := 0 to len
          invariant larger[..i] == old(buf[..len])[..i]
          invariant buf == old(buf) && len == old(len) && buf[..] == old(buf[..])
        {
          larger[i] := buf[i];
        }
        buf := larger;
      }
      buf[len] := t;
      len := len + 1;
    }

    /** Keeps the failures inside the window, compacting them to the front of the same buffer. */
    method Prune(windowStart: int)
      requires Valid()
      modifies this`len, buf
      ensures Valid() && buf[..len] == Recent(old(buf[..len]), windowStart)
    {
      var valid := 0;
      ghost var all := buf[..len];
      for i := 0 to len
        invariant valid <= i && len == |all|
        invariant buf[..valid] == Recent(all[..i], windowStart)
        invariant buf[i..len] == all[i..]
      {
        assert all[..i + 1][..i] == all[..i] && buf[i] == all[i];
        ghost var rest := buf[i + 1..len];
        assert rest == buf[i..len][1..] == all[i + 1..];
        var t := buf[i];
        if t > windowStart {
          buf[valid] := t;
          valid := valid + 1;
        }
        assert buf[i + 1..len] == rest;
      }
      assert all[..len] == all;
      len := valid;
    }

    method RecordFailure(now: int)
      requires Valid()
      modifies this, buf
      ensures Valid() && View() == Failed(config, old(View()), now) && (buf == old(buf) || fresh(buf))
    {
      Append(now);
      Prune(now - config.window);
      if state == HalfOpen {
        state, lastOpen := Open, now;
        return;
      }
      if len >= config.threshold {
        state, lastOpen := Open, now;
      }
    }
  }

  // ---------- whole runs ----------

  datatype Event = Ask(at: int) | Success(at: int) | Failure(at: int)

  function After(cfg: Config, b: Breaker, e: Event): Breaker {
    match e
    case Ask(at) => Asked(cfg, b, at)
    case Success(_) => Succeeded(b)
    case Failure(at) => Failed(cfg, b, at)
  }

  function Run(cfg: Config, b: Breaker, es: seq<Event>): Breaker
    decreases |es|
  {
    if es == [] then b else Run(cfg, After(cfg, b, es[0]), es[1..])
  }

  function Answers(cfg: Config, b: Breaker, es: seq<Event>): seq<bool>
    decreases |es|
  {
    if es == [] then [] else
      (if es[0].Ask? then [Lets(cfg, b, es[0].at)] else []) + Answers(cfg, After(cfg, b, es[0]), es[1..])
  }

  /** The breaker that never prunes: it counts the failures of the window anew each time. */
  function AfterKeeping(cfg: Config, b: Breaker, e: Event): Breaker {
    match e
    case Ask(at) => Asked(cfg, b, at)
    case Success(_) => Succeeded(b)
    case Failure(at) =>
      var all := b.failures + [at];
      if b.state == HalfOpen || |Recent(all, at - cfg.window)| >= cfg.threshold then Breaker(Open, all, at)
      else b.(failures := all)
  }

  function AnswersKeeping(cfg: Config, b: Breaker, es: seq<Event>): seq<bool>
    decreases |es|
  {
    if es == [] then [] else
      (if es[0].Ask? then [Lets(cfg, b, es[0].at)] else []) +
      AnswersKeeping(cfg, AfterKeeping(cfg, b, es[0]), es[1..])
  }

  ghost predicate Timely(now: int, es: seq<Event>)
    decreases |es|
  {
    es == [] || (now <= es[0].at && Timely(es[0].at, es[1..]))
  }

  lemma {:induction false} RecentTwice(failures: seq<int>, a: int, b: int)
    requires a <= b
    ensures Recent(Recent(failures, a), b) == Recent(failures, b)
  {
    if failures != [] {
      var k := |failures| - 1;
      var p := Recent(failures[..k], a);
      RecentTwice(failures[..k], a, b);
      if failures[k] > a {
        assert (p + [failures[k]])[..|p|] == p;
      } else {
        assert p + [] == p;
      }
    }
  }

  lemma RecentAppend(failures: seq<int>, t: int, a: int)
    ensures Recent(failures + [t], a) == Recent(failures, a) + if t > a then [t] else []
  {
    assert (failures + [t])[..|failures|] == failures;
  }

  /** The pruned list is what the full list has after some cut that no later window reaches behind. */
  ghost predicate Prunes(cfg: Config, b: Breaker, full: Breaker, cut: int, now: int) {
    b.state == full.state && b.lastOpen == full.lastOpen && cut <= now - cfg.window &&
    b.failures == Recent(full.failures, cut)
  }

  /** A failure: both count the same failures in its window, the pruned list by keeping just those. */
  lemma FailurePrunes(cfg: Config, b: Breaker, full: Breaker, cut: int, now: int, at: int)
    returns (recent: seq<int>, all: seq<int>)
    requires Prunes(cfg, b, full, cut, now) && now <= at
    ensures all == full.failures + [at] && recent == Recent(all, at - cfg.window)
    ensures recent == Recent(b.failures + [at], at - cfg.window)
  {
    var start := at - cfg.window;
    all, recent := full.failures + [at], Recent(full.failures + [at], start);
    RecentAppend(b.failures, at, start);
    RecentAppend(full.failures, at, start);
    RecentTwice(full.failures, cut, start);
  }

  /** A failure noted: the recent ones decide, the given ones are kept. */
  function Noted(cfg: Config, b: Breaker, at: int, recent: seq<int>, kept: seq<int>): Breaker {
    if b.state == HalfOpen || |recent| >= cfg.threshold then Breaker(Open, kept, at) else b.(failures := kept)
  }

  lemma PrunesNext(cfg: Config, b: Breaker, full: Breaker, at: int, recent: seq<int>, all: seq<int>)
    requires b.state == full.state && b.lastOpen == full.lastOpen && recent == Recent(all, at - cfg.window)
    ensures Prunes(cfg, Noted(cfg, b, at, recent, recent), Noted(cfg, full, at, recent, all), at - cfg.window, at)
  {
  }

  lemma FailedNotes(cfg: Config, b: Breaker, at: int, recent: seq<int>)
    requires recent == Recent(b.failures + [at], at - cfg.window)
    ensures After(cfg, b, Failure(at)) == Noted(cfg, b, at, recent, recent)
  {
  }

  lemma KeepingNotes(cfg: Config, full: Breaker, at: int, recent: seq<int>, all: seq<int>)
    requires all == full.failures + [at] && recent == Recent(all, at - cfg.window)
    ensures AfterKeeping(cfg, full, Failure(at)) == Noted(cfg, full, at, recent, all)
  {
  }

  lemma FailureStep(cfg: Config, b: Breaker, full: Breaker, cut: int, now: int, at: int)
    requires Prunes(cfg, b, full, cut, now) && now <= at
    ensures Prunes(cfg, After(cfg, b, Failure(at)), AfterKeeping(cfg, full, Failure(at)), at - cfg.window, at)
  {
    var recent, all := FailurePrunes(cfg, b, full, cut, now, at);
    PrunesNext(cfg, b, full, at, recent, all);
    FailedNotes(cfg, b, at, recent);
    KeepingNotes(cfg, full, at, recent, all);
  }

  lemma StepPrunes(cfg: Config, b: Breaker, full: Breaker, cut: int, now: int, e: Event) returns (cut': int)
    requires Prunes(cfg, b, full, cut, now) && now <= e.at
    ensures Prunes(cfg, After(cfg, b, e), AfterKeeping(cfg, full, e), cut', e.at)
  {
    match e
    case Ask(at) =>
      cut' := cut;
    case Success(at) =>
      cut' := cut;
      assert Recent([], cut) == [];
    case Failure(at) =>
      cut' := at - cfg.window;
      FailureStep(cfg, b, full, cut, now, at);
  }

  lemma {:induction false} SameAnswers(cfg: Config, b: Breaker, full: Breaker, cut: int, now: int, es: seq<Event>)
    requires Prunes(cfg, b, full, cut, now) && Timely(now, es)
    ensures Answers(cfg, b, es) == AnswersKeeping(cfg, full, es)
    decreases |es|
  {
    if es != [] {
      var cut' := StepPrunes(cfg, b, full, cut, now, es[0]);
      SameAnswers(cfg, After(cfg, b, es[0]), AfterKeeping(cfg, full, es[0]), cut', es[0].at, es[1..]);
    }
  }

  /** Pruning is invisible: on every run it answers like the breaker that keeps all failures. */
  lemma PruningTheorem(cfg: Config, now: int, es: seq<Event>)
    requires Timely(now, es)
    ensures Answers(cfg, NewBreaker, es) == AnswersKeeping(cfg, NewBreaker, es)
  {
    SameAnswers(cfg, NewBreaker, NewBreaker, now - cfg.window, now, es);
  }

  /** The stored failures lie inside the window that ends with the last of them. */
  ghost predicate Windowed(cfg: Config, failures: seq<int>) {
    forall i :: 0 <= i < |failures| ==> failures[i] > failures[|failures| - 1] - cfg.window
  }

  lemma {:induction false} RecentAfter(failures: seq<int>, start: int)
    ensures forall i :: 0 <= i < |Recent(failures, start)| ==> Recent(failures, start)[i] > start
  {
    if failures != [] {
      RecentAfter(failures[..|failures| - 1], start);
    }
  }

  lemma RecentEndsNow(failures: seq<int>, now: int, start: int) returns (recent: seq<int>)
    requires start < now
    ensures recent == Recent(failures + [now], start) && recent != [] && recent[|recent| - 1] == now
    ensures forall i :: 0 <= i < |recent| ==> recent[i] > start
  {
    recent := Recent(failures + [now], start);
    RecentAppend(failures, now, start);
    RecentAfter(failures + [now], start);
  }

  lemma FailedWindowed(cfg: Config, b: Breaker, now: int)
    requires cfg.window > 0
    ensures Windowed(cfg, Failed(cfg, b, now).failures)
  {
    var recent := RecentEndsNow(b.failures, now, now - cfg.window);
    assert Windowed(cfg, recent);
  }

  /** While closed it stores fewer failures than the threshold, and in every state each of them lies
      inside the window of the last one. */
  lemma {:induction false} ClosedTheorem(cfg: Config, b: Breaker, es: seq<Event>)
    requires cfg.threshold > 0 && (b.state == Closed ==> |b.failures| < cfg.threshold)
    ensures var b' := Run(cfg, b, es); b'.state == Closed ==> |b'.failures| < cfg.threshold
    ensures cfg.window > 0 && Windowed(cfg, b.failures) ==> Windowed(cfg, Run(cfg, b, es).failures)
    decreases |es|
  {
    if es != [] {
      if es[0].Failure? && cfg.window > 0 {
        FailedWindowed(cfg, b, es[0].at);
      }
      ClosedTheorem(cfg, After(cfg, b, es[0]), es[1..]);
    }
  }

  /** Once open it refuses everything until the cool-down since the opening has passed, whatever
      late results of earlier requests come in meanwhile. */
  lemma {:induction false} CoolDownTheorem(cfg: Config, b: Breaker, openedAt: int, now: int, es: seq<Event>)
    requires b.state == Open && openedAt <= b.lastOpen && Timely(now, es) && b.lastOpen <= now
    requires forall e :: e in es ==> e.at - openedAt <= cfg.coolDown
    ensures Run(cfg, b, es).state == Open && forall a :: a in Answers(cfg, b, es) ==> !a
    decreases |es|
  {
    if es != [] {
      assert es[0] in es;
      CoolDownTheorem(cfg, After(cfg, b, es[0]), openedAt, es[0].at, es[1..]);
    }
  }
}
