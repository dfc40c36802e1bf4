/** What cleanup changes for the requests of a whole run, in every interleaving of requests and cleanup:
    the store against one that never deletes. */
module SweepTheory {
  import opened BucketStore
  import opened TokenBucket

  // A request looks up its key's bucket and later takes from it. A cleanup pass, which reads the clock
  // once at its start, checks one key after another.
  datatype Event =
    | Look(h: nat, key: string, at: real)
    | Use(h: nat, at: real)
    | Check(key: string, pass: real, at: real)

  /** The store, the key each bucket was made for, the buckets that requests have looked up but not yet
      used, and all answers so far. */
  datatype World = World(store: Store, owners: seq<string>, held: map<nat, nat>, answers: seq<bool>)

  const Empty := World(Store([], map[]), [], map[], [])

  // ---------- runs ----------

  predicate Enabled(held: set<nat>, e: Event) {
    match e
    case Look(h, _, _) => h !in held
    case Use(h, _) => h in held
    case Check(_, pass, at) => pass <= at
  }

  function Held(held: set<nat>, e: Event): set<nat> {
    match e
    case Look(h, _, _) => held + {h}
    case Use(h, _) => held - {h}
    case Check(_, _, _) => held
  }

  /** Every request looks up before it uses, and uses once. */
  ghost predicate Proper(held: set<nat>, es: seq<Event>)
    decreases |es|
  {
    es == [] || (Enabled(held, es[0]) && Proper(Held(held, es[0]), es[1..]))
  }

  ghost predicate Timely(now: real, es: seq<Event>)
    decreases |es|
  {
    es == [] || (now <= es[0].at && Timely(es[0].at, es[1..]))
  }

  ghost predicate Placed(w: World) {
    && |w.owners| == |w.store.cells|
    && (forall k :: k in w.store.index ==> w.store.index[k] < |w.store.cells|)
    && forall h :: h in w.held ==> w.held[h] < |w.store.cells|
  }

  function NewOwners(w: World, key: string): seq<string> {
    if key in w.store.index then w.owners else w.owners + [key]
  }

  /** One step; `sweeping` says whether idle buckets are really deleted. */
  ghost function After(earned: Earning, burst: int, w: World, e: Event, sweeping: bool): (w': World)
    requires Placed(w) && Enabled(w.held.Keys, e)
    ensures Placed(w') && w'.held.Keys == Held(w.held.Keys, e)
  {
    match e
    case Look(h, key, at) =>
      var s := Looked(w.store, burst, key, at);
      w.(store := s, owners := NewOwners(w, key), held := w.held[h := s.index[key]])
    case Use(h, at) =>
      World(Used(earned, w.store, w.held[h], at), w.owners, w.held - {h}, w.answers + [Answer(earned, w, h, at)])
    case Check(key, pass, _) => if sweeping then w.(store := Checked(w.store, key, pass)) else w
  }

  ghost function Run(earned: Earning, burst: int, w: World, es: seq<Event>, sweeping: bool): (w': World)
    requires Placed(w) && Proper(w.held.Keys, es)
    ensures Placed(w')
    decreases |es|
  {
    if es == [] then w else Run(earned, burst, After(earned, burst, w, es[0], sweeping), es[1..], sweeping)
  }

  ghost predicate Answer(earned: Earning, w: World, h: nat, at: real)
    requires Placed(w) && h in w.held
  {
    Grants(earned, w.store.cells[w.held[h]], 1, at)
  }

  /** This step does not delete a bucket that a request has looked up and not yet used. */
  ghost predicate NotTorn(w: World, e: Event)
    requires Placed(w)
  {
    e.Check? && e.key in w.store.index && IsIdle(w.store.cells[w.store.index[e.key]], e.pass) ==>
      forall h :: h in w.held ==> w.held[h] != w.store.index[e.key]
  }

  ghost predicate Untorn(earned: Earning, burst: int, w: World, es: seq<Event>)
    requires Placed(w) && Proper(w.held.Keys, es)
    decreases |es|
  {
    es == [] || (NotTorn(w, es[0]) && Untorn(earned, burst, After(earned, burst, w, es[0], true), es[1..]))
  }

  /** Deleting idle buckets changes no answer of this run. */
  ghost predicate Invisible(earned: Earning, burst: int, es: seq<Event>)
    requires Proper(Empty.held.Keys, es)
  {
    Run(earned, burst, Empty, es, true).answers == Run(earned, burst, Empty, es, false).answers
  }

  // ---------- levels ----------

  /** What a request for the key would find. */
  ghost function LevelOf(earned: Earning, burst: int, s: Store, key: string, now: real): real
    requires key in s.index ==> s.index[key] < |s.cells|
  {
    if key in s.index then Level(earned, s.cells[s.index[key]], now) else burst as real
  }

  predicate InRange(burst: int, b: Bucket, now: real) {
    0.0 <= b.tokens <= b.max == burst as real && b.last <= now
  }

  /** Buckets are stored under the keys they were made for. */
  ghost predicate Separate(w: World)
    requires Placed(w)
  {
    forall k :: k in w.store.index ==> w.owners[w.store.index[k]] == k
  }

  ghost predicate Sound(burst: int, w: World, now: real) {
    && Placed(w) && Separate(w)
    && forall i :: 0 <= i < |w.store.cells| ==> InRange(burst, w.store.cells[i], now)
  }

  /** What a bucket holds at one time decides what it holds later. */
  lemma LevelLater(earned: Earning, b: Bucket, now: real, later: real)
    requires Growing(earned) && now <= later
    ensures var grown := Level(earned, b, now) + (earned(later) - earned(now));
            Level(earned, b, later) == if grown > b.max then b.max else grown
  {
    assert earned(now) <= earned(later);
  }

  lemma LevelRange(earned: Earning, burst: int, b: Bucket, now: real)
    requires Growing(earned) && InRange(burst, b, now)
    ensures 0.0 <= Level(earned, b, now) <= burst as real
    ensures var b' := Take(earned, b, 1, now);
            InRange(burst, b', now) && Level(earned, b', now) == b'.tokens &&
            b'.tokens == Level(earned, b, now) - if Level(earned, b, now) >= 1.0 then 1.0 else 0.0
  {
    assert earned(b.last) <= earned(now);
  }

  lemma SoundStep(earned: Earning, burst: int, w: World, now: real, e: Event, sweeping: bool)
    requires Growing(earned) && burst >= 0 && Sound(burst, w, now) && now <= e.at && Enabled(w.held.Keys, e)
    ensures Sound(burst, After(earned, burst, w, e, sweeping), e.at)
  {
    if e.Use? {
      assert InRange(burst, w.store.cells[w.held[e.h]], e.at);
      LevelRange(earned, burst, w.store.cells[w.held[e.h]], e.at);
    }
  }

  // ---------- two stores ----------

  ghost function KeyOf(w: World, h: nat): string
    requires Placed(w) && h in w.held
  {
    w.owners[w.held[h]]
  }

  ghost predicate Current(w: World, h: nat)
    requires Placed(w) && h in w.held
  {
    KeyOf(w, h) in w.store.index && w.store.index[KeyOf(w, h)] == w.held[h]
  }

  /** The two stores show every key the same level, and requests hold the stored buckets. */
  ghost predicate Alike(earned: Earning, burst: int, a: World, b: World, now: real) {
    && Sound(burst, a, now) && Sound(burst, b, now)
    && a.held.Keys == b.held.Keys && a.answers == b.answers
    && (forall h :: h in a.held ==> KeyOf(a, h) == KeyOf(b, h) && Current(a, h) && Current(b, h))
    && forall k :: LevelOf(earned, burst, a.store, k, now) == LevelOf(earned, burst, b.store, k, now)
  }

  lemma LevelOfLater(earned: Earning, burst: int, w: World, key: string, now: real, later: real)
    requires Growing(earned) && Sound(burst, w, now) && now <= later
    ensures var grown := LevelOf(earned, burst, w.store, key, now) + (earned(later) - earned(now));
            LevelOf(earned, burst, w.store, key, later) == if grown > burst as real then burst as real else grown
  {
    assert earned(now) <= earned(later);
    if key in w.store.index {
      LevelLater(earned, w.store.cells[w.store.index[key]], now, later);
    }
  }

  lemma AlikeLater(earned: Earning, burst: int, a: World, b: World, now: real, later: real)
    requires Growing(earned) && Alike(earned, burst, a, b, now) && now <= later
    ensures Alike(earned, burst, a, b, later)
  {
    forall k ensures LevelOf(earned, burst, a.store, k, later) == LevelOf(earned, burst, b.store, k, later) {
      LevelOfLater(earned, burst, a, k, now, later);
      LevelOfLater(earned, burst, b, k, now, later);
    }
  }

  /** Looking up changes no level: a new bucket is as full as one that is not there. */
  lemma LookLevel(earned: Earning, burst: int, s: Store, key: string, now: real, k: string)
    requires forall l :: l in s.index ==> s.index[l] < |s.cells|
    ensures LevelOf(earned, burst, Looked(s, burst, key, now), k, now) == LevelOf(earned, burst, s, k, now)
  {
  }

  /** Using the bucket stored under a key changes that key's level alone. */
  lemma UseLevel(earned: Earning, burst: int, w: World, key: string, now: real, k: string)
    requires Growing(earned) && Sound(burst, w, now) && key in w.store.index
    ensures var level := LevelOf(earned, burst, w.store, key, now);
            LevelOf(earned, burst, Used(earned, w.store, w.store.index[key], now), k, now) ==
            if k == key then level - (if level >= 1.0 then 1.0 else 0.0)
            else LevelOf(earned, burst, w.store, k, now)
  {
    LevelRange(earned, burst, w.store.cells[w.store.index[key]], now);
  }

  /** Sitting idle for ten minutes fills any bucket. */
  ghost predicate RefillsIdle(earned: Earning, burst: int) {
    forall s, t :: t - s > IDLE_SECONDS ==> earned(t) - earned(s) >= burst as real
  }

  /** A bucket is deleted only once it is full again. */
  lemma CheckLevel(earned: Earning, burst: int, w: World, key: string, pass: real, now: real, k: string)
    requires Growing(earned) && RefillsIdle(earned, burst) && Sound(burst, w, now) && pass <= now
    ensures LevelOf(earned, burst, Checked(w.store, key, pass), k, now) == LevelOf(earned, burst, w.store, k, now)
  {
    if key in w.store.index && IsIdle(w.store.cells[w.store.index[key]], pass) {
      var b := w.store.cells[w.store.index[key]];
      assert earned(now) - earned(b.last) >= burst as real;
    }
  }

  lemma StepLevels(earned: Earning, burst: int, a: World, b: World, e: Event, k: string)
    requires Growing(earned) && RefillsIdle(earned, burst) && Alike(earned, burst, a, b, e.at)
    requires Enabled(a.held.Keys, e)
    ensures LevelOf(earned, burst, After(earned, burst, a, e, true).store, k, e.at) ==
            LevelOf(earned, burst, After(earned, burst, b, e, false).store, k, e.at)
  {
    assert LevelOf(earned, burst, a.store, k, e.at) == LevelOf(earned, burst, b.store, k, e.at);
    match e
    case Look(_, key, at) =>
      LookLevel(earned, burst, a.store, key, at, k);
      LookLevel(earned, burst, b.store, key, at, k);
    case Use(h, at) =>
      assert Current(a, h) && Current(b, h);
      UseLevel(earned, burst, a, KeyOf(a, h), at, k);
      UseLevel(earned, burst, b, KeyOf(b, h), at, k);
    case Check(key, pass, at) =>
      CheckLevel(earned, burst, a, key, pass, at, k);
  }

  lemma StepCurrent(earned: Earning, burst: int, w: World, e: Event, sweeping: bool, h: nat)
    requires Placed(w) && Separate(w) && Enabled(w.held.Keys, e) && h in Held(w.held.Keys, e)
    requires h in w.held ==> Current(w, h)
    requires sweeping ==> NotTorn(w, e)
    ensures var w' := After(earned, burst, w, e, sweeping);
            Current(w', h) && KeyOf(w', h) == if h in w.held then KeyOf(w, h) else e.key
  {
  }

  lemma StepHeld(earned: Earning, burst: int, a: World, b: World, e: Event, h: nat)
    requires Alike(earned, burst, a, b, e.at) && Enabled(a.held.Keys, e) && NotTorn(a, e)
    requires h in Held(a.held.Keys, e)
    ensures var a', b' := After(earned, burst, a, e, true), After(earned, burst, b, e, false);
            KeyOf(a', h) == KeyOf(b', h) && Current(a', h) && Current(b', h)
  {
    assert h in a.held ==> KeyOf(a, h) == KeyOf(b, h) && Current(a, h) && Current(b, h);
    StepCurrent(earned, burst, a, e, true, h);
    StepCurrent(earned, burst, b, e, false, h);
  }

  lemma StepAnswer(earned: Earning, burst: int, a: World, b: World, h: nat, at: real)
    requires Alike(earned, burst, a, b, at) && h in a.held
    ensures Answer(earned, a, h, at) == Answer(earned, b, h, at)
  {
    assert Current(a, h) && Current(b, h);
    var key := KeyOf(a, h);
    assert LevelOf(earned, burst, a.store, key, at) == LevelOf(earned, burst, b.store, key, at);
  }

  lemma StepAlike(earned: Earning, burst: int, a: World, b: World, e: Event)
    requires Growing(earned) && RefillsIdle(earned, burst) && burst >= 0 && Alike(earned, burst, a, b, e.at)
    requires Enabled(a.held.Keys, e) && NotTorn(a, e)
    ensures Alike(earned, burst, After(earned, burst, a, e, true), After(earned, burst, b, e, false), e.at)
  {
    SoundStep(earned, burst, a, e.at, e, true);
    SoundStep(earned, burst, b, e.at, e, false);
    if e.Use? {
      StepAnswer(earned, burst, a, b, e.h, e.at);
    }
    forall k {
      StepLevels(earned, burst, a, b, e, k);
    }
    forall h | h in Held(a.held.Keys, e) {
      StepHeld(earned, burst, a, b, e, h);
    }
  }

  lemma {:induction false} SameAnswers(earned: Earning, burst: int, a: World, b: World, now: real, es: seq<Event>)
    requires Growing(earned) && RefillsIdle(earned, burst) && burst >= 0
    requires Alike(earned, burst, a, b, now) && Proper(a.held.Keys, es) && Timely(now, es)
    requires Untorn(earned, burst, a, es)
    ensures Run(earned, burst, a, es, true).answers == Run(earned, burst, b, es, false).answers
    decreases |es|
  {
    if es != [] {
      var e := es[0];
      AlikeLater(earned, burst, a, b, now, e.at);
      StepAlike(earned, burst, a, b, e);
      SameAnswers(earned, burst, After(earned, burst, a, e, true), After(earned, burst, b, e, false), e.at, es[1..]);
    }
  }

  // ---------- runs of requests ----------

  lemma {:induction false} ProperAppend(held: set<nat>, first: seq<Event>, second: seq<Event>)
    requires Proper(held, first) && Proper(HeldAfter(held, first), second)
    ensures Proper(held, first + second)
    decreases |first|
  {
    if first == [] {
      assert first + second == second;
    } else {
      assert (first + second)[0] == first[0] && (first + second)[1..] == first[1..] + second;
      ProperAppend(Held(held, first[0]), first[1..], second);
    }
  }

  ghost function HeldAfter(held: set<nat>, es: seq<Event>): set<nat>
    decreases |es|
  {
    if es == [] then held else HeldAfter(Held(held, es[0]), es[1..])
  }

  /** Runs one after the other. */
  lemma {:induction false} RunAppend(earned: Earning, burst: int, w: World, first: seq<Event>, second: seq<Event>,
                                     sweeping: bool)
    requires Placed(w) && Proper(w.held.Keys, first) && Proper(w.held.Keys, first + second)
    ensures Proper(Run(earned, burst, w, first, sweeping).held.Keys, second)
    ensures Run(earned, burst, w, first + second, sweeping) ==
            Run(earned, burst, Run(earned, burst, w, first, sweeping), second, sweeping)
    decreases |first|
  {
    if first == [] {
      assert first + second == second;
    } else {
      assert (first + second)[0] == first[0] && (first + second)[1..] == first[1..] + second;
      RunAppend(earned, burst, After(earned, burst, w, first[0], sweeping), first[1..], second, sweeping);
    }
  }

  lemma {:induction false} UntornAppend(earned: Earning, burst: int, w: World, first: seq<Event>, second: seq<Event>)
    requires Placed(w) && Proper(w.held.Keys, first) && Untorn(earned, burst, w, first)
    requires Proper(w.held.Keys, first + second) && Proper(Run(earned, burst, w, first, true).held.Keys, second)
    requires Untorn(earned, burst, Run(earned, burst, w, first, true), second)
    ensures Untorn(earned, burst, w, first + second)
    decreases |first|
  {
    if first == [] {
      assert first + second == second;
    } else {
      assert (first + second)[0] == first[0] && (first + second)[1..] == first[1..] + second;
      UntornAppend(earned, burst, After(earned, burst, w, first[0], true), first[1..], second);
    }
  }

  lemma {:induction false} TimelyAppend(now: real, first: seq<Event>, t: real, second: seq<Event>)
    requires now <= t && Timely(now, first) && (forall e :: e in first ==> e.at <= t) && Timely(t, second)
    ensures Timely(now, first + second)
    decreases |first|
  {
    if first == [] {
      assert first + second == second;
    } else {
      assert first[0] in first && forall e :: e in first[1..] ==> e in first;
      assert (first + second)[0] == first[0] && (first + second)[1..] == first[1..] + second;
      TimelyAppend(first[0].at, first[1..], t, second);
    }
  }

  lemma RunCons(earned: Earning, burst: int, w: World, e: Event, es: seq<Event>, sweeping: bool)
    requires Placed(w) && Enabled(w.held.Keys, e) && Proper(Held(w.held.Keys, e), es)
    ensures Proper(w.held.Keys, [e] + es)
    ensures var w' := After(earned, burst, w, e, sweeping);
            && Run(earned, burst, w, [e] + es, sweeping) == Run(earned, burst, w', es, sweeping)
            && (sweeping ==> (Untorn(earned, burst, w, [e] + es) <==> NotTorn(w, e) && Untorn(earned, burst, w', es)))
  {
    assert ([e] + es)[0] == e && ([e] + es)[1..] == es;
  }

  lemma TimelyCons(now: real, e: Event, es: seq<Event>)
    requires now <= e.at && Timely(e.at, es)
    ensures Timely(now, [e] + es)
  {
    assert ([e] + es)[0] == e && ([e] + es)[1..] == es;
  }

  /** n requests for one key at one instant, one after the other. */
  function Asks(h: nat, key: string, n: nat, at: real): seq<Event> {
    if n == 0 then [] else [Look(h, key, at), Use(h, at)] + Asks(h, key, n - 1, at)
  }

  lemma {:induction false} AsksTimely(h: nat, key: string, n: nat, at: real)
    ensures forall e :: e in Asks(h, key, n, at) ==> e.at == at && !e.Check?
    ensures Timely(at, Asks(h, key, n, at))
    decreases n
  {
    if n > 0 {
      var es := Asks(h, key, n, at);
      assert es[0] == Look(h, key, at) && es[1..][0] == Use(h, at) && es[1..][1..] == Asks(h, key, n - 1, at);
      AsksTimely(h, key, n - 1, at);
    }
  }

  lemma HeldCons(held: set<nat>, e: Event, es: seq<Event>)
    ensures HeldAfter(held, [e] + es) == HeldAfter(Held(held, e), es)
  {
    assert ([e] + es)[0] == e && ([e] + es)[1..] == es;
  }

  /** The world after one request. */
  ghost function Asked(earned: Earning, burst: int, w: World, key: string, at: real): (w': World)
    requires Placed(w)
    ensures Placed(w') && w'.held == w.held
  {
    var s := Looked(w.store, burst, key, at);
    World(Used(earned, s, s.index[key], at), NewOwners(w, key), w.held,
          w.answers + [Grants(earned, s.cells[s.index[key]], 1, at)])
  }

  ghost function AskedTimes(earned: Earning, burst: int, w: World, key: string, n: nat, at: real): (w': World)
    requires Placed(w)
    ensures Placed(w') && w'.held == w.held
    decreases n
  {
    if n == 0 then w else AskedTimes(earned, burst, Asked(earned, burst, w, key, at), key, n - 1, at)
  }

  lemma AskOnce(earned: Earning, burst: int, w: World, h: nat, key: string, at: real, sweeping: bool)
    requires Placed(w) && h !in w.held
    ensures Held(Held(w.held.Keys, Look(h, key, at)), Use(h, at)) == w.held.Keys
    ensures var w1 := After(earned, burst, w, Look(h, key, at), sweeping);
            && h in w1.held && w1.held[h] == w1.store.index[key]
            && After(earned, burst, w1, Use(h, at), sweeping) == Asked(earned, burst, w, key, at)
  {
    var w1 := After(earned, burst, w, Look(h, key, at), sweeping);
    assert w1.held - {h} == w.held;
  }

  lemma AskRun(earned: Earning, burst: int, w: World, h: nat, key: string, at: real, rest: seq<Event>, sweeping: bool)
    requires Placed(w) && h !in w.held && Proper(w.held.Keys, rest)
    ensures Proper(w.held.Keys, [Look(h, key, at), Use(h, at)] + rest)
    ensures Run(earned, burst, w, [Look(h, key, at), Use(h, at)] + rest, sweeping) ==
            Run(earned, burst, Asked(earned, burst, w, key, at), rest, sweeping)
  {
    AskOnce(earned, burst, w, h, key, at, sweeping);
    RunCons(earned, burst, After(earned, burst, w, Look(h, key, at), sweeping), Use(h, at), rest, sweeping);
    RunCons(earned, burst, w, Look(h, key, at), [Use(h, at)] + rest, sweeping);
    assert [Look(h, key, at), Use(h, at)] + rest == [Look(h, key, at)] + ([Use(h, at)] + rest);
  }

  lemma {:induction false} AsksRun(earned: Earning, burst: int, w: World, h: nat, key: string, n: nat, at: real,
                                   sweeping: bool)
    requires Placed(w) && h !in w.held
    ensures Proper(w.held.Keys, Asks(h, key, n, at))
    ensures Run(earned, burst, w, Asks(h, key, n, at), sweeping) == AskedTimes(earned, burst, w, key, n, at)
    decreases n
  {
    if n > 0 {
      AsksRun(earned, burst, Asked(earned, burst, w, key, at), h, key, n - 1, at, sweeping);
      AskRun(earned, burst, w, h, key, at, Asks(h, key, n - 1, at), sweeping);
    }
  }

  lemma {:induction false} NoChecksUntorn(earned: Earning, burst: int, w: World, es: seq<Event>)
    requires Placed(w) && Proper(w.held.Keys, es) && forall e :: e in es ==> !e.Check?
    ensures Untorn(earned, burst, w, es)
    decreases |es|
  {
    if es != [] {
      assert es[0] in es;
      NoChecksUntorn(earned, burst, After(earned, burst, w, es[0], true), es[1..]);
    }
  }

  lemma {:induction false} AsksHeld(held: set<nat>, h: nat, key: string, n: nat, at: real)
    requires h !in held
    ensures HeldAfter(held, Asks(h, key, n, at)) == held
    decreases n
  {
    if n > 0 {
      var look, use, rest := Look(h, key, at), Use(h, at), Asks(h, key, n - 1, at);
      AsksHeld(held, h, key, n - 1, at);
      assert Asks(h, key, n, at) == [look] + ([use] + rest) && held + {h} - {h} == held;
      HeldCons(held + {h}, use, rest);
      HeldCons(held, look, [use] + rest);
    }
  }

  lemma AsksFacts(earned: Earning, burst: int, w: World, h: nat, key: string, n: nat, at: real)
    requires Placed(w) && h !in w.held
    ensures Proper(w.held.Keys, Asks(h, key, n, at)) && Untorn(earned, burst, w, Asks(h, key, n, at))
    ensures HeldAfter(w.held.Keys, Asks(h, key, n, at)) == w.held.Keys
    ensures Run(earned, burst, w, Asks(h, key, n, at), true) == Run(earned, burst, w, Asks(h, key, n, at), false)
  {
    AsksRun(earned, burst, w, h, key, n, at, true);
    AsksRun(earned, burst, w, h, key, n, at, false);
    AsksTimely(h, key, n, at);
    NoChecksUntorn(earned, burst, w, Asks(h, key, n, at));
    AsksHeld(w.held.Keys, h, key, n, at);
  }

  predicate All(answers: seq<bool>) {
    forall i :: 0 <= i < |answers| ==> answers[i]
  }

  /** What n requests for a key leave: its level, their answers, and all other buckets. They are all
      granted exactly when the level is at least n. */
  ghost predicate Left(earned: Earning, burst: int, w: World, key: string, n: nat, at: real, w': World)
    requires Sound(burst, w, at)
  {
    && Sound(burst, w', at) && w'.held == w.held && (n == 0 ==> w' == w)
    && OthersLeft(w, key, w')
    && (n > 0 ==> key in w'.store.index && w'.store.cells[w'.store.index[key]].last == at)
    && (n > 0 && key !in w.store.index ==> w'.store.index[key] >= |w.store.cells|)
    && var level := LevelOf(earned, burst, w.store, key, at);
       && AnswersLeft(w, n, level >= n as real, w')
       && if level >= n as real then LevelOf(earned, burst, w'.store, key, at) == level - n as real
          else LevelOf(earned, burst, w'.store, key, at) < 1.0
  }

  ghost predicate OthersLeft(w: World, key: string, w': World)
    requires Placed(w)
  {
    && (key in w.store.index ==> w'.store.index == w.store.index)
    && |w.store.cells| <= |w'.store.cells|
    && forall c :: 0 <= c < |w.store.cells| && (key in w.store.index ==> c != w.store.index[key]) ==>
         w'.store.cells[c] == w.store.cells[c]
  }

  ghost predicate AnswersLeft(w: World, n: nat, all: bool, w': World) {
    && |w'.answers| == |w.answers| + n && w'.answers[..|w.answers|] == w.answers
    && (All(w'.answers[|w.answers|..]) <==> all)
  }

  /** What one request leaves. */
  ghost predicate OneLeft(earned: Earning, burst: int, w: World, key: string, at: real, w': World)
    requires Sound(burst, w, at)
  {
    && Sound(burst, w', at) && w'.held == w.held && OthersLeft(w, key, w')
    && key in w'.store.index && w'.store.cells[w'.store.index[key]].last == at
    && (key !in w.store.index ==> w'.store.index[key] >= |w.store.cells|)
    && var level := LevelOf(earned, burst, w.store, key, at);
       && w'.answers == w.answers + [level >= 1.0]
       && LevelOf(earned, burst, w'.store, key, at) == level - (if level >= 1.0 then 1.0 else 0.0)
  }

  lemma AskLeft(earned: Earning, burst: int, w: World, key: string, at: real)
    requires Growing(earned) && burst >= 0 && Sound(burst, w, at)
    ensures OneLeft(earned, burst, w, key, at, Asked(earned, burst, w, key, at))
  {
    var looked := w.(store := Looked(w.store, burst, key, at), owners := NewOwners(w, key));
    LookLevel(earned, burst, w.store, key, at, key);
    UseLevel(earned, burst, looked, key, at, key);
    LevelRange(earned, burst, looked.store.cells[looked.store.index[key]], at);
  }

  /** The first answer, and those of the requests after it. */
  lemma AnswersCons(w: World, w1: World, x: bool, n: nat, all: bool, w': World)
    requires w1.answers == w.answers + [x] && AnswersLeft(w1, n, all, w')
    ensures AnswersLeft(w, n + 1, x && all, w')
  {
    var k := |w.answers|;
    assert w'.answers[..k] == w'.answers[..k + 1][..k] == w.answers;
    assert w'.answers[k] == w'.answers[..k + 1][k] == x;
    assert w'.answers[k..] == [x] + w'.answers[k + 1..];
    AllCons(x, w'.answers[k + 1..]);
  }

  lemma AllCons(x: bool, answers: seq<bool>)
    ensures All([x] + answers) <==> x && All(answers)
  {
    assert ([x] + answers)[0] == x;
    assert forall i :: 0 <= i < |answers| ==> answers[i] == ([x] + answers)[i + 1];
  }

  lemma LevelOfRange(earned: Earning, burst: int, w: World, key: string, at: real)
    requires Growing(earned) && burst >= 0 && Sound(burst, w, at)
    ensures 0.0 <= LevelOf(earned, burst, w.store, key, at) <= burst as real
  {
    if key in w.store.index {
      LevelRange(earned, burst, w.store.cells[w.store.index[key]], at);
    }
  }

  lemma AskThenLeft(earned: Earning, burst: int, w: World, key: string, n: nat, at: real, w1: World, w': World)
    requires Growing(earned) && burst >= 0 && Sound(burst, w, at) && OneLeft(earned, burst, w, key, at, w1)
    requires Left(earned, burst, w1, key, n, at, w')
    ensures Left(earned, burst, w, key, n + 1, at, w')
  {
    var level := LevelOf(earned, burst, w.store, key, at);
    AnswersCons(w, w1, level >= 1.0, n, LevelOf(earned, burst, w1.store, key, at) >= n as real, w');
    LevelOfRange(earned, burst, w1, key, at);
  }

  lemma {:induction false} AskedLeft(earned: Earning, burst: int, w: World, key: string, n: nat, at: real)
    requires Growing(earned) && burst >= 0 && Sound(burst, w, at)
    ensures Left(earned, burst, w, key, n, at, AskedTimes(earned, burst, w, key, n, at))
    decreases n
  {
    if n == 0 {
      NoneLeft(earned, burst, w, key, at);
    } else {
      var w1 := Asked(earned, burst, w, key, at);
      AskLeft(earned, burst, w, key, at);
      AskedLeft(earned, burst, w1, key, n - 1, at);
      AskThenLeft(earned, burst, w, key, n - 1, at, w1, AskedTimes(earned, burst, w1, key, n - 1, at));
    }
  }

  lemma AsksAnswered(earned: Earning, burst: int, w: World, h: nat, key: string, n: nat, at: real, sweeping: bool)
    returns (w': World)
    requires Growing(earned) && burst >= 0 && Sound(burst, w, at) && h !in w.held
    ensures Proper(w.held.Keys, Asks(h, key, n, at)) && w' == Run(earned, burst, w, Asks(h, key, n, at), sweeping)
    ensures Left(earned, burst, w, key, n, at, w')
  {
    w' := AskedTimes(earned, burst, w, key, n, at);
    AsksRun(earned, burst, w, h, key, n, at, sweeping);
    AskedLeft(earned, burst, w, key, n, at);
  }

  lemma AllGranted(earned: Earning, burst: int, w: World, h: nat, key: string, n: nat, at: real, sweeping: bool)
    requires Growing(earned) && burst >= 0 && Sound(burst, w, at) && h !in w.held
    ensures Proper(w.held.Keys, Asks(h, key, n, at))
    ensures AnswersLeft(w, n, LevelOf(earned, burst, w.store, key, at) >= n as real,
                        Run(earned, burst, w, Asks(h, key, n, at), sweeping))
  {
    var w' := AsksAnswered(earned, burst, w, h, key, n, at, sweeping);
  }

  lemma NoneLeft(earned: Earning, burst: int, w: World, key: string, at: real)
    requires Growing(earned) && burst >= 0 && Sound(burst, w, at)
    ensures Left(earned, burst, w, key, 0, at, w)
  {
    LevelOfRange(earned, burst, w, key, at);
    assert w.answers[..|w.answers|] == w.answers;
  }

  // ---------- when sweeping shows ----------

  lemma EmptySound(burst: int, now: real)
    ensures Sound(burst, Empty, now)
  {
  }

  /** A bucket that ten idle minutes cannot fill: drain it, let it sit a little longer than that,
      sweep, and ask for the whole burst again. */
  lemma SweepShows(rate: real, burst: int) returns (es: seq<Event>)
    requires rate >= 0.0 && burst >= 0 && IDLE_SECONDS * rate < burst as real
    ensures Proper(Empty.held.Keys, es) && Timely(0.0, es) && Untorn(Linear(rate), burst, Empty, es)
    ensures !Invisible(Linear(rate), burst, es)
  {
    var earned := Linear(rate);
    LinearGrows(rate);
    EmptySound(burst, 0.0);
    var later := JustTooLate(rate, burst);
    var ask, again := Asks(0, "k", burst, 0.0), [Check("k", later, later)] + Asks(0, "k", burst, later);
    es := ask + again;
    AsksTimely(0, "k", burst, 0.0);
    AsksFacts(earned, burst, Empty, 0, "k", burst, 0.0);
    var w := AsksAnswered(earned, burst, Empty, 0, "k", burst, 0.0, true);
    SecondRound(rate, burst, w, later);
    ProperAppend(Empty.held.Keys, ask, again);
    TimelyAppend(0.0, ask, later, again);
    UntornAppend(earned, burst, Empty, ask, again);
    RunAppend(earned, burst, Empty, ask, again, true);
    RunAppend(earned, burst, Empty, ask, again, false);
  }

  /** After the idle time a swept store grants the whole burst again, and one that kept the bucket
      does not. */
  lemma SecondRound(rate: real, burst: int, w: World, later: real)
    requires rate >= 0.0 && burst > 0 && later > IDLE_SECONDS && later * rate < burst as real
    requires Sound(burst, w, 0.0) && w.held == map[] && LevelOf(Linear(rate), burst, w.store, "k", 0.0) == 0.0
    requires "k" in w.store.index && w.store.cells[w.store.index["k"]].last == 0.0
    ensures var earned, again := Linear(rate), [Check("k", later, later)] + Asks(0, "k", burst, later);
            && Proper(w.held.Keys, again) && Timely(later, again) && Untorn(earned, burst, w, again)
            && Run(earned, burst, w, again, true).answers != Run(earned, burst, w, again, false).answers
  {
    var earned, asks := Linear(rate), Asks(0, "k", burst, later);
    AsksTimely(0, "k", burst, later);
    AsksFacts(earned, burst, w, 0, "k", burst, later);
    var swept := SweptBefore(rate, burst, w, later, asks);
    AsksFacts(earned, burst, swept, 0, "k", burst, later);
    AllGranted(earned, burst, swept, 0, "k", burst, later, true);
    AllGranted(earned, burst, w, 0, "k", burst, later, false);
    AnswersDiffer(swept, w, burst, Run(earned, burst, swept, asks, true), Run(earned, burst, w, asks, false));
  }

  /** The sweep itself, before whatever follows. */
  lemma SweptBefore(rate: real, burst: int, w: World, later: real, rest: seq<Event>) returns (swept: World)
    requires rate >= 0.0 && burst > 0 && later > IDLE_SECONDS && later * rate < burst as real
    requires Sound(burst, w, 0.0) && w.held == map[] && LevelOf(Linear(rate), burst, w.store, "k", 0.0) == 0.0
    requires "k" in w.store.index && w.store.cells[w.store.index["k"]].last == 0.0
    requires Proper(w.held.Keys, rest) && Timely(later, rest)
    ensures Growing(Linear(rate)) && Sound(burst, swept, later) && Sound(burst, w, later)
    ensures swept.held == w.held && swept.answers == w.answers
    ensures LevelOf(Linear(rate), burst, swept.store, "k", later) == burst as real
    ensures LevelOf(Linear(rate), burst, w.store, "k", later) < burst as real
    ensures var earned, all := Linear(rate), [Check("k", later, later)] + rest;
            && swept.held.Keys == w.held.Keys && Proper(w.held.Keys, all) && Timely(later, all)
            && (Untorn(earned, burst, w, all) <==> Untorn(earned, burst, swept, rest))
            && Run(earned, burst, w, all, true) == Run(earned, burst, swept, rest, true)
            && Run(earned, burst, w, all, false) == Run(earned, burst, w, rest, false)
  {
    var earned, check := Linear(rate), Check("k", later, later);
    LinearGrows(rate);
    swept := After(earned, burst, w, check, true);
    SoundStep(earned, burst, w, 0.0, check, true);
    SoundStep(earned, burst, w, 0.0, check, false);
    LevelOfLater(earned, burst, w, "k", 0.0, later);
    TimelyCons(later, check, rest);
    RunCons(earned, burst, w, check, rest, true);
    RunCons(earned, burst, w, check, rest, false);
  }

  lemma AnswersDiffer(a: World, b: World, n: nat, a': World, b': World)
    requires a.answers == b.answers && AnswersLeft(a, n, true, a') && AnswersLeft(b, n, false, b')
    ensures a'.answers != b'.answers
  {
  }

  lemma JustTooLate(rate: real, burst: int) returns (later: real)
    requires rate >= 0.0 && IDLE_SECONDS * rate < burst as real
    ensures later > IDLE_SECONDS && later * rate < burst as real
  {
    var slack := burst as real - IDLE_SECONDS * rate;
    var extra := slack / (2.0 * (rate + 1.0));
    assert extra > 0.0 && extra * (2.0 * (rate + 1.0)) == slack;
    assert extra * rate <= extra * (rate + 1.0) < slack;
    later := IDLE_SECONDS + extra;
    assert later * rate == IDLE_SECONDS * rate + extra * rate;
  }

  lemma IdleRefills(rate: real, burst: int)
    requires rate >= 0.0 && IDLE_SECONDS * rate >= burst as real
    ensures RefillsIdle(Linear(rate), burst)
  {
    forall s: real, t: real | t - s > IDLE_SECONDS ensures Linear(rate)(t) - Linear(rate)(s) >= burst as real {
      assert t * rate - s * rate == (t - s - IDLE_SECONDS) * rate + IDLE_SECONDS * rate;
      assert (t - s - IDLE_SECONDS) * rate >= 0.0;
    }
  }

  /** Over all runs in which no sweep comes between the two steps of a request and takes its bucket away,
      deleting idle buckets changes no answer if and only if ten minutes refill a bucket. */
  lemma SweepTheorem(rate: real, burst: int)
    requires rate >= 0.0 && burst >= 0
    ensures (forall es :: Proper(Empty.held.Keys, es) && Timely(0.0, es) && Untorn(Linear(rate), burst, Empty, es) ==>
               Invisible(Linear(rate), burst, es))
            <==> IDLE_SECONDS * rate >= burst as real
  {
    LinearGrows(rate);
    if IDLE_SECONDS * rate >= burst as real {
      IdleRefills(rate, burst);
      EmptySound(burst, 0.0);
      forall es | Proper(Empty.held.Keys, es) && Timely(0.0, es) && Untorn(Linear(rate), burst, Empty, es)
        ensures Invisible(Linear(rate), burst, es)
      {
        SameAnswers(Linear(rate), burst, Empty, Empty, 0.0, es);
      }
    } else {
      var es := SweepShows(rate, burst);
    }
  }

  // ---------- when a sweep tears a request apart ----------

  /** Whatever the rate: after ten quiet minutes a request looks its bucket up, the sweep deletes that
      bucket, others ask for the whole burst of a new one, and then the first request takes from the
      old one. */
  lemma TornShows(rate: real, burst: int) returns (es: seq<Event>)
    requires rate >= 0.0 && burst >= 1
    ensures Proper(Empty.held.Keys, es) && Timely(0.0, es) && !Invisible(Linear(rate), burst, es)
  {
    var earned := Linear(rate);
    LinearGrows(rate);
    EmptySound(burst, 0.0);
    var t := IDLE_SECONDS + 1.0;
    var ask, torn := Asks(0, "k", 1, 0.0), Torn(burst, t);
    es := ask + torn;
    AsksTimely(0, "k", 1, 0.0);
    AsksFacts(earned, burst, Empty, 0, "k", 1, 0.0);
    var w := AsksAnswered(earned, burst, Empty, 0, "k", 1, 0.0, true);
    TornRound(earned, burst, w, t);
    ProperAppend(Empty.held.Keys, ask, torn);
    TimelyAppend(0.0, ask, t, torn);
    RunAppend(earned, burst, Empty, ask, torn, true);
    RunAppend(earned, burst, Empty, ask, torn, false);
  }

  function Torn(burst: nat, t: real): seq<Event> {
    [Look(1, "k", t)] + ([Check("k", t, t)] + (Asks(0, "k", burst, t) + [Use(1, t)]))
  }

  lemma TornRound(earned: Earning, burst: int, w: World, t: real)
    requires Growing(earned) && burst >= 1 && Sound(burst, w, t) && w.held == map[]
    requires "k" in w.store.index && IsIdle(w.store.cells[w.store.index["k"]], t)
    ensures Proper(w.held.Keys, Torn(burst, t)) && Timely(t, Torn(burst, t))
    ensures Run(earned, burst, w, Torn(burst, t), true).answers != Run(earned, burst, w, Torn(burst, t), false).answers
  {
    var look, check, asks := Look(1, "k", t), Check("k", t, t), Asks(0, "k", burst, t);
    var b := After(earned, burst, w, look, true);
    var a := After(earned, burst, b, check, true);
    SoundStep(earned, burst, w, t, look, true);
    SoundStep(earned, burst, b, t, check, true);
    AsksTimely(0, "k", burst, t);
    AsksFacts(earned, burst, a, 0, "k", burst, t);
    ProperAppend(a.held.Keys, asks, [Use(1, t)]);
    TimelyAppend(t, asks, t, [Use(1, t)]);
    assert a.held.Keys == {1};
    TornRun(earned, burst, w, asks + [Use(1, t)], t, true);
    TornRun(earned, burst, w, asks + [Use(1, t)], t, false);
    TornTail(earned, burst, a, b, t);
  }

  lemma TornRun(earned: Earning, burst: int, w: World, rest: seq<Event>, t: real, sweeping: bool)
    requires Placed(w) && w.held == map[] && Proper({1}, rest) && Timely(t, rest)
    ensures var look, check := Look(1, "k", t), Check("k", t, t);
            var w1 := After(earned, burst, w, look, true);
            && Proper(w1.held.Keys, rest)
            && Proper(w.held.Keys, [look] + ([check] + rest)) && Timely(t, [look] + ([check] + rest))
            && Run(earned, burst, w, [look] + ([check] + rest), sweeping) ==
               Run(earned, burst, After(earned, burst, w1, check, sweeping), rest, sweeping)
  {
    var look, check := Look(1, "k", t), Check("k", t, t);
    var w1 := After(earned, burst, w, look, sweeping);
    assert w1.held.Keys == {1};
    TimelyCons(t, check, rest);
    TimelyCons(t, look, [check] + rest);
    RunCons(earned, burst, w1, check, rest, sweeping);
    RunCons(earned, burst, w, look, [check] + rest, sweeping);
  }

  lemma AsksThenUse(earned: Earning, burst: int, w: World, t: real, sweeping: bool) returns (w': World)
    requires Growing(earned) && burst >= 1 && Sound(burst, w, t) && w.held.Keys == {1}
    requires Proper(w.held.Keys, Asks(0, "k", burst, t) + [Use(1, t)])
    ensures Left(earned, burst, w, "k", burst, t, w')
    ensures Run(earned, burst, w, Asks(0, "k", burst, t) + [Use(1, t)], sweeping).answers ==
            w'.answers + [Answer(earned, w', 1, t)]
  {
    w' := AsksAnswered(earned, burst, w, 0, "k", burst, t, sweeping);
    RunAppend(earned, burst, w, Asks(0, "k", burst, t), [Use(1, t)], sweeping);
    RunCons(earned, burst, w', Use(1, t), [], sweeping);
  }

  /** One store has lost the bucket that request 1 holds, the other has it still. */
  lemma TornTail(earned: Earning, burst: int, a: World, b: World, t: real)
    requires Growing(earned) && burst >= 1 && Sound(burst, a, t) && Sound(burst, b, t)
    requires a.held == b.held && a.held.Keys == {1} && a.store.cells == b.store.cells && a.answers == b.answers
    requires "k" !in a.store.index && "k" in b.store.index && a.held[1] == b.store.index["k"]
    requires Proper(a.held.Keys, Asks(0, "k", burst, t) + [Use(1, t)])
    ensures Run(earned, burst, a, Asks(0, "k", burst, t) + [Use(1, t)], true).answers !=
            Run(earned, burst, b, Asks(0, "k", burst, t) + [Use(1, t)], false).answers
  {
    var a' := AsksThenUse(earned, burst, a, t, true);
    var b' := AsksThenUse(earned, burst, b, t, false);
    TornAnswers(earned, burst, a, b, a', b', t);
  }

  /** The new bucket granted the whole burst. If the old one did too, it is empty where it was kept, and
      full where request 1 alone holds it. */
  lemma TornAnswers(earned: Earning, burst: int, a: World, b: World, a': World, b': World, t: real)
    requires Growing(earned) && burst >= 1 && Sound(burst, a, t) && Sound(burst, b, t)
    requires a.held == b.held && 1 in a.held && a.store.cells == b.store.cells && a.answers == b.answers
    requires "k" !in a.store.index && "k" in b.store.index && a.held[1] == b.store.index["k"]
    requires Left(earned, burst, a, "k", burst, t, a') && Left(earned, burst, b, "k", burst, t, b')
    ensures a'.answers + [Answer(earned, a', 1, t)] != b'.answers + [Answer(earned, b', 1, t)]
  {
    LevelOfRange(earned, burst, b, "k", t);
    var n := |a'.answers|;
    var x, y := Answer(earned, a', 1, t), Answer(earned, b', 1, t);
    assert a'.held[1] == a.held[1] && b'.held[1] == b'.store.index["k"];
    assert (a'.answers + [x])[..n] == a'.answers && (b'.answers + [y])[..n] == b'.answers;
    assert (a'.answers + [x])[n] == x && (b'.answers + [y])[n] == y;
  }

  /** Empty buckets without room grant nothing. */
  lemma RefusedStep(earned: Earning, w: World, now: real, e: Event, sweeping: bool)
    requires Growing(earned) && Sound(0, w, now) && now <= e.at && Enabled(w.held.Keys, e)
    ensures Sound(0, After(earned, 0, w, e, sweeping), e.at)
    ensures After(earned, 0, w, e, sweeping).answers == w.answers + if e.Use? then [false] else []
  {
    SoundStep(earned, 0, w, now, e, sweeping);
    if e.Use? {
      assert InRange(0, w.store.cells[w.held[e.h]], now);
      LevelRange(earned, 0, w.store.cells[w.held[e.h]], e.at);
    }
  }

  lemma {:induction false} NothingGranted(earned: Earning, a: World, b: World, now: real, es: seq<Event>)
    requires Growing(earned) && Sound(0, a, now) && Sound(0, b, now)
    requires a.held.Keys == b.held.Keys && a.answers == b.answers && Proper(a.held.Keys, es) && Timely(now, es)
    ensures Run(earned, 0, a, es, true).answers == Run(earned, 0, b, es, false).answers
    decreases |es|
  {
    if es != [] {
      RefusedStep(earned, a, now, es[0], true);
      RefusedStep(earned, b, now, es[0], false);
      NothingGranted(earned, After(earned, 0, a, es[0], true), After(earned, 0, b, es[0], false), es[0].at, es[1..]);
    }
  }

  /** Without that proviso deleting idle buckets never goes unnoticed in all runs, unless nothing is ever
      granted anyway. */
  lemma TornTheorem(rate: real, burst: int)
    requires rate >= 0.0 && burst >= 0
    ensures (forall es :: Proper(Empty.held.Keys, es) && Timely(0.0, es) ==> Invisible(Linear(rate), burst, es))
            <==> burst == 0
  {
    if burst == 0 {
      LinearGrows(rate);
      EmptySound(burst, 0.0);
      forall es | Proper(Empty.held.Keys, es) && Timely(0.0, es) ensures Invisible(Linear(rate), burst, es) {
        NothingGranted(Linear(rate), Empty, Empty, 0.0, es);
      }
    } else {
      var es := TornShows(rate, burst);
    }
  }
}
