/** What the keys of the bucket store have to do with each other: nothing. While nothing is swept away, the
    requests for one key are answered as by a token bucket of their own. */
module KeyLimits {
  import opened BucketStore
  import opened SweepTheory

  import Single = TokenBucket

  // No request is under way.
  const NOBODY: map<nat, string> := map[]

  datatype Reply = Reply(key: string, ok: bool)

  /** The answers of a run, each with the key it was about. */
  ghost function Log(earned: Single.Earning, burst: int, w: World, es: seq<Event>): seq<Reply>
    requires Placed(w) && Proper(w.held.Keys, es)
    decreases |es|
  {
    if es == [] then [] else
      (if es[0].Use? then [Reply(KeyOf(w, es[0].h), Answer(earned, w, es[0].h, es[0].at))] else []) +
      Log(earned, burst, After(earned, burst, w, es[0], false), es[1..])
  }

  function Oks(log: seq<Reply>): (oks: seq<bool>)
    ensures |oks| == |log|
  {
    seq(|log|, i requires 0 <= i < |log| => log[i].ok)
  }

  lemma {:induction false} LogIsRun(earned: Single.Earning, burst: int, w: World, es: seq<Event>)
    requires Placed(w) && Proper(w.held.Keys, es)
    ensures Run(earned, burst, w, es, false).answers == w.answers + Oks(Log(earned, burst, w, es))
    decreases |es|
  {
    if es != [] {
      var w', first := FirstReply(earned, burst, w, es);
      LogIsRun(earned, burst, w', es[1..]);
      OksCons(w.answers, first, Log(earned, burst, w', es[1..]));
    }
  }

  lemma FirstReply(earned: Single.Earning, burst: int, w: World, es: seq<Event>)
    returns (w': World, first: seq<Reply>)
    requires Placed(w) && Proper(w.held.Keys, es) && es != []
    ensures Placed(w') && Proper(w'.held.Keys, es[1..]) && w'.answers == w.answers + Oks(first)
    ensures Log(earned, burst, w, es) == first + Log(earned, burst, w', es[1..])
    ensures Run(earned, burst, w, es, false) == Run(earned, burst, w', es[1..], false)
  {
    w' := After(earned, burst, w, es[0], false);
    first := if es[0].Use? then [Reply(KeyOf(w, es[0].h), Answer(earned, w, es[0].h, es[0].at))] else [];
  }

  lemma OksCons(answers: seq<bool>, first: seq<Reply>, rest: seq<Reply>)
    ensures answers + Oks(first + rest) == (answers + Oks(first)) + Oks(rest)
  {
  }

  /** The answers about one key. */
  function About(log: seq<Reply>, key: string): seq<bool> {
    if log == [] then [] else (if log[0].key == key then [log[0].ok] else []) + About(log[1..], key)
  }

  /** The requests for one key, given the keys of those under way. */
  function Requests(keys: map<nat, string>, es: seq<Event>, key: string): seq<Single.Request>
    requires Proper(keys.Keys, es)
    decreases |es|
  {
    if es == [] then [] else
      match es[0]
      case Look(h, k, _) => assert keys[h := k].Keys == keys.Keys + {h}; Requests(keys[h := k], es[1..], key)
      case Use(h, at) =>
        assert (keys - {h}).Keys == keys.Keys - {h};
        (if keys[h] == key then [Single.Request(1, at)] else []) + Requests(keys - {h}, es[1..], key)
      case Check(_, _, _) => Requests(keys, es[1..], key)
  }

  /** When the key was looked up first. */
  function FirstLook(es: seq<Event>, key: string): real
    decreases |es|
  {
    if es == [] then 0.0
    else if es[0].Look? && es[0].key == key then es[0].at
    else FirstLook(es[1..], key)
  }

  // ---------- one key ----------

  ghost function KeysOf(w: World): map<nat, string>
    requires Placed(w)
  {
    map h | h in w.held :: KeyOf(w, h)
  }

  /** Buckets are stored under the keys they were made for, and requests hold stored buckets. */
  ghost predicate Kept(w: World) {
    Placed(w) && Separate(w) && forall h :: h in w.held ==> Current(w, h)
  }

  lemma NewKeyKept(w: World, b: Single.Bucket, key: string, w': World)
    requires Kept(w) && key !in w.store.index
    requires w' == World(Store(w.store.cells + [b], w.store.index[key := |w.store.cells|]), w.owners + [key], w.held,
                         w.answers)
    ensures Kept(w') && KeysOf(w') == KeysOf(w)
  {
    forall h | h in w.held ensures Current(w', h) && KeyOf(w', h) == KeyOf(w, h) {
      assert Current(w, h);
    }
  }

  lemma HoldKept(w: World, h: nat, key: string, w': World)
    requires Kept(w) && key in w.store.index
    requires w' == World(w.store, w.owners, w.held[h := w.store.index[key]], w.answers)
    ensures Kept(w') && KeysOf(w') == KeysOf(w)[h := key]
  {
    forall x | x in w'.held ensures Current(w', x) && KeyOf(w', x) == if x == h then key else KeyOf(w, x) {
      assert x in w.held ==> Current(w, x);
    }
  }

  lemma LookKept(burst: int, w: World, h: nat, key: string, at: real, w': World)
    requires Kept(w)
    requires w' == w.(store := Looked(w.store, burst, key, at), owners := NewOwners(w, key),
                      held := w.held[h := Looked(w.store, burst, key, at).index[key]])
    ensures Kept(w') && KeysOf(w') == KeysOf(w)[h := key]
  {
    var w1 := World(Looked(w.store, burst, key, at), NewOwners(w, key), w.held, w.answers);
    if key !in w.store.index {
      NewKeyKept(w, Single.Full(burst, at), key, w1);
    }
    HoldKept(w1, h, key, w');
  }

  lemma KeptStep(earned: Single.Earning, burst: int, w: World, e: Event)
    requires Kept(w) && Enabled(w.held.Keys, e)
    ensures var w' := After(earned, burst, w, e, false);
            && Kept(w')
            && KeysOf(w') == match e { case Look(h, k, _) => KeysOf(w)[h := k] case Use(h, _) => KeysOf(w) - {h}
                                       case Check(_, _, _) => KeysOf(w) }
  {
    if e.Look? {
      LookKept(burst, w, e.h, e.key, e.at, After(earned, burst, w, e, false));
    }
  }

  /** What an event makes of the bucket stored under a key. */
  lemma CellStep(earned: Single.Earning, burst: int, w: World, e: Event, key: string)
    requires Kept(w) && Enabled(w.held.Keys, e) && key in w.store.index
    ensures var w' := After(earned, burst, w, e, false); var b := w.store.cells[w.store.index[key]];
            && key in w'.store.index && w'.store.index[key] < |w'.store.cells|
            && w'.store.cells[w'.store.index[key]] ==
               (if e.Use? && KeyOf(w, e.h) == key then Single.Take(earned, b, 1, e.at) else b)
            && (e.Use? && KeyOf(w, e.h) == key ==> Answer(earned, w, e.h, e.at) == Single.Grants(earned, b, 1, e.at))
  {
  }

  lemma {:induction false} AnswersCons(earned: Single.Earning, b: Single.Bucket, r: Single.Request,
                                       rs: seq<Single.Request>)
    ensures Single.Run(earned, b, [r] + rs) == Single.Run(earned, Single.Take(earned, b, r.n, r.at), rs)
    ensures Single.Answers(earned, b, [r] + rs) ==
            [Single.Grants(earned, b, r.n, r.at)] + Single.Answers(earned, Single.Take(earned, b, r.n, r.at), rs)
    decreases |rs|
  {
    var all := [r] + rs;
    if rs == [] {
      assert all == [r] && all[..0] == [];
      assert Single.Run(earned, b, []) == b && Single.Answers(earned, b, []) == [];
    } else {
      var k := |rs| - 1;
      AnswersCons(earned, b, r, rs[..k]);
      assert all[..k + 1] == [r] + rs[..k] && all[k + 1] == rs[k];
    }
  }

  lemma AboutCons(r: Reply, log: seq<Reply>, key: string)
    ensures About([r] + log, key) == (if r.key == key then [r.ok] else []) + About(log, key)
  {
    assert ([r] + log)[1..] == log;
  }

  /** What the bucket under a key is, if there is one. */
  ghost predicate Has(w: World, key: string, b: Single.Bucket)
    requires Placed(w)
  {
    key in w.store.index && w.store.cells[w.store.index[key]] == b
  }

  /** One event, as far as one key is concerned: the answer it adds to the log, the request it is. */
  lemma NextEvent(earned: Single.Earning, burst: int, w: World, es: seq<Event>, key: string)
    returns (w': World, replies: seq<Reply>, mine: bool)
    requires Kept(w) && Proper(w.held.Keys, es) && es != []
    ensures Kept(w') && Proper(w'.held.Keys, es[1..])
    ensures KeysOf(w).Keys == w.held.Keys && KeysOf(w').Keys == w'.held.Keys
    ensures Log(earned, burst, w, es) == replies + Log(earned, burst, w', es[1..])
    ensures Requests(KeysOf(w), es, key) ==
            (if mine then [Single.Request(1, es[0].at)] else []) + Requests(KeysOf(w'), es[1..], key)
    ensures |replies| == (if es[0].Use? then 1 else 0) && (mine <==> replies != [] && replies[0].key == key)
    ensures forall b :: Has(w, key, b) ==>
              Has(w', key, if mine then Single.Take(earned, b, 1, es[0].at) else b) &&
              (mine ==> replies[0].ok == Single.Grants(earned, b, 1, es[0].at))
    ensures key !in w.store.index ==>
              !mine && if es[0].Look? && es[0].key == key then Has(w', key, Single.Full(burst, es[0].at))
                       else key !in w'.store.index
  {
    var e := es[0];
    assert KeysOf(w).Keys == w.held.Keys;
    w' := After(earned, burst, w, e, false);
    assert KeysOf(w').Keys == w'.held.Keys;
    KeptStep(earned, burst, w, e);
    replies := if e.Use? then [Reply(KeyOf(w, e.h), Answer(earned, w, e.h, e.at))] else [];
    mine := e.Use? && KeyOf(w, e.h) == key;
    if key in w.store.index {
      CellStep(earned, burst, w, e, key);
    }
  }

  /** What an event adds in front, from the same bucket or about another key. */
  lemma OneServed(earned: Single.Earning, b: Single.Bucket, key: string, replies: seq<Reply>, mine: bool,
                  log: seq<Reply>, at: real, rs: seq<Single.Request>)
    requires |replies| <= 1 && (mine <==> replies != [] && replies[0].key == key)
    requires mine ==> replies[0].ok == Single.Grants(earned, b, 1, at)
    requires About(log, key) == Single.Answers(earned, if mine then Single.Take(earned, b, 1, at) else b, rs)
    ensures About(replies + log, key) ==
            Single.Answers(earned, b, (if mine then [Single.Request(1, at)] else []) + rs)
  {
    if replies == [] {
      assert replies + log == log;
    } else {
      assert replies == [replies[0]];
      AboutCons(replies[0], log, key);
    }
    if mine {
      AnswersCons(earned, b, Single.Request(1, at), rs);
    } else {
      assert [] + rs == rs;
    }
  }

  /** From the first lookup on, a key is served by its bucket. */
  lemma {:induction false} ServedByOne(earned: Single.Earning, burst: int, w: World, es: seq<Event>, key: string,
                                       b: Single.Bucket)
    requires Kept(w) && Proper(w.held.Keys, es) && Has(w, key, b)
    ensures KeysOf(w).Keys == w.held.Keys
    ensures About(Log(earned, burst, w, es), key) == Single.Answers(earned, b, Requests(KeysOf(w), es, key))
    decreases |es|
  {
    assert KeysOf(w).Keys == w.held.Keys;
    if es != [] {
      var w', replies, mine := NextEvent(earned, burst, w, es, key);
      ServedByOne(earned, burst, w', es[1..], key, if mine then Single.Take(earned, b, 1, es[0].at) else b);
      OneServed(earned, b, key, replies, mine, Log(earned, burst, w', es[1..]), es[0].at,
                Requests(KeysOf(w'), es[1..], key));
    }
  }

  // ---------- from the start ----------

  /** Before its first lookup there is nothing to answer about a key. */
  lemma {:induction false} ServedFromStart(earned: Single.Earning, burst: int, w: World, es: seq<Event>, key: string)
    requires Kept(w) && Proper(w.held.Keys, es) && key !in w.store.index
    ensures KeysOf(w).Keys == w.held.Keys
    ensures About(Log(earned, burst, w, es), key) ==
            Single.Answers(earned, Single.Full(burst, FirstLook(es, key)), Requests(KeysOf(w), es, key))
    decreases |es|
  {
    assert KeysOf(w).Keys == w.held.Keys;
    if es != [] {
      var w', replies, mine := NextEvent(earned, burst, w, es, key);
      var b := Single.Full(burst, FirstLook(es, key));
      if es[0].Look? && es[0].key == key {
        ServedByOne(earned, burst, w', es[1..], key, b);
      } else {
        ServedFromStart(earned, burst, w', es[1..], key);
      }
      OneServed(earned, b, key, replies, mine, Log(earned, burst, w', es[1..]), es[0].at,
                Requests(KeysOf(w'), es[1..], key));
    }
  }

  /** However the requests of all keys are interleaved, those for one key are answered exactly as by a
      single bucket of the store's rate and burst that was full when the key was first looked up. */
  lemma KeyTheorem(rate: real, burst: int, es: seq<Event>, key: string)
    requires Proper(NOBODY.Keys, es)
    ensures var log := Log(Single.Linear(rate), burst, Empty, es);
            && Run(Single.Linear(rate), burst, Empty, es, false).answers == Oks(log)
            && About(log, key) ==
               Single.Answers(Single.Linear(rate), Single.Full(burst, FirstLook(es, key)), Requests(NOBODY, es, key))
  {
    assert Empty.held.Keys == NOBODY.Keys;
    LogIsRun(Single.Linear(rate), burst, Empty, es);
    ServedFromStart(Single.Linear(rate), burst, Empty, es, key);
    assert KeysOf(Empty) == NOBODY;
  }
}
