/** Rate limiters that keep their state under one key of the LRU cache: what a whole run of attempts
    is answered, while other callers use the cache for other keys. */
module CacheLimiter {
  import opened LruCache
  import opened Sequences

  const MARK := Text("1")

  class CountLimiter {
    const cache: LruCache

    constructor (cache: LruCache)
      ensures this.cache == cache
    {
      this.cache := cache;
    }

    method Allow(key: string, limit: int, window: int, now: nat) returns (ok: bool)
      requires cache.Valid()
      modifies cache`items, cache`lruList, cache.lruList
      ensures cache.Valid() && ok == Allows(Counting(window, limit), old(cache.Contents()), key, now)
      ensures cache.Contents() == Own(Counting(window, limit), old(cache.Contents()), cache.capacity, key, now)
    {
      var n := cache.Incr(key, window, now);
      return n <= limit;
    }
  }

  class IntervalLimiter {
    const cache: LruCache

    constructor (cache: LruCache)
      ensures this.cache == cache
    {
      this.cache := cache;
    }

    method Check(key: string, now: nat) returns (free: bool)
      requires cache.Valid()
      modifies cache`items, cache`lruList, cache.lruList
      ensures cache.Valid() && free == !Live(old(cache.Contents()), key, now)
      ensures cache.Contents() == Touch(old(cache.Contents()), key, now)
      ensures forall e :: e in cache.lruList ==> e in old(cache.lruList)
    {
      var _, found := cache.Get(key, now);
      return !found;
    }

    method Mark(key: string, interval: int, now: nat)
      requires cache.Valid()
      modifies cache`items, cache`lruList, cache.lruList
      ensures cache.Valid()
      ensures cache.Contents() == Put(old(cache.Contents()), cache.capacity, Entry(key, MARK, Deadline(interval, now)))
    {
      cache.SetWithExpiration(key, MARK, interval, now);
    }

    // An attempt that nobody else's call of the cache comes into the middle of.
    method Allow(key: string, interval: int, now: nat) returns (ok: bool)
      requires cache.Valid()
      modifies cache`items, cache`lruList, cache.lruList
      ensures cache.Valid() && ok == Allows(Interval(interval), old(cache.Contents()), key, now)
      ensures cache.Contents() == Own(Interval(interval), old(cache.Contents()), cache.capacity, key, now)
    {
      ok := Check(key, now);
      if ok {
        Mark(key, interval, now);
      }
    }
  }

  // ---------- runs ----------

  datatype Limiter = Counting(window: int, limit: int) | Interval(window: int)

  predicate Allows(l: Limiter, c: seq<Entry>, key: string, now: nat) {
    match l
    case Counting(window, limit) => Bumped(c, key, window, now).value.n <= limit
    case Interval(_) => !Live(c, key, now)
  }

  /** The cache after one attempt. */
  function Own(l: Limiter, c: seq<Entry>, capacity: int, key: string, now: nat): seq<Entry> {
    match l
    case Counting(window, _) => Put(c, capacity, Bumped(c, key, window, now))
    case Interval(window) =>
      if Live(c, key, now) then Touch(c, key, now)
      else Put(Touch(c, key, now), capacity, Entry(key, MARK, Deadline(window, now)))
  }

  // One use of the cache: an attempt on the limiter's key, or anything on the others.
  datatype Op =
    | Attempt(now: nat)
    | Set(key: string, value: Value, ttl: int, now: nat)
    | Get(key: string, now: nat)
    | Delete(key: string, now: nat)
    | Incr(key: string, ttl: int, now: nat)
    | Cleanup(now: nat)

  function Foreign(c: seq<Entry>, capacity: int, op: Op): seq<Entry>
    requires !op.Attempt?
  {
    match op
    case Set(k, value, ttl, now) => Put(c, capacity, Entry(k, value, Deadline(ttl, now)))
    case Get(k, now) => Touch(c, k, now)
    case Delete(k, _) => Without(c, k)
    case Incr(k, ttl, now) => Put(c, capacity, Bumped(c, k, ttl, now))
    case Cleanup(now) => Unexpired(c, now)
  }

  function Run(l: Limiter, c: seq<Entry>, capacity: int, key: string, ops: seq<Op>): seq<Entry> {
    if ops == [] then c else
      var k := |ops| - 1;
      var before := Run(l, c, capacity, key, ops[..k]);
      if ops[k].Attempt? then Own(l, before, capacity, key, ops[k].now) else Foreign(before, capacity, ops[k])
  }

  function Times(ops: seq<Op>): seq<nat> {
    if ops == [] then [] else
      var k := |ops| - 1;
      if ops[k].Attempt? then Times(ops[..k]) + [ops[k].now] else Times(ops[..k])
  }

  function Answers(l: Limiter, c: seq<Entry>, capacity: int, key: string, ops: seq<Op>): seq<bool> {
    if ops == [] then [] else
      var k := |ops| - 1;
      var earlier := Answers(l, c, capacity, key, ops[..k]);
      if ops[k].Attempt? then earlier + [Allows(l, Run(l, c, capacity, key, ops[..k]), key, ops[k].now)] else earlier
  }

  /** The others stay away from the key, and their insertions never push its live entry out. */
  ghost predicate Spares(c: seq<Entry>, capacity: int, key: string, op: Op)
    requires !op.Attempt?
  {
    && (!op.Cleanup? ==> op.key != key)
    && (Live(c, key, op.now) ==> HasKey(Foreign(c, capacity, op), key))
  }

  /** A run over a cache that does not hold the key yet, on a clock that never goes back. */
  ghost predicate Undisturbed(l: Limiter, c: seq<Entry>, capacity: int, key: string, ops: seq<Op>) {
    if ops == [] then UniqueKeys(c) && !HasKey(c, key) else
      var k := |ops| - 1;
      && Undisturbed(l, c, capacity, key, ops[..k])
      && (k > 0 ==> ops[k - 1].now <= ops[k].now)
      && (!ops[k].Attempt? ==> Spares(Run(l, c, capacity, key, ops[..k]), capacity, key, ops[k]))
  }

  // ---------- one key of the cache ----------

  /** The key still shows the value stored at time t, or its expiry has passed. */
  ghost predicate Shows(c: seq<Entry>, key: string, value: Value, t: nat, window: int, now: nat) {
    if HasKey(c, key) then Find(c, key) == Entry(key, value, Deadline(window, t))
    else window > 0 && now > t + window
  }

  lemma {:induction false} FindWithout(c: seq<Entry>, other: string, key: string)
    requires other != key
    ensures HasKey(Without(c, other), key) <==> HasKey(c, key)
    ensures HasKey(c, key) ==> Find(Without(c, other), key) == Find(c, key)
  {
    if c != [] {
      FindWithout(c[1..], other, key);
      FindCons(c[0], c[1..], key);
      assert c == [c[0]] + c[1..];
      FindCons(c[0], Without(c[1..], other), key);
    }
  }

  lemma FindCons(e: Entry, c: seq<Entry>, key: string)
    ensures HasKey([e] + c, key) <==> e.key == key || HasKey(c, key)
    ensures HasKey([e] + c, key) ==> Find([e] + c, key) == if e.key == key then e else Find(c, key)
  {
    assert ([e] + c)[0] == e && ([e] + c)[1..] == c;
    if e.key == key {
      assert e in [e] + c;
    } else if HasKey(c, key) {
      var x :| x in c && x.key == key;
      assert x in [e] + c;
    }
  }

  lemma {:induction false} FindAppend(a: seq<Entry>, b: seq<Entry>, key: string)
    requires HasKey(a, key)
    ensures HasKey(a + b, key) && Find(a + b, key) == Find(a, key)
  {
    var rest := a[1..];
    assert a == [a[0]] + rest && a + b == [a[0]] + (rest + b);
    FindCons(a[0], rest, key);
    FindCons(a[0], rest + b, key);
    if a[0].key != key {
      FindAppend(rest, b, key);
    }
  }

  /** Every survivor of a sweep was there before. */
  lemma {:induction false} UnexpiredFrom(c: seq<Entry>, now: nat, i: nat) returns (j: nat)
    requires i < |Unexpired(c, now)|
    ensures i <= j < |c| && Unexpired(c, now)[i] == c[j]
  {
    if c[0].IsExpired(now) {
      j := UnexpiredFrom(c[1..], now, i);
      j := j + 1;
    } else if i > 0 {
      j := UnexpiredFrom(c[1..], now, i - 1);
      j := j + 1;
    } else {
      j := 0;
    }
  }

  lemma {:induction false} UnexpiredUnique(c: seq<Entry>, now: nat)
    requires UniqueKeys(c)
    ensures UniqueKeys(Unexpired(c, now))
  {
    if c != [] {
      var rest := Unexpired(c[1..], now);
      UnexpiredUnique(c[1..], now);
      forall i | 0 <= i < |rest| ensures rest[i].key != c[0].key {
        var j := UnexpiredFrom(c[1..], now, i);
        assert c[1..][j] == c[j + 1];
      }
    }
  }

  lemma {:induction false} FindUnexpired(c: seq<Entry>, key: string, now: nat)
    requires UniqueKeys(c)
    ensures HasKey(Unexpired(c, now), key) <==> Live(c, key, now)
    ensures Live(c, key, now) ==> Find(Unexpired(c, now), key) == Find(c, key)
  {
    if c != [] {
      FindUnexpired(c[1..], key, now);
      assert c == [c[0]] + c[1..];
      FindCons(c[0], c[1..], key);
      FindCons(c[0], Unexpired(c[1..], now), key);
      if c[0].key == key {
        assert !HasKey(c[1..], key) by { assert forall e :: e in c[1..] ==> e.key != c[0].key; }
      }
    }
  }

  lemma PutOther(c: seq<Entry>, capacity: int, e: Entry, key: string)
    requires e.key != key
    ensures HasKey(Put(c, capacity, e), key) ==> HasKey(c, key) && Find(Put(c, capacity, e), key) == Find(c, key)
  {
    var rest := Without(c, e.key);
    FindWithout(c, e.key, key);
    FindCons(e, rest, key);
    if HasKey(Evict([e] + rest, capacity), key) {
      EvictFinds([e] + rest, capacity, key);
    }
  }

  lemma EvictFinds(c: seq<Entry>, capacity: int, key: string)
    requires HasKey(Evict(c, capacity), key)
    ensures HasKey(c, key) && Find(Evict(c, capacity), key) == Find(c, key)
  {
    if capacity > 0 && |c| > capacity {
      assert c == c[..|c| - 1] + [c[|c| - 1]];
      FindAppend(c[..|c| - 1], [c[|c| - 1]], key);
    }
  }

  lemma PutUnique(c: seq<Entry>, capacity: int, e: Entry)
    requires UniqueKeys(c)
    ensures UniqueKeys(Put(c, capacity, e))
  {
    WithoutSize(c, e.key);
    var rest := Without(c, e.key);
    assert forall i :: 0 <= i < |rest| ==> rest[i] in rest;
  }

  lemma TouchUnique(c: seq<Entry>, key: string, now: nat)
    requires UniqueKeys(c)
    ensures UniqueKeys(Touch(c, key, now))
  {
    WithoutSize(c, key);
    var rest := Without(c, key);
    assert forall i :: 0 <= i < |rest| ==> rest[i] in rest;
  }

  lemma TouchOther(c: seq<Entry>, other: string, key: string, now: nat)
    requires other != key
    ensures HasKey(Touch(c, other, now), key) <==> HasKey(c, key)
    ensures HasKey(c, key) ==> Find(Touch(c, other, now), key) == Find(c, key)
  {
    FindWithout(c, other, key);
    if HasKey(c, other) {
      FindCons(Find(c, other), Without(c, other), key);
    }
  }

  /** What the others do to the cache leaves the key as it was, or removes it once it is dead. */
  lemma ForeignKeeps(c: seq<Entry>, capacity: int, key: string, op: Op)
    requires UniqueKeys(c) && !op.Attempt? && Spares(c, capacity, key, op)
    ensures var after := Foreign(c, capacity, op);
            && UniqueKeys(after)
            && (HasKey(after, key) ==> HasKey(c, key) && Find(after, key) == Find(c, key))
            && (HasKey(c, key) && !HasKey(after, key) ==> Find(c, key).IsExpired(op.now))
  {
    match op
    case Set(k, value, ttl, now) =>
      PutOther(c, capacity, Entry(k, value, Deadline(ttl, now)), key);
      PutUnique(c, capacity, Entry(k, value, Deadline(ttl, now)));
    case Get(k, now) =>
      TouchOther(c, k, key, now);
      TouchUnique(c, k, now);
    case Delete(k, _) =>
      FindWithout(c, k, key);
      WithoutSize(c, k);
    case Incr(k, ttl, now) =>
      PutOther(c, capacity, Bumped(c, k, ttl, now), key);
      PutUnique(c, capacity, Bumped(c, k, ttl, now));
    case Cleanup(now) =>
      FindUnexpired(c, key, now);
      UnexpiredUnique(c, now);
  }

  // ---------- counting ----------

  /** How many attempts, up to the last, follow each other without a gap longer than the window. */
  function Streak(window: int, times: seq<nat>): (n: nat) {
    if times == [] then 0
    else if |times| > 1 && window > 0 && times[|times| - 1] > times[|times| - 2] + window then 1
    else Streak(window, times[..|times| - 1]) + 1
  }

  function StreakAt(window: int, times: seq<nat>, i: nat): nat
    requires i < |times|
  {
    Streak(window, times[..i + 1])
  }

  ghost predicate CountShows(l: Limiter, c: seq<Entry>, key: string, times: seq<nat>, now: nat) {
    && UniqueKeys(c)
    && if times == [] then !HasKey(c, key)
       else Shows(c, key, Int(Streak(l.window, times)), times[|times| - 1], l.window, now)
  }

  lemma CountAttempt(l: Limiter, c: seq<Entry>, capacity: int, key: string, times: seq<nat>, now: nat, earlier: nat)
    requires l.Counting? && earlier <= now && CountShows(l, c, key, times, earlier)
    ensures Bumped(c, key, l.window, now).value == Int(Streak(l.window, times + [now]))
    ensures CountShows(l, Own(l, c, capacity, key, now), key, times + [now], now)
  {
    assert (times + [now])[..|times|] == times;
    PutUnique(c, capacity, Bumped(c, key, l.window, now));
    PutOwn(c, capacity, Bumped(c, key, l.window, now));
  }

  function Clock(ops: seq<Op>): nat {
    if ops == [] then 0 else ops[|ops| - 1].now
  }

  /** Every attempt was answered by comparing its streak with the limit. */
  ghost predicate CountLaw(l: Limiter, times: seq<nat>, answers: seq<bool>)
    requires l.Counting?
  {
    && |answers| == |times|
    && forall i :: 0 <= i < |times| ==> (answers[i] <==> StreakAt(l.window, times, i) <= l.limit)
  }

  lemma CountLawGrows(l: Limiter, times: seq<nat>, answers: seq<bool>, now: nat, ok: bool)
    requires l.Counting? && CountLaw(l, times, answers) && (ok <==> Streak(l.window, times + [now]) <= l.limit)
    ensures CountLaw(l, times + [now], answers + [ok])
  {
    var ts, bs := times + [now], answers + [ok];
    forall i | 0 <= i < |ts| ensures bs[i] <==> StreakAt(l.window, ts, i) <= l.limit {
      if i < |times| {
        assert ts[..i + 1] == times[..i + 1] && bs[i] == answers[i];
        assert StreakAt(l.window, ts, i) == StreakAt(l.window, times, i);
      } else {
        assert ts[..i + 1] == ts;
      }
    }
  }

  /** After any undisturbed run the key holds the streak, and the answers were the streaks compared
      with the limit. */
  lemma {:induction false} CountRun(l: Limiter, c: seq<Entry>, capacity: int, key: string, ops: seq<Op>)
    requires l.Counting? && Undisturbed(l, c, capacity, key, ops)
    ensures CountShows(l, Run(l, c, capacity, key, ops), key, Times(ops), Clock(ops))
    ensures CountLaw(l, Times(ops), Answers(l, c, capacity, key, ops))
  {
    if ops != [] {
      var k := |ops| - 1;
      var before, times := Run(l, c, capacity, key, ops[..k]), Times(ops[..k]);
      CountRun(l, c, capacity, key, ops[..k]);
      assert Clock(ops[..k]) <= ops[k].now;
      if ops[k].Attempt? {
        CountAttempt(l, before, capacity, key, times, ops[k].now, Clock(ops[..k]));
        CountLawGrows(l, times, Answers(l, c, capacity, key, ops[..k]), ops[k].now,
                      Allows(l, before, key, ops[k].now));
      } else {
        ForeignKeeps(before, capacity, key, ops[k]);
      }
    }
  }

  /** No pause longer than the window between attempts i and j. */
  ghost predicate Unbroken(window: int, times: seq<nat>, i: nat, j: nat)
    requires j < |times|
  {
    window > 0 ==> forall k :: i < k <= j ==> times[k] <= times[k - 1] + window
  }

  lemma {:induction false} StreakGrows(window: int, times: seq<nat>, i: nat, j: nat)
    requires i <= j < |times| && Unbroken(window, times, i, j)
    ensures StreakAt(window, times, j) == StreakAt(window, times, i) + (j - i)
    decreases j
  {
    if i < j {
      StreakGrows(window, times, i, j - 1);
      assert times[..j + 1][..j] == times[..j];
    }
  }

  function Granted(answers: seq<bool>): nat {
    if answers == [] then 0 else
      Granted(answers[..|answers| - 1]) + if answers[|answers| - 1] then 1 else 0
  }

  lemma {:induction false} GrantedUpTo(l: Limiter, times: seq<nat>, answers: seq<bool>, i: nat, j: nat)
    requires l.Counting? && CountLaw(l, times, answers) && i <= j < |times| && Unbroken(l.window, times, i, j)
    ensures Granted(answers[i..j + 1]) <= StreakAt(l.window, times, j)
    ensures Granted(answers[i..j + 1]) <= if l.limit > 0 then l.limit else 0
    decreases j
  {
    var stretch := answers[i..j + 1];
    assert stretch[..j - i] == answers[i..j];
    if i < j {
      GrantedUpTo(l, times, answers, i, j - 1);
      StreakGrows(l.window, times, j - 1, j);
    }
  }

  /** A stretch of attempts without a pause longer than the window lets at most `limit` through, and
      once one is refused every later one in the stretch is: refused attempts keep the count alive. */
  lemma StretchTheorem(l: Limiter, c: seq<Entry>, capacity: int, key: string, ops: seq<Op>, i: nat, j: nat)
    requires l.Counting? && Undisturbed(l, c, capacity, key, ops) && i <= j < |Times(ops)|
    requires Unbroken(l.window, Times(ops), i, j)
    ensures var answers := Answers(l, c, capacity, key, ops);
            && |answers| == |Times(ops)|
            && Granted(answers[i..j + 1]) <= (if l.limit > 0 then l.limit else 0)
            && (answers[j] ==> answers[i])
  {
    CountRun(l, c, capacity, key, ops);
    GrantedUpTo(l, Times(ops), Answers(l, c, capacity, key, ops), i, j);
    StreakGrows(l.window, Times(ops), i, j);
  }

  /** Any interval no longer than the window lets at most `limit` attempts through. */
  lemma WindowTheorem(l: Limiter, c: seq<Entry>, capacity: int, key: string, ops: seq<Op>, i: nat, j: nat)
    requires l.Counting? && Undisturbed(l, c, capacity, key, ops) && i <= j < |Times(ops)|
    requires Times(ops)[j] <= Times(ops)[i] + l.window
    ensures var answers := Answers(l, c, capacity, key, ops);
            |answers| == |Times(ops)| && Granted(answers[i..j + 1]) <= if l.limit > 0 then l.limit else 0
  {
    TimesOrdered(l, c, capacity, key, ops);
    forall k | i < k <= j ensures Times(ops)[k] <= Times(ops)[k - 1] + l.window { }
    StretchTheorem(l, c, capacity, key, ops, i, j);
  }

  lemma {:induction false} TimesOrdered(l: Limiter, c: seq<Entry>, capacity: int, key: string, ops: seq<Op>)
    requires Undisturbed(l, c, capacity, key, ops)
    ensures forall i, j :: 0 <= i < j < |Times(ops)| ==> Times(ops)[i] <= Times(ops)[j]
    ensures forall i :: 0 <= i < |Times(ops)| ==> Times(ops)[i] <= Clock(ops)
  {
    if ops != [] {
      TimesOrdered(l, c, capacity, key, ops[..|ops| - 1]);
    }
  }

  /** The proviso matters. When another caller's operation pushes the live count out, the next attempt
      starts a new count and is let through exactly when the limit is positive, so the law above is
      broken exactly when the streak would have been over a positive limit. */
  lemma EvictionTheorem(l: Limiter, c: seq<Entry>, capacity: int, key: string, ops: seq<Op>, op: Op, now: nat)
    requires l.Counting? && Undisturbed(l, c, capacity, key, ops) && !op.Attempt?
    requires !HasKey(Foreign(Run(l, c, capacity, key, ops), capacity, op), key)
    ensures var longer := ops + [op] + [Attempt(now)];
            var streak := Streak(l.window, Times(ops) + [now]);
            && Times(longer) == Times(ops) + [now]
            && Answers(l, c, capacity, key, longer) == Answers(l, c, capacity, key, ops) + [1 <= l.limit]
            && (CountLaw(l, Times(longer), Answers(l, c, capacity, key, longer)) <==> !(streak > l.limit >= 1))
  {
    EvictedRun(l, c, capacity, key, ops, op, now);
    CountRun(l, c, capacity, key, ops);
    CountLawLast(l, Times(ops), Answers(l, c, capacity, key, ops), now, 1 <= l.limit);
    assert (Times(ops) + [now])[..|Times(ops)|] == Times(ops);
  }

  /** What the evicting operation and the attempt after it add to a run. */
  lemma EvictedRun(l: Limiter, c: seq<Entry>, capacity: int, key: string, ops: seq<Op>, op: Op, now: nat)
    requires l.Counting? && !op.Attempt?
    requires !HasKey(Foreign(Run(l, c, capacity, key, ops), capacity, op), key)
    ensures var longer := ops + [op] + [Attempt(now)];
            && Times(longer) == Times(ops) + [now]
            && Answers(l, c, capacity, key, longer) == Answers(l, c, capacity, key, ops) + [1 <= l.limit]
  {
    var mid := ops + [op];
    var longer := mid + [Attempt(now)];
    assert mid[..|ops|] == ops && longer[..|mid|] == mid;
    var after := Foreign(Run(l, c, capacity, key, ops), capacity, op);
    assert Run(l, c, capacity, key, mid) == after;
    assert Allows(l, after, key, now) <==> 1 <= l.limit;
  }

  /** One more attempt obeys the law exactly when its own answer does. */
  lemma CountLawLast(l: Limiter, times: seq<nat>, answers: seq<bool>, now: nat, ok: bool)
    requires l.Counting? && CountLaw(l, times, answers)
    ensures CountLaw(l, times + [now], answers + [ok]) <==> (ok <==> Streak(l.window, times + [now]) <= l.limit)
  {
    if ok <==> Streak(l.window, times + [now]) <= l.limit {
      CountLawGrows(l, times, answers, now, ok);
    } else {
      assert (times + [now])[..|times| + 1] == times + [now];
      assert (answers + [ok])[|times|] == ok;
      assert StreakAt(l.window, times + [now], |times|) == Streak(l.window, times + [now]);
    }
  }

  /** For instance, in a cache of capacity 1 another caller's Set pushes the count out, and a
      second attempt at the same instant gets through a limit of one. */
  lemma EvictionResets()
    ensures var l := Counting(10, 1);
            var ops := [Attempt(0), Set("other", MARK, 0, 0), Attempt(0)];
            Answers(l, [], 1, "key", ops) == [true, true] && Times(ops) == [0, 0]
  {
    var l := Counting(10, 1);
    var ops := [Attempt(0), Set("other", MARK, 0, 0), Attempt(0)];
    var counted, other := Entry("key", Int(1), 10), Entry("other", MARK, 0);
    assert ops[..1] == [Attempt(0)] && ops[..1][..0] == [] && ops[..2][..1] == ops[..1];
    assert Run(l, [], 1, "key", ops[..1]) == [counted];
    assert Without([counted], "other") == [counted];
    assert Run(l, [], 1, "key", ops[..2]) == [other];
    assert !HasKey([other], "key");
    assert Answers(l, [], 1, "key", ops[..1]) == [true];
    assert Answers(l, [], 1, "key", ops[..2]) == [true];
    assert Times(ops[..1]) == [0] && Times(ops[..2]) == [0];
  }

  // ---------- intervals ----------

  /** No earlier granted attempt is within the interval; an interval of 0 or less never ends. */
  ghost predicate Clear(window: int, times: seq<nat>, answers: seq<bool>, i: nat, now: nat)
    requires i <= |times| && i <= |answers|
  {
    forall j :: 0 <= j < i && answers[j] ==> window > 0 && now > times[j] + window
  }

  ghost predicate IntervalShows(l: Limiter, c: seq<Entry>, key: string, times: seq<nat>, answers: seq<bool>, now: nat)
    requires |times| == |answers|
  {
    && UniqueKeys(c)
    && if forall j :: 0 <= j < |answers| ==> !answers[j] then !HasKey(c, key)
       else exists j :: LastGrant(answers, j) && Shows(c, key, MARK, times[j], l.window, now)
  }

  ghost predicate LastGrant(answers: seq<bool>, j: int) {
    0 <= j < |answers| && answers[j] && forall k :: j < k < |answers| ==> !answers[k]
  }

  lemma IntervalAttempt(l: Limiter, c: seq<Entry>, capacity: int, key: string, times: seq<nat>, answers: seq<bool>,
                        now: nat, earlier: nat)
    requires l.Interval? && earlier <= now && |times| == |answers| && IntervalShows(l, c, key, times, answers, earlier)
    requires forall i, j :: 0 <= i < j < |times| ==> times[i] <= times[j]
    ensures Allows(l, c, key, now) <==> Clear(l.window, times, answers, |times|, now)
    ensures IntervalShows(l, Own(l, c, capacity, key, now), key, times + [now], answers + [Allows(l, c, key, now)], now)
  {
    var all := answers + [Allows(l, c, key, now)];
    var after := Own(l, c, capacity, key, now);
    TouchUnique(c, key, now);
    if Allows(l, c, key, now) {
      var e := Entry(key, MARK, Deadline(l.window, now));
      PutUnique(Touch(c, key, now), capacity, e);
      PutOwn(Touch(c, key, now), capacity, e);
      assert LastGrant(all, |answers|);
      assert all[|answers|];
    } else {
      var j :| LastGrant(answers, j) && Shows(c, key, MARK, times[j], l.window, earlier);
      FindCons(Find(c, key), Without(c, key), key);
      assert all[j] && LastGrant(all, j);
    }
  }

  ghost predicate IntervalLaw(window: int, times: seq<nat>, answers: seq<bool>) {
    && |answers| == |times|
    && forall i :: 0 <= i < |times| ==> (answers[i] <==> Clear(window, times, answers, i, times[i]))
  }

  lemma IntervalLawGrows(window: int, times: seq<nat>, answers: seq<bool>, now: nat, ok: bool)
    requires IntervalLaw(window, times, answers) && (ok <==> Clear(window, times, answers, |times|, now))
    ensures IntervalLaw(window, times + [now], answers + [ok])
  {
    var ts, bs := times + [now], answers + [ok];
    assert forall j :: 0 <= j < |answers| ==> bs[j] == answers[j] && ts[j] == times[j];
    forall i | 0 <= i < |ts| ensures bs[i] <==> Clear(window, ts, bs, i, ts[i]) {
      if i < |times| {
        assert Clear(window, ts, bs, i, ts[i]) <==> Clear(window, times, answers, i, times[i]);
      } else {
        assert Clear(window, ts, bs, i, now) <==> Clear(window, times, answers, i, now);
      }
    }
  }

  /** An attempt is granted exactly when no granted attempt lies within the interval before it. */
  lemma {:induction false} IntervalTheorem(l: Limiter, c: seq<Entry>, capacity: int, key: string, ops: seq<Op>)
    requires l.Interval? && Undisturbed(l, c, capacity, key, ops)
    ensures IntervalLaw(l.window, Times(ops), Answers(l, c, capacity, key, ops))
    ensures IntervalShows(l, Run(l, c, capacity, key, ops), key, Times(ops), Answers(l, c, capacity, key, ops),
                          Clock(ops))
  {
    if ops != [] {
      var k := |ops| - 1;
      var before, times := Run(l, c, capacity, key, ops[..k]), Times(ops[..k]);
      var answers := Answers(l, c, capacity, key, ops[..k]);
      IntervalTheorem(l, c, capacity, key, ops[..k]);
      TimesOrdered(l, c, capacity, key, ops[..k]);
      assert Clock(ops[..k]) <= ops[k].now;
      if ops[k].Attempt? {
        IntervalAttempt(l, before, capacity, key, times, answers, ops[k].now, Clock(ops[..k]));
        IntervalLawGrows(l.window, times, answers, ops[k].now, Allows(l, before, key, ops[k].now));
      } else {
        ForeignKeeps(before, capacity, key, ops[k]);
      }
    }
  }

  // ---------- when nothing pushes the key out ----------

  /** The keys used more recently than a key. */
  function Ahead(c: seq<Entry>, key: string): set<string> {
    if c == [] || c[0].key == key then {} else {c[0].key} + Ahead(c[1..], key)
  }

  lemma NotAmong(c: seq<Entry>)
    requires UniqueKeys(c) && c != []
    ensures !HasKey(c[1..], c[0].key)
  {
    forall i | 0 <= i < |c| - 1 ensures c[1..][i].key != c[0].key {
      assert c[1..][i] == c[i + 1];
    }
  }

  lemma {:induction false} AheadKeys(c: seq<Entry>, key: string, k: string)
    requires k in Ahead(c, key)
    ensures HasKey(c, k)
  {
    assert c == [c[0]] + c[1..];
    FindCons(c[0], c[1..], k);
    if c[0].key != k {
      AheadKeys(c[1..], key, k);
    }
  }

  lemma {:induction false} AheadPosition(c: seq<Entry>, key: string)
    requires UniqueKeys(c) && HasKey(c, key)
    ensures |Ahead(c, key)| < |c| && c[|Ahead(c, key)|].key == key
  {
    assert c == [c[0]] + c[1..];
    FindCons(c[0], c[1..], key);
    if c[0].key != key {
      var rest := Ahead(c[1..], key);
      AheadPosition(c[1..], key);
      assert c[0].key !in rest by {
        if c[0].key in rest {
          NotAmong(c);
          AheadKeys(c[1..], key, c[0].key);
        }
      }
      assert c[|rest| + 1] == c[1..][|rest|];
    }
  }

  lemma {:induction false} AheadWithout(c: seq<Entry>, other: string, key: string)
    requires other != key
    ensures Ahead(Without(c, other), key) <= Ahead(c, key)
    ensures HasKey(c, key) ==> Ahead(Without(c, other), key) == Ahead(c, key) - {other}
  {
    if c != [] {
      assert c == [c[0]] + c[1..];
      FindCons(c[0], c[1..], key);
      AheadWithout(c[1..], other, key);
      AheadCons(c[0], Without(c[1..], other), key);
    }
  }

  lemma AheadCons(e: Entry, c: seq<Entry>, key: string)
    ensures Ahead([e] + c, key) == if e.key == key then {} else {e.key} + Ahead(c, key)
  {
    assert ([e] + c)[1..] == c;
  }

  lemma {:induction false} AheadPrefix(c: seq<Entry>, n: nat, key: string)
    requires n <= |c|
    ensures Ahead(c[..n], key) <= Ahead(c, key)
  {
    if n > 0 {
      assert c[..n][1..] == c[1..][..n - 1];
      AheadPrefix(c[1..], n - 1, key);
    }
  }

  lemma {:induction false} AheadUnexpired(c: seq<Entry>, now: nat, key: string)
    requires UniqueKeys(c) && Live(c, key, now)
    ensures Ahead(Unexpired(c, now), key) <= Ahead(c, key)
  {
    assert c == [c[0]] + c[1..];
    FindCons(c[0], c[1..], key);
    if c[0].key != key {
      AheadUnexpired(c[1..], now, key);
      AheadCons(c[0], Unexpired(c[1..], now), key);
    } else {
      AheadCons(c[0], Unexpired(c[1..], now), key);
    }
  }

  /** The key an operation may bring to the front. */
  function Touches(op: Op): set<string> {
    if op.Set? || op.Get? || op.Incr? then {op.key} else {}
  }

  /** Fewer keys than the capacity have been used since the key was. */
  ghost predicate Recent(c: seq<Entry>, capacity: int, key: string, used: set<string>) {
    && UniqueKeys(c) && (HasKey(c, key) ==> Ahead(c, key) <= used) && (capacity > 0 ==> |used| < capacity)
  }

  lemma EvictSpares(c: seq<Entry>, capacity: int, key: string, used: set<string>)
    requires UniqueKeys(c) && HasKey(c, key) && Ahead(c, key) <= used && (capacity > 0 ==> |used| < capacity)
    ensures HasKey(Evict(c, capacity), key) && Ahead(Evict(c, capacity), key) <= used
  {
    if capacity > 0 && |c| > capacity {
      var i, n := |Ahead(c, key)|, |c| - 1;
      AheadPosition(c, key);
      SubsetSize(Ahead(c, key), used);
      assert c[..n][i] == c[i] && c[i] in c[..n];
      AheadPrefix(c, n, key);
    }
  }

  lemma PutSpares(c: seq<Entry>, capacity: int, e: Entry, key: string, used: set<string>)
    requires e.key != key && HasKey(c, key) && Recent(c, capacity, key, used)
    requires capacity > 0 ==> |used + {e.key}| < capacity
    ensures HasKey(Put(c, capacity, e), key) && Ahead(Put(c, capacity, e), key) <= used + {e.key}
  {
    PutUnique(c, 0, e);
    FindWithout(c, e.key, key);
    FindCons(e, Without(c, e.key), key);
    AheadWithout(c, e.key, key);
    AheadCons(e, Without(c, e.key), key);
    EvictSpares([e] + Without(c, e.key), capacity, key, used + {e.key});
  }

  lemma TouchSpares(c: seq<Entry>, other: string, now: nat, key: string, used: set<string>)
    requires other != key && HasKey(c, key) && UniqueKeys(c) && Ahead(c, key) <= used
    ensures HasKey(Touch(c, other, now), key) && Ahead(Touch(c, other, now), key) <= used + {other}
  {
    TouchOther(c, other, key, now);
    AheadWithout(c, other, key);
    if HasKey(c, other) {
      AheadCons(Find(c, other), Without(c, other), key);
    }
  }

  /** While fewer other keys than the capacity have been used since the key was, no operation on them
      pushes it out. */
  lemma FewSpare(c: seq<Entry>, capacity: int, key: string, used: set<string>, op: Op)
    requires !op.Attempt? && (!op.Cleanup? ==> op.key != key) && Recent(c, capacity, key, used)
    requires capacity > 0 ==> |used + Touches(op)| < capacity
    ensures Spares(c, capacity, key, op) && Recent(Foreign(c, capacity, op), capacity, key, used + Touches(op))
  {
    if HasKey(c, key) {
      match op
      case Set(k, value, ttl, now) => PutSpares(c, capacity, Entry(k, value, Deadline(ttl, now)), key, used);
      case Get(k, now) => TouchSpares(c, k, now, key, used);
      case Delete(k, _) =>
        FindWithout(c, k, key);
        AheadWithout(c, k, key);
      case Incr(k, ttl, now) => PutSpares(c, capacity, Bumped(c, k, ttl, now), key, used);
      case Cleanup(now) =>
        FindUnexpired(c, key, now);
        if Live(c, key, now) {
          AheadUnexpired(c, now, key);
        }
    }
    ForeignKeeps(c, capacity, key, op);
  }

  /** The other keys used since the last attempt. */
  function UsedSince(ops: seq<Op>): set<string> {
    if ops == [] then {} else
      var k := |ops| - 1;
      if ops[k].Attempt? || Times(ops[..k]) == [] then {} else UsedSince(ops[..k]) + Touches(ops[k])
  }

  /** What a caller can see of a run: the clock never goes back, the others stay away from the key, and
      between two attempts they use fewer keys than the capacity (any number, if that is 0 or less). */
  ghost predicate Spacious(capacity: int, key: string, ops: seq<Op>) {
    ops == [] ||
    (var k := |ops| - 1;
     && Spacious(capacity, key, ops[..k])
     && (k > 0 ==> ops[k - 1].now <= ops[k].now)
     && (!ops[k].Attempt? && !ops[k].Cleanup? ==> ops[k].key != key)
     && (capacity > 0 ==> |UsedSince(ops)| < capacity))
  }

  /** Such a run does not disturb the limiter. */
  lemma {:induction false} SpaciousTheorem(l: Limiter, c: seq<Entry>, capacity: int, key: string, ops: seq<Op>)
    requires UniqueKeys(c) && !HasKey(c, key) && Spacious(capacity, key, ops)
    ensures Undisturbed(l, c, capacity, key, ops)
    ensures var c' := Run(l, c, capacity, key, ops);
            Recent(c', capacity, key, UsedSince(ops)) && (Times(ops) == [] ==> !HasKey(c', key))
  {
    if ops != [] {
      var k := |ops| - 1;
      var before := Run(l, c, capacity, key, ops[..k]);
      SpaciousTheorem(l, c, capacity, key, ops[..k]);
      if ops[k].Attempt? {
        OwnFront(l, before, capacity, key, ops[k].now);
      } else if Times(ops[..k]) == [] {
        ForeignAbsent(before, capacity, key, ops[k]);
      } else {
        FewSpare(before, capacity, key, UsedSince(ops[..k]), ops[k]);
      }
    }
  }

  lemma OwnFront(l: Limiter, c: seq<Entry>, capacity: int, key: string, now: nat)
    requires UniqueKeys(c)
    ensures UniqueKeys(Own(l, c, capacity, key, now)) && Ahead(Own(l, c, capacity, key, now), key) == {}
  {
    TouchUnique(c, key, now);
    match l
    case Counting(window, _) => PutUnique(c, capacity, Bumped(c, key, window, now));
    case Interval(window) => PutUnique(Touch(c, key, now), capacity, Entry(key, MARK, Deadline(window, now)));
  }

  lemma ForeignAbsent(c: seq<Entry>, capacity: int, key: string, op: Op)
    requires UniqueKeys(c) && !HasKey(c, key) && !op.Attempt? && (!op.Cleanup? ==> op.key != key)
    ensures Spares(c, capacity, key, op)
    ensures UniqueKeys(Foreign(c, capacity, op)) && !HasKey(Foreign(c, capacity, op), key)
  {
    ForeignKeeps(c, capacity, key, op);
  }

  /** Without a capacity nothing is ever pushed out, so staying away from the key is enough. */
  lemma UnboundedSpares(c: seq<Entry>, key: string, op: Op)
    requires UniqueKeys(c) && !op.Attempt? && (!op.Cleanup? ==> op.key != key)
    ensures Spares(c, 0, key, op)
  {
    match op
    case Set(k, value, ttl, now) =>
      FindWithout(c, k, key);
      FindCons(Entry(k, value, Deadline(ttl, now)), Without(c, k), key);
    case Get(k, now) =>
      TouchOther(c, k, key, now);
    case Delete(k, _) =>
      FindWithout(c, k, key);
    case Incr(k, ttl, now) =>
      FindWithout(c, k, key);
      FindCons(Bumped(c, k, ttl, now), Without(c, k), key);
    case Cleanup(now) =>
      FindUnexpired(c, key, now);
  }
}
