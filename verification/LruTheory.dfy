/** What whole runs of the LRU cache do, when entries never expire: inclusion between capacities, and
    the resident keys as the most recently touched ones. */
module LruTheory {
  import opened Sequences
  import opened LruCache

  datatype Op = Set(key: string, value: Value) | Get(key: string, now: nat) | Delete(key: string)

  /** One call, as the contracts of SetWithExpiration (without a ttl), Get (at any time) and Delete
      state it. */
  function Step(c: seq<Entry>, capacity: int, op: Op): seq<Entry> {
    match op
    case Set(key, value) => Put(c, capacity, Entry(key, value, 0))
    case Get(key, now) => Touch(c, key, now)
    case Delete(key) => Without(c, key)
  }

  function Run(c: seq<Entry>, capacity: int, ops: seq<Op>): seq<Entry> {
    if ops == [] then c else Step(Run(c, capacity, ops[..|ops| - 1]), capacity, ops[|ops| - 1])
  }

  ghost predicate Eternal(c: seq<Entry>) {
    forall e :: e in c ==> e.expiration == 0
  }

  /** Nothing expires, so the clock does not matter. */
  lemma EternalTouch(c: seq<Entry>, key: string, now: nat)
    requires Eternal(c)
    ensures Touch(c, key, now) == if HasKey(c, key) then [Find(c, key)] + Without(c, key) else c
  {
  }

  // ---------- subsequences ----------

  /** a is b with some entries left out. */
  ghost predicate IsSub(a: seq<Entry>, b: seq<Entry>) {
    a == [] || (b != [] && ((a[0] == b[0] && IsSub(a[1..], b[1..])) || IsSub(a, b[1..])))
  }

  lemma {:induction false} SubMembers(a: seq<Entry>, b: seq<Entry>)
    requires IsSub(a, b)
    ensures |a| <= |b| && forall e :: e in a ==> e in b
  {
    if a != [] {
      if a[0] == b[0] && IsSub(a[1..], b[1..]) {
        SubMembers(a[1..], b[1..]);
        assert a == [a[0]] + a[1..];
      } else {
        SubMembers(a, b[1..]);
      }
    }
  }

  lemma {:induction false} SubWithout(a: seq<Entry>, b: seq<Entry>, key: string)
    requires IsSub(a, b)
    ensures IsSub(Without(a, key), Without(b, key))
  {
    if a != [] {
      if a[0] == b[0] && IsSub(a[1..], b[1..]) {
        SubWithout(a[1..], b[1..], key);
        if a[0].key != key {
          assert ([a[0]] + Without(a[1..], key))[1..] == Without(a[1..], key);
          assert ([b[0]] + Without(b[1..], key))[1..] == Without(b[1..], key);
        }
      } else {
        SubWithout(a, b[1..], key);
        if b[0].key != key {
          assert ([b[0]] + Without(b[1..], key))[1..] == Without(b[1..], key);
        }
      }
    }
  }

  lemma SubCons(a: seq<Entry>, b: seq<Entry>, e: Entry)
    requires IsSub(a, b)
    ensures IsSub([e] + a, [e] + b) && IsSub(a, [e] + b)
  {
    assert ([e] + a)[1..] == a && ([e] + b)[1..] == b;
  }

  /** Dropping the last entry on the left, or on both sides. */
  lemma {:induction false} SubDrop(a: seq<Entry>, b: seq<Entry>)
    requires IsSub(a, b) && a != []
    ensures IsSub(a[..|a| - 1], b) && IsSub(a[..|a| - 1], b[..|b| - 1])
  {
    var a', b' := a[..|a| - 1], b[..|b| - 1];
    if |a| > 1 {
      SubMembers(a, b);
      if a[0] == b[0] && IsSub(a[1..], b[1..]) {
        SubDrop(a[1..], b[1..]);
        assert a'[1..] == a[1..][..|a| - 2] && b'[1..] == b[1..][..|b| - 2];
      } else {
        SubDrop(a, b[1..]);
        SubMembers(a, b[1..]);
        assert b'[1..] == b[1..][..|b| - 2];
      }
    }
  }

  // ---------- inclusion ----------

  /** A cache of capacity c2 (0 or less: unbounded) against one of capacity c1: the smaller list is a
      subsequence of the larger one, and the smaller cache is never further from being full. */
  ghost predicate Includes(small: seq<Entry>, c1: int, large: seq<Entry>, c2: int) {
    && UniqueKeys(small) && UniqueKeys(large) && Eternal(small) && Eternal(large)
    && IsSub(small, large) && |small| <= c1
    && (c2 > 0 ==> |large| <= c2 && c1 - |small| <= c2 - |large|)
  }

  lemma StepIncludes(small: seq<Entry>, c1: int, large: seq<Entry>, c2: int, op: Op)
    requires 0 < c1 && (c2 <= 0 || c1 <= c2) && Includes(small, c1, large, c2)
    ensures Includes(Step(small, c1, op), c1, Step(large, c2, op), c2)
  {
    var key := op.key;
    SubMembers(small, large);
    SubWithout(small, large, key);
    WithoutSize(small, key);
    WithoutSize(large, key);
    match op {
      case Set(_, value) => SetIncludes(small, c1, large, c2, Entry(key, value, 0));
      case Get(_, now) => GetIncludes(small, c1, large, c2, key, now);
      case Delete(_) =>
    }
  }

  lemma SetIncludes(small: seq<Entry>, c1: int, large: seq<Entry>, c2: int, e: Entry)
    requires 0 < c1 && (c2 <= 0 || c1 <= c2) && Includes(small, c1, large, c2) && e.expiration == 0
    ensures Includes(Put(small, c1, e), c1, Put(large, c2, e), c2)
  {
    SubMembers(small, large);
    SubWithout(small, large, e.key);
    var s, l := Without(small, e.key), Without(large, e.key);
    SubCons(s, l, e);
    SubDrop([e] + s, [e] + l);
    PutPlain(small, c1, e);
    PutPlain(large, c2, e);
  }

  lemma PutPlain(c: seq<Entry>, capacity: int, e: Entry)
    requires UniqueKeys(c) && Eternal(c) && e.expiration == 0 && (capacity > 0 ==> |c| <= capacity)
    ensures UniqueKeys(Put(c, capacity, e)) && Eternal(Put(c, capacity, e))
    ensures |Put(c, capacity, e)| ==
            if HasKey(c, e.key) || (capacity > 0 && |c| == capacity) then |c| else |c| + 1
    ensures |Without(c, e.key)| == if HasKey(c, e.key) then |c| - 1 else |c|
  {
    WithoutSize(c, e.key);
  }

  lemma GetIncludes(small: seq<Entry>, c1: int, large: seq<Entry>, c2: int, key: string, now: nat)
    requires Includes(small, c1, large, c2)
    ensures Includes(Touch(small, key, now), c1, Touch(large, key, now), c2)
  {
    TouchSize(small, key, now);
    TouchSize(large, key, now);
    TouchSub(small, large, key, now);
  }

  lemma TouchSize(c: seq<Entry>, key: string, now: nat)
    requires UniqueKeys(c) && Eternal(c)
    ensures var c' := Touch(c, key, now); UniqueKeys(c') && Eternal(c') && |c'| == |c|
  {
    EternalTouch(c, key, now);
    WithoutSize(c, key);
    if HasKey(c, key) {
      var rest := Without(c, key);
      assert forall i :: 0 <= i < |rest| ==> rest[i] in rest;
    }
  }

  lemma TouchSub(small: seq<Entry>, large: seq<Entry>, key: string, now: nat)
    requires UniqueKeys(small) && UniqueKeys(large) && Eternal(small) && Eternal(large) && IsSub(small, large)
    ensures IsSub(Touch(small, key, now), Touch(large, key, now))
  {
    EternalTouch(small, key, now);
    EternalTouch(large, key, now);
    SubMembers(small, large);
    if HasKey(small, key) {
      SameFind(small, large, key);
      SubWithout(small, large, key);
      SubCons(Without(small, key), Without(large, key), Find(large, key));
    } else if HasKey(large, key) {
      HitOnlyLarger(small, large, key);
    }
  }

  /** A hit in the larger list alone moves its entry, which the smaller list does not have. */
  lemma HitOnlyLarger(small: seq<Entry>, large: seq<Entry>, key: string)
    requires IsSub(small, large) && !HasKey(small, key) && HasKey(large, key)
    ensures IsSub(small, [Find(large, key)] + Without(large, key))
  {
    SubWithout(small, large, key);
    WithoutAbsent(small, key);
    SubCons(small, Without(large, key), Find(large, key));
  }

  lemma SameFind(small: seq<Entry>, large: seq<Entry>, key: string)
    requires UniqueKeys(large) && HasKey(small, key) && forall e :: e in small ==> e in large
    ensures HasKey(large, key) && Find(small, key) == Find(large, key)
  {
    var e := Find(small, key);
    assert e in large;
    var f := Find(large, key);
    var i :| 0 <= i < |large| && large[i] == e;
    var j :| 0 <= j < |large| && large[j] == f;
  }

  /** LRU inclusion: after every run of Set, Get and Delete from two empty caches, what the smaller
      one holds is what the larger one holds with some entries left out, in the same order. A Get
      that hits only the larger cache does not disturb this. */
  lemma {:induction false} InclusionTheorem(c1: int, c2: int, ops: seq<Op>)
    requires 0 < c1 && (c2 <= 0 || c1 <= c2)
    ensures Includes(Run([], c1, ops), c1, Run([], c2, ops), c2)
  {
    if ops != [] {
      var k := |ops| - 1;
      InclusionTheorem(c1, c2, ops[..k]);
      StepIncludes(Run([], c1, ops[..k]), c1, Run([], c2, ops[..k]), c2, ops[k]);
    }
  }

  // ---------- recency ----------

  function KeysOf(c: seq<Entry>): (ks: seq<string>)
    ensures |ks| == |c| && forall i :: 0 <= i < |c| ==> ks[i] == c[i].key
  {
    seq(|c|, i requires 0 <= i < |c| => c[i].key)
  }

  function Drop(ks: seq<string>, key: string): seq<string> {
    if ks == [] then []
    else if ks[0] == key then Drop(ks[1..], key)
    else [ks[0]] + Drop(ks[1..], key)
  }

  /** The keys touched in a run of Sets and Gets, in order: every Set, and every Get that hits. */
  function Touched(capacity: int, ops: seq<Op>): seq<string> {
    if ops == [] then [] else
      var k := |ops| - 1;
      var before := Run([], capacity, ops[..k]);
      Touched(capacity, ops[..k]) + if ops[k].Set? || HasKey(before, ops[k].key) then [ops[k].key] else []
  }

  /** The keys of a history, each once, latest occurrence first. */
  function Recency(history: seq<string>): seq<string> {
    if history == [] then [] else
      var k := |history| - 1;
      [history[k]] + Drop(Recency(history[..k]), history[k])
  }

  function First(ks: seq<string>, capacity: int): seq<string> {
    if capacity > 0 && |ks| > capacity then ks[..capacity] else ks
  }

  lemma {:induction false} DropMembers(ks: seq<string>, key: string)
    ensures forall x :: x in Drop(ks, key) <==> x in ks && x != key
  {
    if ks != [] {
      assert ks == [ks[0]] + ks[1..];
      DropMembers(ks[1..], key);
    }
  }

  lemma {:induction false} DropAbsent(ks: seq<string>, key: string)
    requires key !in ks
    ensures Drop(ks, key) == ks
  {
    if ks != [] {
      assert ks == [ks[0]] + ks[1..];
      DropAbsent(ks[1..], key);
    }
  }

  lemma DistinctTail(ks: seq<string>)
    requires Distinct(ks) && ks != []
    ensures Distinct(ks[1..]) && ks[0] !in ks[1..]
  {
    forall i | 0 <= i < |ks| - 1 ensures ks[1..][i] == ks[i + 1] && ks[i + 1] != ks[0] { }
  }

  lemma DistinctCons(x: string, ks: seq<string>)
    requires Distinct(ks) && x !in ks
    ensures Distinct([x] + ks)
  {
  }

  /** Dropping the first of distinct keys leaves the rest. */
  lemma DropHead(ks: seq<string>)
    requires Distinct(ks) && ks != []
    ensures Drop(ks, ks[0]) == ks[1..]
  {
    DistinctTail(ks);
    DropAbsent(ks[1..], ks[0]);
  }

  lemma {:induction false} DropDistinct(ks: seq<string>, key: string)
    requires Distinct(ks)
    ensures Distinct(Drop(ks, key))
    ensures |Drop(ks, key)| == if key in ks then |ks| - 1 else |ks|
  {
    if ks != [] {
      DistinctTail(ks);
      if ks[0] == key {
        DropHead(ks);
      } else {
        assert ks == [ks[0]] + ks[1..];
        DropDistinct(ks[1..], key);
        DropMembers(ks[1..], key);
        DistinctCons(ks[0], Drop(ks[1..], key));
      }
    }
  }

  /** Dropping a key commutes with keeping the first entries, once the key's own place is counted. */
  lemma {:induction false} DropFirst(ks: seq<string>, key: string, n: nat)
    requires Distinct(ks) && n <= |ks|
    ensures key in ks[..n] ==> n >= 1 && |Drop(ks, key)| >= n - 1 && Drop(ks[..n], key) == Drop(ks, key)[..n - 1]
    ensures key !in ks[..n] ==> |Drop(ks, key)| >= n && Drop(ks, key)[..n] == ks[..n]
  {
    if n > 0 {
      if ks[0] == key {
        DropFirstHead(ks, n);
      } else {
        var rest := ks[1..];
        assert ks[..n] == [ks[0]] + rest[..n - 1] && ks[..n][1..] == rest[..n - 1];
        DistinctTail(ks);
        DropFirst(rest, key, n - 1);
        DropOther(ks, key);
        DropOther(ks[..n], key);
      }
    }
  }

  lemma DropOther(ks: seq<string>, key: string)
    requires ks != [] && ks[0] != key
    ensures Drop(ks, key) == [ks[0]] + Drop(ks[1..], key)
  {
  }

  lemma DropFirstHead(ks: seq<string>, n: nat)
    requires Distinct(ks) && 0 < n <= |ks|
    ensures ks[0] in ks[..n] && Drop(ks, ks[0]) == ks[1..] && Drop(ks[..n], ks[0]) == ks[1..][..n - 1]
  {
    DropHead(ks);
    DistinctPrefix(ks, n);
    DropHead(ks[..n]);
    assert ks[..n][0] == ks[0] && ks[..n][1..] == ks[1..][..n - 1];
  }

  lemma DistinctPrefix(ks: seq<string>, n: nat)
    requires Distinct(ks) && n <= |ks|
    ensures Distinct(ks[..n])
  {
  }

  lemma {:induction false} KeysWithout(c: seq<Entry>, key: string)
    ensures KeysOf(Without(c, key)) == Drop(KeysOf(c), key)
  {
    if c != [] {
      assert KeysOf(c)[1..] == KeysOf(c[1..]);
      KeysWithout(c[1..], key);
    }
  }

  lemma {:induction false} RecencyDistinct(history: seq<string>)
    ensures Distinct(Recency(history)) && forall x :: x in Recency(history) <==> x in history
  {
    if history != [] {
      var k := |history| - 1;
      var before := Recency(history[..k]);
      RecencyDistinct(history[..k]);
      DropMembers(before, history[k]);
      DropDistinct(before, history[k]);
      DistinctCons(history[k], Drop(before, history[k]));
      assert history == history[..k] + [history[k]];
    }
  }

  function LastTouch(history: seq<string>, key: string): (i: nat)
    requires key in history
    ensures i < |history| && history[i] == key && forall j :: i < j < |history| ==> history[j] != key
  {
    var k := |history| - 1;
    if history[k] == key then k else
      assert history == history[..k] + [history[k]];
      LastTouch(history[..k], key)
  }

  /** Recency is what its name says: of two keys the one touched last comes first. */
  lemma {:induction false} RecencyOrder(history: seq<string>, i: nat, j: nat)
    requires i < j < |Recency(history)|
    ensures Recency(history)[i] in history && Recency(history)[j] in history
    ensures LastTouch(history, Recency(history)[i]) > LastTouch(history, Recency(history)[j])
  {
    var k := |history| - 1;
    RecencyTail(history, j);
    if i == 0 {
      assert Recency(history)[0] == history[k] && LastTouch(history, history[k]) == k;
    } else {
      RecencyTail(history, i);
      var i', j' := DropOrder(Recency(history[..k]), history[k], i - 1, j - 1);
      RecencyOrder(history[..k], i', j');
    }
  }

  /** Behind its head, the recency list is what was there before, and so are the last touches. */
  lemma RecencyTail(history: seq<string>, i: nat)
    requires 0 < i < |Recency(history)|
    ensures var k := |history| - 1; var x := Recency(history)[i];
            && |Drop(Recency(history[..k]), history[k])| == |Recency(history)| - 1
            && x == Drop(Recency(history[..k]), history[k])[i - 1]
            && x in history[..k] && x in history && LastTouch(history, x) == LastTouch(history[..k], x)
  {
    var k := |history| - 1;
    var x, tail := Recency(history)[i], Drop(Recency(history[..k]), history[k]);
    assert Recency(history) == [history[k]] + tail;
    assert x == tail[i - 1] && x in tail;
    RecencyDistinct(history[..k]);
    DropMembers(Recency(history[..k]), history[k]);
    EarlierTouch(history, x);
  }

  lemma EarlierTouch(history: seq<string>, x: string)
    requires history != [] && x in history[..|history| - 1] && x != history[|history| - 1]
    ensures x in history && LastTouch(history, x) == LastTouch(history[..|history| - 1], x)
  {
    var i :| 0 <= i < |history| - 1 && history[..|history| - 1][i] == x;
    assert history[i] == x;
  }

  lemma {:induction false} DropOrder(ks: seq<string>, key: string, i: nat, j: nat) returns (i': nat, j': nat)
    requires i < j < |Drop(ks, key)|
    ensures i' < j' < |ks| && ks[i'] == Drop(ks, key)[i] && ks[j'] == Drop(ks, key)[j]
  {
    if ks[0] == key {
      i', j' := DropOrder(ks[1..], key, i, j);
      i', j' := i' + 1, j' + 1;
    } else if i > 0 {
      i', j' := DropOrder(ks[1..], key, i - 1, j - 1);
      i', j' := i' + 1, j' + 1;
    } else {
      i' := 0;
      j' := DropIndex(ks[1..], key, j - 1);
      j' := j' + 1;
    }
  }

  lemma {:induction false} DropIndex(ks: seq<string>, key: string, j: nat) returns (j': nat)
    requires j < |Drop(ks, key)|
    ensures j' < |ks| && ks[j'] == Drop(ks, key)[j]
  {
    if ks[0] == key {
      j' := DropIndex(ks[1..], key, j);
      j' := j' + 1;
    } else if j > 0 {
      j' := DropIndex(ks[1..], key, j - 1);
      j' := j' + 1;
    } else {
      j' := 0;
    }
  }

  ghost predicate Plain(c: seq<Entry>, capacity: int) {
    UniqueKeys(c) && Eternal(c) && (capacity > 0 ==> |c| <= capacity)
  }

  lemma StepPlain(c: seq<Entry>, capacity: int, op: Op)
    requires Plain(c, capacity)
    ensures Plain(Step(c, capacity, op), capacity)
  {
    WithoutSize(c, op.key);
  }

  /** In a run of Sets and Gets the resident keys are the most recently touched ones, as many as
      the capacity allows, in the order of their last touch. */
  lemma {:induction false} RecencyTheorem(capacity: int, ops: seq<Op>)
    requires forall op :: op in ops ==> !op.Delete?
    ensures Plain(Run([], capacity, ops), capacity)
    ensures KeysOf(Run([], capacity, ops)) == First(Recency(Touched(capacity, ops)), capacity)
  {
    if ops != [] {
      var k := |ops| - 1;
      var op := ops[k];
      var c, history := Run([], capacity, ops[..k]), Touched(capacity, ops[..k]);
      assert op in ops && forall o :: o in ops[..k] ==> o in ops;
      RecencyTheorem(capacity, ops[..k]);
      StepPlain(c, capacity, op);
      RecencyDistinct(history);
      if op.Set? || HasKey(c, op.key) {
        assert Touched(capacity, ops) == history + [op.key];
        assert (history + [op.key])[..|history|] == history;
        KeysStep(c, capacity, op);
        FirstStep(Recency(history), capacity, op.key);
      } else {
        assert Touched(capacity, ops) == history;
      }
    }
  }

  lemma KeysStep(c: seq<Entry>, capacity: int, op: Op)
    requires Plain(c, capacity) && (op.Set? || (op.Get? && HasKey(c, op.key)))
    ensures KeysOf(Step(c, capacity, op)) == First([op.key] + Drop(KeysOf(c), op.key), capacity)
  {
    match op
    case Set(key, value) =>
      WithoutSize(c, key);
      KeysFront(c, Entry(key, value, 0));
      KeysEvict([Entry(key, value, 0)] + Without(c, key), capacity);
    case Get(key, now) =>
      EternalTouch(c, key, now);
      WithoutSize(c, key);
      KeysFront(c, Find(c, key));
    case Delete(_) =>
  }

  lemma KeysFront(c: seq<Entry>, e: Entry)
    ensures KeysOf([e] + Without(c, e.key)) == [e.key] + Drop(KeysOf(c), e.key)
  {
    KeysWithout(c, e.key);
  }

  lemma KeysEvict(c: seq<Entry>, capacity: int)
    requires capacity > 0 ==> |c| <= capacity + 1
    ensures KeysOf(Evict(c, capacity)) == First(KeysOf(c), capacity)
  {
  }

  /** Touching a key among the first ones of a list, or among all of them, comes to the same. */
  lemma FirstStep(r: seq<string>, capacity: int, key: string)
    requires Distinct(r)
    ensures First([key] + Drop(First(r, capacity), key), capacity) == First([key] + Drop(r, key), capacity)
  {
    var n := |First(r, capacity)|;
    assert First(r, capacity) == r[..n];
    DropDistinct(r, key);
    DistinctPrefix(r, n);
    DropDistinct(r[..n], key);
    DropFirst(r, key, n);
    if key !in r[..n] {
      DropAbsent(r[..n], key);
    }
  }
}
