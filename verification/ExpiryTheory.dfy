/** Where the entries of the cache come from: over whole runs of all its operations, what an entry's value
    and expiry have to do with the operations on its key. */
module ExpiryTheory {
  import opened CacheLimiter
  import opened IntervalTheory
  import opened LruCache

  function Cached(capacity: int, ops: seq<OtherOp>): seq<Entry> {
    if ops == [] then [] else Foreign(Cached(capacity, ops[..|ops| - 1]), capacity, ops[|ops| - 1])
  }

  predicate On(op: Op, key: string) {
    !op.Attempt? && !op.Cleanup? && op.key == key
  }

  /** Operation i makes a new entry for the key: a Set, or an Incr that finds no live one. */
  ghost predicate Births(capacity: int, ops: seq<OtherOp>, i: int, key: string) {
    && 0 <= i < |ops| && On(ops[i], key)
    && (ops[i].Set? || (ops[i].Incr? && !Live(Cached(capacity, ops[..i]), key, ops[i].now)))
  }

  /** How often the key has been incremented from one operation up to another. */
  function Increments(ops: seq<OtherOp>, key: string, from: nat, to: nat): nat
    requires from <= to <= |ops|
  {
    if from == to then 0 else
      Increments(ops, key, from, to - 1) + if ops[to - 1].Incr? && ops[to - 1].key == key then 1 else 0
  }

  /** When an entry made by operation i expires, 0 for never: as the last positive ttl given to its key
      says, be it by that operation or by an Incr since. */
  function Expiry(ops: seq<OtherOp>, key: string, i: nat, to: nat): nat
    requires i < to <= |ops| && (ops[i].Set? || ops[i].Incr?)
  {
    if to == i + 1 then (if ops[i].ttl > 0 then ops[i].now + ops[i].ttl else 0)
    else if ops[to - 1].Incr? && ops[to - 1].key == key && ops[to - 1].ttl > 0 then ops[to - 1].now + ops[to - 1].ttl
    else Expiry(ops, key, i, to - 1)
  }

  /** What an entry made by operation i holds after some increments: what was stored, or a number. */
  ghost predicate Holds(op: OtherOp, increments: nat, v: Value) {
    match op
    case Set(_, value, _, _) => if increments == 0 then v == value else v.Int? && CountsAs(value, v.n - increments)
    case Incr(_, _, _) => v == Int(1 + increments)
    case _ => false
  }

  /** The entry was made by operation i, and no other operation on its key has replaced or removed it. */
  ghost predicate Comes(capacity: int, ops: seq<OtherOp>, i: int, e: Entry) {
    && Births(capacity, ops, i, e.key)
    && (forall j :: i < j < |ops| ==> !Births(capacity, ops, j, e.key) && !(ops[j].Delete? && ops[j].key == e.key))
    && Holds(ops[i], Increments(ops, e.key, i + 1, |ops|), e.value)
    && e.expiration == Expiry(ops, e.key, i, |ops|)
  }

  lemma {:induction false} IncrementsPrefix(ops: seq<OtherOp>, key: string, from: nat, to: nat, n: nat)
    requires from <= to <= n <= |ops|
    ensures Increments(ops[..n], key, from, to) == Increments(ops, key, from, to)
  {
    if from < to {
      IncrementsPrefix(ops, key, from, to - 1, n);
    }
  }

  lemma {:induction false} ExpiryPrefix(ops: seq<OtherOp>, key: string, i: nat, to: nat, n: nat)
    requires i < to <= n <= |ops| && (ops[i].Set? || ops[i].Incr?)
    ensures Expiry(ops[..n], key, i, to) == Expiry(ops, key, i, to)
  {
    if to > i + 1 {
      ExpiryPrefix(ops, key, i, to - 1, n);
    }
  }

  lemma BirthsPrefix(capacity: int, ops: seq<OtherOp>, i: int, key: string, n: nat)
    requires i < n <= |ops|
    ensures Births(capacity, ops[..n], i, key) <==> Births(capacity, ops, i, key)
  {
    if 0 <= i {
      assert ops[..n][..i] == ops[..i];
    }
  }

  /** The next operation leaves the entry alone, or increments it. */
  lemma ComesOn(capacity: int, ops: seq<OtherOp>, i: nat, e: Entry, e': Entry)
    requires ops != [] && var k := |ops| - 1; Comes(capacity, ops[..k], i, e)
    requires var op := ops[|ops| - 1];
             && e'.key == e.key && !Births(capacity, ops, |ops| - 1, e.key) && !(op.Delete? && op.key == e.key)
             && (if op.Incr? && op.key == e.key
                 then e'.value.Int? && CountsAs(e.value, e'.value.n - 1) &&
                      e'.expiration == (if op.ttl > 0 then op.now + op.ttl else e.expiration)
                 else e' == e)
    ensures Comes(capacity, ops, i, e')
  {
    var k := |ops| - 1;
    BirthsPrefix(capacity, ops, i, e.key, k);
    IncrementsPrefix(ops, e.key, i + 1, k, k);
    ExpiryPrefix(ops, e.key, i, k, k);
    forall j | i < j < |ops|
      ensures !Births(capacity, ops, j, e.key) && !(ops[j].Delete? && ops[j].key == e.key)
    {
      if j < k {
        BirthsPrefix(capacity, ops, j, e.key, k);
        assert ops[..k][j] == ops[j];
      }
    }
  }

  lemma {:induction false} UnexpiredMembers(c: seq<Entry>, now: nat, e: Entry)
    requires e in Unexpired(c, now)
    ensures e in c
  {
    if c[0].IsExpired(now) || e != c[0] {
      UnexpiredMembers(c[1..], now, e);
    }
  }

  lemma PutMembers(c: seq<Entry>, capacity: int, x: Entry, e: Entry)
    requires e in Put(c, capacity, x)
    ensures e == x || (e in c && e.key != x.key)
  {
    WithoutMembers(c, x.key);
    assert e in [x] + Without(c, x.key);
  }

  /** Every entry is the one just stored, or an old one that the operation was not about. */
  lemma EntrySource(c: seq<Entry>, capacity: int, op: OtherOp, e: Entry)
    requires UniqueKeys(c) && e in Foreign(c, capacity, op)
    ensures if op.Set? && op.key == e.key then e == Entry(e.key, op.value, if op.ttl > 0 then op.now + op.ttl else 0)
            else if op.Incr? && op.key == e.key then e == Bumped(c, e.key, op.ttl, op.now)
            else e in c && !(op.Delete? && op.key == e.key)
  {
    match op
    case Set(k, value, ttl, now) => PutMembers(c, capacity, Entry(k, value, Deadline(ttl, now)), e);
    case Get(k, now) => WithoutMembers(c, k);
    case Delete(k, _) => WithoutMembers(c, k);
    case Incr(k, ttl, now) => PutMembers(c, capacity, Bumped(c, k, ttl, now), e);
    case Cleanup(now) => UnexpiredMembers(c, now, e);
  }

  /** What Incr stores, whatever the rest of the cache. */
  lemma BumpedEntry(c: seq<Entry>, key: string, ttl: int, now: nat)
    ensures var e := Bumped(c, key, ttl, now);
            && e.key == key && e.value.Int?
            && (if Live(c, key, now) then CountsAs(Find(c, key).value, e.value.n - 1) else e.value.n == 1)
            && e.expiration ==
               if ttl > 0 then now + ttl else if Live(c, key, now) then Find(c, key).expiration else 0
  {
    BumpIncrements(c, 0, key, ttl, now);
    PutOwn(c, 0, Bumped(c, key, ttl, now));
  }

  lemma {:induction false} CachedUnique(capacity: int, ops: seq<OtherOp>)
    ensures UniqueKeys(Cached(capacity, ops))
  {
    if ops != [] {
      var k := |ops| - 1;
      var c := Cached(capacity, ops[..k]);
      CachedUnique(capacity, ops[..k]);
      match ops[k]
      case Set(key, value, ttl, now) => PutUnique(c, capacity, Entry(key, value, Deadline(ttl, now)));
      case Get(key, now) => TouchUnique(c, key, now);
      case Delete(key, _) => WithoutSize(c, key);
      case Incr(key, ttl, now) => PutUnique(c, capacity, Bumped(c, key, ttl, now));
      case Cleanup(now) => UnexpiredUnique(c, now);
    }
  }

  /** An entry that the last operation has made. */
  lemma ComesNew(capacity: int, ops: seq<OtherOp>, e: Entry)
    requires ops != [] && Births(capacity, ops, |ops| - 1, e.key) && e in Cached(capacity, ops)
    ensures Comes(capacity, ops, |ops| - 1, e)
  {
    var k := |ops| - 1;
    CachedUnique(capacity, ops[..k]);
    EntrySource(Cached(capacity, ops[..k]), capacity, ops[k], e);
    if ops[k].Incr? {
      BumpedEntry(Cached(capacity, ops[..k]), e.key, ops[k].ttl, ops[k].now);
    }
  }

  /** Every entry of the cache, after any run of its operations, comes from the last operation that made
      one for its key: it holds what that stored, plus the increments since, and expires as the last
      positive ttl given to it says. */
  lemma {:induction false} LifeTheorem(capacity: int, ops: seq<OtherOp>, e: Entry) returns (i: nat)
    requires e in Cached(capacity, ops)
    ensures Comes(capacity, ops, i, e)
  {
    var k := |ops| - 1;
    var c := Cached(capacity, ops[..k]);
    CachedUnique(capacity, ops[..k]);
    EntrySource(c, capacity, ops[k], e);
    if Births(capacity, ops, k, e.key) {
      ComesNew(capacity, ops, e);
      i := k;
    } else if ops[k].Incr? && ops[k].key == e.key {
      BumpedEntry(c, e.key, ops[k].ttl, ops[k].now);
      i := LifeTheorem(capacity, ops[..k], Find(c, e.key));
      ComesOn(capacity, ops, i, Find(c, e.key), e);
    } else {
      i := LifeTheorem(capacity, ops[..k], e);
      ComesOn(capacity, ops, i, e, e);
    }
  }
}
