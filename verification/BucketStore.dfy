/** The store of buckets by key, with its cleanup. A request looks its bucket up and takes from it in two
    separate steps, so buckets have an identity: a request may hold one that the store has dropped. */
module BucketStore {
  import opened Sequences
  import opened TokenBucket

  // Buckets idle for longer than ten minutes are swept away.
  const IDLE_SECONDS: real := 600.0

  /** All buckets ever made, by identity, and the one the store has under each key. */
  datatype Store = Store(cells: seq<Bucket>, index: map<string, nat>)

  predicate IsIdle(b: Bucket, now: real) {
    now - b.last > IDLE_SECONDS
  }

  /** getBucket: a key without a bucket gets a full new one. */
  function Looked(s: Store, burst: int, key: string, now: real): (s': Store)
    ensures key in s'.index
  {
    if key in s.index then s else Store(s.cells + [Full(burst, now)], s.index[key := |s.cells|])
  }

  function Used(earned: Earning, s: Store, cell: nat, now: real): Store
    requires cell < |s.cells|
  {
    s.(cells := s.cells[cell := Take(earned, s.cells[cell], 1, now)])
  }

  /** One key of a cleanup pass that reads the clock at `pass`. */
  function Checked(s: Store, key: string, pass: real): Store
    requires key in s.index ==> s.index[key] < |s.cells|
  {
    if key in s.index && IsIdle(s.cells[s.index[key]], pass) then s.(index := s.index - {key}) else s
  }

  /** A whole cleanup pass. */
  function Swept(s: Store, pass: real): Store
    requires forall k :: k in s.index ==> s.index[k] < |s.cells|
  {
    s.(index := map k | k in s.index && !IsIdle(s.cells[s.index[k]], pass) :: s.index[k])
  }

  function Cells(made: seq<TokenBucket>): (cells: seq<Bucket>)
    reads made
    ensures |cells| == |made| && forall i :: 0 <= i < |made| ==> cells[i] == made[i].View()
  {
    seq(|made|, i requires 0 <= i < |made| reads made => made[i].View())
  }

  class RateLimiterStore {
    var buckets: map<string, TokenBucket>
    const rate: real
    const burst: int
    ghost var made: seq<TokenBucket>       // every bucket, in the order of creation
    ghost var position: map<string, nat>   // where the stored ones are among them

    static ghost predicate Indexed(made: seq<TokenBucket>, position: map<string, nat>,
                                   buckets: map<string, TokenBucket>)
    {
      && Distinct(made) && position.Keys == buckets.Keys
      && forall k :: k in position ==> position[k] < |made| && made[position[k]] == buckets[k]
    }

    ghost predicate Valid()
      reads this, made
    {
      Indexed(made, position, buckets) && forall i :: 0 <= i < |made| ==> made[i].refillRate == rate
    }

    ghost function View(): Store
      reads this, made
    {
      Store(Cells(made), position)
    }

    constructor (rate: real, burst: int)
      ensures Valid() && View() == Store([], map[]) && this.rate == rate && this.burst == burst
    {
      buckets, made, position, this.rate, this.burst := map[], [], map[], rate, burst;
    }

    method GetBucket(key: string, now: real) returns (b: TokenBucket)
      requires Valid()
      modifies this
      ensures Valid() && View() == Looked(old(View()), burst, key, now) && b == made[position[key]]
      ensures made == old(made) || (made == old(made) + [b] && fresh(b))
    {
      if key in buckets {
        return buckets[key];
      }
      b := new TokenBucket(rate, burst, now);
      AddCell(made, b);
      AddIndex(made, position, buckets, key, b);
      position := position[key := |made|];
      made := made + [b];
      buckets := buckets[key := b];
    }

    static lemma AddIndex(made: seq<TokenBucket>, position: map<string, nat>, buckets: map<string, TokenBucket>,
                          key: string, b: TokenBucket)
      requires Indexed(made, position, buckets) && b !in made
      ensures Indexed(made + [b], position[key := |made|], buckets[key := b])
    {
    }

    lemma AddCell(made: seq<TokenBucket>, b: TokenBucket)
      ensures Cells(made + [b]) == Cells(made) + [b.View()]
    {
    }

    /** What a request does with the bucket it has looked up, whether the store still has it or not. */
    method UseBucket(b: TokenBucket, now: real, ghost cell: nat) returns (ok: bool)
      requires Valid() && cell < |made| && made[cell] == b
      modifies b
      ensures Valid() && ok == Grants(Linear(rate), old(View()).cells[cell], 1, now)
      ensures View() == Used(Linear(rate), old(View()), cell, now)
    {
      ghost var before := Cells(made);
      ok := b.AllowN(1, now);
      OneCell(made, before, cell);
    }

    lemma OneCell(made: seq<TokenBucket>, before: seq<Bucket>, cell: nat)
      requires cell < |made| == |before|
      requires forall i :: 0 <= i < |made| && i != cell ==> made[i].View() == before[i]
      ensures Cells(made) == before[cell := made[cell].View()]
    {
    }

    /** One request whose two steps nothing comes between. */
    method Allow(key: string, now: real) returns (ok: bool)
      requires Valid()
      modifies this, made
      ensures Valid()
      ensures var looked := Looked(old(View()), burst, key, now);
              && looked.index[key] < |looked.cells|
              && ok == Grants(Linear(rate), looked.cells[looked.index[key]], 1, now)
              && View() == Used(Linear(rate), looked, looked.index[key], now)
    {
      var b := GetBucket(key, now);
      ok := UseBucket(b, now, position[key]);
    }

    /** One key of a cleanup pass. */
    method CheckIdle(key: string, pass: real)
      requires Valid() && key in buckets
      modifies this`buckets, this`position
      ensures Valid() && View() == Checked(old(View()), key, pass)
    {
      if pass - buckets[key].lastRefill > IDLE_SECONDS {
        buckets := buckets - {key};
        position := position - {key};
      }
    }

    /** One pass over the buckets, in any order. */
    method Cleanup(now: real)
      requires Valid()
      modifies this`buckets, this`position
      ensures Valid() && View() == Swept(old(View()), now)
      ensures forall k :: k in buckets <==> k in old(buckets) && now - old(buckets)[k].lastRefill <= 600.0
      ensures forall k :: k in buckets ==> buckets[k] == old(buckets)[k]
    {
      var keys := buckets.Keys;
      ghost var before := View();
      while keys != {}
        invariant Valid() && View().cells == before.cells && keys <= buckets.Keys
        invariant PartlySwept(before, position, keys, now)
        decreases keys
      {
        var key :| key in keys;
        CheckNext(before, position, keys, key, now);
        CheckIdle(key, now);
        keys := keys - {key};
      }
      AllChecked(before, position, now);
    }
  }

  /** A pass that has yet to check some keys. */
  ghost predicate PartlySwept(before: Store, index: map<string, nat>, keys: set<string>, pass: real) {
    && (forall k :: k in index ==> k in before.index && index[k] == before.index[k])
    && (forall k :: k in before.index ==> before.index[k] < |before.cells|)
    && forall k :: k in before.index ==> (k in index <==> k in keys || !IsIdle(before.cells[before.index[k]], pass))
  }

  lemma CheckNext(before: Store, index: map<string, nat>, keys: set<string>, key: string, pass: real)
    requires PartlySwept(before, index, keys, pass) && key in keys && keys <= index.Keys
    ensures var left := Checked(Store(before.cells, index), key, pass).index;
            PartlySwept(before, left, keys - {key}, pass) && keys - {key} <= left.Keys
  {
  }

  lemma AllChecked(before: Store, index: map<string, nat>, pass: real)
    requires PartlySwept(before, index, {}, pass)
    ensures index == Swept(before, pass).index
  {
  }
}
