/** The LRU cache: an index from keys to list elements over a recency list, against a plain list of
    entries, most recently used first. */
module LruCache {
  import opened Decimals
  import opened Sequences

  // Cached values, as Incr tells them apart.
  datatype Value = Int(n: int) | Float(x: real) | Text(s: string) | Other(id: int)

  // An expiration of 0 means never.
  datatype Entry = Entry(key: string, value: Value, expiration: nat) {
    predicate IsExpired(now: nat) {
      expiration != 0 && now > expiration
    }
  }

  /** Numbers drop their fraction, texts are read as decimal integers, and anything else counts as 0. */
  function ToInt64(v: Value): int {
    match v
    case Int(n) => n
    case Float(x) => if x >= 0.0 then x.Floor else -((-x).Floor)
    case Text(s) => ParseInt(s)
    case Other(_) => 0
  }

  // ---------- the list of entries ----------

  predicate HasKey(c: seq<Entry>, key: string) {
    exists e :: e in c && e.key == key
  }

  ghost predicate UniqueKeys(c: seq<Entry>) {
    forall i, j :: 0 <= i < j < |c| ==> c[i].key != c[j].key
  }

  function Without(c: seq<Entry>, key: string): seq<Entry> {
    if c == [] then []
    else if c[0].key == key then Without(c[1..], key)
    else [c[0]] + Without(c[1..], key)
  }

  function Find(c: seq<Entry>, key: string): (e: Entry)
    requires HasKey(c, key)
    ensures e in c && e.key == key
  {
    if c[0].key == key then c[0] else Find(c[1..], key)
  }

  /** Drops the least recently used entry when a positive capacity is exceeded. */
  function Evict(c: seq<Entry>, capacity: int): seq<Entry> {
    if capacity > 0 && |c| > capacity then c[..|c| - 1] else c
  }

  function Put(c: seq<Entry>, capacity: int, e: Entry): seq<Entry> {
    Evict([e] + Without(c, e.key), capacity)
  }

  function Touch(c: seq<Entry>, key: string, now: nat): seq<Entry> {
    if !HasKey(c, key) then c
    else if Find(c, key).IsExpired(now) then Without(c, key)
    else [Find(c, key)] + Without(c, key)
  }

  function Deadline(ttl: int, now: nat): nat {
    if ttl > 0 then now + ttl else 0
  }

  /** What Incr stores: a fresh 1, or the live value plus one, whose expiry only a positive ttl moves. */
  function Bumped(c: seq<Entry>, key: string, ttl: int, now: nat): Entry {
    if HasKey(c, key) && !Find(c, key).IsExpired(now) then
      Entry(key, Int(ToInt64(Find(c, key).value) + 1),
            if ttl > 0 then Deadline(ttl, now) else Find(c, key).expiration)
    else
      Entry(key, Int(1), Deadline(ttl, now))
  }

  predicate Live(c: seq<Entry>, key: string, now: nat) {
    HasKey(c, key) && !Find(c, key).IsExpired(now)
  }

  /** What a value counts as: an integer as itself, a number with a fraction as the integer next to it on
      the side of zero, a text as it parses, anything else as 0. */
  ghost predicate CountsAs(v: Value, n: int) {
    match v
    case Int(m) => n == m
    case Float(x) => if x >= 0.0 then n as real <= x < (n + 1) as real else (n - 1) as real < x <= n as real
    case Text(s) => n == ParseInt(s)
    case Other(_) => n == 0
  }

  lemma ReadsCount(v: Value)
    ensures CountsAs(v, ToInt64(v))
  {
  }

  lemma PutOwn(c: seq<Entry>, capacity: int, e: Entry)
    ensures HasKey(Put(c, capacity, e), e.key) && Find(Put(c, capacity, e), e.key) == e
  {
    assert Put(c, capacity, e)[0] == e;
    assert e in Put(c, capacity, e);
  }

  /** What Incr leaves under its key: one more than the live value counts as, or 1. A positive ttl starts
      anew; without one a live entry keeps its expiry, and a new entry has none. */
  ghost predicate Incremented(c: seq<Entry>, key: string, ttl: int, now: nat, c': seq<Entry>, n: int) {
    && HasKey(c', key) && Find(c', key).value == Int(n)
    && (if Live(c, key, now) then CountsAs(Find(c, key).value, n - 1) else n == 1)
    && Find(c', key).expiration ==
       if ttl > 0 then now + ttl else if Live(c, key, now) then Find(c, key).expiration else 0
  }

  lemma BumpIncrements(c: seq<Entry>, capacity: int, key: string, ttl: int, now: nat)
    ensures var e := Bumped(c, key, ttl, now);
            e.value.Int? && Incremented(c, key, ttl, now, Put(c, capacity, e), e.value.n)
  {
    PutOwn(c, capacity, Bumped(c, key, ttl, now));
    if Live(c, key, now) {
      ReadsCount(Find(c, key).value);
    }
  }

  function Unexpired(c: seq<Entry>, now: nat): seq<Entry> {
    if c == [] then []
    else if c[0].IsExpired(now) then Unexpired(c[1..], now)
    else [c[0]] + Unexpired(c[1..], now)
  }

  lemma {:induction false} WithoutAt(c: seq<Entry>, i: nat)
    requires UniqueKeys(c) && i < |c|
    ensures Without(c, c[i].key) == c[..i] + c[i + 1..]
    ensures HasKey(c, c[i].key) && Find(c, c[i].key) == c[i]
  {
    assert c[i] in c;
    if i == 0 {
      WithoutAbsent(c[1..], c[0].key);
    } else {
      WithoutAt(c[1..], i - 1);
      assert c[1..][i - 1] == c[i];
      assert c[..i] + c[i + 1..] == [c[0]] + (c[1..][..i - 1] + c[1..][i..]);
    }
  }

  lemma {:induction false} WithoutAbsent(c: seq<Entry>, key: string)
    requires !HasKey(c, key)
    ensures Without(c, key) == c
  {
    if c != [] {
      assert c[0] in c;
      assert forall e :: e in c[1..] ==> e in c;
      WithoutAbsent(c[1..], key);
    }
  }

  lemma {:induction false} WithoutMembers(c: seq<Entry>, key: string)
    ensures forall e :: e in Without(c, key) <==> e in c && e.key != key
  {
    if c != [] {
      WithoutMembers(c[1..], key);
      assert c == [c[0]] + c[1..];
    }
  }

  lemma {:induction false} WithoutSize(c: seq<Entry>, key: string)
    requires UniqueKeys(c)
    ensures |Without(c, key)| == if HasKey(c, key) then |c| - 1 else |c|
    ensures UniqueKeys(Without(c, key)) && forall e :: e in Without(c, key) <==> e in c && e.key != key
  {
    WithoutMembers(c, key);
    if i :| 0 <= i < |c| && c[i].key == key {
      assert c[i] in c;
      WithoutAt(c, i);
    } else {
      WithoutAbsent(c, key);
    }
  }

  /** One step of the backward sweep: the entry at i stays in front of what survived behind it, or
      is cut out. */
  lemma UnexpiredStep(c: seq<Entry>, i: nat, now: nat)
    requires i < |c|
    ensures var swept := c[..i + 1] + Unexpired(c[i + 1..], now);
            && swept[i] == c[i]
            && c[..i] + Unexpired(c[i..], now) ==
               if c[i].IsExpired(now) then swept[..i] + swept[i + 1..] else swept
  {
    assert c[i..][0] == c[i] && c[i..][1..] == c[i + 1..];
  }

  // ---------- the cache object ----------

  class Element {
    const key: string
    var value: Value
    var expiration: nat

    constructor (key: string, value: Value, expiration: nat)
      ensures this.key == key && this.value == value && this.expiration == expiration
    {
      this.key, this.value, this.expiration := key, value, expiration;
    }

    function View(): Entry
      reads this
    {
      Entry(key, value, expiration)
    }
  }

  function Views(list: seq<Element>): (c: seq<Entry>)
    reads list
    ensures |c| == |list|
    ensures forall i :: 0 <= i < |c| ==> c[i] == list[i].View()
  {
    seq(|list|, i requires 0 <= i < |list| reads list => list[i].View())
  }

  /** Index and list are in bijection. */
  ghost predicate Bijective(items: map<string, Element>, list: seq<Element>) {
    && Distinct(list)
    && (forall e :: e in list ==> e.key in items && items[e.key] == e)
    && (forall k :: k in items ==> items[k].key == k && items[k] in list)
  }

  function Cut<T>(list: seq<T>, i: nat): seq<T>
    requires i < |list|
  {
    list[..i] + list[i + 1..]
  }

  /** What list.Remove, and deleting the key with it, leave. */
  lemma CutKeeps(items: map<string, Element>, list: seq<Element>, i: nat)
    requires Bijective(items, list) && i < |list|
    ensures Bijective(items - {list[i].key}, Cut(list, i))
    ensures forall e :: e in Cut(list, i) <==> e in list && e != list[i]
    ensures Views(Cut(list, i)) == Without(Views(list), list[i].key)
  {
    CutOut(list, i);
    CutViews(items, list, i);
    assert list[i] in list;
  }

  lemma CutViews(items: map<string, Element>, list: seq<Element>, i: nat)
    requires Bijective(items, list) && i < |list|
    ensures Views(Cut(list, i)) == Without(Views(list), list[i].key)
  {
    ViewsUnique(items, list);
    WithoutAt(Views(list), i);
  }

  lemma FrontKeeps(items: map<string, Element>, list: seq<Element>, elem: Element)
    requires elem !in list && (elem.key in items ==> items[elem.key] == elem)
    requires Bijective(items - {elem.key}, list)
    ensures Bijective(items[elem.key := elem], [elem] + list)
  {
    var longer, all := [elem] + list, items[elem.key := elem];
    forall e ensures e in longer <==> e == elem || e in list { }
    forall e | e in longer ensures e.key in all && all[e.key] == e {
      if e != elem {
        assert e.key in items - {elem.key};
      }
    }
    forall k | k in all ensures all[k].key == k && all[k] in longer {
      if k != elem.key {
        assert k in items - {elem.key};
      }
    }
  }

  function MovedToFront<T>(list: seq<T>, i: nat): seq<T>
    requires i < |list|
  {
    [list[i]] + Cut(list, i)
  }

  lemma FrontMoved(items: map<string, Element>, list: seq<Element>, i: nat)
    requires Bijective(items, list) && i < |list|
    ensures Bijective(items, MovedToFront(list, i))
    ensures |MovedToFront(list, i)| == |list| && forall e :: e in MovedToFront(list, i) <==> e in list
  {
    var elem := list[i];
    CutKeeps(items, list, i);
    assert elem in list;
    FrontKeeps(items, Cut(list, i), elem);
    assert items[elem.key := elem] == items;
    SameMembers(list, i);
  }

  lemma SameMembers<T>(list: seq<T>, i: nat)
    requires i < |list|
    ensures |MovedToFront(list, i)| == |list| && forall e :: e in MovedToFront(list, i) <==> e in list
  {
    assert list == list[..i] + [list[i]] + list[i + 1..];
  }

  lemma ViewsCons(elem: Element, list: seq<Element>)
    ensures Views([elem] + list) == [elem.View()] + Views(list)
  {
  }

  lemma ViewsUnique(items: map<string, Element>, list: seq<Element>)
    requires Bijective(items, list)
    ensures UniqueKeys(Views(list))
  {
    forall i, j | 0 <= i < j < |list| ensures list[i].key != list[j].key {
      assert list[i] in list && list[j] in list;
    }
  }

  class LruCache {
    var items: map<string, Element>
    var lruList: seq<Element>
    var capacity: int

    ghost predicate Indexed()
      reads this
    {
      Bijective(items, lruList)
    }

    /** The index agrees with the list, and a positive capacity is not exceeded. */
    ghost predicate Valid()
      reads this
    {
      Indexed() && (capacity > 0 ==> |lruList| <= capacity)
    }

    function Contents(): seq<Entry>
      reads this, lruList
    {
      Views(lruList)
    }

    constructor (capacity: int)
      ensures Valid() && Contents() == [] && this.capacity == capacity
    {
      items, lruList, this.capacity := map[], [], capacity;
    }

    /** The index agrees with the list of entries. */
    lemma Agrees(key: string)
      requires Indexed()
      ensures UniqueKeys(Contents())
      ensures HasKey(Contents(), key) <==> key in items
      ensures key in items ==> items[key] in lruList && Find(Contents(), key) == items[key].View()
    {
      var c := Contents();
      ViewsUnique(items, lruList);
      if key in items {
        var i :| 0 <= i < |lruList| && lruList[i] == items[key];
        WithoutAt(c, i);
      }
      if e :| e in c && e.key == key {
        var i :| 0 <= i < |c| && c[i] == e;
        assert lruList[i] in lruList;
      }
    }

    method RemoveElement(elem: Element)
      requires Indexed() && elem in lruList
      modifies this`items, this`lruList
      ensures Indexed() && Contents() == Without(old(Contents()), elem.key)
      ensures forall e :: e in lruList ==> e in old(lruList)
      ensures |lruList| == |old(lruList)| - 1 && items == old(items) - {elem.key}
    {
      var i := IndexOf(lruList, elem);
      CutKeeps(items, lruList, i);
      lruList := Cut(lruList, i);
      items := items - {elem.key};
    }

    method MoveToFront(elem: Element)
      requires Indexed() && elem in lruList
      modifies this`lruList
      ensures Indexed() && Contents() == [elem.View()] + Without(old(Contents()), elem.key)
      ensures |lruList| == |old(lruList)| && forall e :: e in lruList <==> e in old(lruList)
    {
      var i := IndexOf(lruList, elem);
      var rest := Cut(lruList, i);
      FrontMoved(items, lruList, i);
      CutKeeps(items, lruList, i);
      ghost var others := Views(rest);
      lruList := MovedToFront(lruList, i);
      assert Views(rest) == others;
      ViewsCons(elem, rest);
    }

    /** A live entry gets a new value and expiry in place and becomes the most recently used. */
    method Refresh(elem: Element, value: Value, expiration: nat)
      requires Indexed() && elem in lruList
      modifies this`lruList, elem
      ensures Indexed() && Contents() == [Entry(elem.key, value, expiration)] + Without(old(Contents()), elem.key)
      ensures |lruList| == |old(lruList)| && forall e :: e in lruList <==> e in old(lruList)
    {
      var i := IndexOf(lruList, elem);
      var rest := Cut(lruList, i);
      FrontMoved(items, lruList, i);
      CutKeeps(items, lruList, i);
      ghost var others := Views(rest);
      SetElement(elem, value, expiration, rest);
      lruList := MovedToFront(lruList, i);
      assert Views(rest) == others;
      ViewsCons(elem, rest);
    }

    /** Setting an element does not show in a list without it. */
    method SetElement(elem: Element, value: Value, expiration: nat, ghost rest: seq<Element>)
      requires elem !in rest
      modifies elem
      ensures elem.View() == Entry(elem.key, value, expiration) && Views(rest) == old(Views(rest))
    {
      elem.value, elem.expiration := value, expiration;
    }

    /** Removes the back element, if there is one. */
    method EvictBack()
      requires Indexed()
      modifies this`items, this`lruList
      ensures Indexed() && Contents() == if old(Contents()) == [] then [] else old(Contents())[..|old(Contents())| - 1]
      ensures forall e :: e in lruList ==> e in old(lruList)
    {
      if |lruList| == 0 {
        return;
      }
      var i := |lruList| - 1;
      Agrees(lruList[i].key);
      WithoutAt(Contents(), i);
      RemoveElement(lruList[i]);
    }

    method PushFront(key: string, value: Value, expiration: nat)
      requires Indexed() && key !in items
      modifies this`items, this`lruList
      ensures Indexed() && Contents() == [Entry(key, value, expiration)] + old(Contents())
      ensures |lruList| == |old(lruList)| + 1 && forall e :: e in lruList ==> e in old(lruList) || fresh(e)
    {
      var elem := new Element(key, value, expiration);
      assert items - {key} == items;
      FrontKeeps(items, lruList, elem);
      ViewsCons(elem, lruList);
      lruList := [elem] + lruList;
      items := items[key := elem];
    }

    /** A new key, then eviction if that exceeds the capacity. */
    method Insert(key: string, value: Value, expiration: nat)
      requires Valid() && key !in items
      modifies this`items, this`lruList
      ensures Valid() && Contents() == Put(old(Contents()), capacity, Entry(key, value, expiration))
      ensures forall e :: e in lruList ==> e in old(lruList) || fresh(e)
    {
      Agrees(key);
      ghost var before, e := Contents(), Entry(key, value, expiration);
      WithoutAbsent(before, key);
      PushFront(key, value, expiration);
      assert Contents() == [e] + before && Put(before, capacity, e) == Evict([e] + before, capacity);
      if capacity > 0 && |lruList| > capacity {
        EvictBack();
      }
    }

    method SetWithExpiration(key: string, value: Value, ttl: int, now: nat)
      requires Valid()
      modifies this`items, this`lruList, lruList
      ensures Valid() && Contents() == Put(old(Contents()), capacity, Entry(key, value, Deadline(ttl, now)))
      ensures forall e :: e in lruList ==> e in old(lruList) || fresh(e)
    {
      var exp := Deadline(ttl, now);
      if key in items {
        LiveFits(key, Entry(key, value, exp));
        Refresh(items[key], value, exp);
        return;
      }
      Insert(key, value, exp);
    }

    method Get(key: string, now: nat) returns (value: Value, found: bool)
      requires Valid()
      modifies this`items, this`lruList
      ensures Valid() && Contents() == Touch(old(Contents()), key, now)
      ensures found <==> HasKey(old(Contents()), key) && !Find(old(Contents()), key).IsExpired(now)
      ensures found ==> value == Find(old(Contents()), key).value
      ensures forall e :: e in lruList ==> e in old(lruList)
    {
      Agrees(key);
      if key !in items {
        return Other(0), false;
      }
      var elem := items[key];
      if elem.View().IsExpired(now) {
        RemoveElement(elem);
        return Other(0), false;
      }
      MoveToFront(elem);
      return elem.value, true;
    }

    method Delete(key: string)
      requires Valid()
      modifies this`items, this`lruList
      ensures Valid() && Contents() == Without(old(Contents()), key)
      ensures forall e :: e in lruList ==> e in old(lruList)
    {
      Agrees(key);
      if key in items {
        RemoveElement(items[key]);
      } else {
        WithoutAbsent(Contents(), key);
      }
    }

    lemma LiveFits(key: string, e: Entry)
      requires Valid() && key in items && e.key == key
      ensures Put(Contents(), capacity, e) == [e] + Without(Contents(), key)
    {
      Agrees(key);
      WithoutSize(Contents(), key);
    }

    lemma RemovedInsert(key: string, e: Entry)
      requires Valid() && key in items && e.key == key
      ensures Put(Without(Contents(), key), capacity, e) == Put(Contents(), capacity, e)
    {
      Agrees(key);
      WithoutSize(Contents(), key);
      WithoutAbsent(Without(Contents(), key), key);
    }

    /** Incr on a live entry. */
    method Bump(elem: Element, ttl: int, now: nat) returns (n: int)
      requires Valid() && elem in lruList && !elem.View().IsExpired(now)
      modifies this`lruList, elem
      ensures Valid() && Contents() == Put(old(Contents()), capacity, Bumped(old(Contents()), elem.key, ttl, now))
      ensures Int(n) == Bumped(old(Contents()), elem.key, ttl, now).value
      ensures forall e :: e in lruList <==> e in old(lruList)
    {
      Agrees(elem.key);
      ghost var before := Contents();
      ghost var bumped := Bumped(before, elem.key, ttl, now);
      LiveFits(elem.key, bumped);
      assert Find(before, elem.key) == elem.View();
      n := ToInt64(elem.value) + 1;
      var expiration := if ttl > 0 then Deadline(ttl, now) else elem.expiration;
      assert bumped == Entry(elem.key, Int(n), expiration);
      Refresh(elem, Int(n), expiration);
    }

    method Incr(key: string, ttl: int, now: nat) returns (n: int)
      requires Valid()
      modifies this`items, this`lruList, lruList
      ensures Valid() && Contents() == Put(old(Contents()), capacity, Bumped(old(Contents()), key, ttl, now))
      ensures Incremented(old(Contents()), key, ttl, now, Contents(), n)
      ensures Int(n) == Bumped(old(Contents()), key, ttl, now).value
      ensures forall e :: e in lruList ==> e in old(lruList) || fresh(e)
    {
      Agrees(key);
      BumpIncrements(Contents(), capacity, key, ttl, now);
      if key in items {
        var elem := items[key];
        if !elem.View().IsExpired(now) {
          n := Bump(elem, ttl, now);
          return;
        }
        RemovedInsert(key, Bumped(Contents(), key, ttl, now));
        RemoveElement(elem);
      }
      n := 1;
      Insert(key, Int(1), Deadline(ttl, now));
    }

    /** Walks the list from the back and removes what has expired; the rest keeps its order. */
    method CleanupExpired(now: nat)
      requires Valid()
      modifies this`items, this`lruList
      ensures Valid() && Contents() == Unexpired(old(Contents()), now)
      ensures forall e :: e in lruList ==> e in old(lruList)
    {
      ghost var before := Contents();
      var i := |lruList|;
      assert before == before[..i] + Unexpired(before[i..], now);
      while i > 0
        invariant Indexed() && i <= |lruList| <= |before| && forall e :: e in lruList ==> e in old(lruList)
        invariant Contents() == before[..i] + Unexpired(before[i..], now)
      {
        i := i - 1;
        UnexpiredStep(before, i, now);
        if lruList[i].expiration > 0 && now > lruList[i].expiration {
          Agrees(lruList[i].key);
          WithoutAt(Contents(), i);
          RemoveElement(lruList[i]);
        }
      }
      assert before[0..] == before && before[..0] == [];
    }

    method SetCapacity(newCapacity: int)
      requires Valid()
      modifies this`items, this`lruList, this`capacity
      ensures Valid() && capacity == newCapacity
      ensures Contents() == if newCapacity > 0 && |old(Contents())| > newCapacity
                            then old(Contents())[..newCapacity] else old(Contents())
      ensures forall e :: e in lruList ==> e in old(lruList)
    {
      capacity := newCapacity;
      ghost var before := Contents();
      while capacity > 0 && |lruList| > capacity
        invariant Indexed() && |lruList| <= |before| && Contents() == before[..|lruList|]
        invariant capacity == newCapacity && (|lruList| == |before| || |lruList| >= capacity > 0)
        invariant forall e :: e in lruList ==> e in old(lruList)
      {
        EvictBack();
      }
      assert before[..|before|] == before;
    }

    method Keys() returns (keys: seq<string>)
      requires Valid()
      ensures |keys| == |Contents()| && forall i :: 0 <= i < |keys| ==> keys[i] == Contents()[i].key
    {
      keys := [];
      for i := 0 to |lruList|
        invariant |keys| == i && forall j :: 0 <= j < i ==> keys[j] == lruList[j].key
      {
        keys := keys + [lruList[i].key];
      }
    }

    method Clear()
      requires Valid()
      modifies this`items, this`lruList
      ensures Valid() && Contents() == []
    {
      items, lruList := map[], [];
    }
  }
}
