/** The migration runner: what is recorded as applied is always a prefix of the sorted migrations. */
module Migrations {
  import opened Optional
  import opened Sequences

  datatype Migration<!S> = Migration(version: string, up: S -> S, down: Option<S -> S>)

  // ---------- the order of versions ----------

  /** String comparison, character by character. */
  predicate Less(a: string, b: string) {
    b != [] && (a == [] || a[0] < b[0] || (a[0] == b[0] && Less(a[1..], b[1..])))
  }

  /** The strings agree before position i, and there a ends or has the smaller character. */
  predicate DiffersAt(a: string, b: string, i: nat) {
    i <= |a| && i < |b| && a[..i] == b[..i] && (i < |a| ==> a[i] < b[i])
  }

  /** One string comes before another exactly when it does so at the first position where they differ. */
  lemma {:induction false} LessTheorem(a: string, b: string)
    ensures Less(a, b) <==> exists i: nat :: DiffersAt(a, b, i)
  {
    if a == [] || b == [] || a[0] < b[0] {
      assert DiffersAt(a, b, 0) <==> Less(a, b);
    } else if a[0] == b[0] {
      LessTheorem(a[1..], b[1..]);
      if i: nat :| DiffersAt(a, b, i) {
        assert i > 0 && a[1..][..i - 1] == a[..i][1..] && b[1..][..i - 1] == b[..i][1..];
        assert DiffersAt(a[1..], b[1..], i - 1);
      }
      if i: nat :| DiffersAt(a[1..], b[1..], i) {
        assert a[..i + 1] == [a[0]] + a[1..][..i] && b[..i + 1] == [b[0]] + b[1..][..i];
        assert DiffersAt(a, b, i + 1);
      }
    }
  }

  lemma {:induction false} LessTotal(a: string, b: string)
    ensures a == b || Less(a, b) || Less(b, a)
    ensures !(Less(a, b) && Less(b, a)) && (Less(a, b) ==> a != b)
  {
    if a != [] && b != [] {
      LessTotal(a[1..], b[1..]);
      assert a == [a[0]] + a[1..] && b == [b[0]] + b[1..];
    }
  }

  lemma {:induction false} LessTransitive(a: string, b: string, c: string)
    requires Less(a, b) && Less(b, c)
    ensures Less(a, c)
  {
    if a != [] && a[0] == b[0] == c[0] {
      LessTransitive(a[1..], b[1..], c[1..]);
    }
  }

  ghost predicate Ascending(vs: seq<string>) {
    forall i, j :: 0 <= i < j < |vs| ==> Less(vs[i], vs[j])
  }

  /** In ascending order, repetitions allowed. */
  ghost predicate Sorted(vs: seq<string>) {
    forall i, j :: 0 <= i < j < |vs| ==> !Less(vs[j], vs[i])
  }

  lemma AscendingDistinct(vs: seq<string>)
    requires Ascending(vs)
    ensures Distinct(vs)
  {
    forall i, j | 0 <= i < j < |vs| ensures vs[i] != vs[j] { LessTotal(vs[i], vs[j]); }
  }

  lemma SortedDistinct(vs: seq<string>)
    requires Sorted(vs) && Distinct(vs)
    ensures Ascending(vs)
  {
    forall i, j | 0 <= i < j < |vs| ensures Less(vs[i], vs[j]) { LessTotal(vs[i], vs[j]); }
  }

  lemma NotLessTransitive(a: string, b: string, c: string)
    requires !Less(b, a) && !Less(c, b)
    ensures !Less(c, a)
  {
    LessTotal(a, b);
    LessTotal(b, c);
    LessTotal(a, c);
    if Less(a, b) && Less(b, c) {
      LessTransitive(a, b, c);
    }
  }

  /** There is only one way to sort. */
  lemma {:induction false} AscendingUnique(a: seq<string>, b: seq<string>)
    requires Ascending(a) && Ascending(b) && Elems(a) == Elems(b)
    ensures a == b
  {
    AscendingDistinct(a);
    AscendingDistinct(b);
    DistinctSize(a);
    DistinctSize(b);
    if a != [] {
      var k := |a| - 1;
      SameGreatest(a, b);
      WithoutLast(a);
      WithoutLast(b);
      AscendingUnique(a[..k], b[..k]);
      assert a == a[..k] + [a[k]] && b == b[..k] + [b[k]];
    }
  }

  lemma SameGreatest(a: seq<string>, b: seq<string>)
    requires Ascending(a) && Ascending(b) && Elems(a) == Elems(b) && |a| == |b| > 0
    ensures a[|a| - 1] == b[|b| - 1]
  {
    var x, y := a[|a| - 1], b[|b| - 1];
    assert x in Elems(b) && y in Elems(a);
    var i :| 0 <= i < |b| && b[i] == x;
    var j :| 0 <= j < |a| && a[j] == y;
    LessTotal(x, y);
  }

  lemma WithoutLast(vs: seq<string>)
    requires Distinct(vs) && vs != []
    ensures Elems(vs[..|vs| - 1]) == Elems(vs) - {vs[|vs| - 1]}
  {
    assert vs == vs[..|vs| - 1] + [vs[|vs| - 1]];
  }

  function Versions<S>(ms: seq<Migration<S>>): (vs: seq<string>)
    ensures |vs| == |ms| && forall i :: 0 <= i < |vs| ==> vs[i] == ms[i].version
  {
    seq(|ms|, i requires 0 <= i < |ms| => ms[i].version)
  }

  /** sort.Slice: the same migrations in ascending order of their versions. */
  method SortByVersion<S>(ms: seq<Migration<S>>) returns (r: seq<Migration<S>>)
    ensures Sorted(Versions(r)) && Elems(r) == Elems(ms)
    ensures multiset(Versions(r)) == multiset(Versions(ms))
    ensures Distinct(Versions(ms)) ==> Ascending(Versions(r))
  {
    r := [];
    for i := 0 to |ms|
      invariant Sorted(Versions(r)) && Elems(r) == Elems(ms[..i])
      invariant multiset(Versions(r)) == multiset(Versions(ms)[..i])
    {
      var k := |r|;
      while k > 0 && Less(ms[i].version, r[k - 1].version)
        invariant 0 <= k <= |r|
        invariant forall j :: k <= j < |r| ==> Less(ms[i].version, r[j].version)
      {
        k := k - 1;
      }
      assert ms[..i + 1] == ms[..i] + [ms[i]];
      assert Versions(ms)[..i + 1] == Versions(ms)[..i] + [ms[i].version];
      InsertSorted(r, k, ms[i]);
      r := r[..k] + [ms[i]] + r[k..];
    }
    assert ms[..|ms|] == ms && Versions(ms)[..|ms|] == Versions(ms);
    if Distinct(Versions(ms)) {
      DistinctPermuted(Versions(ms), Versions(r));
      SortedDistinct(Versions(r));
    }
  }

  lemma InsertSorted<S>(r: seq<Migration<S>>, k: nat, m: Migration<S>)
    requires Sorted(Versions(r)) && k <= |r|
    requires k > 0 ==> !Less(m.version, r[k - 1].version)
    requires forall j :: k <= j < |r| ==> Less(m.version, r[j].version)
    ensures var longer := r[..k] + [m] + r[k..];
            && Sorted(Versions(longer)) && Elems(longer) == Elems(r) + {m}
            && multiset(Versions(longer)) == multiset(Versions(r)) + multiset{m.version}
  {
    Grown(r, k, m);
    VersionsInsert(r, k, m);
    SortedInsert(Versions(r), k, m.version);
    OneMore(Versions(r), k, m.version);
  }

  lemma VersionsInsert<S>(r: seq<Migration<S>>, k: nat, m: Migration<S>)
    requires k <= |r|
    ensures Versions(r[..k] + [m] + r[k..]) == Versions(r)[..k] + [m.version] + Versions(r)[k..]
  {
  }

  lemma OneMore(vs: seq<string>, k: nat, v: string)
    requires k <= |vs|
    ensures multiset(vs[..k] + [v] + vs[k..]) == multiset(vs) + multiset{v}
  {
    assert vs == vs[..k] + vs[k..];
  }

  lemma SortedInsert(vs: seq<string>, k: nat, v: string)
    requires Sorted(vs) && k <= |vs| && (k > 0 ==> !Less(v, vs[k - 1]))
    requires forall j :: k <= j < |vs| ==> Less(v, vs[j])
    ensures Sorted(vs[..k] + [v] + vs[k..])
  {
    var r := vs[..k] + [v] + vs[k..];
    forall j | 0 <= j < k ensures !Less(v, vs[j]) {
      if j < k - 1 { NotLessTransitive(vs[j], vs[k - 1], v); }
    }
    forall j | k <= j < |vs| ensures !Less(vs[j], v) { LessTotal(v, vs[j]); }
    forall i, j | 0 <= i < j < |r| ensures !Less(r[j], r[i]) {
      InsertedAt(vs, k, v, i);
      InsertedAt(vs, k, v, j);
    }
  }

  /** A permutation of distinct versions is distinct. */
  lemma DistinctPermuted(a: seq<string>, b: seq<string>)
    requires Distinct(a) && multiset(a) == multiset(b)
    ensures Distinct(b)
  {
    forall i, j | 0 <= i < j < |b| ensures b[i] != b[j] {
      if b[i] == b[j] {
        AtMostOne(a, b[i]);
        AtLeastTwo(b, i, j);
      }
    }
  }

  lemma {:induction false} AtMostOne(a: seq<string>, v: string)
    requires Distinct(a)
    ensures multiset(a)[v] <= 1
  {
    if a != [] {
      var k := |a| - 1;
      AtMostOne(a[..k], v);
      assert a == a[..k] + [a[k]];
      assert v == a[k] ==> v !in a[..k];
    }
  }

  lemma AtLeastTwo(b: seq<string>, i: nat, j: nat)
    requires i < j < |b| && b[i] == b[j]
    ensures multiset(b)[b[i]] >= 2
  {
    assert b == b[..j] + [b[j]] + b[j + 1..];
    assert b[..j][i] == b[i] && b[i] in b[..j];
  }

  // ---------- the runner ----------

  /** The schema after applying migrations in order. */
  function Compose<S>(initial: S, ms: seq<Migration<S>>): S {
    if ms == [] then initial else ms[|ms| - 1].up(Compose(initial, ms[..|ms| - 1]))
  }

  /** The schema after taking back migrations, the last one first. */
  function Undone<S>(schema: S, ms: seq<Migration<S>>): S
    requires forall m :: m in ms ==> m.down.Some?
  {
    if ms == [] then schema else
      var k := |ms| - 1;
      assert ms[k] in ms;
      Undone(ms[k].down.value(schema), ms[..k])
  }

  lemma {:induction false} UndoneCons<S>(schema: S, m: Migration<S>, ms: seq<Migration<S>>)
    requires m.down.Some? && forall x :: x in ms ==> x.down.Some?
    ensures (forall x :: x in [m] + ms ==> x.down.Some?)
    ensures Undone(schema, [m] + ms) == m.down.value(Undone(schema, ms))
    decreases |ms|
  {
    if ms == [] {
      assert [m] + ms == [m] && [m][..0] == [];
      assert Undone(m.down.value(schema), []) == m.down.value(schema);
    } else {
      var k := |ms| - 1;
      assert ms[k] in ms && forall x :: x in ms[..k] ==> x in ms;
      UndoneCons(ms[k].down.value(schema), m, ms[..k]);
      assert ([m] + ms)[k + 1] == ms[k] && ([m] + ms)[..k + 1] == [m] + ms[..k];
    }
  }

  ghost predicate Undoes<S(!new)>(m: Migration<S>) {
    m.down.Some? ==> forall s :: m.down.value(m.up(s)) == s
  }

  ghost predicate AllUndo<S(!new)>(ms: seq<Migration<S>>) {
    forall m :: m in ms ==> Undoes(m)
  }

  ghost predicate Sorting<S>(ms: seq<Migration<S>>, sorted: seq<Migration<S>>) {
    Distinct(Versions(ms)) && Ascending(Versions(sorted)) && Elems(sorted) == Elems(ms)
  }

  class Migrator<S(!new)> {
    const migrations: seq<Migration<S>>
    const initial: S
    var schema: S
    var records: set<string>  // the versions in the schema_migrations table

    ghost const sorted: seq<Migration<S>>
    ghost var pos: nat        // how many of the sorted migrations are applied

    /** The records are the versions of a prefix of the sorted migrations, and the schema, if every
        Down undoes its Up, is the composition of that prefix. */
    ghost predicate Valid()
      reads this
    {
      && Sorting(migrations, sorted)
      && pos <= |sorted| && records == Elems(Versions(sorted)[..pos])
      && (AllUndo(migrations) ==> schema == Compose(initial, sorted[..pos]))
    }

    constructor (migrations: seq<Migration<S>>, schema: S)
      requires Distinct(Versions(migrations))
      ensures Valid() && pos == 0 && this.migrations == migrations && initial == schema
    {
      var order := SortByVersion(migrations);
      this.migrations, this.schema, this.initial, records := migrations, schema, schema, {};
      sorted, pos := order, 0;
    }

    /** Index k of the sorted migrations is applied exactly when it is below pos. */
    lemma AppliedAt(k: nat)
      requires Valid() && k < |sorted|
      ensures sorted[k].version in records <==> k < pos
    {
      var vs := Versions(sorted);
      AscendingDistinct(vs);
      if k < pos {
        assert vs[..pos][k] == sorted[k].version;
      }
    }

    /** One migration up, in a transaction: its record must be new, and on failure nothing has
        changed. The next one in order extends the applied prefix. */
    method ApplyUp(m: Migration<S>, failing: set<string>) returns (err: bool)
      modifies this`schema, this`records, this`pos
      ensures err <==> m.version in failing || m.version in old(records)
      ensures err ==> schema == old(schema) && records == old(records) && pos == old(pos)
      ensures !err ==> schema == m.up(old(schema)) && records == old(records) + {m.version}
      ensures old(Valid()) && old(pos) < |sorted| && m == sorted[old(pos)] ==>
                Valid() && err == (m.version in failing) && pos == if err then old(pos) else old(pos) + 1
    {
      ghost var next := Valid() && pos < |sorted| && m == sorted[pos];
      if next {
        AppliedAt(pos);
        NextUp(m);
      }
      if m.version in failing || m.version in records {
        return true;
      }
      schema := m.up(schema);
      records := records + {m.version};
      if next {
        pos := pos + 1;
      }
      return false;
    }

    lemma NextUp(m: Migration<S>)
      requires Valid() && pos < |sorted| && m == sorted[pos]
      ensures Compose(initial, sorted[..pos + 1]) == m.up(Compose(initial, sorted[..pos]))
      ensures Elems(Versions(sorted)[..pos + 1]) == Elems(Versions(sorted)[..pos]) + {m.version}
    {
      assert sorted[..pos + 1][..pos] == sorted[..pos];
      assert Versions(sorted)[..pos + 1] == Versions(sorted)[..pos] + [m.version];
    }

    /** One migration down, in a transaction. The last one applied shortens the prefix. */
    method ApplyDown(m: Migration<S>, failing: set<string>) returns (err: bool)
      requires m.down.Some?
      modifies this`schema, this`records, this`pos
      ensures err <==> m.version in failing
      ensures err ==> schema == old(schema) && records == old(records) && pos == old(pos)
      ensures !err ==> schema == m.down.value(old(schema)) && records == old(records) - {m.version}
      ensures old(Valid()) && 0 < old(pos) && m == sorted[old(pos) - 1] ==>
                Valid() && pos == if err then old(pos) else old(pos) - 1
    {
      if m.version in failing {
        return true;
      }
      ghost var last := Valid() && 0 < pos && m == sorted[pos - 1];
      if last {
        LastDown(m);
      }
      schema := m.down.value(schema);
      records := records - {m.version};
      if last {
        pos := pos - 1;
      }
      return false;
    }

    lemma LastDown(m: Migration<S>)
      requires Valid() && 0 < pos && m == sorted[pos - 1] && m.down.Some?
      ensures AllUndo(migrations) ==> m.down.value(schema) == Compose(initial, sorted[..pos - 1])
      ensures records - {m.version} == Elems(Versions(sorted)[..pos - 1])
    {
      var k := pos - 1;
      assert m in Elems(sorted) && m in migrations;
      AppliedAt(k);
      AscendingDistinct(Versions(sorted));
      assert sorted[..pos][..k] == sorted[..k];
      assert Versions(sorted)[..pos] == Versions(sorted)[..k] + [m.version];
      assert m.version !in Versions(sorted)[..k];
    }

    /** The sorted migrations from index from up to i, if there are any. */
    ghost function Stretch(from: nat, i: nat): seq<Migration<S>>
      requires i <= |sorted|
    {
      if i <= from then [] else sorted[from..i]
    }

    lemma StretchOneMore(from: nat, i: nat)
      requires i < |sorted|
      ensures Stretch(from, i + 1) == if i < from then [] else Stretch(from, i) + [sorted[i]]
    {
    }

    /** getPendingMigrations: the sorted migrations without a record. */
    method GetPending() returns (pending: seq<Migration<S>>)
      requires Valid()
      ensures pending == sorted[pos..]
    {
      var order := SortByVersion(migrations);
      SameOrder(order);
      pending := [];
      for i := 0 to |order|
        invariant pending == Stretch(pos, i)
      {
        AppliedAt(i);
        StretchOneMore(pos, i);
        if order[i].version !in records {
          pending := pending + [order[i]];
        }
      }
    }

    lemma SameOrder(order: seq<Migration<S>>)
      requires Valid() && Ascending(Versions(order)) && Elems(order) == Elems(migrations)
      ensures order == sorted
    {
      AscendingDistinct(Versions(order));
      AscendingDistinct(Versions(sorted));
      forall v ensures v in Versions(order) <==> v in Versions(sorted) {
        VersionsHave(order, v);
        VersionsHave(sorted, v);
      }
      AscendingUnique(Versions(order), Versions(sorted));
      forall i | 0 <= i < |order| ensures order[i] == sorted[i] {
        assert order[i] in Elems(order);
        var j :| 0 <= j < |sorted| && sorted[j] == order[i];
        assert Versions(sorted)[j] == Versions(order)[i] == Versions(sorted)[i];
      }
    }

    lemma VersionsHave(ms: seq<Migration<S>>, v: string)
      ensures v in Versions(ms) <==> exists m :: m in Elems(ms) && m.version == v
    {
      if m :| m in Elems(ms) && m.version == v {
        var i :| 0 <= i < |ms| && ms[i] == m;
        assert Versions(ms)[i] == v;
      }
      if v in Versions(ms) {
        var i :| 0 <= i < |ms| && Versions(ms)[i] == v;
        assert ms[i] in Elems(ms);
      }
    }

    /** None of the sorted migrations from lo up to hi fails. */
    ghost predicate Succeed(lo: nat, hi: nat, failing: set<string>) {
      hi <= |sorted| && forall i :: lo <= i < hi ==> sorted[i].version !in failing
    }

    ghost predicate NoneIs(lo: nat, hi: int, version: string) {
      hi <= |sorted| && forall i :: lo <= i < hi ==> sorted[i].version != version
    }

    /** Applying the sorted migrations from one index up to another makes s of the schema. */
    ghost predicate Reaches(before: S, from: nat, to: nat, s: S) {
      from <= to <= |sorted| && s == Compose(before, sorted[from..to])
    }

    lemma ReachesNext(before: S, from: nat, to: nat, s: S)
      requires Reaches(before, from, to, s) && to < |sorted|
      ensures Reaches(before, from, to + 1, sorted[to].up(s))
    {
      assert sorted[from..to + 1][..to - from] == sorted[from..to];
    }

    /** The loop body of Up and UpTo: applies the next pending migration. */
    method ApplyNext(m: Migration<S>, failing: set<string>, ghost before: S, ghost from: nat) returns (err: bool)
      requires Valid() && pos < |sorted| && m == sorted[pos] && Reaches(before, from, pos, schema)
      modifies this`schema, this`records, this`pos
      ensures Valid() && err == (sorted[old(pos)].version in failing)
      ensures pos == if err then old(pos) else old(pos) + 1
      ensures Reaches(before, from, pos, schema)
    {
      ReachesNext(before, from, pos, schema);
      err := ApplyUp(m, failing);
    }

    lemma SucceedMore(from: nat, to: nat, failing: set<string>)
      requires from <= to < |sorted| && Succeed(from, to, failing) && sorted[to].version !in failing
      ensures Succeed(from, to + 1, failing)
    {
    }

    /** Up: applies pending migrations in order and stops at the first that fails. */
    method Up(failing: set<string>) returns (err: bool)
      requires Valid()
      modifies this`schema, this`records, this`pos
      ensures Valid() && old(pos) <= pos && Succeed(old(pos), pos, failing)
      ensures if err then pos < |sorted| && sorted[pos].version in failing else pos == |sorted|
      ensures Reaches(old(schema), old(pos), pos, schema)
    {
      var pending := GetPending();
      ghost var from, before := pos, schema;
      for i := 0 to |pending|
        invariant Valid() && pos == from + i && Succeed(from, pos, failing) && Reaches(before, from, pos, schema)
      {
        assert pending[i] == sorted[pos];
        ghost var to := pos;
        err := ApplyNext(pending[i], failing, before, from);
        if err {
          return;
        }
        SucceedMore(from, to, failing);
      }
      return false;
    }

    /** UpTo's outcome: it gets past migrations that succeed, none of them but the last the one asked
        for, and stops in front of one that fails, behind the one asked for, or at the end. */
    ghost predicate UpToEnds(from: nat, to: nat, version: string, failing: set<string>, err: bool) {
      && from <= to && Succeed(from, to, failing) && NoneIs(from, to - 1, version)
      && (if err then to < |sorted| && sorted[to].version in failing && NoneIs(from, to, version)
          else to == |sorted| || (from < to && sorted[to - 1].version == version))
    }

    /** UpTo: like Up, but stops after the given version, if that version was pending. If it was
        not, because it is applied already or not registered, everything pending is applied. */
    method UpTo(version: string, failing: set<string>) returns (err: bool)
      requires Valid()
      modifies this`schema, this`records, this`pos
      ensures Valid() && UpToEnds(old(pos), pos, version, failing, err)
      ensures Reaches(old(schema), old(pos), pos, schema)
    {
      var pending := GetPending();
      ghost var from, before := pos, schema;
      for i := 0 to |pending|
        invariant Valid() && pos == from + i && UpToPassed(from, pos, version, failing)
        invariant Reaches(before, from, pos, schema)
      {
        UpToStep(from, pos, version, failing);
        assert pending[i] == sorted[pos];
        err := ApplyNext(pending[i], failing, before, from);
        if err {
          return;
        }
        if pending[i].version == version {
          break;
        }
      }
      return false;
    }

    ghost predicate UpToPassed(from: nat, to: nat, version: string, failing: set<string>) {
      from <= to && Succeed(from, to, failing) && NoneIs(from, to, version)
    }

    /** What one more migration makes of UpTo's loop. */
    lemma UpToStep(from: nat, to: nat, version: string, failing: set<string>)
      requires UpToPassed(from, to, version, failing) && to < |sorted|
      ensures if sorted[to].version in failing then UpToEnds(from, to, version, failing, true)
              else if sorted[to].version == version then UpToEnds(from, to + 1, version, failing, false)
              else UpToPassed(from, to + 1, version, failing)
    {
    }

    method FindMigration(version: string) returns (m: Option<Migration<S>>)
      ensures m.None? ==> forall x :: x in migrations ==> x.version != version
      ensures m.Some? ==> m.value in migrations && m.value.version == version
    {
      for i := 0 to |migrations|
        invariant forall j :: 0 <= j < i ==> migrations[j].version != version
      {
        if migrations[i].version == version {
          return Some(migrations[i]);
        }
      }
      return None;
    }

    /** The versions of the first n sorted migrations, last one first. */
    ghost predicate Descends(versions: seq<string>, n: nat) {
      |versions| == n <= |sorted| && forall i :: 0 <= i < n ==> versions[i] == sorted[n - 1 - i].version
    }

    lemma DescendsOneMore(versions: seq<string>, n: nat)
      requires Descends(versions, n) && n < |sorted|
      ensures Descends([sorted[n].version] + versions, n + 1)
    {
    }

    /** getAppliedRecords, sorted by descending version. */
    method AppliedDescending() returns (applied: seq<string>)
      requires Valid()
      ensures Descends(applied, pos)
    {
      var order := SortByVersion(migrations);
      SameOrder(order);
      applied := [];
      for i := 0 to |order|
        invariant Descends(applied, if i <= pos then i else pos)
      {
        AppliedAt(i);
        if order[i].version in records {
          DescendsOneMore(applied, i);
          applied := [order[i].version] + applied;
        }
      }
    }

    /** The sorted migrations from lo up to hi can be taken back. */
    ghost predicate CanGo(lo: nat, hi: nat, failing: set<string>) {
      hi <= |sorted| && forall i :: lo <= i < hi ==> sorted[i].down.Some? && sorted[i].version !in failing
    }

    ghost predicate AllDown(lo: nat, hi: nat) {
      lo <= hi <= |sorted| && forall m :: m in sorted[lo..hi] ==> m.down.Some?
    }

    lemma TakenBack(before: S, lo: nat, hi: nat)
      requires 0 < lo && AllDown(lo, hi) && sorted[lo - 1].down.Some?
      ensures AllDown(lo - 1, hi)
      ensures Undone(before, sorted[lo - 1..hi]) == sorted[lo - 1].down.value(Undone(before, sorted[lo..hi]))
    {
      UndoneCons(before, sorted[lo - 1], sorted[lo..hi]);
      assert sorted[lo - 1..hi] == [sorted[lo - 1]] + sorted[lo..hi];
    }

    /** Down: takes back the last applied migrations, newest first, at least one and at most as many
        as there are. It stops with an error at a migration without a Down or whose Down fails. */
    method Down(steps: int, failing: set<string>) returns (err: bool)
      requires Valid()
      modifies this`schema, this`records, this`pos
      ensures Valid() && pos <= old(pos) && CanGo(pos, old(pos), failing)
      ensures var wanted := if steps <= 0 then 1 else steps;
              if err then old(pos) - pos < wanted && pos > 0 && !CanGo(pos - 1, pos, failing)
              else pos == if wanted <= old(pos) then old(pos) - wanted else 0
      ensures AllDown(pos, old(pos)) && schema == Undone(old(schema), sorted[pos..old(pos)])
    {
      var wanted := if steps <= 0 then 1 else steps;
      var applied := AppliedDescending();
      var count := 0;
      ghost var from, before := pos, schema;
      while count < |applied| && count < wanted
        invariant Valid() && count <= |applied| && count <= wanted
        invariant pos == from - count && CanGo(pos, from, failing)
        invariant AllDown(pos, from) && schema == Undone(before, sorted[pos..from])
      {
        assert applied[count] == sorted[pos - 1].version;
        ghost var top := pos;
        err := TakeBack(applied[count], failing);
        if err {
          return;
        }
        TakenBack(before, top, from);
        count := count + 1;
      }
      return false;
    }

    /** Down's loop body: find the migration of a record, and roll it back. (The lookup of a recorded
        version cannot fail, because every recorded version is registered.) */
    method TakeBack(version: string, failing: set<string>) returns (err: bool)
      requires Valid() && pos > 0 && version == sorted[pos - 1].version
      modifies this`schema, this`records, this`pos
      ensures Valid() && err == !CanGo(old(pos) - 1, old(pos), failing)
      ensures pos == if err then old(pos) else old(pos) - 1
      ensures schema == if err then old(schema) else sorted[old(pos) - 1].down.value(old(schema))
    {
      var found := FindMigration(version);
      FoundIsSorted(pos - 1, found);
      if found.value.down.None? {
        return true;
      }
      err := ApplyDown(found.value, failing);
    }

    /** A recorded version is registered, so looking it up cannot fail. */
    lemma FoundIsSorted(k: nat, found: Option<Migration<S>>)
      requires Valid() && k < |sorted|
      requires found.None? ==> forall x :: x in migrations ==> x.version != sorted[k].version
      requires found.Some? ==> found.value in migrations && found.value.version == sorted[k].version
      ensures found == Some(sorted[k])
    {
      assert sorted[k] in Elems(sorted);
      var i :| 0 <= i < |migrations| && migrations[i] == sorted[k];
      if found.Some? {
        var j :| 0 <= j < |migrations| && migrations[j] == found.value;
        assert Versions(migrations)[i] == Versions(migrations)[j];
      }
    }

    method Reset(failing: set<string>) returns (err: bool)
      requires Valid()
      modifies this`schema, this`records, this`pos
      ensures Valid() && pos <= old(pos)
      ensures !err ==> pos == 0 && records == {}
      ensures !err && AllUndo(migrations) ==> schema == initial
      ensures AllDown(pos, old(pos)) && schema == Undone(old(schema), sorted[pos..old(pos)])
      ensures CanGo(pos, old(pos), failing) && (err ==> pos > 0 && !CanGo(pos - 1, pos, failing))
    {
      var applied := AppliedDescending();
      err := Down(|applied|, failing);
    }
  }
}
