/** The in-process lock with tokens, expiry and renewal. */
module MemoryLock {

  // A lock object's identity: its name, its own token, and how long an acquisition lasts.
  datatype LockId = LockId(name: string, token: string, ttl: int)

  datatype Held = Held(token: string, expireAt: int)

  /** The shared registry, and the tokens of the lock objects whose `locked` flag is set. */
  datatype World = World(registry: map<string, Held>, locked: set<string>)

  predicate Acquires(w: World, l: LockId, now: int) {
    !(l.name in w.registry && w.registry[l.name].expireAt > now)
  }

  predicate Holds(w: World, l: LockId) {
    l.name in w.registry && w.registry[l.name].token == l.token
  }

  function Tried(w: World, l: LockId, now: int): World {
    if Acquires(w, l, now) then
      World(w.registry[l.name := Held(l.token, now + l.ttl)], w.locked + {l.token})
    else w
  }

  function Unlocked(w: World, l: LockId): World {
    if l.token !in w.locked then w
    else World(if Holds(w, l) then w.registry - {l.name} else w.registry, w.locked - {l.token})
  }

  function Renewed(w: World, l: LockId, now: int): World {
    if Holds(w, l) then w.(registry := w.registry[l.name := Held(l.token, now + l.ttl)]) else w
  }

  // ---------- the objects ----------

  class LockEntry {
    const value: string
    var expireAt: int

    constructor (value: string, expireAt: int)
      ensures this.value == value && this.expireAt == expireAt
    {
      this.value, this.expireAt := value, expireAt;
    }
  }

  class Registry {
    var memLocks: map<string, LockEntry>

    constructor ()
      ensures memLocks == map[]
    {
      memLocks := map[];
    }

    ghost predicate Valid()
      reads this
    {
      forall m, n :: m in memLocks && n in memLocks && m != n ==> memLocks[m] != memLocks[n]
    }

    ghost function View(): map<string, Held>
      reads this, memLocks.Values
    {
      map n | n in memLocks :: Held(memLocks[n].value, memLocks[n].expireAt)
    }
  }

  class MemoryLock {
    const id: LockId
    var locked: bool

    constructor (id: LockId)
      ensures this.id == id && !locked
    {
      this.id, locked := id, false;
    }

    ghost function View(reg: Registry): World
      reads this, reg, reg.memLocks.Values
    {
      World(reg.View(), if locked then {id.token} else {})
    }

    method TryLock(reg: Registry, now: int) returns (ok: bool)
      requires reg.Valid()
      modifies this`locked, reg
      ensures reg.Valid() && View(reg) == Tried(old(View(reg)), id, now)
      ensures ok == Acquires(old(View(reg)), id, now)
    {
      if id.name in reg.memLocks && reg.memLocks[id.name].expireAt > now {
        return false;
      }
      var entry := new LockEntry(id.token, now + id.ttl);
      reg.memLocks := reg.memLocks[id.name := entry];
      locked := true;
      return true;
    }

    method Unlock(reg: Registry)
      requires reg.Valid()
      modifies this`locked, reg
      ensures reg.Valid() && View(reg) == Unlocked(old(View(reg)), id)
    {
      if !locked {
        return;
      }
      locked := false;
      if id.name in reg.memLocks && reg.memLocks[id.name].value == id.token {
        reg.memLocks := reg.memLocks - {id.name};
      }
    }

    /** One tick of the renewal goroutine. */
    method Renew(reg: Registry, now: int)
      requires reg.Valid()
      modifies reg.memLocks.Values
      ensures reg.Valid() && View(reg) == Renewed(old(View(reg)), id, now)
    {
      if id.name in reg.memLocks && reg.memLocks[id.name].value == id.token {
        reg.memLocks[id.name].expireAt := now + id.ttl;
      }
    }
  }

  // ---------- histories ----------

  datatype Event =
    | TryLock(l: LockId, at: int)
    | Unlock(l: LockId, at: int)
    | Renew(l: LockId, at: int)

  function After(w: World, e: Event): World {
    match e
    case TryLock(l, at) => Tried(w, l, at)
    case Unlock(l, _) => Unlocked(w, l)
    case Renew(l, at) => Renewed(w, l, at)
  }

  function Run(es: seq<Event>): World {
    if es == [] then World(map[], {}) else After(Run(es[..|es| - 1]), es[|es| - 1])
  }

  /** No two lock objects share a token. */
  ghost predicate TokensUnique(es: seq<Event>) {
    forall i, j :: 0 <= i < |es| && 0 <= j < |es| && es[i].l.token == es[j].l.token ==> es[i].l == es[j].l
  }

  /** Event i is a successful acquisition. */
  ghost predicate Acquired(es: seq<Event>, i: nat)
    requires i < |es|
  {
    es[i].TryLock? && Acquires(Run(es[..i]), es[i].l, es[i].at)
  }

  /** The holder from event i unlocked before event j. */
  ghost predicate Released(es: seq<Event>, i: nat, j: nat)
    requires i < j <= |es|
  {
    exists m :: i < m < j && es[m].Unlock? && es[m].l == es[i].l
  }

  /** The expiry last recorded for the holder from event i, its renewals before event j included. */
  ghost function LastExpiry(es: seq<Event>, i: nat, j: nat): int
    requires i < j <= |es|
  {
    if j == i + 1 then es[i].at + es[i].l.ttl
    else if es[j - 1].Renew? && es[j - 1].l == es[i].l then es[j - 1].at + es[i].l.ttl
    else LastExpiry(es, i, j - 1)
  }

  ghost predicate NoneBetween(es: seq<Event>, i: nat, j: nat)
    requires i < j <= |es|
  {
    forall m :: i < m < j && es[m].l.name == es[i].l.name ==> !Acquired(es, m)
  }

  /** One event while l holds its name: unless l unlocks, the entry stays, and only l's renewal moves
      its expiry. */
  lemma StepHeld(w: World, l: LockId, expireAt: int, e: Event)
    requires l.name in w.registry && w.registry[l.name] == Held(l.token, expireAt) && l.token in w.locked
    requires e.l.token == l.token ==> e.l == l
    requires e.TryLock? && e.l.name == l.name ==> !Acquires(w, e.l, e.at)
    ensures var w' := After(w, e);
            if e.Unlock? && e.l == l then l.name !in w'.registry
            else l.name in w'.registry && l.token in w'.locked &&
                 w'.registry[l.name] == Held(l.token, if e.Renew? && e.l == l then e.at + l.ttl else expireAt)
  {
  }

  lemma StepFree(w: World, name: string, e: Event)
    requires name !in w.registry
    requires e.TryLock? && e.l.name == name ==> !Acquires(w, e.l, e.at)
    ensures name !in After(w, e).registry
  {
  }

  lemma ReleasedStep(es: seq<Event>, i: nat, j: nat)
    requires i + 1 < j <= |es|
    ensures Released(es, i, j) <==> Released(es, i, j - 1) || (es[j - 1].Unlock? && es[j - 1].l == es[i].l)
  {
  }

  /** Between an acquisition and the next one, the registry holds exactly the acquirer's entry with
      its last recorded expiry, until the acquirer unlocks, and nothing from then on. */
  lemma {:induction false} EntryBetween(es: seq<Event>, i: nat, j: nat)
    requires TokensUnique(es) && i < j <= |es| && Acquired(es, i) && NoneBetween(es, i, j)
    ensures var l := es[i].l; var w := Run(es[..j]);
            if Released(es, i, j) then l.name !in w.registry
            else l.name in w.registry && l.token in w.locked &&
                 w.registry[l.name] == Held(l.token, LastExpiry(es, i, j))
  {
    var k := j - 1;
    assert es[..j][..k] == es[..k] && es[..j][k] == es[k];
    if k > i {
      EntryBetween(es, i, k);
      ReleasedStep(es, i, j);
      assert es[k].l.name == es[i].l.name ==> !Acquired(es, k);
      if Released(es, i, k) {
        StepFree(Run(es[..k]), es[i].l.name, es[k]);
      } else {
        StepHeld(Run(es[..k]), es[i].l, LastExpiry(es, i, k), es[k]);
      }
    }
  }

  /** A lock that is taken is acquired again if and only if its holder has unlocked since, or its
      last recorded expiry has been reached. */
  lemma ReacquireTheorem(es: seq<Event>, i: nat, j: nat)
    requires TokensUnique(es) && i < j < |es| && Acquired(es, i) && NoneBetween(es, i, j)
    requires es[j].TryLock? && es[j].l.name == es[i].l.name
    ensures Acquired(es, j) <==> Released(es, i, j) || es[j].at >= LastExpiry(es, i, j)
  {
    EntryBetween(es, i, j);
  }

  /** A name that nobody has acquired is free. */
  lemma {:induction false} FirstAcquire(es: seq<Event>, j: nat)
    requires j < |es| && es[j].TryLock?
    requires forall m :: 0 <= m < j && es[m].l.name == es[j].l.name ==> !Acquired(es, m)
    ensures Acquired(es, j)
  {
    NeverHeld(es, es[j].l.name, j);
  }

  lemma {:induction false} NeverHeld(es: seq<Event>, name: string, j: nat)
    requires j <= |es| && forall m :: 0 <= m < j && es[m].l.name == name ==> !Acquired(es, m)
    ensures name !in Run(es[..j]).registry
  {
    if j > 0 {
      var k := j - 1;
      NeverHeld(es, name, k);
      assert es[..j][..k] == es[..k] && es[..j][k] == es[k];
      assert es[k].l.name == name ==> !Acquired(es, k);
    }
  }
}
