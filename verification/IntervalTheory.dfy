/** The interval limiter with its attempts overlapping: every attempt checks the key and, when the check
    lets it through, marks the key in a second call of the cache, with anything in between. */
module IntervalTheory {
  import opened CacheLimiter
  import opened LruCache

  type OtherOp = op: Op | !op.Attempt? witness Cleanup(0)

  // Attempt h reads the key, or stores the mark; the others use the cache for other keys.
  datatype Step = Check(h: nat, at: nat) | Mark(h: nat, at: nat) | Use(op: OtherOp)

  function At(s: Step): nat {
    if s.Use? then s.op.now else s.at
  }

  function Clock(steps: seq<Step>): nat {
    if steps == [] then 0 else At(steps[|steps| - 1])
  }

  datatype Setting = Setting(start: seq<Entry>, capacity: int, key: string, window: int)

  function After(g: Setting, c: seq<Entry>, s: Step): seq<Entry> {
    match s
    case Check(_, now) => Touch(c, g.key, now)
    case Mark(_, now) => Put(c, g.capacity, Entry(g.key, MARK, Deadline(g.window, now)))
    case Use(op) => Foreign(c, g.capacity, op)
  }

  function Run(g: Setting, steps: seq<Step>): seq<Entry> {
    if steps == [] then g.start else After(g, Run(g, steps[..|steps| - 1]), steps[|steps| - 1])
  }

  /** The check at i let its attempt through. */
  ghost predicate Granted(g: Setting, steps: seq<Step>, i: int) {
    0 <= i < |steps| && steps[i].Check? && !Live(Run(g, steps[..i]), g.key, steps[i].at)
  }

  /** The attempt checked at i stores its mark at m. */
  ghost predicate Marks(steps: seq<Step>, i: int, m: int) {
    0 <= i < m < |steps| && steps[i].Check? && steps[m].Mark? && steps[i].h == steps[m].h
  }

  /** An attempt checks once, and marks once after a check that let it through. */
  ghost predicate Permitted(g: Setting, steps: seq<Step>, s: Step) {
    match s
    case Check(h, _) => forall n :: 0 <= n < |steps| && steps[n].Check? ==> steps[n].h != h
    case Mark(h, _) =>
      && (exists i :: Granted(g, steps, i) && steps[i].h == h)
      && forall n :: 0 <= n < |steps| && steps[n].Mark? ==> steps[n].h != h
    case Use(op) => !op.Cleanup? ==> op.key != g.key
  }

  /** A run over a cache that does not hold the key yet, on a clock that never goes back. */
  ghost predicate Proper(g: Setting, steps: seq<Step>) {
    if steps == [] then UniqueKeys(g.start) && !HasKey(g.start, g.key) else
      var k := |steps| - 1;
      Proper(g, steps[..k]) && Permitted(g, steps[..k], steps[k]) && Clock(steps[..k]) <= At(steps[k])
  }

  /** Nobody pushes the live mark out of the cache. */
  ghost predicate Undisturbed(g: Setting, steps: seq<Step>) {
    steps == [] ||
    (var k := |steps| - 1;
     && Undisturbed(g, steps[..k])
     && (steps[k].Use? ==> Spares(Run(g, steps[..k]), g.capacity, g.key, steps[k].op)))
  }

  // ---------- prefixes ----------

  lemma GrantedEarlier(g: Setting, steps: seq<Step>, n: nat)
    requires n <= |steps|
    ensures forall i :: Granted(g, steps[..n], i) <==> i < n && Granted(g, steps, i)
  {
    forall i | 0 <= i < n ensures steps[..n][..i] == steps[..i] { }
  }

  lemma {:induction false} ProperEarlier(g: Setting, steps: seq<Step>, n: nat)
    requires n <= |steps| && Proper(g, steps)
    ensures Proper(g, steps[..n]) && (Undisturbed(g, steps) ==> Undisturbed(g, steps[..n]))
  {
    if n == |steps| {
      assert steps[..n] == steps;
    } else {
      assert steps[..|steps| - 1][..n] == steps[..n];
      ProperEarlier(g, steps[..|steps| - 1], n);
    }
  }

  lemma StepPermitted(g: Setting, steps: seq<Step>, n: nat)
    requires n < |steps| && Proper(g, steps)
    ensures Permitted(g, steps[..n], steps[n]) && Clock(steps[..n]) <= At(steps[n])
  {
    assert steps[..n + 1][..n] == steps[..n];
    ProperEarlier(g, steps, n + 1);
  }

  lemma {:induction false} TimesOrdered(g: Setting, steps: seq<Step>, i: nat, j: nat)
    requires Proper(g, steps) && i <= j < |steps|
    ensures At(steps[i]) <= At(steps[j])
    decreases j
  {
    if i < j {
      TimesOrdered(g, steps, i, j - 1);
      StepPermitted(g, steps, j);
    }
  }

  // ---------- the mark in the cache ----------

  ghost predicate LastMark(steps: seq<Step>, m: int) {
    0 <= m < |steps| && steps[m].Mark? && forall n :: m < n < |steps| ==> !steps[n].Mark?
  }

  /** The cache shows the last mark, if there has been one. */
  ghost predicate Stored(g: Setting, c: seq<Entry>, steps: seq<Step>, now: nat) {
    && UniqueKeys(c)
    && if forall n :: 0 <= n < |steps| ==> !steps[n].Mark? then !HasKey(c, g.key)
       else exists m :: LastMark(steps, m) && Shows(c, g.key, MARK, At(steps[m]), g.window, now)
  }

  lemma StoredStep(g: Setting, c: seq<Entry>, steps: seq<Step>, s: Step, earlier: nat)
    requires Stored(g, c, steps, earlier) && earlier <= At(s)
    requires s.Use? ==> Spares(c, g.capacity, g.key, s.op)
    ensures Stored(g, After(g, c, s), steps + [s], At(s))
  {
    var longer := steps + [s];
    match s
    case Check(_, now) =>
      TouchUnique(c, g.key, now);
      TouchOwn(c, g.key, now);
      LastMarkStays(steps, s);
    case Mark(_, now) =>
      var e := Entry(g.key, MARK, Deadline(g.window, now));
      PutUnique(c, g.capacity, e);
      PutOwn(c, g.capacity, e);
      assert LastMark(longer, |steps|);
    case Use(op) =>
      ForeignKeeps(c, g.capacity, g.key, op);
      LastMarkStays(steps, s);
  }

  lemma LastMarkStays(steps: seq<Step>, s: Step)
    requires !s.Mark?
    ensures forall m :: LastMark(steps, m) ==> LastMark(steps + [s], m) && At((steps + [s])[m]) == At(steps[m])
    ensures (forall n :: 0 <= n < |steps| ==> !steps[n].Mark?) ==>
            forall n :: 0 <= n < |steps + [s]| ==> !(steps + [s])[n].Mark?
  {
  }

  lemma TouchOwn(c: seq<Entry>, key: string, now: nat)
    requires UniqueKeys(c)
    ensures HasKey(Touch(c, key, now), key) <==> Live(c, key, now)
    ensures Live(c, key, now) ==> Find(Touch(c, key, now), key) == Find(c, key)
  {
    WithoutSize(c, key);
    if Live(c, key, now) {
      FindCons(Find(c, key), Without(c, key), key);
    }
  }

  lemma {:induction false} StoredRun(g: Setting, steps: seq<Step>)
    requires Proper(g, steps) && Undisturbed(g, steps)
    ensures Stored(g, Run(g, steps), steps, Clock(steps))
  {
    if steps != [] {
      var k := |steps| - 1;
      var earlier := steps[..k];
      StoredRun(g, earlier);
      StoredStep(g, Run(g, earlier), earlier, steps[k], Clock(earlier));
      assert steps == earlier + [steps[k]];
    }
  }

  // ---------- the law ----------

  /** Every mark stored before step i is past its interval; an interval of 0 or less never ends. */
  ghost predicate AllPast(g: Setting, steps: seq<Step>, i: nat)
    requires i < |steps|
  {
    forall m :: 0 <= m < i && steps[m].Mark? ==> g.window > 0 && At(steps[i]) > At(steps[m]) + g.window
  }

  /** In every interleaving, a check lets its attempt through exactly when no mark stored before it is
      within the interval. */
  lemma CheckTheorem(g: Setting, steps: seq<Step>, i: nat)
    requires Proper(g, steps) && Undisturbed(g, steps) && i < |steps| && steps[i].Check?
    ensures Granted(g, steps, i) <==> AllPast(g, steps, i)
  {
    var before := steps[..i];
    ProperEarlier(g, steps, i);
    if before != [] {
      TimesOrdered(g, steps, i - 1, i);
    }
    StoredRun(g, before);
    if m :| LastMark(before, m) && Shows(Run(g, before), g.key, MARK, At(before[m]), g.window, Clock(before)) {
      LastIsLatest(g, steps, i, m);
    } else {
      assert forall n :: 0 <= n < i ==> before[n] == steps[n];
    }
  }

  lemma LastIsLatest(g: Setting, steps: seq<Step>, i: nat, m: nat)
    requires Proper(g, steps) && i <= |steps| && LastMark(steps[..i], m)
    ensures m < i && steps[m] == steps[..i][m]
    ensures forall n :: 0 <= n < i && steps[n].Mark? ==> At(steps[n]) <= At(steps[m])
  {
    forall n | 0 <= n < i && steps[n].Mark? ensures At(steps[n]) <= At(steps[m]) {
      assert steps[..i][n] == steps[n];
      TimesOrdered(g, steps, n, m);
    }
  }

  /** Two granted attempts fall within one interval exactly when the later one's check came before the
      earlier one's mark. */
  lemma RaceTheorem(g: Setting, steps: seq<Step>, i: nat, j: nat, m: nat)
    requires Proper(g, steps) && Undisturbed(g, steps) && i < j && Marks(steps, i, m)
    requires Granted(g, steps, i) && Granted(g, steps, j)
    ensures g.window <= 0 || At(steps[j]) <= At(steps[m]) + g.window <==> j < m
    ensures At(steps[j]) <= At(steps[i]) + g.window ==> j < m
  {
    CheckTheorem(g, steps, j);
    TimesOrdered(g, steps, i, m);
    if j < m {
      TimesOrdered(g, steps, j, m);
    }
  }

  lemma MarksDiffer(g: Setting, steps: seq<Step>, m: nat, n: nat)
    requires Proper(g, steps) && m < n < |steps| && steps[m].Mark? && steps[n].Mark?
    ensures steps[m].h != steps[n].h
  {
    StepPermitted(g, steps, n);
    assert steps[..n][m] == steps[m];
  }

  lemma MarksOnce(g: Setting, steps: seq<Step>, i: nat, m: nat, n: nat)
    requires Proper(g, steps) && Marks(steps, i, m) && Marks(steps, i, n)
    ensures m == n
  {
    if m < n {
      MarksDiffer(g, steps, m, n);
    } else if n < m {
      MarksDiffer(g, steps, n, m);
    }
  }

  lemma MarkedBy(g: Setting, steps: seq<Step>, m: nat) returns (i: nat)
    requires Proper(g, steps) && m < |steps| && steps[m].Mark?
    ensures Granted(g, steps, i) && Marks(steps, i, m)
  {
    StepPermitted(g, steps, m);
    i :| Granted(g, steps[..m], i) && steps[i].h == steps[m].h;
    GrantedEarlier(g, steps, m);
  }

  /** No attempt checks between another's check and its mark. */
  ghost predicate Serial(g: Setting, steps: seq<Step>) {
    forall i, j :: i < j && Granted(g, steps, i) && 0 <= j < |steps| && steps[j].Check? ==>
      exists m :: Marks(steps, i, m) && m < j
  }

  /** Attempts that do not overlap obey the limiter's promise: one is granted exactly when every attempt
      granted before it stored its mark longer than the interval ago. */
  lemma SerialTheorem(g: Setting, steps: seq<Step>, j: nat)
    requires Proper(g, steps) && Undisturbed(g, steps) && Serial(g, steps) && j < |steps| && steps[j].Check?
    ensures Granted(g, steps, j) <==>
            forall i, m :: i < j && Granted(g, steps, i) && Marks(steps, i, m) ==>
              g.window > 0 && At(steps[j]) > At(steps[m]) + g.window
  {
    CheckTheorem(g, steps, j);
    forall i, m | i < j && Granted(g, steps, i) && Marks(steps, i, m) ensures m < j {
      var n :| Marks(steps, i, n) && n < j;
      MarksOnce(g, steps, i, m, n);
    }
    forall m | 0 <= m < j && steps[m].Mark? ensures exists i :: i < j && Granted(g, steps, i) && Marks(steps, i, m) {
      var i := MarkedBy(g, steps, m);
    }
  }

  // ---------- a crowd ----------

  /** n attempts check, and the first m of them then mark, all at one instant. */
  function Crowd(n: nat, m: nat, now: nat): (steps: seq<Step>)
    ensures |steps| == n + m
    ensures forall i :: 0 <= i < n ==> steps[i] == Check(i, now)
    ensures forall i :: 0 <= i < m ==> steps[n + i] == Mark(i, now)
  {
    if m > 0 then Crowd(n, m - 1, now) + [Mark(m - 1, now)]
    else if n > 0 then Crowd(n - 1, 0, now) + [Check(n - 1, now)] else []
  }

  lemma {:induction false} CrowdRun(g: Setting, n: nat, m: nat, now: nat, i: nat)
    requires g.start == [] && i <= n
    ensures Run(g, Crowd(n, m, now)[..i]) == []
  {
    var steps := Crowd(n, m, now);
    if i > 0 {
      assert steps[..i][..i - 1] == steps[..i - 1];
      CrowdRun(g, n, m, now, i - 1);
    }
  }

  lemma CrowdGranted(g: Setting, n: nat, m: nat, now: nat)
    requires g.start == []
    ensures forall i :: 0 <= i < n ==> Granted(g, Crowd(n, m, now), i)
  {
    forall i | 0 <= i < n ensures Granted(g, Crowd(n, m, now), i) {
      CrowdRun(g, n, m, now, i);
    }
  }

  lemma CrowdMarks(g: Setting, n: nat, m: nat, now: nat)
    requires g.start == [] && m < n
    ensures Permitted(g, Crowd(n, m, now), Mark(m, now))
  {
    var steps := Crowd(n, m, now);
    CrowdGranted(g, n, m, now);
    assert Granted(g, steps, m) && steps[m].h == m;
    forall k | 0 <= k < |steps| && steps[k].Mark? ensures steps[k].h != m {
      assert k >= n && steps[n + (k - n)] == Mark(k - n, now);
    }
  }

  lemma ProperGrows(g: Setting, steps: seq<Step>, s: Step)
    requires Proper(g, steps) && Undisturbed(g, steps) && Permitted(g, steps, s) && Clock(steps) <= At(s) && !s.Use?
    ensures Proper(g, steps + [s]) && Undisturbed(g, steps + [s]) && Clock(steps + [s]) == At(s)
  {
    assert (steps + [s])[..|steps|] == steps;
  }

  lemma {:induction false} CrowdProper(g: Setting, n: nat, m: nat, now: nat)
    requires g.start == [] && m <= n
    ensures Proper(g, Crowd(n, m, now)) && Undisturbed(g, Crowd(n, m, now)) && Clock(Crowd(n, m, now)) <= now
  {
    if m > 0 {
      CrowdProper(g, n, m - 1, now);
      CrowdMarks(g, n, m - 1, now);
      ProperGrows(g, Crowd(n, m - 1, now), Mark(m - 1, now));
    } else if n > 0 {
      CrowdProper(g, n - 1, 0, now);
      ProperGrows(g, Crowd(n - 1, 0, now), Check(n - 1, now));
    }
  }

  /** Whatever the interval, any number of attempts can get through at one instant. */
  lemma CrowdTheorem(g: Setting, n: nat, now: nat)
    requires g.start == []
    ensures var steps := Crowd(n, n, now);
            Proper(g, steps) && Undisturbed(g, steps) && forall i :: 0 <= i < n ==> Granted(g, steps, i)
  {
    CrowdProper(g, n, n, now);
    CrowdGranted(g, n, n, now);
  }

  // ---------- when nothing pushes the mark out ----------

  /** The other keys used since the last step of the limiter, once there is a mark. */
  function UsedSince(steps: seq<Step>): set<string> {
    if steps == [] then {} else
      var k := |steps| - 1;
      if !steps[k].Use? || Unmarked(steps[..k]) then {} else UsedSince(steps[..k]) + Touches(steps[k].op)
  }

  predicate Unmarked(steps: seq<Step>) {
    forall s :: s in steps ==> !s.Mark?
  }

  /** Between two steps of the limiter the others use fewer keys than the capacity, any number of them
      if it is 0 or less. */
  ghost predicate Spacious(g: Setting, steps: seq<Step>) {
    && (steps != [] ==> Spacious(g, steps[..|steps| - 1]))
    && (g.capacity > 0 ==> |UsedSince(steps)| < g.capacity)
  }

  lemma RecentStep(g: Setting, c: seq<Entry>, used: set<string>, unmarked: bool, s: Step)
    requires Recent(c, g.capacity, g.key, used) && (unmarked ==> !HasKey(c, g.key))
    requires s.Use? && !s.op.Cleanup? ==> s.op.key != g.key
    requires s.Use? && !unmarked && g.capacity > 0 ==> |used + Touches(s.op)| < g.capacity
    ensures s.Use? ==> Spares(c, g.capacity, g.key, s.op)
    ensures var used' := if !s.Use? || unmarked then {} else used + Touches(s.op);
            Recent(After(g, c, s), g.capacity, g.key, used')
    ensures unmarked && !s.Mark? ==> !HasKey(After(g, c, s), g.key)
  {
    match s
    case Check(_, now) =>
      TouchUnique(c, g.key, now);
      TouchOwn(c, g.key, now);
    case Mark(_, now) =>
      PutUnique(c, g.capacity, Entry(g.key, MARK, Deadline(g.window, now)));
    case Use(op) =>
      if unmarked {
        ForeignAbsent(c, g.capacity, g.key, op);
      } else {
        FewSpare(c, g.capacity, g.key, used, op);
      }
  }

  /** Such a run does not disturb the limiter. */
  lemma {:induction false} SpaciousTheorem(g: Setting, steps: seq<Step>)
    requires Proper(g, steps) && Spacious(g, steps)
    ensures Undisturbed(g, steps)
    ensures Recent(Run(g, steps), g.capacity, g.key, UsedSince(steps))
    ensures Unmarked(steps) ==> !HasKey(Run(g, steps), g.key)
  {
    if steps != [] {
      var k := |steps| - 1;
      var earlier := steps[..k];
      SpaciousTheorem(g, earlier);
      RecentStep(g, Run(g, earlier), UsedSince(earlier), Unmarked(earlier), steps[k]);
      assert steps == earlier + [steps[k]];
    }
  }
}
