/** The lazily refilled token bucket, against its full history of calls. */
module TokenBucket {

  /** The tokens produced by time t. A bucket refills by what is earned between two calls. */
  type Earning = real -> real

  function Linear(rate: real): Earning {
    t => t * rate
  }

  datatype Bucket = Bucket(tokens: real, max: real, last: real)

  /** The tokens a call at `now` finds: what was left, plus what has been earned since, capped. */
  function Level(earned: Earning, b: Bucket, now: real): real {
    var refilled := b.tokens + (earned(now) - earned(b.last));
    if refilled > b.max then b.max else refilled
  }

  predicate Grants(earned: Earning, b: Bucket, n: int, now: real) {
    Level(earned, b, now) >= n as real
  }

  function Take(earned: Earning, b: Bucket, n: int, now: real): Bucket {
    b.(tokens := Level(earned, b, now) - (if Grants(earned, b, n, now) then n as real else 0.0), last := now)
  }

  function Full(burst: int, now: real): Bucket {
    Bucket(burst as real, burst as real, now)
  }

  class TokenBucket {
    var tokens: real
    const maxTokens: real
    const refillRate: real
    var lastRefill: real

    function View(): Bucket
      reads this
    {
      Bucket(tokens, maxTokens, lastRefill)
    }

    constructor (rate: real, burst: int, now: real)
      ensures View() == Full(burst, now) && refillRate == rate
    {
      tokens, maxTokens, refillRate, lastRefill := burst as real, burst as real, rate, now;
    }

    method AllowN(n: int, now: real) returns (ok: bool)
      modifies this
      ensures ok == Grants(Linear(refillRate), old(View()), n, now)
      ensures View() == Take(Linear(refillRate), old(View()), n, now)
    {
      var elapsed := now - lastRefill;
      lastRefill := now;
      tokens := tokens + elapsed * refillRate;
      if tokens > maxTokens {
        tokens := maxTokens;
      }
      if tokens < n as real {
        return false;
      }
      tokens := tokens - n as real;
      return true;
    }

    /** What AllowN would find, without taking anything. */
    method Available(now: real) returns (level: real)
      ensures level == Level(Linear(refillRate), View(), now)
    {
      var elapsed := now - lastRefill;
      level := tokens + elapsed * refillRate;
      if level > maxTokens {
        level := maxTokens;
      }
    }
  }

  // ---------- histories ----------

  datatype Request = Request(n: int, at: real)

  function Run(earned: Earning, b: Bucket, rs: seq<Request>): Bucket {
    if rs == [] then b else
      var k := |rs| - 1;
      Take(earned, Run(earned, b, rs[..k]), rs[k].n, rs[k].at)
  }

  /** What the requests from the i-th on were granted in all. */
  function Granted(earned: Earning, b: Bucket, rs: seq<Request>, i: nat): int {
    if |rs| <= i then 0 else
      var k := |rs| - 1;
      Granted(earned, b, rs[..k], i) + if Grants(earned, Run(earned, b, rs[..k]), rs[k].n, rs[k].at) then rs[k].n else 0
  }

  /** What a full bucket would still allow at `now` if it had been full at the start of a window and
      lost only what was granted since. Window 0 starts at creation, window i at request i - 1. */
  function Room(earned: Earning, b: Bucket, rs: seq<Request>, i: nat, now: real): real
    requires i <= |rs|
  {
    if i == 0 then b.max + (earned(now) - earned(b.last)) - Granted(earned, b, rs, 0) as real
    else b.max + (earned(now) - earned(rs[i - 1].at)) - Granted(earned, b, rs, i - 1) as real
  }

  /** x is the least of the rooms. */
  ghost predicate IsLeastRoom(earned: Earning, b: Bucket, rs: seq<Request>, x: real, now: real) {
    && (forall i :: 0 <= i <= |rs| ==> x <= Room(earned, b, rs, i, now))
    && (exists i :: 0 <= i <= |rs| && x == Room(earned, b, rs, i, now))
  }

  /** What one more request leaves of the room of an earlier window: the time since earns, and what it
      is granted goes. */
  lemma RoomShifts(earned: Earning, b: Bucket, rs: seq<Request>, r: Request, i: nat, last: real)
    requires i <= |rs|
    ensures var s := Run(earned, b, rs);
            var given := if Grants(earned, s, r.n, r.at) then r.n as real else 0.0;
            Room(earned, b, rs + [r], i, r.at) == Room(earned, b, rs, i, last) + (earned(r.at) - earned(last)) - given
  {
    assert (rs + [r])[..|rs|] == rs;
    assert i > 0 ==> (rs + [r])[i - 1] == rs[i - 1];
  }

  /** The window that the request itself opens. */
  lemma RoomOpens(earned: Earning, b: Bucket, rs: seq<Request>, r: Request)
    ensures var s := Run(earned, b, rs);
            var given := if Grants(earned, s, r.n, r.at) then r.n as real else 0.0;
            Room(earned, b, rs + [r], |rs| + 1, r.at) == b.max - given
  {
    assert (rs + [r])[..|rs|] == rs;
    assert Granted(earned, b, rs, |rs|) == 0;
  }

  lemma LeastRoomStep(earned: Earning, b: Bucket, rs: seq<Request>, r: Request)
    requires var s := Run(earned, b, rs); s.max == b.max && IsLeastRoom(earned, b, rs, s.tokens, s.last)
    ensures var s := Take(earned, Run(earned, b, rs), r.n, r.at);
            IsLeastRoom(earned, b, rs + [r], s.tokens, r.at)
  {
    var s := Run(earned, b, rs);
    var next := Take(earned, s, r.n, r.at);
    RoomOpens(earned, b, rs, r);
    forall i | 0 <= i <= |rs| + 1 ensures next.tokens <= Room(earned, b, rs + [r], i, r.at) {
      if i <= |rs| {
        RoomShifts(earned, b, rs, r, i, s.last);
      }
    }
    var i :| 0 <= i <= |rs| && s.tokens == Room(earned, b, rs, i, s.last);
    RoomShifts(earned, b, rs, r, i, s.last);
    assert next.tokens == Room(earned, b, rs + [r], i, r.at) ||
           next.tokens == Room(earned, b, rs + [r], |rs| + 1, r.at);
  }

  /** The stored tokens are the least room as of the last request. */
  lemma {:induction false} StoredTokens(earned: Earning, b: Bucket, rs: seq<Request>)
    requires b.tokens == b.max
    ensures var s := Run(earned, b, rs);
            s.max == b.max && IsLeastRoom(earned, b, rs, s.tokens, s.last)
  {
    if rs == [] {
      assert b.tokens == Room(earned, b, rs, 0, b.last);
    } else {
      var k := |rs| - 1;
      StoredTokens(earned, b, rs[..k]);
      LeastRoomStep(earned, b, rs[..k], rs[k]);
      assert rs == rs[..k] + [rs[k]];
    }
  }

  /** The exact law. The tokens seen at any time are the least, over creation, every request so far
      and the present, of what a bucket full at that instant would have left. */
  lemma ExactLaw(earned: Earning, b: Bucket, rs: seq<Request>, now: real)
    requires b.tokens == b.max
    ensures var level := Level(earned, Run(earned, b, rs), now);
            && level <= b.max && (forall i :: 0 <= i <= |rs| ==> level <= Room(earned, b, rs, i, now))
            && (level == b.max || exists i :: 0 <= i <= |rs| && level == Room(earned, b, rs, i, now))
  {
    StoredTokens(earned, b, rs);
    var s := Run(earned, b, rs);
    forall i | 0 <= i <= |rs|
      ensures Room(earned, b, rs, i, now) == Room(earned, b, rs, i, s.last) + (earned(now) - earned(s.last))
    { }
  }

  /** A request is refused if and only if granting it would overdraw some window. */
  lemma DecisionLaw(earned: Earning, b: Bucket, rs: seq<Request>, n: int, now: real)
    requires b.tokens == b.max
    ensures Grants(earned, Run(earned, b, rs), n, now) <==>
            n as real <= b.max && forall i :: 0 <= i <= |rs| ==> n as real <= Room(earned, b, rs, i, now)
  {
    ExactLaw(earned, b, rs, now);
  }

  ghost predicate Chronological(b: Bucket, rs: seq<Request>) {
    (forall i :: 0 <= i < |rs| ==> b.last <= rs[i].at && rs[i].n >= 0) &&
    forall i, j :: 0 <= i < j < |rs| ==> rs[i].at <= rs[j].at
  }

  ghost predicate Growing(earned: Earning) {
    forall s, t :: s <= t ==> earned(s) <= earned(t)
  }

  lemma LinearGrows(rate: real)
    requires rate >= 0.0
    ensures Growing(Linear(rate))
  {
    var earned := Linear(rate);
    forall s: real, t: real | s <= t ensures earned(s) <= earned(t) {
      assert (t - s) * rate >= 0.0;
    }
  }

  lemma {:induction false} TokensInRange(earned: Earning, b: Bucket, rs: seq<Request>)
    requires 0.0 <= b.tokens <= b.max && Growing(earned) && Chronological(b, rs)
    ensures var s := Run(earned, b, rs);
            0.0 <= s.tokens <= s.max == b.max && s.last == if rs == [] then b.last else rs[|rs| - 1].at
  {
    if rs != [] {
      TokensInRange(earned, b, rs[..|rs| - 1]);
    }
  }

  /** Every window between two requests grants at most the burst plus what was earned in it. */
  lemma WindowLaw(earned: Earning, b: Bucket, rs: seq<Request>, i: nat, j: nat)
    requires b.tokens == b.max >= 0.0 && Growing(earned) && Chronological(b, rs)
    requires i <= j < |rs|
    ensures Granted(earned, b, rs[..j + 1], i) as real <= b.max + (earned(rs[j].at) - earned(rs[i].at))
  {
    var p := rs[..j + 1];
    TokensInRange(earned, b, p);
    StoredTokens(earned, b, p);
    assert Run(earned, b, p).tokens <= Room(earned, b, p, i + 1, p[j].at);
  }

  // ---------- at a given rate ----------

  function Answers(earned: Earning, b: Bucket, rs: seq<Request>): (answers: seq<bool>)
    ensures |answers| == |rs|
  {
    if rs == [] then [] else
      var k := |rs| - 1;
      Answers(earned, b, rs[..k]) + [Grants(earned, Run(earned, b, rs[..k]), rs[k].n, rs[k].at)]
  }

  /** What the answers granted in all to the requests from the i-th up to the k-th. */
  function Spent(rs: seq<Request>, answers: seq<bool>, i: nat, k: nat): int
    requires k <= |rs| && k <= |answers|
  {
    if k <= i then 0 else Spent(rs, answers, i, k - 1) + if answers[k - 1] then rs[k - 1].n else 0
  }

  /** The tokens that a length of time earns. */
  type Gain = real -> real

  function PerSecond(rate: real): Gain {
    seconds => rate * seconds
  }

  ghost predicate Earns(earned: Earning, gain: Gain) {
    forall s, t :: EarnsBetween(earned, gain, s, t)
  }

  ghost predicate EarnsBetween(earned: Earning, gain: Gain, s: real, t: real) {
    earned(t) - earned(s) == gain(t - s)
  }

  /** A bucket that was full at `since` and then gave away `spent` still has x at `now`. */
  predicate Affords(gain: Gain, burst: int, since: real, spent: int, x: real, now: real) {
    x + spent as real <= burst as real + gain(now - since)
  }

  /** The window from creation and those from each of the first k requests afford x. */
  ghost predicate Fits(gain: Gain, burst: int, start: real, rs: seq<Request>, answers: seq<bool>, k: nat, x: real,
                       now: real)
    requires k <= |rs| && k <= |answers|
  {
    && x <= burst as real && Affords(gain, burst, start, Spent(rs, answers, 0, k), x, now)
    && forall i :: 0 <= i < k ==> Affords(gain, burst, rs[i].at, Spent(rs, answers, i, k), x, now)
  }

  lemma {:induction false} AnswersPrefix(earned: Earning, b: Bucket, rs: seq<Request>, k: nat)
    requires k <= |rs|
    ensures Answers(earned, b, rs)[..k] == Answers(earned, b, rs[..k])
    decreases |rs|
  {
    var n := |rs| - 1;
    if k == |rs| {
      assert rs[..k] == rs;
    } else {
      AnswersPrefix(earned, b, rs[..n], k);
      assert rs[..n][..k] == rs[..k];
      assert Answers(earned, b, rs)[..k] == Answers(earned, b, rs[..n])[..k];
    }
  }

  lemma AnswersAt(earned: Earning, b: Bucket, rs: seq<Request>, k: nat)
    requires k < |rs|
    ensures Answers(earned, b, rs)[k] == Grants(earned, Run(earned, b, rs[..k]), rs[k].n, rs[k].at)
  {
    AnswersPrefix(earned, b, rs, k + 1);
    assert Answers(earned, b, rs)[k] == Answers(earned, b, rs[..k + 1])[k];
    assert rs[..k + 1][..k] == rs[..k];
  }

  lemma {:induction false} GrantedIsSpent(earned: Earning, b: Bucket, rs: seq<Request>, i: nat)
    ensures Granted(earned, b, rs, i) == Spent(rs, Answers(earned, b, rs), i, |rs|)
  {
    if |rs| > i {
      var k := |rs| - 1;
      GrantedIsSpent(earned, b, rs[..k], i);
      SpentPrefix(rs, Answers(earned, b, rs), i, k);
    }
  }

  lemma {:induction false} SpentPrefix(rs: seq<Request>, answers: seq<bool>, i: nat, k: nat)
    requires k <= |rs| && k <= |answers|
    ensures Spent(rs, answers, i, k) == Spent(rs[..k], answers[..k], i, k)
    decreases k
  {
    if k > i {
      SpentPrefix(rs, answers, i, k - 1);
      SpentPrefix(rs[..k], answers[..k], i, k - 1);
      assert rs[..k][..k - 1] == rs[..k - 1] && answers[..k][..k - 1] == answers[..k - 1];
    }
  }

  lemma LinearEarns(rate: real)
    ensures Earns(Linear(rate), PerSecond(rate))
  {
  }

  /** The answers account for all that was granted. */
  ghost predicate Accounts(earned: Earning, b: Bucket, rs: seq<Request>, answers: seq<bool>) {
    |answers| == |rs| && forall i: nat :: Granted(earned, b, rs, i) == Spent(rs, answers, i, |rs|)
  }

  /** A window leaves room for x exactly when it affords x. */
  lemma RoomAffords(earned: Earning, gain: Gain, b: Bucket, burst: int, rs: seq<Request>, answers: seq<bool>, i: nat,
                    x: real, now: real)
    requires Earns(earned, gain) && Accounts(earned, b, rs, answers) && i <= |rs| && b.max == burst as real
    ensures x <= Room(earned, b, rs, i, now) <==>
            if i == 0 then Affords(gain, burst, b.last, Spent(rs, answers, 0, |rs|), x, now)
            else Affords(gain, burst, rs[i - 1].at, Spent(rs, answers, i - 1, |rs|), x, now)
  {
    var since, from := if i == 0 then b.last else rs[i - 1].at, if i == 0 then 0 else i - 1;
    assert EarnsBetween(earned, gain, since, now);
    assert Granted(earned, b, rs, from) == Spent(rs, answers, from, |rs|);
  }

  lemma LevelIsLeastRoom(earned: Earning, b: Bucket, rs: seq<Request>, now: real, x: real)
    requires b.tokens == b.max
    ensures x <= Level(earned, Run(earned, b, rs), now) <==>
            x <= b.max && forall i :: 0 <= i <= |rs| ==> x <= Room(earned, b, rs, i, now)
  {
    ExactLaw(earned, b, rs, now);
  }

  lemma RoomsAfford(earned: Earning, gain: Gain, b: Bucket, burst: int, rs: seq<Request>, answers: seq<bool>, x: real,
                    now: real)
    requires Earns(earned, gain) && Accounts(earned, b, rs, answers) && b.max == burst as real
    ensures (x <= b.max && forall i :: 0 <= i <= |rs| ==> x <= Room(earned, b, rs, i, now)) <==>
            Fits(gain, burst, b.last, rs, answers, |rs|, x, now)
  {
    RoomAffords(earned, gain, b, burst, rs, answers, 0, x, now);
    forall i | 0 <= i < |rs|
      ensures x <= Room(earned, b, rs, i + 1, now) <==>
              Affords(gain, burst, rs[i].at, Spent(rs, answers, i, |rs|), x, now)
    {
      RoomAffords(earned, gain, b, burst, rs, answers, i + 1, x, now);
    }
    if Fits(gain, burst, b.last, rs, answers, |rs|, x, now) {
      forall i | 0 <= i <= |rs| ensures x <= Room(earned, b, rs, i, now) {
        RoomAffords(earned, gain, b, burst, rs, answers, i, x, now);
      }
    }
  }

  /** The tokens seen at any time are the most that every window affords. */
  lemma LevelTheorem(earned: Earning, gain: Gain, burst: int, start: real, rs: seq<Request>, now: real, x: real)
    requires Earns(earned, gain)
    ensures var b := Full(burst, start);
            x <= Level(earned, Run(earned, b, rs), now) <==>
            Fits(gain, burst, start, rs, Answers(earned, b, rs), |rs|, x, now)
  {
    var b := Full(burst, start);
    LevelIsLeastRoom(earned, b, rs, now, x);
    forall i: nat ensures Granted(earned, b, rs, i) == Spent(rs, Answers(earned, b, rs), i, |rs|) {
      GrantedIsSpent(earned, b, rs, i);
    }
    RoomsAfford(earned, gain, b, burst, rs, Answers(earned, b, rs), x, now);
  }

  lemma FitsPrefix(gain: Gain, burst: int, start: real, rs: seq<Request>, answers: seq<bool>, k: nat, x: real,
                   now: real)
    requires k <= |rs| && k <= |answers|
    ensures Fits(gain, burst, start, rs, answers, k, x, now) <==>
            Fits(gain, burst, start, rs[..k], answers[..k], k, x, now)
  {
    SpentPrefix(rs, answers, 0, k);
    forall i | 0 <= i < k
      ensures rs[i].at == rs[..k][i].at && Spent(rs, answers, i, k) == Spent(rs[..k], answers[..k], i, k)
    {
      SpentPrefix(rs, answers, i, k);
    }
  }

  /** Every answer is what the windows afford after the answers before it. */
  ghost predicate Lawful(gain: Gain, burst: int, start: real, rs: seq<Request>, answers: seq<bool>) {
    && |answers| == |rs|
    && forall k :: 0 <= k < |rs| ==>
         (answers[k] <==> Fits(gain, burst, start, rs, answers, k, rs[k].n as real, rs[k].at))
  }

  lemma AnswersLawful(earned: Earning, gain: Gain, burst: int, start: real, rs: seq<Request>)
    requires Earns(earned, gain)
    ensures Lawful(gain, burst, start, rs, Answers(earned, Full(burst, start), rs))
  {
    var b := Full(burst, start);
    var answers := Answers(earned, b, rs);
    forall k | 0 <= k < |rs|
      ensures answers[k] <==> Fits(gain, burst, start, rs, answers, k, rs[k].n as real, rs[k].at)
    {
      AnswersPrefix(earned, b, rs, k);
      AnswersAt(earned, b, rs, k);
      FitsPrefix(gain, burst, start, rs, answers, k, rs[k].n as real, rs[k].at);
      LevelTheorem(earned, gain, burst, start, rs[..k], rs[k].at, rs[k].n as real);
    }
  }

  lemma SameNext(gain: Gain, burst: int, start: real, rs: seq<Request>, a: seq<bool>, b: seq<bool>, k: nat)
    requires k < |rs| && |a| == |b| == |rs| && a[..k] == b[..k]
    requires a[k] <==> Fits(gain, burst, start, rs, a, k, rs[k].n as real, rs[k].at)
    requires b[k] <==> Fits(gain, burst, start, rs, b, k, rs[k].n as real, rs[k].at)
    ensures a[k] == b[k]
  {
    FitsPrefix(gain, burst, start, rs, a, k, rs[k].n as real, rs[k].at);
    FitsPrefix(gain, burst, start, rs, b, k, rs[k].n as real, rs[k].at);
  }

  lemma {:induction false} LawfulOnce(gain: Gain, burst: int, start: real, rs: seq<Request>, a: seq<bool>, b: seq<bool>,
                                      k: nat)
    requires Lawful(gain, burst, start, rs, a) && Lawful(gain, burst, start, rs, b) && k <= |rs|
    ensures a[..k] == b[..k]
    decreases k
  {
    if k > 0 {
      LawfulOnce(gain, burst, start, rs, a, b, k - 1);
      SameNext(gain, burst, start, rs, a, b, k - 1);
      assert a[..k] == a[..k - 1] + [a[k - 1]] && b[..k] == b[..k - 1] + [b[k - 1]];
    }
  }

  /** A bucket of a given rate and burst answers lawfully, and there is no other lawful way: a request is
      granted exactly when, in the window from creation and in that from each earlier request, what has
      been granted and it come to no more than the burst and the rate times the length of the window. */
  lemma RateTheorem(rate: real, burst: int, start: real, rs: seq<Request>, answers: seq<bool>)
    ensures answers == Answers(Linear(rate), Full(burst, start), rs) <==>
            Lawful(PerSecond(rate), burst, start, rs, answers)
  {
    var ours := Answers(Linear(rate), Full(burst, start), rs);
    LinearEarns(rate);
    AnswersLawful(Linear(rate), PerSecond(rate), burst, start, rs);
    if Lawful(PerSecond(rate), burst, start, rs, answers) {
      LawfulOnce(PerSecond(rate), burst, start, rs, ours, answers, |rs|);
      assert ours == ours[..|rs|] && answers == answers[..|rs|];
    }
  }

  /** The tokens that such a bucket shows at any time. */
  lemma RateLevel(rate: real, burst: int, start: real, rs: seq<Request>, now: real, x: real)
    ensures var b := Full(burst, start);
            x <= Level(Linear(rate), Run(Linear(rate), b, rs), now) <==>
            Fits(PerSecond(rate), burst, start, rs, Answers(Linear(rate), b, rs), |rs|, x, now)
  {
    LinearEarns(rate);
    LevelTheorem(Linear(rate), PerSecond(rate), burst, start, rs, now, x);
  }

  /** On a clock that never goes back, no window between two requests grants more than the burst and
      what its length earns. */
  lemma SpentInWindow(earned: Earning, gain: Gain, burst: int, start: real, rs: seq<Request>, i: nat, j: nat)
    requires Earns(earned, gain) && burst >= 0 && Growing(earned) && Chronological(Full(burst, start), rs)
    requires i <= j < |rs|
    ensures Affords(gain, burst, rs[i].at, Spent(rs, Answers(earned, Full(burst, start), rs), i, j + 1), 0.0, rs[j].at)
  {
    var b := Full(burst, start);
    WindowLaw(earned, b, rs, i, j);
    GrantedIsSpent(earned, b, rs[..j + 1], i);
    AnswersPrefix(earned, b, rs, j + 1);
    SpentPrefix(rs, Answers(earned, b, rs), i, j + 1);
    assert EarnsBetween(earned, gain, rs[i].at, rs[j].at);
  }

  lemma RateWindow(rate: real, burst: int, start: real, rs: seq<Request>, i: nat, j: nat)
    requires rate >= 0.0 && burst >= 0 && Chronological(Full(burst, start), rs) && i <= j < |rs|
    ensures Affords(PerSecond(rate), burst, rs[i].at,
                    Spent(rs, Answers(Linear(rate), Full(burst, start), rs), i, j + 1), 0.0, rs[j].at)
  {
    LinearGrows(rate);
    LinearEarns(rate);
    SpentInWindow(Linear(rate), PerSecond(rate), burst, start, rs, i, j);
  }
}
