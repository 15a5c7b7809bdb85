/** `PairRateLimiter` of packages/peer-protocol/src/index.ts: a sliding window of failures and lockouts that double.
    Times are whole milliseconds. */
module PairLimiter {
  import opened Basics

  const LOCKOUT_MAX_MS := 60 * 60000

  datatype Config = Config(max: int, windowMs: int, lockoutMs: int)

  datatype State = State(attempts: seq<int>, lockedUntil: int, lockouts: nat)

  function Initial(): State {
    State([], 0, 0)
  }

  function Min(a: int, b: int): int {
    if a <= b then a else b
  }

  /** How long lockout number `k` lasts, counted from 0. */
  function Duration(c: Config, k: nat): int {
    Min(LOCKOUT_MAX_MS, c.lockoutMs * Pow2(k))
  }

  /** The failures that are still in the window. */
  function Recent(c: Config, attempts: seq<int>, now: int): (r: seq<int>)
    decreases |attempts|
  {
    if attempts == [] then []
    else
      var r := Recent(c, attempts[..|attempts| - 1], now);
      var t := attempts[|attempts| - 1];
      if now - t < c.windowMs then r + [t] else r
  }

  /** This failure starts a lockout. */
  predicate Triggers(c: Config, s: State, now: int) {
    |Recent(c, s.attempts, now)| + 1 >= c.max
  }

  function Fail(c: Config, s: State, now: int): State {
    if Triggers(c, s, now) then State([], now + Duration(c, s.lockouts), s.lockouts + 1)
    else s.(attempts := Recent(c, s.attempts, now) + [now])
  }

  class PairRateLimiter {
    var attempts: seq<int>
    var lockedUntil: int
    var lockouts: nat
    const config: Config

    function Now(): State
      reads this
    {
      State(attempts, lockedUntil, lockouts)
    }

    constructor (max: int, windowMs: int, lockoutMs: int)
      ensures Now() == Initial() && config == Config(max, windowMs, lockoutMs)
    {
      attempts := [];
      lockedUntil := 0;
      lockouts := 0;
      config := Config(max, windowMs, lockoutMs);
    }

    /** How long the limiter stays locked; locked at all exactly when that is not 0. */
    method LockedFor(now: int) returns (locked: bool, left: nat)
      ensures locked <==> now < lockedUntil
      ensures locked <==> left > 0
      ensures locked ==> now + left == lockedUntil
    {
      locked := now < lockedUntil;
      left := if lockedUntil - now > 0 then lockedUntil - now else 0;
    }

    method RecordFailure(now: int)
      modifies this
      ensures Now() == Fail(config, old(Now()), now)
    {
      var kept: seq<int> := [];
      var i := 0;
      while i < |attempts|
        invariant 0 <= i <= |attempts|
        invariant kept == Recent(config, attempts[..i], now)
        invariant Now() == old(Now())
      {
        assert attempts[..i + 1][..i] == attempts[..i];
        if now - attempts[i] < config.windowMs {
          kept := kept + [attempts[i]];
        }
        i := i + 1;
      }
      assert attempts[..i] == attempts;
      attempts := kept;
      attempts := attempts + [now];
      if |attempts| >= config.max {
        lockedUntil := now + Min(LOCKOUT_MAX_MS, config.lockoutMs * Pow2(lockouts));
        lockouts := lockouts + 1;
        attempts := [];
      }
    }

    method Reset()
      modifies this
      ensures Now() == Initial()
    {
      attempts := [];
      lockedUntil := 0;
      lockouts := 0;
    }
  }

  /* ---------- Runs without a reset ---------- */

  function Run(c: Config, ts: seq<int>): State
    decreases |ts|
  {
    if ts == [] then Initial() else Fail(c, Run(c, ts[..|ts| - 1]), ts[|ts| - 1])
  }

  predicate Ascending(ts: seq<int>) {
    forall i, j :: 0 <= i <= j < |ts| ==> ts[i] <= ts[j]
  }

  /** Failures are recorded only while the limiter is not locked. */
  predicate Unlocked(c: Config, ts: seq<int>) {
    forall i :: 0 <= i < |ts| ==> ts[i] >= Run(c, ts[..i]).lockedUntil
  }

  /** The failures at or after `from` and less than `width` later. */
  function CountIn(ts: seq<int>, from: int, width: int): nat
    decreases |ts|
  {
    if ts == [] then 0
    else
      var t := ts[|ts| - 1];
      CountIn(ts[..|ts| - 1], from, width) + if from <= t < from + width then 1 else 0
  }

  /** How many failures lie before the current lockout, or before the last one when it is over. */
  function Era(c: Config, ts: seq<int>): (e: nat)
    ensures e <= |ts|
    decreases |ts|
  {
    if ts == [] then 0
    else
      var n := |ts| - 1;
      if Triggers(c, Run(c, ts[..n]), ts[n]) then |ts| else Era(c, ts[..n])
  }

  /** After the failures `ts`, of which `e` lie before the last lockout, the state remembers those since then that
      have not left the window, and fewer than `max`. */
  ghost predicate Remembers(c: Config, ts: seq<int>, s: State, e: nat) {
    var k := |ts| - |s.attempts|;
    && e <= k && s.attempts == ts[k..] && |s.attempts| < c.max
    && forall i :: e <= i < k ==> ts[|ts| - 1] - ts[i] >= c.windowMs
  }

  lemma {:induction false} OldLeavesNone(c: Config, a: seq<int>, now: int)
    requires forall i :: 0 <= i < |a| ==> now - a[i] >= c.windowMs
    ensures Recent(c, a, now) == []
    decreases |a|
  {
    if a != [] {
      OldLeavesNone(c, a[..|a| - 1], now);
    }
  }

  lemma RecentAppend(c: Config, a: seq<int>, t: int, now: int)
    ensures Recent(c, a + [t], now) == Recent(c, a, now) + if now - t < c.windowMs then [t] else []
  {
    assert (a + [t])[..|a|] == a;
  }

  lemma RisesToLast(a: seq<int>)
    requires a != [] && Ascending(a)
    ensures Ascending(a[..|a| - 1]) && forall i :: 0 <= i < |a| ==> a[i] <= a[|a| - 1]
  {
  }

  lemma TailGrows(a: seq<int>, k: nat)
    requires a != [] && k < |a|
    ensures var n := |a| - 1; a[..n][n - k..] + [a[n]] == a[|a| - (k + 1)..]
  {
  }

  /** On a rising list, filtering by age keeps a tail. */
  lemma {:induction false} RecentIsTail(c: Config, a: seq<int>, now: int)
    requires Ascending(a)
    ensures var r := Recent(c, a, now); |r| <= |a| && r == a[|a| - |r|..]
    ensures forall i :: 0 <= i < |a| - |Recent(c, a, now)| ==> now - a[i] >= c.windowMs
    decreases |a|
  {
    hide Recent, Ascending;
    if a == [] {
      RecentNone(c, now);
    } else {
      var n := |a| - 1;
      RisesToLast(a);
      RecentIsTail(c, a[..n], now);
      var r := Recent(c, a[..n], now);
      assert a == a[..n] + [a[n]];
      RecentAppend(c, a[..n], a[n], now);
      if now - a[n] < c.windowMs {
        TailGrows(a, |r|);
      } else {
        OldLeavesNone(c, a[..n], now);
      }
    }
  }

  /** The limiter stays locked for a window's length after the failure that locked it. */
  ghost predicate Gap(c: Config, ts: seq<int>, s: State, e: nat) {
    0 < e <= |ts| ==> s.lockedUntil >= ts[e - 1] + c.windowMs
  }

  /** At most `max` failures in a row are less than a window apart. */
  predicate Spread(c: Config, ts: seq<int>) {
    forall i, j :: 0 <= i <= j < |ts| && ts[j] - ts[i] < c.windowMs ==> j - i < c.max
  }

  predicate Covers(c: Config) {
    c.max >= 1 && c.windowMs <= Min(LOCKOUT_MAX_MS, c.lockoutMs)
  }

  lemma ProductGrows(a: int, p: int)
    requires a >= 0 && p >= 1
    ensures a * p >= a
  {
    assert a * p == a + a * (p - 1);
    assert a * (p - 1) >= 0;
  }

  lemma DurationCovers(c: Config, k: nat)
    requires Covers(c) && c.lockoutMs >= 0
    ensures Duration(c, k) >= c.windowMs
  {
    hide Pow2;
    ProductGrows(c.lockoutMs, Pow2(k));
  }

  lemma UnlockedBefore(c: Config, ts: seq<int>)
    requires ts != [] && Unlocked(c, ts)
    ensures var n := |ts| - 1; Unlocked(c, ts[..n]) && ts[n] >= Run(c, ts[..n]).lockedUntil
  {
    hide Run;
    var n := |ts| - 1;
    forall i | 0 <= i < n ensures ts[..n][i] >= Run(c, ts[..n][..i]).lockedUntil {
      assert ts[..n][..i] == ts[..i];
    }
  }

  lemma Rises(ts: seq<int>, i: nat, j: nat)
    requires Ascending(ts) && i <= j < |ts|
    ensures ts[i] <= ts[j]
  {
  }

  lemma RisingTail(ts: seq<int>, now: int, k: nat)
    requires Ascending(ts + [now]) && k <= |ts|
    ensures Ascending(ts[k..])
    ensures forall i :: 0 <= i < |ts| ==> ts[i] <= now
  {
    var all := ts + [now];
    forall i, j | 0 <= i <= j < |ts| - k ensures ts[k..][i] <= ts[k..][j] {
      assert all[k + i] <= all[k + j];
    }
    forall i | 0 <= i < |ts| ensures ts[i] <= now {
      assert all[i] <= all[|ts|];
    }
  }

  lemma FailIs(c: Config, s: State, t: int)
    ensures var f := Fail(c, s, t);
      && (f.lockouts != s.lockouts <==> Triggers(c, s, t))
      && f.attempts == if Triggers(c, s, t) then [] else Recent(c, s.attempts, t) + [t]
  {
    hide Recent, Duration, Triggers;
  }

  lemma TailOfTail(ts: seq<int>, k: nat, m: nat)
    requires k + m <= |ts|
    ensures ts[k..][m..] == ts[k + m..]
  {
  }

  /** What the filter drops from the remembered failures is a window away from the new one; what it keeps is a tail. */
  lemma Dropped(c: Config, ts: seq<int>, now: int, s: State, e: nat)
    requires Ascending(ts + [now]) && Remembers(c, ts, s, e)
    ensures var r := Recent(c, s.attempts, now);
      |r| <= |s.attempts| <= |ts| && r == ts[|ts| - |r|..] && forall i :: e <= i < |ts| - |r| ==>
        now - ts[i] >= c.windowMs
  {
    var k := |ts| - |s.attempts|;
    RisingTail(ts, now, k);
    RecentIsTail(c, s.attempts, now);
    hide Ascending, Recent;
    var r := Recent(c, s.attempts, now);
    var m := |s.attempts| - |r|;
    TailOfTail(ts, k, m);
    BothFar(ts, k, m, e, now, c.windowMs);
  }

  /** What was forgotten before and what is dropped now are both out of the window. */
  lemma BothFar(ts: seq<int>, k: nat, m: nat, e: nat, now: int, width: int)
    requires k + m <= |ts| && (ts != [] ==> ts[|ts| - 1] <= now)
    requires forall i :: e <= i < k ==> ts[|ts| - 1] - ts[i] >= width
    requires forall i :: 0 <= i < m ==> now - ts[k..][i] >= width
    ensures forall i :: e <= i < k + m ==> now - ts[i] >= width
  {
    forall i | e <= i < k + m ensures now - ts[i] >= width {
      assert i >= k ==> ts[k..][i - k] == ts[i];
    }
  }

  /** Every failure that was forgotten is a window away from the newest. */
  lemma FarFromRecent(c: Config, ts: seq<int>, now: int, s: State, e: nat)
    requires Ascending(ts + [now]) && Remembers(c, ts, s, e) && Gap(c, ts, s, e) && now >= s.lockedUntil
    ensures var r := Recent(c, s.attempts, now);
      |r| < c.max && |r| <= |ts| && forall i :: 0 <= i < |ts| - |r| ==> now - ts[i] >= c.windowMs
  {
    Dropped(c, ts, now, s, e);
    hide Ascending, Recent;
    var r := Recent(c, s.attempts, now);
    forall i | 0 <= i < |ts| - |r| ensures now - ts[i] >= c.windowMs {
      if i < e {
        assert (ts + [now])[i] == ts[i] && (ts + [now])[e - 1] == ts[e - 1];
        Rises(ts + [now], i, e - 1);
      }
    }
  }

  lemma StepRemembers(c: Config, ts: seq<int>, now: int, s: State, e: nat)
    requires Ascending(ts + [now]) && c.max >= 1 && Remembers(c, ts, s, e)
    ensures Remembers(c, ts + [now], Fail(c, s, now), if Triggers(c, s, now) then |ts| + 1 else e)
  {
    Dropped(c, ts, now, s, e);
    hide Ascending, Recent, Duration, Remembers;
    var r := Recent(c, s.attempts, now);
    FailIs(c, s, now);
    if Triggers(c, s, now) {
      NothingRemembered(c, ts + [now], Fail(c, s, now));
    } else {
      TailStays(ts, now, |r|);
      StillRemembers(c, ts, now, Fail(c, s, now), e, r);
    }
  }

  lemma NothingRemembered(c: Config, ts: seq<int>, s: State)
    requires s.attempts == [] && c.max >= 1
    ensures Remembers(c, ts, s, |ts|)
  {
  }

  lemma TailStays(ts: seq<int>, now: int, n: nat)
    requires n <= |ts|
    ensures ts[|ts| - n..] + [now] == (ts + [now])[|ts| - n..]
    ensures forall i :: 0 <= i < |ts| ==> (ts + [now])[i] == ts[i]
  {
  }

  lemma StillRemembers(c: Config, ts: seq<int>, now: int, f: State, e: nat, r: seq<int>)
    requires |r| <= |ts| && r == ts[|ts| - |r|..] && f.attempts == r + [now] && |r| + 1 < c.max
    requires e <= |ts| - |r| && ts[|ts| - |r|..] + [now] == (ts + [now])[|ts| - |r|..]
    requires forall i :: e <= i < |ts| - |r| ==> now - ts[i] >= c.windowMs
    ensures Remembers(c, ts + [now], f, e)
  {
  }

  lemma StepGap(c: Config, ts: seq<int>, now: int, s: State, e: nat)
    requires Covers(c) && c.lockoutMs >= 0 && e <= |ts| && Gap(c, ts, s, e)
    ensures Gap(c, ts + [now], Fail(c, s, now), if Triggers(c, s, now) then |ts| + 1 else e)
  {
    hide Duration, Recent;
    DurationCovers(c, s.lockouts);
  }

  lemma StepSpread(c: Config, ts: seq<int>, now: int, tail: nat)
    requires tail < c.max && tail <= |ts| && Spread(c, ts)
    requires forall i :: 0 <= i < |ts| - tail ==> now - ts[i] >= c.windowMs
    ensures Spread(c, ts + [now])
  {
    var all := ts + [now];
    forall i, j | 0 <= i <= j < |all| && all[j] - all[i] < c.windowMs ensures j - i < c.max {
      if j < |ts| {
        assert ts[j] - ts[i] < c.windowMs;
      }
    }
  }

  /** What every run keeps. */
  ghost predicate Kept(c: Config, ts: seq<int>, s: State, e: nat) {
    e <= |ts| && Remembers(c, ts, s, e) && Gap(c, ts, s, e) && Spread(c, ts)
  }

  lemma StepKept(c: Config, ts: seq<int>, now: int, s: State, e: nat)
    requires Covers(c) && c.lockoutMs >= 0 && Ascending(ts + [now]) && Kept(c, ts, s, e) && now >= s.lockedUntil
    ensures Kept(c, ts + [now], Fail(c, s, now), if Triggers(c, s, now) then |ts| + 1 else e)
  {
    hide Remembers, Gap, Spread, Recent, Fail, Triggers, Ascending;
    FarFromRecent(c, ts, now, s, e);
    StepRemembers(c, ts, now, s, e);
    StepGap(c, ts, now, s, e);
    StepSpread(c, ts, now, |Recent(c, s.attempts, now)|);
  }

  lemma RunNext(c: Config, ts: seq<int>)
    requires ts != []
    ensures var n := |ts| - 1; var s := Run(c, ts[..n]);
      Run(c, ts) == Fail(c, s, ts[n]) && Era(c, ts) == if Triggers(c, s, ts[n]) then n + 1 else Era(c, ts[..n])
  {
    hide Fail, Triggers;
  }

  lemma AscendingBefore(ts: seq<int>)
    requires ts != [] && Ascending(ts)
    ensures Ascending(ts[..|ts| - 1])
  {
  }

  lemma NothingYet(c: Config, ts: seq<int>)
    requires Covers(c) && ts == []
    ensures Kept(c, ts, Run(c, ts), Era(c, ts))
  {
  }

  lemma {:induction false} RunKeeps(c: Config, ts: seq<int>)
    requires Covers(c) && c.lockoutMs >= 0 && Ascending(ts) && Unlocked(c, ts)
    ensures Kept(c, ts, Run(c, ts), Era(c, ts))
    decreases |ts|
  {
    hide *;
    if ts == [] {
      NothingYet(c, ts);
    } else {
      var n := |ts| - 1;
      RunNext(c, ts);
      UnlockedBefore(c, ts);
      AscendingBefore(ts);
      RunKeeps(c, ts[..n]);
      assert ts == ts[..n] + [ts[n]];
      StepKept(c, ts[..n], ts[n], Run(c, ts[..n]), Era(c, ts[..n]));
    }
  }

  /* ---------- The bound ---------- */

  lemma {:induction false} CountLate(ts: seq<int>, from: int, width: int, first: nat)
    requires Ascending(ts) && first <= |ts| && forall i :: 0 <= i < first ==> ts[i] < from
    ensures CountIn(ts, from, width) <= |ts| - first
    decreases |ts|
  {
    if ts != [] {
      var n := |ts| - 1;
      CountLate(ts[..n], from, width, if first <= n then first else n);
    }
  }

  /** The oldest failure that is less than `width` older than the newest. */
  function FirstNear(ts: seq<int>, width: int, i: nat): (first: nat)
    requires ts != [] && i < |ts| && width > 0
    ensures i <= first < |ts| && ts[|ts| - 1] - ts[first] < width
    ensures forall k :: i <= k < first ==> ts[|ts| - 1] - ts[k] >= width
    decreases |ts| - i
  {
    if ts[|ts| - 1] - ts[i] < width then i
    else if i == |ts| - 1 then i
    else FirstNear(ts, width, i + 1)
  }

  lemma {:induction false} SpreadBounds(c: Config, ts: seq<int>, from: int)
    requires Ascending(ts) && Spread(c, ts) && c.max >= 1
    ensures CountIn(ts, from, c.windowMs) <= c.max
    decreases |ts|
  {
    if ts != [] {
      var n := |ts| - 1;
      assert Spread(c, ts[..n]) by {
        forall i, j | 0 <= i <= j < n && ts[..n][j] - ts[..n][i] < c.windowMs ensures j - i < c.max {
          assert ts[j] - ts[i] < c.windowMs;
        }
      }
      SpreadBounds(c, ts[..n], from);
      if from <= ts[n] < from + c.windowMs {
        var first := FirstNear(ts, c.windowMs, 0);
        CountLate(ts, from, c.windowMs, first);
      }
    }
  }

  /** Ready for the theorem: a run the promise is about. */
  predicate Guarded(c: Config, ts: seq<int>) {
    Ascending(ts) && Unlocked(c, ts)
  }

  /** As long as no lockout is shorter than the window, no interval as long as the window holds more than `max`
      failures. */
  lemma WindowBound(c: Config, ts: seq<int>, from: int)
    requires Covers(c) && c.lockoutMs >= 0 && Guarded(c, ts)
    ensures CountIn(ts, from, c.windowMs) <= c.max
  {
    RunKeeps(c, ts);
    SpreadBounds(c, ts, from);
  }

  /* ---------- When a lockout is too short ---------- */

  ghost predicate Bounded(c: Config) {
    forall ts: seq<int>, from: int :: Guarded(c, ts) ==> CountIn(ts, from, c.windowMs) <= c.max
  }

  function Zeros(n: nat): seq<int> {
    seq(n, _ => 0)
  }

  lemma {:induction false} ZerosStay(c: Config, n: nat)
    requires c.windowMs > 0
    ensures Recent(c, Zeros(n), 0) == Zeros(n)
    decreases n
  {
    if n > 0 {
      assert Zeros(n)[..n - 1] == Zeros(n - 1);
      ZerosStay(c, n - 1);
      assert Zeros(n - 1) + [0] == Zeros(n);
    }
  }

  lemma {:induction false} ZerosRun(c: Config, n: nat)
    requires c.windowMs > 0 && n < c.max
    ensures Run(c, Zeros(n)) == State(Zeros(n), 0, 0)
    decreases n
  {
    hide Recent, Duration;
    if n > 0 {
      assert Zeros(n)[..n - 1] == Zeros(n - 1);
      ZerosRun(c, n - 1);
      ZerosStay(c, n - 1);
      assert Zeros(n - 1) + [0] == Zeros(n);
    } else {
      assert Zeros(0) == [];
    }
  }

  lemma ZerosLock(c: Config, n: nat)
    requires c.windowMs > 0 && n == c.max >= 1
    ensures Run(c, Zeros(n)) == State([], Duration(c, 0), 1)
  {
    hide Recent, Duration;
    assert Zeros(n)[..n - 1] == Zeros(n - 1);
    ZerosRun(c, n - 1);
    ZerosStay(c, n - 1);
  }

  lemma {:induction false} CountZeros(n: nat, width: int)
    requires width > 0
    ensures CountIn(Zeros(n), 0, width) == n
    decreases n
  {
    if n > 0 {
      assert Zeros(n)[..n - 1] == Zeros(n - 1);
      CountZeros(n - 1, width);
    }
  }

  /** `max` failures at once, and one more when the lockout is over. */
  function Burst(c: Config): seq<int>
    requires c.max >= 0
  {
    Zeros(c.max) + [Duration(c, 0)]
  }

  lemma FirstDuration(c: Config)
    ensures Duration(c, 0) == Min(LOCKOUT_MAX_MS, c.lockoutMs)
  {
  }

  lemma BurstIsGuarded(c: Config)
    requires c.max >= 1 && c.lockoutMs >= 0 && c.windowMs > 0
    ensures Guarded(c, Burst(c))
  {
    hide Run, Duration;
    FirstDuration(c);
    var ts := Burst(c);
    forall i | 0 <= i < |ts| ensures ts[i] >= Run(c, ts[..i]).lockedUntil {
      assert ts[..i] == Zeros(i);
      if i < c.max {
        ZerosRun(c, i);
      } else {
        ZerosLock(c, i);
      }
    }
  }

  /** The bound holds of every run exactly when the first lockout is no shorter than the window. */
  lemma BoundedExactlyWhenCovered(c: Config)
    requires c.max >= 1 && c.lockoutMs >= 0
    ensures Bounded(c) <==> c.windowMs <= Min(LOCKOUT_MAX_MS, c.lockoutMs)
  {
    hide Guarded, CountIn, Duration;
    if c.windowMs <= Min(LOCKOUT_MAX_MS, c.lockoutMs) {
      forall ts: seq<int>, from: int | Guarded(c, ts) ensures CountIn(ts, from, c.windowMs) <= c.max {
        WindowBound(c, ts, from);
      }
    } else {
      BurstIsGuarded(c);
      BurstIsTooMuch(c);
    }
  }

  lemma BurstIsTooMuch(c: Config)
    requires c.max >= 1 && c.lockoutMs >= 0 && c.windowMs > Min(LOCKOUT_MAX_MS, c.lockoutMs)
    ensures CountIn(Burst(c), 0, c.windowMs) == c.max + 1
  {
    FirstDuration(c);
    hide Duration;
    assert Burst(c)[..c.max] == Zeros(c.max);
    CountZeros(c.max, c.windowMs);
  }

  /* ---------- The lockouts ---------- */

  /** The time of the last failure is early enough for the current lockout to have been set by then. */
  ghost predicate Timely(c: Config, ts: seq<int>, s: State) {
    if s.lockouts == 0 then s.lockedUntil == 0
    else ts != [] && s.lockedUntil <= ts[|ts| - 1] + Duration(c, s.lockouts - 1)
  }

  lemma DurationGrows(c: Config, k: nat)
    requires c.lockoutMs >= 0
    ensures 0 <= Duration(c, k) <= Duration(c, k + 1)
  {
    var p := Pow2(k);
    assert Pow2(k + 1) == 2 * p;
    ProductGrows(c.lockoutMs, p);
    assert c.lockoutMs * (2 * p) == c.lockoutMs * p + c.lockoutMs * p;
  }

  lemma {:induction false} RunIsTimely(c: Config, ts: seq<int>)
    requires c.lockoutMs >= 0 && Ascending(ts)
    ensures Timely(c, ts, Run(c, ts))
    decreases |ts|
  {
    hide Recent, Duration;
    if ts != [] {
      var n := |ts| - 1;
      RunIsTimely(c, ts[..n]);
    }
  }

  /** Between resets the end of the lockout never moves back, not even for failures recorded while locked. */
  lemma LockNeverMovesBack(c: Config, ts: seq<int>, now: int)
    requires c.lockoutMs >= 0 && Ascending(ts + [now]) && now >= 0
    ensures Run(c, ts + [now]).lockedUntil >= Run(c, ts).lockedUntil
  {
    hide Recent, Duration;
    assert (ts + [now])[..|ts|] == ts;
    RisingTail(ts, now, 0);
    assert ts[0..] == ts;
    RunIsTimely(c, ts);
    var k := Run(c, ts).lockouts;
    DurationGrows(c, k);
    if k > 0 {
      DurationGrows(c, k - 1);
    }
  }

  /** The lockouts of a run: when each was set and when it ends. */
  function Locks(c: Config, ts: seq<int>): seq<(int, int)>
    decreases |ts|
  {
    if ts == [] then []
    else
      var n := |ts| - 1;
      var s := Run(c, ts[..n]);
      var before := Locks(c, ts[..n]);
      if Triggers(c, s, ts[n]) then before + [(ts[n], Run(c, ts).lockedUntil)] else before
  }

  /** The first lockout lasts `lockoutMs`, and each lasts twice as long as the one before, an hour at most. */
  lemma DurationDoubles(c: Config, k: nat)
    requires c.lockoutMs >= 0
    ensures Duration(c, 0) == if c.lockoutMs <= 60 * 60 * 1000 then c.lockoutMs else 60 * 60 * 1000
    ensures Duration(c, k + 1) == if 2 * Duration(c, k) <= 60 * 60 * 1000 then 2 * Duration(c, k) else 60 * 60 * 1000
  {
    var p := Pow2(k);
    assert Pow2(0) == 1 && Pow2(k + 1) == 2 * p;
    hide Pow2;
    assert c.lockoutMs * (2 * p) == 2 * (c.lockoutMs * p);
    assert c.lockoutMs * p >= 0;
  }

  /** Lockout number `k` lasts an hour or `lockoutMs` doubled `k` times, whichever is less, and the last one is the
      one in force. */
  lemma {:induction false} LockoutsDouble(c: Config, ts: seq<int>)
    ensures |Locks(c, ts)| == Run(c, ts).lockouts
    ensures forall k :: 0 <= k < |Locks(c, ts)| ==> Locks(c, ts)[k].1 - Locks(c, ts)[k].0 == Duration(c, k)
    ensures Run(c, ts).lockedUntil == if Locks(c, ts) == [] then 0 else Locks(c, ts)[|Locks(c, ts)| - 1].1
    decreases |ts|
  {
    hide Recent, Duration;
    if ts != [] {
      LockoutsDouble(c, ts[..|ts| - 1]);
    }
  }

  /* ---------- When it locks ---------- */

  /** The last of these failures locked. */
  predicate Locked(c: Config, ts: seq<int>)
    requires ts != []
  {
    Run(c, ts).lockouts != Run(c, ts[..|ts| - 1]).lockouts
  }

  /** The failures since the last lockout that are less than a window old. */
  function Fresh(c: Config, ts: seq<int>, now: int): nat
    decreases |ts|
  {
    if ts == [] || Locked(c, ts) then 0
    else Fresh(c, ts[..|ts| - 1], now) + if now - ts[|ts| - 1] < c.windowMs then 1 else 0
  }

  lemma {:induction false} RecentLater(c: Config, a: seq<int>, t: int, now: int)
    requires t <= now
    ensures Recent(c, Recent(c, a, t), now) == Recent(c, a, now)
    decreases |a|
  {
    if a != [] {
      var n := |a| - 1;
      RecentLater(c, a[..n], t, now);
      var r := Recent(c, a[..n], t);
      if t - a[n] < c.windowMs {
        RecentAppend(c, r, a[n], now);
      }
    }
  }

  lemma FreshNext(c: Config, ts: seq<int>, now: int)
    requires ts != []
    ensures var n := |ts| - 1;
      Fresh(c, ts, now) == if Run(c, ts).lockouts != Run(c, ts[..n]).lockouts then 0
        else Fresh(c, ts[..n], now) + if now - ts[n] < c.windowMs then 1 else 0
  {
    hide Run;
  }

  /** What the filter leaves are the fresh failures. */
  lemma {:induction false} RecentIsFresh(c: Config, ts: seq<int>, now: int)
    requires Ascending(ts + [now])
    ensures |Recent(c, Run(c, ts).attempts, now)| == Fresh(c, ts, now)
    decreases |ts|
  {
    hide Recent, Fail, Triggers, Fresh, Ascending;
    if ts == [] {
      RecentNone(c, now);
      FreshNone(c, now);
    } else {
      var n := |ts| - 1;
      var before, t := ts[..n], ts[n];
      assert ts == before + [t];
      AscendingAt(before, t, now, ts);
      RecentIsFresh(c, before, now);
      FreshNext(c, ts, now);
      var s := Run(c, before);
      FailIs(c, s, t);
      if Triggers(c, s, t) {
        RecentNone(c, now);
      } else {
        RecentAppend(c, Recent(c, s.attempts, t), t, now);
        RecentLater(c, s.attempts, t, now);
      }
    }
  }

  lemma FreshNone(c: Config, now: int)
    ensures Fresh(c, [], now) == 0
  {
  }

  lemma AscendingAt(before: seq<int>, t: int, now: int, ts: seq<int>)
    requires ts == before + [t] && Ascending(ts + [now])
    ensures t <= now && Ascending(before + [now])
  {
    var all := ts + [now];
    assert all[|before|] == t && all[|ts|] == now;
    forall i, j | 0 <= i <= j < |before + [now]| ensures (before + [now])[i] <= (before + [now])[j] {
      var k, l := if i == |before| then |ts| else i, if j == |before| then |ts| else j;
      assert all[k] <= all[l];
    }
  }

  lemma RecentNone(c: Config, now: int)
    ensures Recent(c, [], now) == []
  {
  }

  /** A failure locks exactly when it is the `max`-th within a window since the last lockout; and only then does the
      end of the lockout change. */
  lemma LocksExactly(c: Config, ts: seq<int>, now: int)
    requires Ascending(ts + [now])
    ensures Locked(c, ts + [now]) <==> Fresh(c, ts, now) + 1 >= c.max
    ensures Run(c, ts + [now]).lockedUntil ==
      if Locked(c, ts + [now]) then now + Duration(c, Run(c, ts).lockouts) else Run(c, ts).lockedUntil
  {
    RecentIsFresh(c, ts, now);
    assert (ts + [now])[..|ts|] == ts;
    hide Recent, Duration;
  }
}
