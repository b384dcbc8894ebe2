/**
 The per-IP lockout for failed authentication: tumbling windows, lockouts and an
 opportunistic prune of the bucket map. Times and durations are nanoseconds; the
 clock does not run backwards. The zero time is 0, and no clock reads earlier.
 */
module LockoutLimiter {
  type Ip = string

  const MINUTE: nat := 60 * 1000 * 1000 * 1000
  const DEFAULT_MAX_FAILURES: nat := 15
  const DEFAULT_WINDOW: nat := 5 * MINUTE
  const DEFAULT_LOCKOUT: nat := 15 * MINUTE
  const PRUNE_ABOVE: nat := 10000

  datatype Bucket = Bucket(count: nat, windowStart: nat, lockedUntil: nat)

  datatype Config = Config(maxFailures: nat, window: nat, lockout: nat)

  predicate Usable(c: Config) {
    c.maxFailures > 0 && c.window > 0 && c.lockout > 0
  }

  datatype Verdict = Allow | Block(retryAfter: nat)

  function Fresh(now: nat): Bucket {
    Bucket(0, now, 0)
  }

  function Judge(b: Bucket, now: nat): Verdict {
    if now < b.lockedUntil then Block(b.lockedUntil - now) else Allow
  }

  /** One failure counted against one bucket. */
  function Count(c: Config, b: Bucket, now: nat): Bucket {
    if now < b.lockedUntil then b
    else
      var b1 := if now - b.windowStart > c.window then b.(count := 0, windowStart := now) else b;
      if b1.count + 1 >= c.maxFailures then Bucket(0, now, now + c.lockout) else b1.(count := b1.count + 1)
  }

  predicate Prunable(c: Config, b: Bucket, now: nat) {
    now > b.lockedUntil && now - b.windowStart > c.window
  }

  function Pruned(c: Config, m: map<Ip, Bucket>, now: nat): map<Ip, Bucket> {
    map k | k in m && !Prunable(c, m[k], now) :: m[k]
  }

  function Find(m: map<Ip, Bucket>, ip: Ip, now: nat): Bucket {
    if ip in m then m[ip] else Fresh(now)
  }

  /** The whole effect of RecordFailure on the bucket map. */
  function Record(c: Config, m: map<Ip, Bucket>, ip: Ip, now: nat): map<Ip, Bucket> {
    if ip == "" then m
    else
      var b := Find(m, ip, now);
      var m1 := m[ip := Count(c, b, now)];
      if now < b.lockedUntil || |m1| <= PRUNE_ABOVE then m1 else Pruned(c, m1, now)
  }

  function VerdictOf(m: map<Ip, Bucket>, ip: Ip, now: nat): Verdict {
    if ip == "" || ip !in m then Allow else Judge(m[ip], now)
  }

  class AuthFailureLimiter {
    var buckets: map<Ip, Bucket>
    const config: Config

    constructor (maxFailures: int, window: int, lockout: int)
      ensures buckets == map[] && Usable(config)
      ensures config == Config(
                          if maxFailures <= 0 then DEFAULT_MAX_FAILURES else maxFailures,
                          if window <= 0 then DEFAULT_WINDOW else window,
                          if lockout <= 0 then DEFAULT_LOCKOUT else lockout)
    {
      buckets := map[];
      config := Config(
        if maxFailures <= 0 then DEFAULT_MAX_FAILURES else maxFailures,
        if window <= 0 then DEFAULT_WINDOW else window,
        if lockout <= 0 then DEFAULT_LOCKOUT else lockout);
    }

    method Allowed(ip: Ip, now: nat) returns (allowed: bool, retryAfter: nat)
      ensures allowed == VerdictOf(buckets, ip, now).Allow?
      ensures retryAfter == if allowed then 0 else VerdictOf(buckets, ip, now).retryAfter
    {
      if ip == "" || ip !in buckets {
        return true, 0;
      }
      var b := buckets[ip];
      if now < b.lockedUntil {
        return false, b.lockedUntil - now;
      }
      return true, 0;
    }

    method RecordFailure(ip: Ip, now: nat)
      modifies this`buckets
      ensures buckets == Record(config, old(buckets), ip, now)
    {
      if ip == "" {
        return;
      }
      if ip !in buckets {
        buckets := buckets[ip := Fresh(now)];
      }
      var b := buckets[ip];
      if now < b.lockedUntil {
        return;
      }
      if now - b.windowStart > config.window {
        b := b.(count := 0, windowStart := now);
      }
      b := b.(count := b.count + 1);
      if b.count >= config.maxFailures {
        b := Bucket(0, now, now + config.lockout);
      }
      assert b == Count(config, Find(old(buckets), ip, now), now);
      buckets := buckets[ip := b];
      assert buckets == old(buckets)[ip := b];
      if |buckets| > PRUNE_ABOVE {
        Prune(now);
      }
    }

    /** The loop over the map that deletes while it ranges. */
    method Prune(now: nat)
      modifies this`buckets
      ensures buckets == Pruned(config, old(buckets), now)
    {
      var todo := buckets.Keys;
      while todo != {}
        invariant todo <= buckets.Keys <= old(buckets).Keys
        invariant forall k :: k in buckets ==> buckets[k] == old(buckets)[k]
        invariant forall k :: k in old(buckets) && k !in todo ==> (k in buckets <==> !Prunable(config, old(buckets)[k], now))
        decreases |todo|
      {
        var k :| k in todo;
        if Prunable(config, buckets[k], now) {
          buckets := buckets - {k};
        }
        todo := todo - {k};
      }
    }
  }

  // ---- Runs ----

  datatype Failure = Failure(ip: Ip, at: nat)

  ghost predicate NonDecreasing(ts: seq<nat>) {
    forall i, j :: 0 <= i < j < |ts| ==> ts[i] <= ts[j]
  }

  ghost predicate ClockOk(fs: seq<Failure>) {
    forall i, j :: 0 <= i < j < |fs| ==> fs[i].at <= fs[j].at
  }

  /** The bucket map after the failures fs, of all IPs, in order. */
  function Buckets(c: Config, fs: seq<Failure>): map<Ip, Bucket> {
    if fs == [] then map[] else Record(c, Buckets(c, fs[..|fs| - 1]), fs[|fs| - 1].ip, fs[|fs| - 1].at)
  }

  /** The times of one IP's own failures. */
  function Own(fs: seq<Failure>, ip: Ip): seq<nat> {
    if fs == [] then []
    else Own(fs[..|fs| - 1], ip) + if fs[|fs| - 1].ip == ip then [fs[|fs| - 1].at] else []
  }

  /** One bucket that is never pruned, after the failures at times ts. */
  function Fold(c: Config, b: Bucket, ts: seq<nat>): Bucket {
    if ts == [] then b else Count(c, Fold(c, b, ts[..|ts| - 1]), ts[|ts| - 1])
  }

  /** What an IP that had the limiter to itself, with no pruning, would be told. */
  function SoloVerdict(c: Config, ts: seq<nat>, now: nat): Verdict {
    if ts == [] then Allow else Judge(Fold(c, Fresh(ts[0]), ts), now)
  }

  // ---- Pruning bounds the map ----

  /** The settings that stand in for non-positive ones: 15 failures, 5 and 15 minutes in nanoseconds. */
  lemma Defaults()
    ensures DEFAULT_MAX_FAILURES == 15 && DEFAULT_WINDOW == 300_000_000_000 && DEFAULT_LOCKOUT == 900_000_000_000
  {
  }

  /** The prune removes exactly the buckets whose lockout is strictly past and whose window has run out. */
  lemma PrunedIff(c: Config, m: map<Ip, Bucket>, now: nat, k: Ip)
    ensures k in Pruned(c, m, now) <==> k in m && !(m[k].lockedUntil < now && m[k].windowStart + c.window < now)
    ensures k in Pruned(c, m, now) ==> Pruned(c, m, now)[k] == m[k]
  {
  }

  /**
   After a failure that is counted the map holds at most 10000 buckets, or only buckets that are still
   worth something: locked, or with a window that has not run out.
   */
  lemma PruningBounds(c: Config, m: map<Ip, Bucket>, ip: Ip, now: nat)
    requires ip != "" && (ip in m ==> m[ip].lockedUntil <= now)
    ensures var m' := Record(c, m, ip, now);
            |m'| <= 10000 || forall k :: k in m' ==> now <= m'[k].lockedUntil || now - m'[k].windowStart <= c.window
  {
  }

  // ---- Pruning is invisible ----

  /** From `now` on, b behaves like no bucket at all. */
  predicate Spent(c: Config, b: Bucket, now: nat) {
    b.lockedUntil <= now && now - b.windowStart > c.window
  }

  predicate Alike(a: Bucket, b: Bucket, now: nat) {
    && a.count == b.count && a.windowStart == b.windowStart
    && (a.lockedUntil == b.lockedUntil || (a.lockedUntil <= now && b.lockedUntil <= now))
  }

  /** The pruned map's entry for ip against the unpruned bucket of ip's own failures. */
  ghost predicate Simulates(c: Config, m: map<Ip, Bucket>, ip: Ip, ts: seq<nat>, now: nat) {
    if ts == [] then ip !in m
    else
      var solo := Fold(c, Fresh(ts[0]), ts);
      if ip in m then Alike(m[ip], solo, now) else Spent(c, solo, now)
  }

  lemma RecordSimulates(c: Config, m: map<Ip, Bucket>, ip: Ip, ts: seq<nat>, past: nat, sender: Ip, now: nat)
    requires Simulates(c, m, ip, ts, past) && past <= now && ip != ""
    ensures Simulates(c, Record(c, m, sender, now), ip, if sender == ip then ts + [now] else ts, now)
  {
  }

  lemma {:induction false} BucketsSimulate(c: Config, fs: seq<Failure>, ip: Ip)
    requires ClockOk(fs) && ip != ""
    ensures Simulates(c, Buckets(c, fs), ip, Own(fs, ip), if fs == [] then 0 else fs[|fs| - 1].at)
  {
    if fs != [] {
      var init, last := fs[..|fs| - 1], fs[|fs| - 1];
      BucketsSimulate(c, init, ip);
      RecordSimulates(c, Buckets(c, init), ip, Own(init, ip), if init == [] then 0 else init[|init| - 1].at, last.ip, last.at);
      assert Own(fs, ip) == if last.ip == ip then Own(init, ip) + [last.at] else Own(init, ip);
    }
  }

  /**
   For every sequence of failures of any number of IPs, the verdict and the retry time an IP is given
   are those of a limiter that never prunes and has seen that IP's own failures only.
   */
  lemma {:induction false} PruningIsInvisible(c: Config, fs: seq<Failure>, ip: Ip, now: nat)
    requires ClockOk(fs) && (fs != [] ==> fs[|fs| - 1].at <= now) && ip != ""
    ensures VerdictOf(Buckets(c, fs), ip, now) == SoloVerdict(c, Own(fs, ip), now)
  {
    BucketsSimulate(c, fs, ip);
  }

  // ---- Who is never locked ----

  /** Any maxFailures failures in a row are spread over more than one window. */
  ghost predicate Sparse(c: Config, ts: seq<nat>) {
    forall i, j :: 0 <= i <= j < |ts| && j - i + 1 == c.maxFailures ==> ts[j] - ts[i] > c.window
  }

  /** The failures counted in the current window are the last ones. */
  ghost predicate CountsLast(c: Config, b: Bucket, ts: seq<nat>) {
    b.lockedUntil == 0 && 0 < b.count <= |ts| && b.count < c.maxFailures && b.windowStart == ts[|ts| - b.count]
  }

  lemma CountKeepsLast(c: Config, b: Bucket, ts: seq<nat>, now: nat)
    requires Usable(c) && c.maxFailures > 1 && CountsLast(c, b, ts)
    requires b.count + 1 == c.maxFailures ==> now - b.windowStart > c.window
    ensures CountsLast(c, Count(c, b, now), ts + [now])
  {
  }

  lemma {:induction false} SparseNeverLocks(c: Config, ts: seq<nat>)
    requires Usable(c) && ts != [] && NonDecreasing(ts) && Sparse(c, ts)
    ensures CountsLast(c, Fold(c, Fresh(ts[0]), ts), ts)
  {
    var init, now := ts[..|ts| - 1], ts[|ts| - 1];
    assert c.maxFailures > 1;
    if init == [] {
      assert Fold(c, Fresh(ts[0]), init) == Fresh(ts[0]);
    } else {
      assert Sparse(c, init) by {
        forall i, j | 0 <= i <= j < |init| && j - i + 1 == c.maxFailures ensures init[j] - init[i] > c.window {
          assert ts[j] - ts[i] > c.window;
        }
      }
      SparseNeverLocks(c, init);
      var b := Fold(c, Fresh(ts[0]), init);
      assert init[|init| - b.count] == ts[|init| - b.count];
      CountKeepsLast(c, b, init, now);
      assert ts == init + [now];
    }
  }

  /** An IP whose failures are sparse is always allowed, whatever the other IPs do. */
  lemma {:induction false} SparseIsAllowed(c: Config, fs: seq<Failure>, ip: Ip, now: nat)
    requires Usable(c) && ClockOk(fs) && (fs != [] ==> fs[|fs| - 1].at <= now) && ip != ""
    requires Sparse(c, Own(fs, ip))
    ensures VerdictOf(Buckets(c, fs), ip, now) == Allow
  {
    PruningIsInvisible(c, fs, ip, now);
    OwnIsOrdered(fs, ip);
    if Own(fs, ip) != [] { SparseNeverLocks(c, Own(fs, ip)); }
  }

  lemma {:induction false} OwnIsOrdered(fs: seq<Failure>, ip: Ip)
    requires ClockOk(fs)
    ensures NonDecreasing(Own(fs, ip))
    ensures forall i :: 0 <= i < |Own(fs, ip)| ==> fs != [] && Own(fs, ip)[i] <= fs[|fs| - 1].at
  {
    if fs != [] {
      var init, last := fs[..|fs| - 1], fs[|fs| - 1];
      OwnIsOrdered(init, ip);
      assert init != [] ==> init[|init| - 1].at <= last.at;
      assert Own(fs, ip) == if last.ip == ip then Own(init, ip) + [last.at] else Own(init, ip);
    }
  }

  // ---- Who is always locked ----

  lemma {:induction false} FoldSplits(c: Config, b: Bucket, xs: seq<nat>, ys: seq<nat>)
    ensures Fold(c, b, xs + ys) == Fold(c, Fold(c, b, xs), ys)
  {
    if ys == [] {
      assert xs + ys == xs;
    } else {
      assert (xs + ys)[..|xs + ys| - 1] == xs + ys[..|ys| - 1];
      FoldSplits(c, b, xs, ys[..|ys| - 1]);
    }
  }

  lemma {:induction false} FoldFirst(c: Config, b: Bucket, ts: seq<nat>, k: nat)
    requires 1 <= k <= |ts|
    ensures Fold(c, b, ts[..k]) == Fold(c, Count(c, b, ts[0]), ts[1..][..k - 1])
  {
    assert ts[..k] == [ts[0]] + ts[1..][..k - 1];
    assert [ts[0]][..0] == [];
    FoldSplits(c, b, [ts[0]], ts[1..][..k - 1]);
    assert Fold(c, b, [ts[0]]) == Count(c, b, ts[0]);
  }

  /** Unlocked at the first of ts, with room for no more than one new window among them. */
  predicate ReadyFor(c: Config, b: Bucket, ts: seq<nat>) {
    && ts != [] && b.lockedUntil <= ts[0] && b.windowStart <= ts[0] && b.count < c.maxFailures
    && ts[|ts| - 1] - ts[0] <= c.window
  }

  /**
   From any unlocked bucket, 2*maxFailures - 1 failures within one window length (fewer, if some are
   counted already) start a lockout: the k-th of them sets lockedUntil to its own time plus the lockout.
   */
  lemma {:induction false} BurstLocks(c: Config, b: Bucket, ts: seq<nat>) returns (k: nat)
    requires Usable(c) && NonDecreasing(ts) && ReadyFor(c, b, ts)
    requires |ts| >= if ts[|ts| - 1] - b.windowStart <= c.window then c.maxFailures - b.count else 2 * c.maxFailures - 1 - b.count
    ensures 1 <= k <= |ts| && Fold(c, b, ts[..k]) == Bucket(0, ts[k - 1], ts[k - 1] + c.lockout)
    decreases |ts|
  {
    var b1 := Count(c, b, ts[0]);
    var rest := ts[1..];
    if b1.lockedUntil == ts[0] + c.lockout {
      k := 1;
      FoldFirst(c, b, ts, 1);
    } else {
      assert rest != [];
      k := BurstLocks(c, b1, rest);
      k := k + 1;
      FoldFirst(c, b, ts, k);
    }
  }

  /**
   The bucket of a run never holds a full count, its window began no later than the last failure, and
   a count of zero is what a lockout has just left.
   */
  lemma {:induction false} BucketOfRun(c: Config, ts: seq<nat>)
    requires Usable(c) && ts != [] && NonDecreasing(ts)
    ensures var b := Fold(c, Fresh(ts[0]), ts);
            && b.count < c.maxFailures && b.windowStart <= ts[|ts| - 1]
            && (b.count == 0 ==> b.lockedUntil == b.windowStart + c.lockout)
  {
    var init := ts[..|ts| - 1];
    if init == [] {
      assert Fold(c, Fresh(ts[0]), init) == Fresh(ts[0]);
    } else {
      BucketOfRun(c, init);
      assert init[0] == ts[0] && init[|init| - 1] == ts[|ts| - 2];
    }
  }

  /** With its window over, or nothing counted and its window just begun, maxFailures failures lock a bucket. */
  lemma BurstLocksAnew(c: Config, b: Bucket, ts: seq<nat>) returns (k: nat)
    requires Usable(c) && NonDecreasing(ts) && ReadyFor(c, b, ts) && |ts| >= c.maxFailures
    requires ts[0] - b.windowStart > c.window || (b.count == 0 && b.windowStart == ts[0])
    ensures 1 <= k <= |ts| && Fold(c, b, ts[..k]) == Bucket(0, ts[k - 1], ts[k - 1] + c.lockout)
  {
    var b1 := b.(count := 0, windowStart := ts[0]);
    k := BurstLocks(c, b1, ts);
    FoldFirst(c, b, ts, k);
    FoldFirst(c, b1, ts, k);
  }

  /**
   The number of failures within one window length that always gets an allowed IP blocked. A lockout
   longer than the window outlives the window it leaves behind, which saves one failure.
   */
  function BurstBound(c: Config): int {
    if c.lockout <= c.window || c.maxFailures == 1 then 2 * c.maxFailures - 1 else 2 * c.maxFailures - 2
  }

  lemma BurstLocksRun(c: Config, b: Bucket, ts: seq<nat>) returns (k: nat)
    requires Usable(c) && NonDecreasing(ts) && ReadyFor(c, b, ts) && |ts| >= BurstBound(c)
    requires b.count == 0 ==> b.lockedUntil == b.windowStart + c.lockout || b.windowStart == ts[0]
    ensures 1 <= k <= |ts| && Fold(c, b, ts[..k]) == Bucket(0, ts[k - 1], ts[k - 1] + c.lockout)
  {
    if c.lockout > c.window && b.count == 0 {
      k := BurstLocksAnew(c, b, ts);
    } else {
      k := BurstLocks(c, b, ts);
    }
  }

  /** An IP that is allowed and then fails BurstBound times within one window length is blocked for the full lockout. */
  lemma BurstBlocks(c: Config, before: seq<nat>, burst: seq<nat>) returns (k: nat)
    requires Usable(c) && NonDecreasing(before) && NonDecreasing(burst)
    requires |burst| >= BurstBound(c) && burst[|burst| - 1] - burst[0] <= c.window
    requires before != [] ==> before[|before| - 1] <= burst[0]
    requires SoloVerdict(c, before, burst[0]) == Allow
    ensures 1 <= k <= |burst| && SoloVerdict(c, before + burst[..k], burst[k - 1]) == Block(c.lockout)
  {
    var first := if before == [] then burst[0] else before[0];
    var b := Fold(c, Fresh(first), before);
    if before != [] { BucketOfRun(c, before); }
    k := BurstLocksRun(c, b, burst);
    FoldSplits(c, Fresh(first), before, burst[..k]);
    assert (before + burst[..k])[0] == first;
  }

  lemma {:induction false} OwnSplits(xs: seq<Failure>, ys: seq<Failure>, ip: Ip)
    ensures Own(xs + ys, ip) == Own(xs, ip) + Own(ys, ip)
  {
    if ys == [] {
      assert xs + ys == xs;
    } else {
      assert (xs + ys)[..|xs + ys| - 1] == xs + ys[..|ys| - 1];
      OwnSplits(xs, ys[..|ys| - 1], ip);
    }
  }

  /** The failure of all IPs that is ip's k-th own one. */
  lemma {:induction false} OwnAt(fs: seq<Failure>, ip: Ip, k: nat) returns (n: nat)
    requires 1 <= k <= |Own(fs, ip)|
    ensures 1 <= n <= |fs| && Own(fs[..n], ip) == Own(fs, ip)[..k] && fs[n - 1].at == Own(fs, ip)[k - 1]
  {
    var init, last := fs[..|fs| - 1], fs[|fs| - 1];
    if k <= |Own(init, ip)| {
      n := OwnAt(init, ip, k);
      assert init[..n] == fs[..n];
    } else {
      n := |fs|;
      assert fs[..n] == fs;
    }
  }

  lemma LastUpTo(fs: seq<Failure>, more: seq<Failure>, now: nat)
    requires fs != [] ==> fs[|fs| - 1].at <= now
    requires more != [] ==> more[|more| - 1].at <= now
    ensures var all := fs + more;
            all != [] ==> all[|all| - 1].at <= now
  {
    if more == [] { assert fs + more == fs; }
  }

  lemma {:induction false} SharedIsSolo(c: Config, fs: seq<Failure>, more: seq<Failure>, ip: Ip, now: nat)
    requires ip != "" && ClockOk(fs + more)
    requires fs != [] ==> fs[|fs| - 1].at <= now
    requires more != [] ==> more[|more| - 1].at <= now
    ensures VerdictOf(Buckets(c, fs + more), ip, now) == SoloVerdict(c, Own(fs, ip) + Own(more, ip), now)
  {
    LastUpTo(fs, more, now);
    PruningIsInvisible(c, fs + more, ip, now);
    OwnSplits(fs, more, ip);
  }

  lemma ClockOkParts(fs: seq<Failure>, more: seq<Failure>)
    requires ClockOk(fs + more)
    ensures ClockOk(fs)
  {
    assert forall i :: 0 <= i < |fs| ==> (fs + more)[i] == fs[i];
  }

  lemma ClockOkUpTo(fs: seq<Failure>, more: seq<Failure>, n: nat)
    requires ClockOk(fs + more) && 1 <= n <= |more|
    ensures ClockOk(fs + more[..n]) && (fs != [] ==> fs[|fs| - 1].at <= more[n - 1].at)
  {
    var all, part := fs + more, fs + more[..n];
    assert forall i :: 0 <= i < |part| ==> part[i] == all[i];
    assert all[|fs| + n - 1] == more[n - 1];
    assert fs != [] ==> all[|fs| - 1] == fs[|fs| - 1];
  }

  lemma {:induction false} SharedIsSoloAt(c: Config, fs: seq<Failure>, more: seq<Failure>, ip: Ip, n: nat)
    requires ip != "" && ClockOk(fs + more) && 1 <= n <= |more|
    ensures VerdictOf(Buckets(c, fs + more[..n]), ip, more[n - 1].at)
         == SoloVerdict(c, Own(fs, ip) + Own(more[..n], ip), more[n - 1].at)
  {
    ClockOkUpTo(fs, more, n);
    SharedIsSolo(c, fs, more[..n], ip, more[n - 1].at);
  }

  /**
   The same of the limiter that all IPs share and that prunes: however the failures of other IPs
   are mixed in, such a burst of an allowed IP gets it blocked for the full lockout.
   */
  lemma BurstIsBlocked(c: Config, fs: seq<Failure>, more: seq<Failure>, ip: Ip) returns (n: nat)
    requires Usable(c) && ip != "" && ClockOk(fs + more)
    requires var burst := Own(more, ip);
             && |burst| >= BurstBound(c) && burst[|burst| - 1] - burst[0] <= c.window
             && VerdictOf(Buckets(c, fs), ip, burst[0]) == Allow
    ensures 1 <= n <= |more|
    ensures VerdictOf(Buckets(c, fs + more[..n]), ip, more[n - 1].at) == Block(c.lockout)
  {
    var before, burst := Own(fs, ip), Own(more, ip);
    BurstFollows(fs, more, ip);
    PruningIsInvisible(c, fs, ip, burst[0]);
    var k := BurstBlocks(c, before, burst);
    n := OwnAt(more, ip, k);
    SharedIsSoloAt(c, fs, more, ip, n);
  }

  lemma ClockOkRest(fs: seq<Failure>, more: seq<Failure>)
    requires ClockOk(fs + more)
    ensures ClockOk(more)
  {
    assert forall i :: 0 <= i < |more| ==> (fs + more)[|fs| + i] == more[i];
  }

  lemma LastBeforeRest(fs: seq<Failure>, more: seq<Failure>, i: nat)
    requires ClockOk(fs + more) && i < |more|
    ensures fs != [] ==> fs[|fs| - 1].at <= more[i].at
  {
    assert (fs + more)[|fs| + i] == more[i];
    assert fs != [] ==> (fs + more)[|fs| - 1] == fs[|fs| - 1];
  }

  lemma {:induction false} BurstFollows(fs: seq<Failure>, more: seq<Failure>, ip: Ip)
    requires ClockOk(fs + more) && Own(more, ip) != []
    ensures ClockOk(fs) && NonDecreasing(Own(fs, ip)) && NonDecreasing(Own(more, ip))
    ensures fs != [] ==> fs[|fs| - 1].at <= Own(more, ip)[0]
    ensures Own(fs, ip) != [] ==> Own(fs, ip)[|Own(fs, ip)| - 1] <= Own(more, ip)[0]
  {
    ClockOkParts(fs, more);
    ClockOkRest(fs, more);
    OwnIsOrdered(fs, ip);
    OwnIsOrdered(more, ip);
    var n := OwnAt(more, ip, 1);
    LastBeforeRest(fs, more, n - 1);
  }

  // ---- The bound cannot be lowered ----

  function Repeat(t: nat, n: nat): seq<nat> {
    if n == 0 then [] else Repeat(t, n - 1) + [t]
  }

  lemma {:induction false} RepeatCounts(c: Config, b: Bucket, t: nat, n: nat)
    requires b.lockedUntil <= t && b.windowStart <= t && t - b.windowStart <= c.window && b.count + n < c.maxFailures
    ensures Fold(c, b, Repeat(t, n)) == b.(count := b.count + n)
  {
    if n > 0 {
      RepeatCounts(c, b, t, n - 1);
      assert Repeat(t, n)[..|Repeat(t, n)| - 1] == Repeat(t, n - 1);
    }
  }

  lemma {:induction false} RepeatLength(t: nat, n: nat)
    ensures |Repeat(t, n)| == n && forall i :: 0 <= i < n ==> Repeat(t, n)[i] == t
  {
    if n > 0 { RepeatLength(t, n - 1); }
  }

  /** n failures at one instant past the end of a window open a new one and count there. */
  lemma {:induction false} RepeatAfterWindow(c: Config, b: Bucket, t: nat, n: nat)
    requires b.lockedUntil <= t && t - b.windowStart > c.window && 0 < n < c.maxFailures
    ensures Fold(c, b, Repeat(t, n)) == b.(count := n, windowStart := t)
  {
    RepeatLength(t, n);
    RepeatLength(t, n - 1);
    assert Repeat(t, n)[..n] == Repeat(t, n);
    assert Repeat(t, n)[1..][..n - 1] == Repeat(t, n - 1);
    FoldFirst(c, b, Repeat(t, n), n);
    RepeatCounts(c, b.(count := 1, windowStart := t), t, n - 1);
  }

  lemma {:induction false} LockedUntilGrows(c: Config, b: Bucket, xs: seq<nat>, ys: seq<nat>)
    ensures Fold(c, b, xs).lockedUntil <= Fold(c, b, xs + ys).lockedUntil
  {
    if ys == [] {
      assert xs + ys == xs;
    } else {
      assert (xs + ys)[..|xs + ys| - 1] == xs + ys[..|ys| - 1];
      LockedUntilGrows(c, b, xs, ys[..|ys| - 1]);
    }
  }

  /** maxFailures failures at one instant lock a fresh bucket. */
  lemma {:induction false} LockedAtOnce(c: Config, t: nat)
    requires Usable(c)
    ensures Fold(c, Fresh(t), Repeat(t, c.maxFailures)) == Bucket(0, t, t + c.lockout)
  {
    var n := c.maxFailures - 1;
    RepeatCounts(c, Fresh(t), t, n);
    RepeatLength(t, n);
    assert Repeat(t, n + 1)[..n] == Repeat(t, n);
  }

  /** n failures at the last instant of a window, then m at the next instant, do not lock if each alone does not. */
  lemma TwoWindows(c: Config, b: Bucket, n: nat, m: nat)
    requires Usable(c) && b.lockedUntil <= b.windowStart + c.window && b.count + n < c.maxFailures && 0 < m < c.maxFailures
    ensures var t := b.windowStart + c.window;
            Fold(c, b, Repeat(t, n) + Repeat(t + 1, m)).lockedUntil == b.lockedUntil
  {
    var t := b.windowStart + c.window;
    FoldSplits(c, b, Repeat(t, n), Repeat(t + 1, m));
    RepeatCounts(c, b, t, n);
    RepeatAfterWindow(c, b.(count := b.count + n), t + 1, m);
  }

  /** The failures of a history that leave an allowed IP just short of a lockout. */
  lemma ShortBurst(c: Config) returns (before: seq<nat>, n: nat)
    requires Usable(c) && c.maxFailures > 1
    ensures before != [] && before[0] == 0 && (forall i :: 0 <= i < |before| ==> before[i] == 0)
    ensures n + (c.maxFailures - 1) == BurstBound(c) - 1
    ensures var b := Fold(c, Fresh(0), before);
            b.windowStart == 0 && b.lockedUntil <= c.window && b.count + n < c.maxFailures
  {
    if c.lockout <= c.window {
      before, n := Repeat(0, c.maxFailures), c.maxFailures - 1;
      LockedAtOnce(c, 0);
    } else {
      before, n := Repeat(0, 1), c.maxFailures - 2;
      RepeatCounts(c, Fresh(0), 0, 1);
    }
    RepeatLength(0, |before|);
    RepeatLength(0, c.maxFailures);
    RepeatLength(0, 1);
  }

  lemma BurstShape(t: nat, n: nat, m: nat) returns (burst: seq<nat>)
    requires m > 0
    ensures burst == Repeat(t, n) + Repeat(t + 1, m) && |burst| == n + m && NonDecreasing(burst)
    ensures burst[|burst| - 1] - burst[0] <= 1 && t <= burst[0]
  {
    RepeatLength(t, n);
    RepeatLength(t + 1, m);
    burst := Repeat(t, n) + Repeat(t + 1, m);
  }

  lemma {:induction false} AllowedThroughout(c: Config, before: seq<nat>, burst: seq<nat>, k: nat, now: nat)
    requires before != [] && k <= |burst|
    requires Fold(c, Fold(c, Fresh(before[0]), before), burst).lockedUntil <= now
    ensures SoloVerdict(c, before + burst[..k], now) == Allow
  {
    FoldSplits(c, Fresh(before[0]), before, burst[..k]);
    LockedUntilGrows(c, Fold(c, Fresh(before[0]), before), burst[..k], burst[k..]);
    assert burst[..k] + burst[k..] == burst;
    assert (before + burst[..k])[0] == before[0];
  }

  /**
   One failure fewer than BurstBound does not suffice, whatever the configuration: there is a history
   after which the IP is allowed, and such a burst within one window length, at no point of which it
   is blocked.
   */
  lemma BurstBoundIsTight(c: Config) returns (before: seq<nat>, burst: seq<nat>)
    requires Usable(c) && c.maxFailures > 1
    ensures NonDecreasing(before) && NonDecreasing(burst) && |burst| == BurstBound(c) - 1 > 0
    ensures burst[|burst| - 1] - burst[0] <= c.window && before != [] && before[|before| - 1] <= burst[0]
    ensures forall k, now :: 0 <= k <= |burst| && burst[0] <= now ==> SoloVerdict(c, before + burst[..k], now) == Allow
  {
    var n;
    before, n := ShortBurst(c);
    burst := BurstShape(c.window, n, c.maxFailures - 1);
    var b := Fold(c, Fresh(0), before);
    TwoWindows(c, b, n, c.maxFailures - 1);
    forall k, now | 0 <= k <= |burst| && burst[0] <= now ensures SoloVerdict(c, before + burst[..k], now) == Allow {
      AllowedThroughout(c, before, burst, k, now);
    }
  }

  // ---- A lockout lasts exactly its duration ----

  /** Failures during a lockout change nothing: the bucket stays as it is. */
  lemma {:induction false} LockedBucketStays(c: Config, b: Bucket, ts: seq<nat>)
    requires forall i :: 0 <= i < |ts| ==> ts[i] < b.lockedUntil
    ensures Fold(c, b, ts) == b
  {
    if ts != [] {
      LockedBucketStays(c, b, ts[..|ts| - 1]);
    }
  }

  lemma {:induction false} OwnIsBefore(fs: seq<Failure>, ip: Ip, end: nat)
    requires forall i :: 0 <= i < |fs| ==> fs[i].at < end
    ensures forall i :: 0 <= i < |Own(fs, ip)| ==> Own(fs, ip)[i] < end
  {
    if fs != [] {
      OwnIsBefore(fs[..|fs| - 1], ip, end);
    }
  }

  /** No lockout is longer than configured. */
  lemma {:induction false} LockoutAtMost(c: Config, ts: seq<nat>)
    requires ts != [] && NonDecreasing(ts)
    ensures Fold(c, Fresh(ts[0]), ts).lockedUntil <= ts[|ts| - 1] + c.lockout
  {
    var init := ts[..|ts| - 1];
    if init == [] {
      assert Fold(c, Fresh(ts[0]), init) == Fresh(ts[0]);
    } else {
      LockoutAtMost(c, init);
      assert init[0] == ts[0] && init[|init| - 1] == ts[|ts| - 2];
    }
  }

  lemma SoloLockoutLasts(c: Config, before: seq<nat>, during: seq<nat>, t: nat, d: nat, now: nat)
    requires NonDecreasing(before) && (before != [] ==> before[|before| - 1] <= t)
    requires SoloVerdict(c, before, t) == Block(d)
    requires forall i :: 0 <= i < |during| ==> during[i] < t + d
    ensures d <= c.lockout
    ensures SoloVerdict(c, before + during, now) == if now < t + d then Block(t + d - now) else Allow
  {
    FoldSplits(c, Fresh(before[0]), before, during);
    LockedBucketStays(c, Fold(c, Fresh(before[0]), before), during);
    LockoutAtMost(c, before);
    assert (before + during)[0] == before[0];
  }

  lemma {:induction false} OwnIsUpTo(fs: seq<Failure>, ip: Ip, t: nat)
    requires ClockOk(fs) && (fs != [] ==> fs[|fs| - 1].at <= t)
    ensures NonDecreasing(Own(fs, ip)) && (Own(fs, ip) != [] ==> Own(fs, ip)[|Own(fs, ip)| - 1] <= t)
  {
    OwnIsOrdered(fs, ip);
  }

  /**
   In the limiter that all IPs share: once an IP is told to wait d, which is never more than the
   lockout, it is blocked until exactly d later and allowed at that instant, whatever failures, its
   own or others', are recorded in between.
   */
  lemma {:induction false} LockoutLastsExactly(c: Config, fs: seq<Failure>, more: seq<Failure>, ip: Ip, t: nat, d: nat, now: nat)
    requires ip != "" && ClockOk(fs + more) && (fs != [] ==> fs[|fs| - 1].at <= t)
    requires VerdictOf(Buckets(c, fs), ip, t) == Block(d)
    requires forall i :: 0 <= i < |more| ==> t <= more[i].at < t + d
    requires t <= now && (more != [] ==> more[|more| - 1].at <= now)
    ensures d <= c.lockout
    ensures VerdictOf(Buckets(c, fs + more), ip, now) == if now < t + d then Block(t + d - now) else Allow
  {
    ClockOkParts(fs, more);
    SharedIsSolo(c, fs, more, ip, now);
    PruningIsInvisible(c, fs, ip, t);
    OwnIsUpTo(fs, ip, t);
    OwnIsBefore(more, ip, t + d);
    SoloLockoutLasts(c, Own(fs, ip), Own(more, ip), t, d, now);
  }
}
