/**
 The limiter object: its fields, the lock-held steps that update them in place, and the
 waiting loop. Each step is proved to do what its algorithm's specification says.
 A reading of the monotonic clock is a parameter of the step that takes it.
 */
module RateLimiter {
  import opened Wrappers
  import opened Millis
  import opened Requests
  import TB = TokenBucket
  import SW = SlidingWindow
  import FW = FixedWindow

  datatype Algorithm = TokenBucket | SlidingWindow | FixedWindow

  datatype Config = Config(algorithm: Algorithm, rate: real, burst: int, waitTimeoutMs: int)

  datatype WaitResult =
    | Acquired
    | RateLimited(retryAfterMs: int)
    | InvalidTokens

  /** What one round of the waiting loop comes to. */
  datatype Round = Finished(result: WaitResult) | Sleep(seconds: real)

  /** What the configuration fixes, and the states of the three algorithms. */
  datatype Settings = Settings(algorithm: Algorithm, limits: TB.Limits, waitTimeoutMs: int)

  datatype State = State(bucket: TB.Bucket, sliding: SW.Window, fixed: FW.Window)

  predicate ValidState(c: Settings, s: State, clock: real) {
    && TB.Valid(c.limits, s.bucket) && s.bucket.last <= clock
    && SW.Valid(s.sliding) && SW.Upto(s.sliding.grants, clock)
    && s.fixed.count >= 0 && s.fixed.start <= clock
    && c.waitTimeoutMs >= 0
  }

  /** One attempt: only the configured algorithm's state changes. */
  function Attempt(c: Settings, s: State, tokens: int, now: real): (State, bool)
    requires tokens > 0
  {
    match c.algorithm
    case TokenBucket =>
      var (b, o) := TB.TryAcquire(c.limits, s.bucket, tokens, now);
      (s.(bucket := b), o.granted)
    case SlidingWindow =>
      var (w, o) := SW.TryAcquire(c.limits.rate, s.sliding, tokens, now);
      (s.(sliding := w), o.granted)
    case FixedWindow =>
      var (w, o) := FW.TryAcquire(c.limits.rate, s.fixed, tokens, now);
      (s.(fixed := w), o.granted)
  }

  /** One query for the available tokens: the configured algorithm's state is brought up to date. */
  function Asked(c: Settings, s: State, now: real): (State, int) {
    match c.algorithm
    case TokenBucket =>
      var (b, n) := TB.Available(c.limits, s.bucket, now);
      (s.(bucket := b), n)
    case SlidingWindow =>
      var (w, n) := SW.Available(c.limits.rate, s.sliding, now);
      (s.(sliding := w), n)
    case FixedWindow =>
      var (w, n) := FW.Available(c.limits.rate, s.fixed, now);
      (s.(fixed := w), n)
  }

  /** From `from` on, the two states treat the request alike. */
  ghost predicate SameAttempts(c: Settings, a: State, b: State, tokens: int, from: real)
    requires tokens > 0
  {
    forall t :: t >= from ==> Attempt(c, a, tokens, t) == Attempt(c, b, tokens, t)
  }

  /** A refused attempt leaves no trace: the same request later does what it would have done. */
  lemma RefusalLeavesNoTrace(c: Settings, s: State, tokens: int, clock: real, now: real)
    requires ValidState(c, s, clock) && clock <= now && tokens > 0 && !Attempt(c, s, tokens, now).1
    ensures SameAttempts(c, Attempt(c, s, tokens, now).0, s, tokens, now)
  {
    forall t | t >= now ensures Attempt(c, Attempt(c, s, tokens, now).0, tokens, t) == Attempt(c, s, tokens, t) {
      match c.algorithm
      case TokenBucket => TB.RefusalLeavesNoTrace(c.limits, s.bucket, tokens, now, t);
      case SlidingWindow => SW.RefusalLeavesNoTrace(c.limits.rate, s.sliding, tokens, now, t);
      case FixedWindow => FW.RefusalLeavesNoTrace(c.limits.rate, s.fixed, tokens, now, t);
    }
  }

  function AtLeastZero(n: int): int { if n < 0 then 0 else n }

  class RateLimiter {
    var algorithm: Algorithm
    var rate: real
    var burst: int
    var waitTimeoutMs: int

    var bucketTokens: real
    var bucketLast: real
    var slidingWindow: seq<Grant>
    var slidingCount: int
    var fixedStart: real
    var fixedCount: int

    ghost var clock: real  // the latest clock reading used

    function Limits(): TB.Limits reads this { TB.Limits(rate, burst) }
    function Bucket(): TB.Bucket reads this { TB.Bucket(bucketTokens, bucketLast) }
    function Sliding(): SW.Window reads this { SW.Window(slidingWindow, slidingCount) }
    function Fixed(): FW.Window reads this { FW.Window(fixedStart, fixedCount) }

    ghost function TheSettings(): Settings reads this { Settings(algorithm, Limits(), waitTimeoutMs) }
    ghost function TheState(): State reads this { State(Bucket(), Sliding(), Fixed()) }

    ghost predicate Valid()
      reads this
    {
      ValidState(TheSettings(), TheState(), clock)
    }

    constructor (config: Config, now: real)
      ensures Valid() && clock == now
      ensures algorithm == config.algorithm
      ensures rate == (if config.rate < 0.0 then 0.0 else config.rate) && burst == AtLeastZero(config.burst)
      ensures waitTimeoutMs == AtLeastZero(config.waitTimeoutMs)
      ensures Bucket() == TB.Bucket(burst as real, now) && Sliding() == SW.Window([], 0) && Fixed() == FW.Window(now, 0)
    {
      algorithm := config.algorithm;
      rate := if config.rate < 0.0 then 0.0 else config.rate;
      burst := AtLeastZero(config.burst);
      waitTimeoutMs := AtLeastZero(config.waitTimeoutMs);
      bucketTokens, bucketLast := AtLeastZero(config.burst) as real, now;
      slidingWindow, slidingCount := [], 0;
      fixedStart, fixedCount := now, 0;
      clock := now;
    }

    method Reset(now: real)
      requires Valid() && clock <= now
      modifies this
      ensures Valid() && clock == now
      ensures Bucket() == TB.Bucket(burst as real, now) && Sliding() == SW.Window([], 0) && Fixed() == FW.Window(now, 0)
      ensures algorithm == old(algorithm) && Limits() == old(Limits()) && waitTimeoutMs == old(waitTimeoutMs)
    {
      bucketTokens, bucketLast := burst as real, now;
      slidingWindow, slidingCount := [], 0;
      fixedStart, fixedCount := now, 0;
      clock := now;
    }

    method UpdateConfig(config: Config, now: real)
      requires Valid() && clock <= now
      modifies this
      ensures Valid() && clock == now
      ensures algorithm == config.algorithm
      ensures rate == (if config.rate < 0.0 then 0.0 else config.rate) && burst == AtLeastZero(config.burst)
      ensures waitTimeoutMs == AtLeastZero(config.waitTimeoutMs)
      ensures Bucket() == TB.Bucket(burst as real, now) && Sliding() == SW.Window([], 0) && Fixed() == FW.Window(now, 0)
    {
      algorithm := config.algorithm;
      rate := if config.rate < 0.0 then 0.0 else config.rate;
      burst := AtLeastZero(config.burst);
      waitTimeoutMs := AtLeastZero(config.waitTimeoutMs);
      bucketTokens, bucketLast := burst as real, now;
      slidingWindow, slidingCount := [], 0;
      fixedStart, fixedCount := now, 0;
      clock := now;
    }

    // -------------------------------------------------------------- token bucket

    method RefillTokenBucket(now: real)
      requires Valid() && clock <= now
      modifies this`bucketTokens, this`bucketLast, this`clock
      ensures Valid() && clock == now
      ensures Bucket() == TB.Bucket(old(TB.Level(Limits(), Bucket(), now)), now)
    {
      clock := now;
      TB.RefillReachesLevel(Limits(), Bucket(), now);
      if rate <= 0.0 {
        bucketLast := now;
        return;
      }
      var elapsed := if now - bucketLast < 0.0 then 0.0 else now - bucketLast;
      if elapsed <= 0.0 {
        return;
      }
      bucketTokens := TB.Min(burst as real, bucketTokens + elapsed * rate);
      bucketLast := now;
    }

    method TokenBucketWaitMs(tokens: int) returns (waitMs: Option<int>)
      ensures waitMs == TB.WaitMs(Limits(), Bucket(), tokens)
    {
      if rate <= 0.0 { return None; }
      var needed := if tokens as real - bucketTokens < 0.0 then 0.0 else tokens as real - bucketTokens;
      if needed <= 0.0 { return Some(0); }
      return Some(Ceil(needed / rate * 1000.0));
    }

    method TryAcquireTokenBucket(tokens: int, now: real) returns (acquired: bool, waitMs: Option<int>)
      requires Valid() && clock <= now && tokens > 0
      modifies this`bucketTokens, this`bucketLast, this`clock
      ensures Valid() && clock == now
      ensures (Bucket(), Outcome(acquired, waitMs)) == old(TB.TryAcquire(Limits(), Bucket(), tokens, now))
    {
      clock := now;
      if burst <= 0 || tokens > burst { return false, None; }
      TB.RefillReachesLevel(Limits(), Bucket(), now);
      RefillTokenBucket(now);
      if bucketTokens >= tokens as real {
        bucketTokens := bucketTokens - tokens as real;
        return true, Some(0);
      }
      waitMs := TokenBucketWaitMs(tokens);
      acquired := false;
    }

    // -------------------------------------------------------------- sliding window

    method CleanupSlidingWindow(now: real)
      requires Valid() && clock <= now
      modifies this`slidingWindow, this`slidingCount, this`clock
      ensures Valid() && clock == now
      ensures Sliding() == old(SW.Cleanup(Sliding(), now))
    {
      hide SW.Recent, SW.Sum;
      ghost var before := slidingWindow;
      clock := now;
      var threshold := now - 1.0;
      while slidingWindow != [] && slidingWindow[0].time <= threshold
        invariant SW.Recent(slidingWindow, threshold) == SW.Recent(before, threshold)
        invariant slidingCount == SW.Sum(slidingWindow)
        decreases |slidingWindow|
        modifies this`slidingWindow, this`slidingCount
      {
        SW.Pop(slidingWindow, threshold);
        slidingCount := slidingCount - slidingWindow[0].count;
        slidingWindow := slidingWindow[1..];
      }
      SW.Pop(slidingWindow, threshold);
      assert slidingWindow == SW.Recent(before, threshold);
      SW.CleanupKeepsValid(old(Sliding()), now);
      SW.RecentIsSuffix(before, threshold);
    }

    /** The accumulating scan; the two fall-back answers the code has (empty window, loop
        exhausted) are never reached from a refusal. */
    method SlidingWaitMs(now: real, tokens: int) returns (waitMs: int)
      requires Valid() && SW.Sum(slidingWindow) as real >= (slidingCount + tokens) as real - rate > 0.0
      requires now < SW.FreedAt(slidingWindow, (slidingCount + tokens) as real - rate)
      ensures waitMs == CeilMs(SW.FreedAt(slidingWindow, (slidingCount + tokens) as real - rate) - now)
    {
      var excess := (slidingCount + tokens) as real - rate;
      var running := 0;
      var i := 0;
      while i < |slidingWindow|
        invariant 0 <= i <= |slidingWindow| && running as real < excess
        invariant SW.Sum(slidingWindow[i..]) as real >= excess - running as real
        invariant SW.FreedAt(slidingWindow[i..], excess - running as real) == SW.FreedAt(slidingWindow, excess)
      {
        running := running + slidingWindow[i].count;
        if running as real >= excess {
          var wait := slidingWindow[i].time + 1.0 - now;
          return CeilMs(if wait < 0.0 then 0.0 else wait);
        }
        assert slidingWindow[i..][1..] == slidingWindow[i + 1..];
        i := i + 1;
      }
      assert false;
    }

    method TryAcquireSlidingWindow(tokens: int, now: real) returns (acquired: bool, waitMs: Option<int>)
      requires Valid() && clock <= now && tokens > 0
      modifies this`slidingWindow, this`slidingCount, this`clock
      ensures Valid() && clock == now
      ensures (Sliding(), Outcome(acquired, waitMs)) == old(SW.TryAcquire(rate, Sliding(), tokens, now))
    {
      ghost var before := Sliding();
      if rate <= 0.0 || tokens as real > rate {
        clock := now;
        return false, None;
      }
      hide SW.Recent, SW.FreedAt, SW.Sum, Positive, SW.Ordered, SW.Upto;
      CleanupSlidingWindow(now);
      if (slidingCount + tokens) as real <= rate {
        SW.AppendKeepsValid(Sliding(), now, tokens);
        slidingWindow := slidingWindow + [Grant(now, tokens)];
        slidingCount := slidingCount + tokens;
        return true, Some(0);
      }
      SW.UptoGrows(before.grants, old(clock), now);
      SW.GrantedFrom(rate, before, tokens, now, now);
      var wait := SlidingWaitMs(now, tokens);
      return false, Some(wait);
    }

    // -------------------------------------------------------------- fixed window

    method RotateFixedWindow(now: real)
      requires Valid() && clock <= now
      modifies this`fixedStart, this`fixedCount, this`clock
      ensures Valid() && clock == now && fixedStart <= now < fixedStart + 1.0
      ensures Fixed() == old(FW.Rotate(Fixed(), now))
    {
      clock := now;
      FW.RotateAligns(Fixed(), now);
      var elapsed := now - fixedStart;
      if elapsed < 1.0 { return; }
      fixedStart := fixedStart + elapsed.Floor as real;
      if fixedCount > 0 { fixedCount := 0; }
    }

    method TryAcquireFixedWindow(tokens: int, now: real) returns (acquired: bool, waitMs: Option<int>)
      requires Valid() && clock <= now && tokens > 0
      modifies this`fixedStart, this`fixedCount, this`clock
      ensures Valid() && clock == now
      ensures (Fixed(), Outcome(acquired, waitMs)) == old(FW.TryAcquire(rate, Fixed(), tokens, now))
    {
      clock := now;
      if rate <= 0.0 || tokens as real > rate { return false, None; }
      RotateFixedWindow(now);
      if (fixedCount + tokens) as real <= rate {
        fixedCount := fixedCount + tokens;
        return true, Some(0);
      }
      var wait := fixedStart + 1.0 - now;
      return false, Some(CeilMs(if wait < 0.0 then 0.0 else wait));
    }

    // -------------------------------------------------------------- the public operations

    /** Whether a request of `tokens` would be granted at `now`, in the present state, and the
        state it would leave. */
    ghost predicate WouldGrant(tokens: int, now: real)
      requires tokens > 0
      reads this
    {
      Attempt(TheSettings(), TheState(), tokens, now).1
    }

    ghost function Attempted(tokens: int, now: real): State
      requires tokens > 0
      reads this
    {
      Attempt(TheSettings(), TheState(), tokens, now).0
    }

    /** One lock-held attempt. Whatever the algorithm, a refusal's hint is exact: None
        exactly when no later attempt can succeed; otherwise at least 1 ms, with success
        at its end and failure up to 1 ms before, unless other calls intervene. */
    method TryAcquire(tokens: int, now: real) returns (acquired: bool, waitMs: Option<int>)
      requires Valid() && clock <= now && tokens > 0
      modifies this
      ensures Valid() && clock == now
      ensures acquired == old(WouldGrant(tokens, now))
      ensures TheState() == old(Attempted(tokens, now)) && TheSettings() == old(TheSettings())
      ensures !acquired && waitMs.None? ==> forall t :: t >= now ==> !WouldGrant(tokens, t)
      ensures !acquired && waitMs.Some? ==>
        && waitMs.value >= 1
        && WouldGrant(tokens, After(now, waitMs.value))
        && forall t :: now <= t <= After(now, waitMs.value - 1) ==> !WouldGrant(tokens, t)
    {
      ghost var b, s, f := Bucket(), Sliding(), Fixed();
      match algorithm
      case TokenBucket =>
        acquired, waitMs := TryAcquireTokenBucket(tokens, now);
        if !acquired { TB.HintIsExact(Limits(), b, tokens, now); }
      case SlidingWindow =>
        acquired, waitMs := TryAcquireSlidingWindow(tokens, now);
        if !acquired { SW.HintIsExact(rate, s, tokens, now); }
      case FixedWindow =>
        acquired, waitMs := TryAcquireFixedWindow(tokens, now);
        if !acquired { FW.HintIsExact(rate, f, tokens, now); }
    }

    method Acquire(tokens: int, now: real) returns (r: Option<bool>)
      requires Valid() && clock <= now
      modifies this
      ensures Valid() && clock == (if tokens <= 0 then old(clock) else now)
      ensures r.None? <==> tokens <= 0
      ensures tokens > 0 ==> r.value == old(WouldGrant(tokens, now)) && TheState() == old(Attempted(tokens, now))
      ensures tokens <= 0 ==> TheState() == old(TheState())
      ensures TheSettings() == old(TheSettings())
    {
      if tokens <= 0 { return None; }
      var acquired, _ := TryAcquire(tokens, now);
      return Some(acquired);
    }

    /** The number reported is exactly how many tokens one request could take now, and
        reporting it changes no later outcome. */
    method GetAvailableTokens(now: real) returns (available: int)
      requires Valid() && clock <= now
      modifies this
      ensures Valid() && clock == now && available >= 0
      ensures forall k :: k > 0 ==> (old(WouldGrant(k, now)) <==> k <= available)
      ensures forall k, t :: k > 0 && t >= now ==> WouldGrant(k, t) == old(WouldGrant(k, t))
      ensures (TheState(), available) == old(Asked(TheSettings(), TheState(), now))
      ensures TheSettings() == old(TheSettings())
    {
      ghost var b, s, f := Bucket(), Sliding(), Fixed();
      match algorithm
      case TokenBucket =>
        TB.RefillReachesLevel(Limits(), b, now);
        RefillTokenBucket(now);
        available := AtLeastZero(bucketTokens.Floor);
        forall k | k > 0 ensures old(WouldGrant(k, now)) <==> k <= available {
          TB.AvailableIsExact(Limits(), b, k, now);
          TB.RefillReachesLevel(Limits(), b, now);
        }
        forall k, t | k > 0 && t >= now ensures WouldGrant(k, t) == old(WouldGrant(k, t)) {
          TB.RefillReachesLevel(Limits(), b, now);
          TB.LevelComposes(Limits(), b, now, t);
          TB.RefillReachesLevel(Limits(), b, t);
          TB.RefillReachesLevel(Limits(), Bucket(), t);
        }
      case SlidingWindow =>
        CleanupSlidingWindow(now);
        available := AtLeastZero((rate - slidingCount as real).Floor);
        forall k | k > 0 ensures old(WouldGrant(k, now)) <==> k <= available {
          SW.AvailableIsExact(rate, s, k, now);
        }
        forall k, t | k > 0 && t >= now ensures WouldGrant(k, t) == old(WouldGrant(k, t)) {
          SW.RecentOfRecent(s.grants, now - 1.0, t - 1.0);
        }
      case FixedWindow =>
        RotateFixedWindow(now);
        available := AtLeastZero((rate - fixedCount as real).Floor);
        forall k | k > 0 ensures old(WouldGrant(k, now)) <==> k <= available {
          FW.AvailableIsExact(rate, f, k, now);
        }
        forall k, t | k > 0 && t >= now ensures WouldGrant(k, t) == old(WouldGrant(k, t)) {
          FW.RotateTwice(f, now, t);
        }
    }

    /** The hint is exact for the present state: 0 exactly when no later time grants the request;
        otherwise enough, and one millisecond less is not. */
    ghost predicate ExactHint(tokens: int, hint: int)
      requires tokens > 0
      reads this
    {
      && (hint == 0 <==> forall t :: t >= clock ==> !WouldGrant(tokens, t))
      && (hint > 0 ==> WouldGrant(tokens, After(clock, hint)))
      && (forall t :: clock <= t <= After(clock, hint - 1) ==> !WouldGrant(tokens, t))
    }

    /** One round of the waiting loop, from whatever state other callers have left: an attempt, and
        unless that ends the wait, a sleep. It raises only when the request can never be granted,
        waiting is disabled or the deadline has passed; the hint it raises with is exact; and a
        sleep that the deadline does not cut short lasts until the request can be granted. The
        branch for a non-positive wait is never taken. */
    method WaitRound(tokens: int, timeout: real, deadline: real, now: real, later: real) returns (round: Round)
      requires Valid() && clock <= now <= later && tokens > 0
      modifies this
      ensures Valid() && clock == now && TheSettings() == old(TheSettings())
      ensures TheState() == old(Attempted(tokens, now))
      ensures round == Finished(Acquired) <==> old(WouldGrant(tokens, now))
      ensures round != Finished(InvalidTokens)
      ensures round.Finished? && round.result.RateLimited? ==>
        && ExactHint(tokens, round.result.retryAfterMs)
        && (round.result.retryAfterMs == 0 || timeout <= 0.0 || later >= deadline)
      ensures round.Sleep? ==>
        && round.seconds > 0.0 && later + round.seconds <= deadline
        && (later + round.seconds == deadline || forall t :: t >= later + round.seconds ==> WouldGrant(tokens, t))
    {
      var acquired, waitMs := TryAcquire(tokens, now);
      if acquired { return Finished(Acquired); }
      if waitMs.None? { return Finished(RateLimited(0)); }
      var hint := AtLeastZero(waitMs.value);
      assert WouldGrant(tokens, After(clock, hint));
      if timeout <= 0.0 { return Finished(RateLimited(hint)); }
      if later >= deadline { return Finished(RateLimited(hint)); }
      var wait := if deadline - later <= hint as real / 1000.0 then deadline - later else hint as real / 1000.0;
      assert wait > 0.0;
      forall t | t >= After(clock, hint) ensures WouldGrant(tokens, t) {
        StaysGrantable(tokens, After(clock, hint), t);
      }
      return Sleep(wait);
    }

    /** The whole loop when nobody else calls: `late(k)` is how much later than asked the k-th
        clock reading comes. It ends after at most two attempts, and in all it amounts to its
        last one, made at `at`: it returns exactly if the request could be granted then. */
    method AcquireOrWait(tokens: int, start: real, late: nat -> real)
      returns (r: WaitResult, attempts: nat, at: real, end: real)
      requires Valid() && clock <= start
      requires forall k :: late(k) >= 0.0
      modifies this
      ensures Valid() && attempts <= 2 && TheSettings() == old(TheSettings())
      ensures r.InvalidTokens? <==> tokens <= 0
      ensures tokens <= 0 ==> attempts == 0 && TheState() == old(TheState())
      ensures tokens > 0 ==>
        && start <= at == clock <= end
        && TheState() == old(Attempted(tokens, at))
        && (r.Acquired? <==> old(WouldGrant(tokens, at)))
      ensures r.RateLimited? ==>
        && ExactHint(tokens, r.retryAfterMs)
        && (r.retryAfterMs == 0 || end >= start + waitTimeoutMs as real / 1000.0)
    {
      attempts, at, end := 0, start, start;
      if tokens <= 0 { return InvalidTokens, 0, start, start; }
      var timeout := waitTimeoutMs as real / 1000.0;
      var deadline := start + timeout;
      while true
        invariant Valid() && clock <= end && start <= end && TheSettings() == old(TheSettings())
        invariant attempts <= 1
        invariant attempts == 1 ==> end >= deadline || forall t :: t >= end ==> WouldGrant(tokens, t)
        invariant SameAttempts(TheSettings(), TheState(), old(TheState()), tokens, clock)
        decreases 2 - attempts
      {
        at := end + late(2 * attempts);
        end := at + late(2 * attempts + 1);
        ghost var before, was := TheState(), clock;
        var round := WaitRound(tokens, timeout, deadline, at, end);
        attempts := attempts + 1;
        if round.Finished? { return round.result, attempts, at, end; }
        RefusalLeavesNoTrace(TheSettings(), before, tokens, was, clock);
        end := end + round.seconds;
      }
    }

    /** Without other calls, a request that can be granted stays grantable. */
    lemma StaysGrantable(tokens: int, s: real, t: real)
      requires Valid() && clock <= s <= t && tokens > 0 && WouldGrant(tokens, s)
      ensures WouldGrant(tokens, t)
    {
      match algorithm
      case TokenBucket =>
        TB.LevelComposes(Limits(), Bucket(), s, t);
        TB.RefillReachesLevel(Limits(), Bucket(), s);
        TB.RefillReachesLevel(Limits(), Bucket(), t);
        TB.RefillReachesLevel(Limits(), TB.Refill(Limits(), Bucket(), s), t);
      case SlidingWindow =>
        SW.RecentOfRecent(slidingWindow, s - 1.0, t - 1.0);
        SW.CleanupKeepsValid(Sliding(), s);
        SW.FreedNonnegative(SW.Recent(slidingWindow, s - 1.0), t - 1.0);
      case FixedWindow =>
        FW.RotateAligns(Fixed(), s);
        FW.RotateTwice(Fixed(), s, t);
        FW.RotateAligns(FW.Rotate(Fixed(), s), t);
    }
  }
}
