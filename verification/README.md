# Verified models of an asynchronous RPC framework

This project models the stateful core of `aduib_rpc`, its resilience layer above all, and proves
properties of whole runs, of every interleaving, or of every input. Most of the modelled code is
state under a lock that time drives: each stretch in which a lock is held is one atomic step, and
a clock reading is a parameter of the step that takes it. Objects that update fields in place are
classes; each of their methods is tied to a step function on values, and the runs of that step
function carry the main theorems.

| file | models | main results |
|---|---|---|
| `Requests`, `TokenBucket`, `SlidingWindow`, `FixedWindow`, `RateLimiter`, `LimiterRuns` | the three rate-limiting algorithms and the limiter object | rate bounds over every run, exactly who is granted, exact wait hints, harmless queries, the waiting loop |
| `CircuitBreaker`, `BreakerRuns`, `BreakerLimits` | the breaker and its calls in flight, over several open and half-open episodes | counters are history, what each report and request does, open period, which configurations keep the probe limit |
| `Bulkhead` | semaphore, placeholder queue, counter | the real limit, and that it is reached |
| `LruOrder`, `LruCache`, `LruRuns`, `TtlCache` | the two caches | what may be evicted when, over whole runs; lifetimes; lazy purging is invisible |
| `ConsistentHash` | ring, sort, bisection | minimal disruption; when list order is immaterial |
| `Encoder` | the guarded encoder on a heap graph | marker if and only if shared; otherwise the plain unfolding, and no other output |
| `ThriftWire`, `ThriftStruct`, `ThriftRepeats`, `ThriftProtocol` | `read` and `write` of the generated structs over a token stream | reading any well-typed stream, round trip, unknown and repeated fields |
| `Fallback` | handler trees | the answer of every tree; flattening preserves meaning |
| `SyncModels` | rewriting a model class from its proto message | exactly when it is idempotent |
| `Retry`, `RetryThroughBreaker`, `Health` | the retry loop, alone and through a breaker; health hysteresis | where the loop stops and how long it sleeps; flap bound |

## Where the code does not do what it says

Each of these is proved: what fails, and exactly when the code does meet the expectation.

- The breaker's limit on concurrent half-open probes can be exceeded. A probe left over from an
  earlier episode releases a slot it does not hold. Over all runs from a fresh breaker the limit
  holds of an episode's probes if and only if `success_threshold` is 1 and nothing is excluded, or
  the limit is 1 and the breaker is never reset (`BreakerLimits.LimitOverRunsExactly`). Of all
  half-open calls in flight it holds only in the second case (`BreakerLimits.TotalLimitExactly`).
  For one given episode, the condition is that no such probe is running when it begins, or the
  first report must end it (`BreakerRuns.ProbeLimitExactly`).
- The breaker's `retry_after_ms` is truncated. A call made exactly then is admitted if and only if
  the remaining time is a whole number of milliseconds (`CircuitBreaker.RetryHintIsEarly`).
- A bulkhead's placeholder is kept until release, so the limit is the smaller of `max_concurrent`
  and `queue_depth`. The documented limit is reached if and only if the depth is 0 or at least
  `max_concurrent` (`Bulkhead.RealLimitExactly`); the defaults, 10 and 5, do not qualify.
- Synchronising a model class twice is idle if and only if the message has no fields, or the class
  docstring ends within the class block and every field name is an identifier
  (`SyncModels.IdempotentExactly`). The proto parser accepts names such as `2fa` that the field
  pattern does not.
- The encoder's circular marker also stands for a container that is merely shared
  (`Encoder.MarkerExactlyWhenReachedTwice`).
- The Thrift reader goes by a field's own type and ignores the element types a list or map
  declares. A field is skipped if and only if its id is unknown or its own type differs
  (`ThriftStruct.SkippedExactly`), so a list under the id of `details` is never skipped, whatever
  its elements (`ThriftProtocol.WrongElementTypeIsNotSkipped`). The protocol modelled here fails on
  elements that are not details; one that does not tag its values may return something else.
- Retry jitter comes after the cap: a sleep can exceed `max_delay_ms`, exactly when
  `Retry.CapHoldsExactly` says so.
- A fixed window can grant twice its limit, rounded down, within a tenth of a second
  (`FixedWindow.TwiceTheLimitIsReached`), and never more in any second. Every second is within the
  limit if and only if the limit is below one (`FixedWindow.EverySecondWithinExactly`).
- In the idempotency cache, overwriting is not a use. A value just stored under a key it already
  held is dropped by the next new key if and only if the cache is full and the key its oldest
  (`LruCache.OverwrittenSurvivesExactly`).
- The registry keys health by address, the transport by instance id; and a check that raises counts
  as unhealthy in the transport but passes by the registry's entry. The two agree about an instance
  if and only if no check can raise and the keys coincide alike (`Health.CopiesAgreeExactly`).
- The consistent-hash selection is independent of list order if and only if no two instances share
  a ring point (`ConsistentHash.OrderImmaterialExactly`).

## Model

| member | source | states |
|---|---|---|
| `Millis.CeilMsIsTight` | src/aduib_rpc/resilience/rate_limiter.py:318-325 | a positive wait rounded up to milliseconds is at least 1, reaches the target, and one millisecond less does not |
| `TokenBucket.RateBound` | src/aduib_rpc/resilience/rate_limiter.py:264-274 | in every run and for all i <= j the tokens granted in calls i..j are at most burst + rate * (t_j - t_i), and the level stays in [0, burst] |
| `TokenBucket.GrantedExactly` | src/aduib_rpc/resilience/rate_limiter.py:264-274 | the bound is complete: in every run from a full bucket a call is granted iff, for every earlier call i or this one, the tokens granted from i on plus those requested are at most burst + rate * (t_j - t_i) |
| `TokenBucket.Conservation` | src/aduib_rpc/resilience/rate_limiter.py:303-316 | tokens granted plus tokens left never exceed the level at the first call plus what the elapsed time earned |
| `TokenBucket.LevelComposes` | src/aduib_rpc/resilience/rate_limiter.py:303-316 | refilling part of the way makes no difference to the level later |
| `TokenBucket.QueriesAreHarmless` | src/aduib_rpc/resilience/rate_limiter.py:372-375 | asking for the available tokens at any points of a run changes no caller's outcome, hints included |
| `TokenBucket.GrantedFrom` | src/aduib_rpc/resilience/rate_limiter.py:264-274 | after a refusal the request is granted exactly from one computed instant on, if ever |
| `TokenBucket.RefusalLeavesNoTrace` | src/aduib_rpc/resilience/rate_limiter.py:264-274 | after a refused attempt the same request later does what it would have done without it |
| `TokenBucket.HintIsExact` | src/aduib_rpc/resilience/rate_limiter.py:318-325 | a refusal says None iff no later time grants the request; otherwise the hint is >= 1 ms, retrying after it succeeds, and any time up to 1 ms before it fails |
| `TokenBucket.AvailableIsExact` | src/aduib_rpc/resilience/rate_limiter.py:372-375 | k tokens can be taken at that instant iff k is at most the number reported |
| `SlidingWindow.OneSecondBound` | src/aduib_rpc/resilience/rate_limiter.py:276-288 | in every run the tokens granted in any (x, x+1] are within the limit, the running count is the queue's sum, and a cleanup leaves exactly the grants of the last second |
| `SlidingWindow.GrantedExactly` | src/aduib_rpc/resilience/rate_limiter.py:276-288 | in every run a call is granted iff it and what was granted in the last second are within the limit |
| `SlidingWindow.CleanupIsFilter` | src/aduib_rpc/resilience/rate_limiter.py:327-338 | popping from the front leaves the full grant log filtered to the last second and keeps the run invariant |
| `SlidingWindow.QueriesAreHarmless` | src/aduib_rpc/resilience/rate_limiter.py:377-380 | asking for the available tokens at any points of a run changes no caller's outcome, hints included |
| `SlidingWindow.FreedExactly` | src/aduib_rpc/resilience/rate_limiter.py:340-355 | expiries free a given excess exactly from the instant the scan finds |
| `SlidingWindow.GrantedFrom` | src/aduib_rpc/resilience/rate_limiter.py:340-355 | at a refusal within the limit the queue is not empty and its sum covers the excess, so both fall-back returns are unreachable; the request is granted exactly from the scan's instant on |
| `SlidingWindow.RefusalLeavesNoTrace` | src/aduib_rpc/resilience/rate_limiter.py:276-288 | after a refused attempt the same request later does what it would have done without it |
| `SlidingWindow.HintIsExact` | src/aduib_rpc/resilience/rate_limiter.py:340-355 | the hint is None iff nothing later grants, else >= 1 ms, enough at its end and not up to 1 ms before |
| `SlidingWindow.AvailableIsExact` | src/aduib_rpc/resilience/rate_limiter.py:377-380 | k tokens can be taken at that instant iff k is at most the number reported |
| `FixedWindow.AlignedBound` | src/aduib_rpc/resilience/rate_limiter.py:290-301 | in every run each aligned second is within the limit and every second within twice the limit rounded down |
| `FixedWindow.GrantedExactly` | src/aduib_rpc/resilience/rate_limiter.py:290-301 | in every run a call is granted iff it and what was granted in the present aligned second are within the limit |
| `FixedWindow.TwiceTheLimitIsReached` | src/aduib_rpc/resilience/rate_limiter.py:357-366 | for every limit of at least one, whole or not, some run reaches that bound within a tenth of a second |
| `FixedWindow.EverySecondWithinExactly` | src/aduib_rpc/resilience/rate_limiter.py:290-301 | every run keeps the limit in every second iff the limit is below one, when nothing is granted at all |
| `FixedWindow.RotateAligns` | src/aduib_rpc/resilience/rate_limiter.py:357-366 | rotation puts the present inside the window, moves it by whole seconds, and restarts the count exactly when it moves |
| `FixedWindow.RotateTwice` | src/aduib_rpc/resilience/rate_limiter.py:357-366 | rotating on the way makes no difference later |
| `FixedWindow.QueriesAreHarmless` | src/aduib_rpc/resilience/rate_limiter.py:382-385 | asking for the available tokens at any points of a run changes no caller's outcome, hints included |
| `FixedWindow.RefusalLeavesNoTrace` | src/aduib_rpc/resilience/rate_limiter.py:290-301 | after a refused attempt the same request later does what it would have done without it |
| `FixedWindow.HintIsExact` | src/aduib_rpc/resilience/rate_limiter.py:368-370 | the hint is None iff nothing later grants, else >= 1 ms, enough at its end and not up to 1 ms before |
| `FixedWindow.AvailableIsExact` | src/aduib_rpc/resilience/rate_limiter.py:382-385 | k tokens can be taken at that instant iff k is at most the number reported |
| `RateLimiter.RateLimiter.constructor` | src/aduib_rpc/resilience/rate_limiter.py:107-126 | clamped settings, a full bucket, an empty queue and a window that starts now |
| `RateLimiter.RateLimiter.TryAcquireTokenBucket` | src/aduib_rpc/resilience/rate_limiter.py:264-274 | new bucket, outcome and hint are the specification's |
| `RateLimiter.RateLimiter.CleanupSlidingWindow` | src/aduib_rpc/resilience/rate_limiter.py:327-338 | the popping loop leaves the specified suffix, with its sum as the count |
| `RateLimiter.RateLimiter.SlidingWaitMs` | src/aduib_rpc/resilience/rate_limiter.py:340-355 | the accumulating scan finds the first expiry that frees enough; its fall-back returns are never reached from a refusal |
| `RateLimiter.RateLimiter.TryAcquireSlidingWindow` | src/aduib_rpc/resilience/rate_limiter.py:276-288 | new queue, count, outcome and hint are the specification's |
| `RateLimiter.RateLimiter.TryAcquireFixedWindow` | src/aduib_rpc/resilience/rate_limiter.py:290-301 | new window, outcome and hint are the specification's |
| `RateLimiter.RateLimiter.TryAcquire` | src/aduib_rpc/resilience/rate_limiter.py:253-262 | whatever the algorithm: grants iff the request could be granted, changes only the configured algorithm's state, and a refusal's hint is exact |
| `RateLimiter.RateLimiter.Acquire` | src/aduib_rpc/resilience/rate_limiter.py:128-143 | rejects a non-positive request without effect; otherwise one attempt |
| `RateLimiter.RateLimiter.GetAvailableTokens` | src/aduib_rpc/resilience/rate_limiter.py:188-197 | exactly how many tokens one request could take now; asking changes no later outcome |
| `RateLimiter.RateLimiter.WaitRound` | src/aduib_rpc/resilience/rate_limiter.py:161-186 | from whatever state other callers left: one attempt; it raises only when the request can never be granted, waiting is disabled or the deadline has passed, with a hint exact for the present state; a sleep the deadline does not cut lasts until the request can be granted |
| `RateLimiter.RateLimiter.AcquireOrWait` | src/aduib_rpc/resilience/rate_limiter.py:145-186 | undisturbed, the loop makes at most two attempts and amounts to its last one, which decides whether it returns or raises |
| `RateLimiter.RateLimiter.StaysGrantable` | src/aduib_rpc/resilience/rate_limiter.py:161-186 | a request that can be granted stays grantable while nobody else calls |
| `RateLimiter.RefusalLeavesNoTrace` | src/aduib_rpc/resilience/rate_limiter.py:253-262 | refused attempts change nothing for the same request later, for every algorithm |
| `LimiterRuns.GrantsExactly` | src/aduib_rpc/resilience/rate_limiter.py:253-262 | in every run of a limiter configured with any of the three algorithms, who is granted, in terms of times, requests and earlier grants |
| `LimiterRuns.Serve` | src/aduib_rpc/resilience/rate_limiter.py:128-143 | the object serves every run with these outcomes |
| `CircuitBreaker.RetryHintIsEarly` | src/aduib_rpc/resilience/circuit_breaker.py:322-335 | an open breaker admits a call retry_after_ms later iff the remaining time is a whole number of milliseconds; one more always suffices |
| `CircuitBreaker.CircuitBreaker.constructor` | src/aduib_rpc/resilience/circuit_breaker.py:100-116 | thresholds, timeout and probe limit as given or clamped; initial state closed |
| `CircuitBreaker.CircuitBreaker.BeginCall` | src/aduib_rpc/resilience/circuit_breaker.py:170-192 | admission, its tag, the new state and the hint of a rejection are the specified step's |
| `CircuitBreaker.CircuitBreaker.EndCall` | src/aduib_rpc/resilience/circuit_breaker.py:194-251 | the state after a report under the tag of its admission is the specified step's |
| `BreakerRuns.RunKeepsInv` | src/aduib_rpc/resilience/circuit_breaker.py:170-251 | the invariant of counters, reports and calls in flight holds in every interleaving |
| `BreakerRuns.CountersAreHistory` | src/aduib_rpc/resilience/circuit_breaker.py:194-251 | while closed the failure count is the trailing run of failures reported since closing, below the threshold; while half-open the success count is the probe successes of the episode, below the threshold, and no probe has failed |
| `BreakerRuns.HalfOpenDecides` | src/aduib_rpc/resilience/circuit_breaker.py:202-233 | a half-open breaker closes exactly at the probe success that completes the threshold, opens exactly at a probe failure, and ignores calls admitted while closed |
| `BreakerRuns.ClosedDecides` | src/aduib_rpc/resilience/circuit_breaker.py:202-241 | in every reachable closed state a report opens the breaker iff it is the failure that makes the trailing run as long as the threshold; otherwise it stays closed with that run as its count |
| `BreakerRuns.OpenIgnores` | src/aduib_rpc/resilience/circuit_breaker.py:202-251 | reports change nothing in an open breaker |
| `BreakerRuns.AdmissionExactly` | src/aduib_rpc/resilience/circuit_breaker.py:170-192 | a closed breaker admits everybody and is unchanged; a half-open one admits iff a slot is free and takes one; an open one admits iff the timeout has run, and is then half-open with one slot taken |
| `BreakerRuns.OpenPeriod` | src/aduib_rpc/resilience/circuit_breaker.py:180-192 | without a reset nobody is admitted before the timeout, the first admitted is a half-open probe, and until then nothing changes the open breaker |
| `BreakerRuns.ProbesInAnEpisode` | src/aduib_rpc/resilience/circuit_breaker.py:301-313 | an episode admits at most the maximum plus one per probe report; running probes exceed the slot counter by at most the stale reports |
| `BreakerRuns.ProbeLimitExactly` | src/aduib_rpc/resilience/circuit_breaker.py:187-190 | every continuation of an episode keeps the probe limit iff no stale probe is running at its start, or the first probe report must end it |
| `BreakerRuns.CounterIsLive` | src/aduib_rpc/resilience/circuit_breaker.py:301-313 | with no stale probe at the start the slot counter is the number of running probes |
| `BreakerRuns.OverLimitRun` | src/aduib_rpc/resilience/circuit_breaker.py:223-251 | with a stale probe, and an episode that survives a report, some run without a reset has one probe too many |
| `BreakerLimits.StaleWithoutReset` | src/aduib_rpc/resilience/circuit_breaker.py:170-192 | from a fresh breaker with a probe limit above one, a run without reset begins a half-open episode with a stale probe |
| `BreakerLimits.StaleByReset` | src/aduib_rpc/resilience/circuit_breaker.py:164-168 | with a reset, so does some run of every breaker |
| `BreakerLimits.LimitOverRunsExactly` | src/aduib_rpc/resilience/circuit_breaker.py:187-190 | over all runs from a fresh breaker an episode's running probes keep the limit iff success_threshold is 1 and nothing is excluded, or the limit is 1 and there is no reset |
| `BreakerLimits.TotalLimitExactly` | src/aduib_rpc/resilience/circuit_breaker.py:187-190 | over all runs the half-open calls in flight, of whatever episode, keep the limit iff it is 1 and there is no reset |
| `Retry.Normalised` | src/aduib_rpc/resilience/retry_policy.py:53-65 | the policy used is always valid, and a valid policy is used as given |
| `Retry.Execute` | src/aduib_rpc/resilience/retry_policy.py:67-92 | it stops at the one attempt that ends the loop: every earlier one failed and, if codes are configured, with one of them, and this one is the last allowed or is not such a failure; value or error is that attempt's; the callable ran once per attempt not rejected; the sleeps are the jittered delays between attempts, within (attempts - 1) widened caps; the last raise is unreachable |
| `Retry.StopsOnce` | src/aduib_rpc/resilience/retry_policy.py:80-92 | the attempt at which the loop stops is unique |
| `Retry.StopsAtExactly` | src/aduib_rpc/resilience/retry_policy.py:94-128 | where the loop stops, iff, said of the outcomes and codes of the attempts alone |
| `Retry.StopsBecause` | src/aduib_rpc/resilience/retry_policy.py:94-128 | it is the first success, rejection or error not to be retried, or the last attempt allowed; a rejection by an open breaker ends the loop at once |
| `Retry.BaseDelayGrows` | src/aduib_rpc/resilience/retry_policy.py:99-109 | delays before jitter never shrink and never pass the cap, for all three strategies |
| `Retry.DelaysFollow` | src/aduib_rpc/resilience/retry_policy.py:99-109 | the first delay is the initial one, each other the one before kept, multiplied or lengthened by the initial delay, up to the cap |
| `Retry.JitteredIs` | src/aduib_rpc/resilience/retry_policy.py:110-114 | jitter adds the draw times the configured share of the delay; the floor at zero is never reached |
| `Retry.SleepBound` | src/aduib_rpc/resilience/retry_policy.py:109-114 | one sleep lies between zero and the cap widened by the jitter |
| `Retry.CapHoldsExactly` | src/aduib_rpc/resilience/retry_policy.py:109-114 | no draw makes a sleep pass max_delay iff the widened base delay does not |
| `RetryThroughBreaker.Execute` | src/aduib_rpc/resilience/retry_policy.py:130-138 | whatever state other callers bring the breaker into between and during the attempts: stops where the plain loop would, given what the breaker lets it see, and leaves the breaker as that many attempts do |
| `RetryThroughBreaker.RejectionEnds` | src/aduib_rpc/resilience/retry_policy.py:116-118 | the first attempt the breaker rejects, in whatever state, is the last |
| `RetryThroughBreaker.OneAttempt` | src/aduib_rpc/resilience/retry_policy.py:130-138 | undisturbed, through a closed breaker: the loop sees what the callable did; success clears the failures, an excluded exception leaves no trace, another counts once and opens the breaker at the threshold |
| `RetryThroughBreaker.BreakerCutsShort` | src/aduib_rpc/resilience/retry_policy.py:116-118 | undisturbed, against a callable that keeps failing, a closed breaker with f failures lets at most failure_threshold - f attempts through; the next, before the timeout, is rejected and ends the loop |
| `Bulkhead.RunBounds` | src/aduib_rpc/resilience/bulkhead.py:182-216 | in every run tasks inside stay within the real limit, inside and waiting within the depth, and when all have left the state is the initial one |
| `Bulkhead.WaitingForTheSemaphore` | src/aduib_rpc/resilience/bulkhead.py:182-197 | with 1 <= depth <= maximum the semaphore never blocks; with a deeper queue at most depth - maximum tasks wait for it |
| `Bulkhead.RealLimitExactly` | src/aduib_rpc/resilience/bulkhead.py:89-96 | n tasks can be inside at once iff n is within the real limit; the documented limit is reached iff depth is 0 or at least the maximum |
| `Bulkhead.Fill` | src/aduib_rpc/resilience/bulkhead.py:182-211 | a run that brings any number within the real limit inside |
| `Bulkhead.ExtraReleaseAddsPermit` | src/aduib_rpc/resilience/bulkhead.py:199-206 | one release too many adds a permit for good |
| `Bulkhead.ExecutionsLeaveNoTrace` | src/aduib_rpc/resilience/bulkhead.py:121-130 | executions leave the state as it was, however they interleave and wait, whoever else is inside |
| `Bulkhead.Bulkhead.constructor` | src/aduib_rpc/resilience/bulkhead.py:82-96 | configuration as given or clamped, all permits free, empty queue |
| `Bulkhead.Bulkhead.TryAcquire` | src/aduib_rpc/resilience/bulkhead.py:141-165 | succeeds exactly when nobody is seen waiting, a permit is free and the queue has room; with nobody waiting, when one more task fits within the real limit; refusal changes nothing |
| `LruOrder.EvictedIsLeastRecent` | src/aduib_rpc/resilience/cache.py:209-224 | when the front entry is evicted, at least as many other keys as the cache held were touched since its own last touch |
| `LruOrder.LooksAreInvisible` | src/aduib_rpc/resilience/cache.py:307-328 | neither a read nor an existence check changes which entries are live later, or their contents |
| `LruOrder.TouchKeepsAccount` | src/aduib_rpc/resilience/cache.py:209-224 | every touch keeps the account: a written key that is gone was removed, or at least max_size other keys were touched since its last touch |
| `LruRuns.Replay` | src/aduib_rpc/resilience/cache.py:192-328 | every run on a fresh cache: a hit is the value last written; size is at most max_size plus the increments; a key neither removed nor found absent since its last write is still there unless at least max_size others were touched since its last touch, so always when the run names at most max_size keys |
| `LruCache.InMemoryIdempotencyCache.constructor` | src/aduib_rpc/resilience/cache.py:192-196 | an empty cache with clamped size and lifetime |
| `LruCache.InMemoryIdempotencyCache.Get` | src/aduib_rpc/resilience/cache.py:198-207 | a hit is the value last written under the key and becomes most recent; an expired entry is dropped; nothing else moves |
| `LruCache.InMemoryIdempotencyCache.Append` | src/aduib_rpc/resilience/cache.py:212-214 | a full cache loses its front entry only, after at least max_size other keys were touched |
| `LruCache.InMemoryIdempotencyCache.Set` | src/aduib_rpc/resilience/cache.py:209-214 | overwriting keeps the position and is no touch; a new key goes last; eviction as for Append |
| `LruCache.InMemoryIdempotencyCache.Add` | src/aduib_rpc/resilience/cache.py:216-224 | adds iff no live entry; an expired one is dropped first; eviction of other keys as for Append |
| `LruCache.InMemoryIdempotencyCache.Delete` | src/aduib_rpc/resilience/cache.py:226-228 | the key goes, the others stay, and the answer says whether it was stored |
| `LruCache.InMemoryIdempotencyCache.GetMany` | src/aduib_rpc/resilience/cache.py:234-241 | keys get the value last written; while the clock does not go back exactly the keys live when read, each hit a touch in order, and nothing live later is lost |
| `LruCache.InMemoryIdempotencyCache.SetMany` | src/aduib_rpc/resilience/cache.py:243-249 | the items written in order; whole new contents and touches, evictions accounted for item by item |
| `LruCache.InMemoryIdempotencyCache.DeleteMany` | src/aduib_rpc/resilience/cache.py:251-257 | exactly the given keys go; the count is the number of entries removed |
| `LruCache.InMemoryIdempotencyCache.Contains` | src/aduib_rpc/resilience/cache.py:259-261 | whether the key is live; an expired entry is dropped |
| `LruCache.InMemoryIdempotencyCache.Ttl` | src/aduib_rpc/resilience/cache.py:263-275 | the remaining time of a live entry, -1 without expiry, None otherwise |
| `LruCache.InMemoryIdempotencyCache.Incr` | src/aduib_rpc/resilience/cache.py:277-294 | adds to a live integer or creates the key; a touch; creating evicts nothing, so size is at most max_size plus the creating increments |
| `LruCache.OverwrittenSurvivesExactly` | src/aduib_rpc/resilience/cache.py:209-214 | after a held key was overwritten, the next new key drops it iff the cache is full and the key its oldest |
| `LruCache.OverwriteThenInsert` | src/aduib_rpc/resilience/cache.py:209-214 | the same of the object's two calls |
| `LruCache.LivesExactly` | src/aduib_rpc/resilience/cache.py:299-305 | an entry written at a time is found until the given lifetime has passed, not at all after a non-positive one, until the configured one has passed if none is given; other keys are found as before unless dropped |
| `TtlCache.SameAnswers` | src/aduib_rpc/resilience/cache.py:158-186 | the purged and the never-purged map agree on value, liveness and remaining time from now on |
| `TtlCache.InMemoryCache.Set` | src/aduib_rpc/resilience/cache.py:74-77 | the ideal map with the entry |
| `TtlCache.InMemoryCache.Add` | src/aduib_rpc/resilience/cache.py:79-85 | adds iff not live in the ideal map |
| `TtlCache.InMemoryCache.Delete` | src/aduib_rpc/resilience/cache.py:87-89 | the answer differs from ideal liveness exactly for an expired entry not purged yet |
| `TtlCache.InMemoryCache.GetMany` | src/aduib_rpc/resilience/cache.py:95-102 | the ideal map's answer, each key at its own two clock readings |
| `TtlCache.InMemoryCache.SetMany` | src/aduib_rpc/resilience/cache.py:104-108 | the ideal map with all entries |
| `TtlCache.InMemoryCache.DeleteMany` | src/aduib_rpc/resilience/cache.py:110-116 | the ideal map without the keys; the count is the number of stored entries removed |
| `TtlCache.InMemoryCache.Contains` | src/aduib_rpc/resilience/cache.py:118-120 | live in the ideal map |
| `TtlCache.InMemoryCache.Ttl` | src/aduib_rpc/resilience/cache.py:122-134 | the ideal map's remaining time |
| `TtlCache.InMemoryCache.Incr` | src/aduib_rpc/resilience/cache.py:136-150 | the ideal map's result and new state |
| `TtlCache.Perform` | src/aduib_rpc/resilience/cache.py:69-150 | any operation is answered as by the ideal map |
| `TtlCache.Replay` | src/aduib_rpc/resilience/cache.py:69-150 | every operation sequence under a nondecreasing clock is answered exactly as by a map that never purges |
| `TtlCache.StepMeans` | src/aduib_rpc/resilience/cache.py:69-186 | each operation's answer, and what a get of any key at any time finds after it, by what gets found before it; lifetimes are spelled out, and the remaining time says exactly how long a get goes on finding the value |
| `ConsistentHash.MinimalDisruption` | src/aduib_rpc/discover/load_balance/load_balance.py:60-88 | deleting one instance leaves every key it did not own with its owner, for any hash and with collisions |
| `ConsistentHash.InsertionMovesOnlyToTheNew` | src/aduib_rpc/discover/load_balance/load_balance.py:60-88 | inserting an instance anywhere moves keys only to it |
| `ConsistentHash.HasOwner` | src/aduib_rpc/discover/load_balance/load_balance.py:84-88 | with an instance and a virtual node every key has an owner |
| `ConsistentHash.OwnerUnique` | src/aduib_rpc/discover/load_balance/load_balance.py:84-88 | and only one |
| `ConsistentHash.NodeKeysDiffer` | src/aduib_rpc/discover/load_balance/load_balance.py:66-66 | a virtual node's key is id, `#`, decimal number; different ids or numbers give different keys |
| `ConsistentHash.PointsExactly` | src/aduib_rpc/discover/load_balance/load_balance.py:64-69 | which points are occupied, and which list position writes a point last, said of ids, numbers and the hash |
| `ConsistentHash.SuccessorIsNearest` | src/aduib_rpc/discover/load_balance/load_balance.py:84-88 | for hashes of any size the successor is the nearest occupied point in clockwise direction |
| `ConsistentHash.OrderImmaterialExactly` | src/aduib_rpc/discover/load_balance/load_balance.py:64-69 | every list order selects alike iff different instances never share a ring point |
| `ConsistentHash.Bisect` | src/aduib_rpc/discover/load_balance/load_balance.py:85-85 | splits the keys into those at or before the hash and those after |
| `ConsistentHash.ConsistentHashLB.InitHashRing` | src/aduib_rpc/discover/load_balance/load_balance.py:60-71 | the ring holds exactly the hit points, each with its last writer; the key list is sorted and has the same points |
| `ConsistentHash.ConsistentHashLB.SelectInstance` | src/aduib_rpc/discover/load_balance/load_balance.py:76-88 | None iff there is no virtual node; with a key the owner of its hash; without, some listed instance |
| `ConsistentHash.ConsistentHashLB.SortedSuccessor` | src/aduib_rpc/discover/load_balance/load_balance.py:84-88 | the bisection point, wrapped, is the successor on the ring |
| `Encoder.EncodeFacts` | src/aduib_rpc/utils/encoders.py:113-119 | a traversal of any finite graph shows the graph node by node, expands exactly what it adds to the seen set, each once, and marks only what was seen |
| `Encoder.MarkerExactlyWhenReachedTwice` | src/aduib_rpc/utils/encoders.py:116-119 | the marker appears iff some container is reached along two paths |
| `Encoder.ExpandsEachReachableOnce` | src/aduib_rpc/utils/encoders.py:190-238 | exactly the reachable containers are expanded, each once |
| `Encoder.OutputRenders` | src/aduib_rpc/utils/encoders.py:190-238 | for any graph the output shows a sequence by all its elements in order, a mapping by exactly the entries the two filters keep, in order, and any container either so or by the marker |
| `Encoder.OtherwisePlainUnfolding` | src/aduib_rpc/utils/encoders.py:190-238 | when nothing is reached twice an output is the plain unfolding of the graph, said of elements and entries, iff it is the encoder's |
| `Encoder.RenderingIsUnique` | src/aduib_rpc/utils/encoders.py:190-238 | an object has at most one unfolding |
| `Encoder.Traversal.JsonableEncoder` | src/aduib_rpc/utils/encoders.py:93-119 | the recursion over the shared set computes the specified output and set, and terminates |
| `Encoder.Traversal.EncodeItems` | src/aduib_rpc/utils/encoders.py:191-219 | the mapping loop keeps, in order, the entries the filters keep |
| `Encoder.Traversal.EncodeElems` | src/aduib_rpc/utils/encoders.py:222-238 | the sequence loop encodes every element in order |
| `ThriftWire.SkipIsExact` | src/aduib_rpc/thrift_v2/ttypes.py:370-372 | skip consumes exactly one value of any type and depth |
| `ThriftStruct.ReadIsExact` | src/aduib_rpc/thrift_v2/ttypes.py:544-600 | over tokens that carry their type: read succeeds iff the value conforms, with its meaning, and stops right behind it |
| `ThriftStruct.ReadsConforming` | src/aduib_rpc/thrift_v2/ttypes.py:544-600 | every well-typed value that conforms is read with its meaning, and the reader stops right behind it |
| `ThriftStruct.SetExactly` | src/aduib_rpc/thrift_v2/ttypes.py:324-372 | over tokens that carry their type: read fails iff the fields do not conform; otherwise an attribute is set iff some field has its id and its type |
| `ThriftRepeats.LastFieldWins` | src/aduib_rpc/thrift_v2/ttypes.py:324-372 | of several fields for one attribute the last one is read |
| `ThriftRepeats.LastEntryWins` | src/aduib_rpc/thrift_v2/ttypes.py:352-367 | a map is read as the dict of its pairs: keys in order of first occurrence, each with its last value |
| `ThriftStruct.SkippedExactly` | src/aduib_rpc/thrift_v2/ttypes.py:324-372 | one more field among conforming ones makes no difference to what is read iff its id is unknown or its own type is not the expected one |
| `ThriftStruct.MeaningOfWritten` | src/aduib_rpc/thrift_v2/ttypes.py:602-632 | what write emits is well typed, conforms, and means the object |
| `ThriftStruct.RoundTrip` | src/aduib_rpc/thrift_v2/ttypes.py:544-632 | read after write restores every object; unset attributes stay unset, empty lists and dicts stay empty |
| `ThriftStruct.KnownMeansTheSame` | src/aduib_rpc/thrift_v2/ttypes.py:324-372 | dropping unknown or mistyped fields at any depth changes neither readability nor meaning |
| `ThriftStruct.ReadsBackWithExtraFields` | src/aduib_rpc/thrift_v2/ttypes.py:324-372 | an object reads back also when such fields were inserted anywhere |
| `ThriftProtocol.Protocol.ReadValue` | src/aduib_rpc/thrift_v2/ttypes.py:311-373 | the in-place reader does what the specified reader does |
| `ThriftProtocol.Protocol.ReadStruct` | src/aduib_rpc/thrift_v2/ttypes.py:552-600 | the field loop, from an object with nothing set |
| `ThriftProtocol.Protocol.ReadList` | src/aduib_rpc/thrift_v2/ttypes.py:581-588 | the element loop |
| `ThriftProtocol.Protocol.ReadMap` | src/aduib_rpc/thrift_v2/ttypes.py:352-367 | the entry loop; a repeated key keeps its place and takes the later value |
| `ThriftProtocol.Protocol.WriteValue` | src/aduib_rpc/thrift_v2/ttypes.py:375-402 | appends exactly the specified tokens |
| `ThriftProtocol.Protocol.WriteStruct` | src/aduib_rpc/thrift_v2/ttypes.py:607-632 | the set attributes, in declaration order |
| `ThriftProtocol.Protocol.WriteList` | src/aduib_rpc/thrift_v2/ttypes.py:620-626 | all elements behind the list header |
| `ThriftProtocol.Protocol.WriteMap` | src/aduib_rpc/thrift_v2/ttypes.py:393-400 | all entries behind the map header |
| `ThriftProtocol.WriteThenRead` | src/aduib_rpc/thrift_v2/ttypes.py:544-632 | one protocol object writes, another reads the object back and leaves the rest of the buffer |
| `ThriftProtocol.RpcErrorReadsBack` | src/aduib_rpc/thrift_v2/ttypes.py:544-632 | any RpcError with details, metadata and debug info reads back, also with unknown fields at any depth |
| `ThriftProtocol.ErrorHasType` | src/aduib_rpc/thrift_v2/ttypes.py:530-542 | every RpcError object fits its schema |
| `ThriftProtocol.WrittenErrorIs` | src/aduib_rpc/thrift_v2/ttypes.py:602-632 | what an RpcError is on the wire, with nested details and debug info: which attribute goes under which id and type; unset ones do not go |
| `ThriftProtocol.ErrorObjectIsFaithful` | src/aduib_rpc/thrift_v2/ttypes.py:530-542 | two errors with the same attribute list are equal |
| `ThriftProtocol.SchemasDistinct` | src/aduib_rpc/thrift_v2/ttypes.py:2979-3072 | field ids are distinct throughout the schemas of RpcError and TaskRecord |
| `ThriftProtocol.WrongElementTypeIsNotSkipped` | src/aduib_rpc/thrift_v2/ttypes.py:580-590 | a list added under the id of details is never skipped, whatever its elements; it makes this reader fail iff some element is not a detail |
| `Fallback.FlattenSame` | src/aduib_rpc/resilience/fallback.py:145-161 | dissolving all chains changes neither result, leaf calls and their order, nor the last error |
| `Fallback.FlatteningPreservesMeaning` | src/aduib_rpc/resilience/fallback.py:199-236 | an executor over a tree and one over its leaves in order agree in answer, calls, last handler error and cached values |
| `Fallback.AnswerExactly` | src/aduib_rpc/resilience/fallback.py:199-236 | the answer of every tree, from its leaves: a success is returned, an error not to be caught re-raised without a call; else the first able leaf that succeeds answers and exactly the able leaves up to it were called; if none does, all were, and the answer is the original or the exhausted error with that of the last |
| `Fallback.CellsAreCachedLeaves` | src/aduib_rpc/resilience/fallback.py:261-266 | the cells that are updated are exactly the cached handlers among the leaves, at any depth |
| `Fallback.ExhaustedIsUnreachable` | src/aduib_rpc/resilience/fallback.py:158-161 | a chain that was asked first never raises its own exhausted error |
| `Fallback.CanIsSomeLeaf` | src/aduib_rpc/resilience/fallback.py:140-143 | a chain can handle iff one of its leaves can |
| `Fallback.CachedCellsOfFlat` | src/aduib_rpc/resilience/fallback.py:261-266 | flattening keeps the cached handlers and their order |
| `Fallback.CachedIsLastSuccess` | src/aduib_rpc/resilience/fallback.py:255-259 | over any series of executions every cached handler in the tree holds the last success, and other cells are untouched |
| `Fallback.FallbackExecutor.HandleWith` | src/aduib_rpc/resilience/fallback.py:145-161 | the handler loop computes the specified result and call log |
| `Fallback.FallbackExecutor.UpdateCached` | src/aduib_rpc/resilience/fallback.py:261-266 | the recursive walk updates exactly the cached handlers below |
| `Fallback.FallbackExecutor.Run` | src/aduib_rpc/resilience/fallback.py:199-236 | answer, call log and cells are the specified execution's |
| `SyncModels.FindClassBlock` | scripts/sync_proto_thrift_v2.py:569-583 | the first header of the class, up to the next header |
| `SyncModels.FindClassBodyStart` | scripts/sync_proto_thrift_v2.py:586-601 | behind blanks and docstring, as specified |
| `SyncModels.BodyStartIs` | scripts/sync_proto_thrift_v2.py:586-601 | the body starts at the first line that is not blank, or behind the docstring that starts there: its own line if that has the quote twice, else the next line with it, else the end of the block |
| `SyncModels.SyncModelClass` | scripts/sync_proto_thrift_v2.py:482-529 | the specified rewrite; changed iff it differs |
| `SyncModels.ScanBody` | scripts/sync_proto_thrift_v2.py:498-511 | the non-field lines in order, and the last line of each field the message mentions |
| `SyncModels.EmitManaged` | scripts/sync_proto_thrift_v2.py:513-520 | one line per proto field, in proto order |
| `SyncModels.SameBlock` | scripts/sync_proto_thrift_v2.py:528-529 | the rewritten file has the same class block with the new body in it |
| `SyncModels.ManagedStable` | scripts/sync_proto_thrift_v2.py:513-520 | a second pass emits the same line for a field |
| `SyncModels.UnclosedGrows` | scripts/sync_proto_thrift_v2.py:597-601 | with a docstring that does not end in the block a second run appends the fields again |
| `SyncModels.ClosedExactly` | scripts/sync_proto_thrift_v2.py:482-529 | with a docstring that ends in the block a second run is idle iff all names are identifiers |
| `SyncModels.IdempotentExactly` | scripts/sync_proto_thrift_v2.py:482-529 | for every file, class, message and both modes: a second run is idle iff the message has no fields, or the docstring ends in the block and all names are identifiers |
| `SyncModels.SyncKeeps` | scripts/sync_proto_thrift_v2.py:498-528 | everything outside the body and the non-field lines keep their order; before them stand the fields in proto order, each as the last existing line of its name unless there is none or types are updated, else with the text the last proto field of the name gives; then a blank line where the first non-field line is not blank; without fields the body becomes the non-field lines |
| `Health.CountersAreRuns` | src/aduib_rpc/discover/registry/health_aware_registry.py:149-164 | the two counters are the trailing runs of healthy and of other results |
| `Health.ChangesCost` | src/aduib_rpc/discover/registry/health_aware_registry.py:152-164 | changes times the smaller threshold, plus the progress towards the next change, is within the number of checks |
| `Health.FlapBound` | src/aduib_rpc/discover/registry/health_aware_registry.py:152-164 | status changes times the smaller threshold never exceed the number of checks |
| `Health.StatusIsLastLongRun` | src/aduib_rpc/discover/registry/health_aware_registry.py:152-164 | the status says which kind of run last reached its threshold, or that none has |
| `Health.ResultsAre` | src/aduib_rpc/client/transports/health_aware.py:409-432 | which results an instance is judged by: those under its address in the registry, under its id in the transport, in the order of the checks |
| `Health.OfferedExactly` | src/aduib_rpc/discover/registry/health_aware_registry.py:87-101 | who is offered, by the history of checks: in the registry iff there is no result, or the last long run was healthy, or there was none and the last result was healthy; in the transport iff the last long run was healthy |
| `Health.FilterKeeps` | src/aduib_rpc/discover/registry/health_aware_registry.py:87-101 | a filter keeps the qualifying instances in list order |
| `Health.CopiesAgreeExactly` | src/aduib_rpc/client/transports/health_aware.py:426-455 | registry and transport agree about an instance after every series of checks of two iff no check can raise and the two have the same address exactly when they have the same id |
| `Health.RaisingDisagrees` | src/aduib_rpc/client/transports/health_aware.py:409-424 | enough raising checks make an instance unhealthy for the transport and leave no entry in the registry |
| `Health.HealthCache.CheckInstance` | src/aduib_rpc/discover/registry/health_aware_registry.py:130-164 | the entry is the one its history gives, others are untouched; a check that raises passes by the registry's entry and counts as unhealthy in the transport |
| `Health.HealthCache.RecordResult` | src/aduib_rpc/client/transports/health_aware.py:426-442 | the entry update both copies share |
| `Health.HealthCache.ListHealthyInstances` | src/aduib_rpc/discover/registry/health_aware_registry.py:79-111 | unknown, healthy and last-seen-healthy instances in order; else all, if allowed |
| `Health.HealthCache.ListCachedHealthy` | src/aduib_rpc/client/transports/health_aware.py:320-328 | known healthy instances in order; else all, if allowed |

## Left out

- Transports, servers, client factories, pools, TLS, telemetry, configuration loading and file polling are not part of this model.
- Scheduling inside asyncio: event wake-ups between waiters, and `wait_for` timeouts of the bulkhead, where a task that times out has taken nothing.
- Task cancellation: every admitted call reports, and every acquire is matched by one release.
- Floating-point rounding: times, rates and delays are reals.
- MD5: the ring works for any hash function.
- `RandomLB` and `WeightedRoundRobinLB`: a random choice, and a cycle that is rebuilt on every call.
- Encoder branches for pydantic models, dataclasses, enums, custom encoders and the `dict`/`vars` fall-backs, mapping keys other than strings, and Python's recursion limit.
- The byte encoding below the Thrift protocol object, the accelerated paths, and integer widths; a struct is its attribute list, not an object updated field by field.
- The line patterns of the synchroniser: a line is abstracted to its kind and its quote counts. Proto parsing and Thrift generation are not part of this model.
- `can_handle` of a leaf is pure, and a cached handler is a numbered cell rather than a heap object.
- Health entries are values; staleness and the refresh loops that decide when to check are left out.
- RateLimiter.RateLimiter.AcquireOrWait: models one caller that nobody disturbs; with other callers each round is `WaitRound`, but how often their wake-ups repeat it is not bounded.
- Bulkhead.Bulkhead.TryAcquire: models the call as one step, as when nothing runs between its checks and its acquire.
- LruCache.InMemoryIdempotencyCache.GetMany: which keys it reports is stated only while the wall clock does not go back during the call.
- Bulkhead.Bulkhead.Execute: models a call that does not have to wait; calls that wait are the interleaved steps of `ExecutionsLeaveNoTrace`.
- ThriftStruct.ReadIsExact: that a mistyped value makes read fail assumes a protocol that checks value types; the binary protocol does not tag values and may return a wrong object instead. `ReadsConforming` does not depend on it.
- ThriftStruct.SetExactly: that read fails on fields that do not conform assumes such a protocol too; so does the failure in `WrongElementTypeIsNotSkipped`.
- ThriftProtocol.Protocol.ReadValue: a mistyped value fails here, as above.
- TtlCache.InMemoryCache.GetMany: the result is a map; the order of its keys is not modelled.
- Retry.Execute: a breaker appears only as the outcome "rejected", and a callable that itself raises the open-breaker error is not told apart from it; `RetryThroughBreaker.Execute` has the breaker itself.
