/**
 The circuit breaker's lock-held steps, the object that performs them in place, and the
 retry metadata it reports. A call's outcome arrives later, in another step.
 */
module CircuitBreaker {
  import opened Wrappers

  datatype CircuitState = Closed | Open | HalfOpen

  /** The normalised configuration; `excludes` says whether any exception type is excluded. */
  datatype Config = Config(failureThreshold: int, successThreshold: int, timeout: real,
                           halfOpenMaxCalls: int, excludes: bool)

  datatype Outcome = Success | Failure | Excluded

  datatype Core = Core(state: CircuitState, failureCount: int, successCount: int,
                       openedAt: Option<real>, halfOpenInFlight: int)

  const INITIAL := Core(Closed, 0, 0, None, 0)

  predicate ValidConfig(c: Config) {
    c.failureThreshold >= 1 && c.successThreshold >= 1 && c.timeout >= 0.0 && c.halfOpenMaxCalls >= 1
  }

  function AtLeastOne(n: int): int { if n < 1 then 1 else n }

  function EnterOpen(cfg: Config, c: Core, now: real): Core {
    Core(Open, cfg.failureThreshold, 0, if c.state.Open? then c.openedAt else Some(now), 0)
  }

  function EnterHalfOpen(): Core { Core(HalfOpen, 0, 0, None, 0) }

  function EnterClosed(): Core { Core(Closed, 0, 0, None, 0) }

  predicate TimeoutElapsed(cfg: Config, c: Core, now: real) {
    cfg.timeout <= 0.0 || (c.openedAt.Some? && now - c.openedAt.value >= cfg.timeout)
  }

  /** One admission decision: the new state, and the tag the call starts under (None: rejected). */
  function BeforeCall(cfg: Config, c: Core, now: real): (Core, Option<CircuitState>) {
    var c1 := if c.state.Open? && TimeoutElapsed(cfg, c, now) then EnterHalfOpen() else c;
    match c1.state
    case Open => (c1, None)
    case HalfOpen =>
      if c1.halfOpenInFlight >= cfg.halfOpenMaxCalls then (c1, None)
      else (c1.(halfOpenInFlight := c1.halfOpenInFlight + 1), Some(HalfOpen))
    case Closed => (c1, Some(Closed))
  }

  function Release(c: Core): Core {
    c.(halfOpenInFlight := if c.halfOpenInFlight > 0 then c.halfOpenInFlight - 1 else c.halfOpenInFlight)
  }

  function RecordSuccess(cfg: Config, c: Core, tag: CircuitState, now: real): Core {
    var c1 := if tag.HalfOpen? then Release(c) else c;
    if tag.HalfOpen? && c1.state.HalfOpen? then
      if c1.successCount + 1 >= cfg.successThreshold then EnterClosed()
      else c1.(successCount := c1.successCount + 1)
    else if c1.state.Closed? then c1.(failureCount := 0)
    else c1
  }

  function RecordFailure(cfg: Config, c: Core, tag: CircuitState, now: real): Core {
    var c1 := if tag.HalfOpen? then Release(c) else c;
    if tag.HalfOpen? && c1.state.HalfOpen? then EnterOpen(cfg, c1, now)
    else if c1.state.Closed? then
      var c2 := c1.(failureCount := c1.failureCount + 1);
      if c2.failureCount >= cfg.failureThreshold then EnterOpen(cfg, c2, now) else c2
    else c1
  }

  function RecordIgnored(c: Core, tag: CircuitState): Core {
    if tag.HalfOpen? then Release(c) else c
  }

  function Record(cfg: Config, c: Core, tag: CircuitState, outcome: Outcome, now: real): Core {
    match outcome
    case Success => RecordSuccess(cfg, c, tag, now)
    case Failure => RecordFailure(cfg, c, tag, now)
    case Excluded => RecordIgnored(c, tag)
  }

  /** The wait a rejection reports, in milliseconds, truncated. */
  function RetryAfterMs(cfg: Config, c: Core, now: real): int {
    if c.state.Open? && c.openedAt.Some? then
      var remaining := cfg.timeout - (now - c.openedAt.value);
      if remaining <= 0.0 then 0 else (remaining * 1000.0).Floor
    else 0
  }

  /** Documented as when to retry, but truncated: an open breaker that is left alone admits a
      call exactly `retry_after_ms` later if and only if the remaining time is a whole number
      of milliseconds; one more millisecond is always enough. */
  lemma RetryHintIsEarly(cfg: Config, c: Core, now: real)
    requires ValidConfig(cfg) && c.state.Open? && c.openedAt.Some? && c.openedAt.value <= now
    requires BeforeCall(cfg, c, now).1.None?
    ensures var h := RetryAfterMs(cfg, c, now);
      var remaining := cfg.timeout - (now - c.openedAt.value);
      && h >= 0
      && (BeforeCall(cfg, c, now + h as real / 1000.0).1.Some?
          <==> (remaining * 1000.0).Floor as real == remaining * 1000.0)
      && BeforeCall(cfg, c, now + (h + 1) as real / 1000.0).1.Some?
  {
  }

  /** The breaker object. */
  class CircuitBreaker {
    const cfg: Config
    var state: CircuitState
    var failureCount: int
    var successCount: int
    var openedAt: Option<real>
    var halfOpenInFlight: int

    function View(): Core
      reads this
    {
      Core(state, failureCount, successCount, openedAt, halfOpenInFlight)
    }

    constructor (failureThreshold: int, successThreshold: int, timeout: real, halfOpenMaxCalls: int, excludes: bool)
      ensures View() == INITIAL && ValidConfig(cfg) && cfg.excludes == excludes
      ensures cfg.failureThreshold == AtLeastOne(failureThreshold)
      ensures cfg.successThreshold == AtLeastOne(successThreshold)
      ensures cfg.timeout == if timeout >= 0.0 then timeout else 0.0
      ensures cfg.halfOpenMaxCalls == AtLeastOne(halfOpenMaxCalls)
    {
      cfg := Config(AtLeastOne(failureThreshold), AtLeastOne(successThreshold), if timeout < 0.0 then 0.0 else timeout,
                    AtLeastOne(halfOpenMaxCalls), excludes);
      state, failureCount, successCount, openedAt, halfOpenInFlight := Closed, 0, 0, None, 0;
    }

    method EnterOpenLocked(now: real)
      modifies this
      ensures View() == old(EnterOpen(cfg, View(), now))
    {
      if state != Open {
        state := Open;
        openedAt := Some(now);
      }
      failureCount := cfg.failureThreshold;
      successCount := 0;
      halfOpenInFlight := 0;
    }

    method EnterHalfOpenLocked()
      modifies this
      ensures View() == EnterHalfOpen()
    {
      state, openedAt := HalfOpen, None;
      failureCount, successCount, halfOpenInFlight := 0, 0, 0;
    }

    method EnterClosedLocked()
      modifies this
      ensures View() == EnterClosed()
    {
      state, openedAt := Closed, None;
      failureCount, successCount, halfOpenInFlight := 0, 0, 0;
    }

    method Reset()
      modifies this
      ensures View() == INITIAL
    {
      EnterClosedLocked();
    }

    method BeginCall(now: real) returns (tag: Option<CircuitState>, retryAfterMs: int)
      modifies this
      ensures (View(), tag) == old(BeforeCall(cfg, View(), now))
      ensures tag.None? ==> retryAfterMs == RetryAfterMs(cfg, View(), now)
    {
      retryAfterMs := 0;
      if state == Open && (cfg.timeout <= 0.0 || (openedAt.Some? && now - openedAt.value >= cfg.timeout)) {
        EnterHalfOpenLocked();
      }
      if state == Open {
        return None, RetryAfterMs(cfg, View(), now);
      }
      if state == HalfOpen {
        if halfOpenInFlight >= cfg.halfOpenMaxCalls { return None, RetryAfterMs(cfg, View(), now); }
        halfOpenInFlight := halfOpenInFlight + 1;
        return Some(HalfOpen), 0;
      }
      return Some(Closed), 0;
    }

    method ReleaseHalfOpenSlot()
      modifies this`halfOpenInFlight
      ensures View() == old(Release(View()))
    {
      if halfOpenInFlight > 0 { halfOpenInFlight := halfOpenInFlight - 1; }
    }

    /** One report of a finished call, under the tag its admission was given. */
    method EndCall(tag: CircuitState, outcome: Outcome, now: real)
      modifies this
      ensures View() == old(Record(cfg, View(), tag, outcome, now))
    {
      if tag == HalfOpen { ReleaseHalfOpenSlot(); }
      match outcome
      case Excluded =>
      case Success =>
        if tag == HalfOpen && state == HalfOpen {
          successCount := successCount + 1;
          if successCount >= cfg.successThreshold { EnterClosedLocked(); }
        } else if state == Closed {
          failureCount := 0;
        }
      case Failure =>
        if tag == HalfOpen && state == HalfOpen {
          EnterOpenLocked(now);
        } else if state == Closed {
          failureCount := failureCount + 1;
          if failureCount >= cfg.failureThreshold { EnterOpenLocked(now); }
        }
    }
  }
}
