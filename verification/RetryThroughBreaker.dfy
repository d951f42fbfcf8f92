/**
 Retries through a circuit breaker: each attempt first asks the breaker, and reports back to it.
 Other callers may bring the breaker into any state between the attempts and during them.
 */
module RetryThroughBreaker {
  import opened Wrappers
  import CB = CircuitBreaker
  import R = Retry

  /** What the callable does; `excluded` marks an exception of an excluded type. */
  datatype CallOutcome = Returns(value: int) | Raises(code: Option<int>, excluded: bool)

  /** What the callable does at attempt k, when the breaker is asked and told, and what other
      callers make of the breaker's state before attempt k and while its callable runs. */
  datatype Script = Script(calls: nat -> CallOutcome, begins: nat -> real, ends: nat -> real,
                           before: (nat, CB.Core) -> CB.Core, during: (nat, CB.Core) -> CB.Core)

  /** Nobody else uses the breaker. */
  ghost predicate Undisturbed(s: Script) {
    forall k, core :: s.before(k, core) == core && s.during(k, core) == core
  }

  function ReportOf(cfg: CB.Config, o: CallOutcome): CB.Outcome {
    match o
    case Returns(_) => CB.Success
    case Raises(_, excluded) => if excluded && cfg.excludes then CB.Excluded else CB.Failure
  }

  function AttemptOf(o: CallOutcome): R.Attempt {
    match o case Returns(v) => R.Succeeds(v) case Raises(code, _) => R.Fails(code)
  }

  /** Attempt k from a breaker state: the state it leaves, and what the retry loop sees. */
  function Round(cfg: CB.Config, core: CB.Core, s: Script, k: nat): (CB.Core, R.Attempt) {
    var (c1, tag) := CB.BeforeCall(cfg, s.before(k, core), s.begins(k));
    if tag.None? then (c1, R.Rejected)
    else
      var c2 := s.during(k, c1);
      (CB.Record(cfg, c2, tag.value, ReportOf(cfg, s.calls(k)), s.ends(k)), AttemptOf(s.calls(k)))
  }

  function CoreAfter(cfg: CB.Config, core: CB.Core, s: Script, k: nat): CB.Core {
    if k == 0 then core else Round(cfg, CoreAfter(cfg, core, s, k - 1), s, k).0
  }

  /** What the retry loop would see at each attempt. */
  function Seen(cfg: CB.Config, core: CB.Core, s: Script): nat -> R.Attempt {
    (k: nat) => if k == 0 then R.Rejected else Round(cfg, CoreAfter(cfg, core, s, k - 1), s, k).1
  }

  /** The other callers' doing. */
  method Become(b: CB.CircuitBreaker, core: CB.Core)
    modifies b
    ensures b.View() == core
  {
    b.state, b.failureCount, b.successCount := core.state, core.failureCount, core.successCount;
    b.openedAt, b.halfOpenInFlight := core.openedAt, core.halfOpenInFlight;
  }

  /** `_invoke` through the breaker. */
  method Invoke(b: CB.CircuitBreaker, s: Script, k: nat) returns (a: R.Attempt)
    modifies b
    ensures (b.View(), a) == Round(b.cfg, old(b.View()), s, k)
  {
    Become(b, s.before(k, b.View()));
    var tag, _ := b.BeginCall(s.begins(k));
    if tag.None? { return R.Rejected; }
    Become(b, s.during(k, b.View()));
    b.EndCall(tag.value, ReportOf(b.cfg, s.calls(k)), s.ends(k));
    return AttemptOf(s.calls(k));
  }

  /** Whatever state the breaker is in at each attempt, the retry loop stops where the plain loop
      would, given what the breaker let it see, and leaves the breaker as that many attempts do. */
  method Execute(given: R.Policy, b: CB.CircuitBreaker, s: Script, draws: nat -> real)
    returns (outcome: R.Outcome, made: nat, runs: nat, slept: real)
    requires forall k :: -1.0 <= draws(k) <= 1.0
    modifies b
    ensures var p, seen := R.Normalised(given), Seen(b.cfg, old(b.View()), s);
      && R.StopsAt(p, seen, made)
      && outcome == (if seen(made).Succeeds? then R.Value(seen(made).value) else R.Error(seen(made)))
      && runs == (if seen(made).Rejected? then made - 1 else made)
      && slept == R.SleptAfter(p, draws, made - 1)
    ensures b.View() == CoreAfter(b.cfg, old(b.View()), s, made)
  {
    hide R.Retryable, R.Normalised, R.SleptAfter, R.BaseDelay, R.Jittered, Round;
    var p := R.Normalised(given);
    ghost var core, seen := b.View(), Seen(b.cfg, b.View(), s);
    R.OneMoreSleep(p, draws, 0);
    slept, runs, made := 0.0, 0, 1;
    while made < p.maxAttempts + 1
      invariant 1 <= made <= p.maxAttempts && runs == made - 1
      invariant forall i :: 1 <= i < made ==> R.Retryable(p, seen(i))
      invariant b.View() == CoreAfter(b.cfg, core, s, made - 1)
      invariant slept == R.SleptAfter(p, draws, made - 1)
    {
      var a := Invoke(b, s, made);
      assert a == seen(made);
      R.OnlyFailuresAreRetried(p, a);
      if !a.Rejected? { runs := runs + 1; }
      if a.Succeeds? { return R.Value(a.value), made, runs, slept; }
      if made >= p.maxAttempts || !R.Retryable(p, a) { return R.Error(a), made, runs, slept; }
      R.SleepBound(p, made, draws(made));
      R.OneMoreSleep(p, draws, made - 1);
      var delay := R.Jittered(p, R.BaseDelay(p, made), draws(made)) / 1000.0;
      if delay > 0.0 { slept := slept + delay; }
      made := made + 1;
    }
    assert false;
  }

  /** One attempt through a closed breaker nobody else uses: the loop sees what the callable did, a
      success clears the failures, an excluded exception leaves no trace, any other counts once and
      opens the breaker when it is the last one allowed. An open breaker before its time rejects. */
  lemma OneAttempt(cfg: CB.Config, core: CB.Core, s: Script, k: nat)
    requires CB.ValidConfig(cfg) && Undisturbed(s)
    ensures var ((after, seen), o) := (Round(cfg, core, s, k), s.calls(k));
      core.state.Closed? ==>
        && seen == (match o case Returns(v) => R.Succeeds(v) case Raises(code, _) => R.Fails(code))
        && (o.Returns? ==> after == core.(failureCount := 0))
        && (o.Raises? && o.excluded && cfg.excludes ==> after == core)
        && (o.Raises? && !(o.excluded && cfg.excludes) ==>
              if core.failureCount + 1 < cfg.failureThreshold
              then after == core.(failureCount := core.failureCount + 1)
              else after.state.Open? && after.openedAt == Some(s.ends(k)))
    ensures core.state.Open? && core.openedAt.Some? && cfg.timeout > 0.0
            && s.begins(k) - core.openedAt.value < cfg.timeout ==>
              Round(cfg, core, s, k) == (core, R.Rejected)
  {
  }

  /** The first n attempts of a callable that keeps failing: the breaker counts up, and opens at
      the n-th if that is where its threshold lies. */
  lemma {:induction false} FailuresAddUp(cfg: CB.Config, core: CB.Core, s: Script, n: nat)
    requires core.state.Closed? && core.failureCount + n <= cfg.failureThreshold
    requires core.failureCount < cfg.failureThreshold
    requires Undisturbed(s) && forall k :: ReportOf(cfg, s.calls(k)) == CB.Failure
    ensures var c := CoreAfter(cfg, core, s, n);
      if core.failureCount + n < cfg.failureThreshold
      then c.state.Closed? && c.failureCount == core.failureCount + n
      else c.state.Open? && c.openedAt == Some(s.ends(n))
  {
    if n > 0 { FailuresAddUp(cfg, core, s, n - 1); }
  }

  lemma AdmittedUntilOpen(cfg: CB.Config, core: CB.Core, s: Script, k: nat)
    requires core.state.Closed? && 1 <= k && core.failureCount + k <= cfg.failureThreshold
    requires Undisturbed(s) && forall k :: ReportOf(cfg, s.calls(k)) == CB.Failure
    ensures Seen(cfg, core, s)(k).Fails?
  {
    FailuresAddUp(cfg, core, s, k - 1);
    hide CB.Record, CoreAfter;
  }

  lemma RejectedOnceOpen(cfg: CB.Config, core: CB.Core, s: Script, n: nat)
    requires core.state.Closed? && n >= 1 && core.failureCount + n == cfg.failureThreshold
    requires Undisturbed(s) && forall k :: ReportOf(cfg, s.calls(k)) == CB.Failure
    requires cfg.timeout > 0.0 && s.begins(n + 1) - s.ends(n) < cfg.timeout
    ensures Seen(cfg, core, s)(n + 1).Rejected? && CoreAfter(cfg, core, s, n + 1).state.Open?
  {
    FailuresAddUp(cfg, core, s, n);
    hide CB.Record;
  }

  /** Any breaker, at any time, ends the loop by one rejection. */
  lemma RejectionEnds(cfg: CB.Config, core: CB.Core, s: Script, p: R.Policy, made: nat, k: nat)
    requires R.StopsAt(p, Seen(cfg, core, s), made) && 1 <= k
    requires CB.BeforeCall(cfg, s.before(k, CoreAfter(cfg, core, s, k - 1)), s.begins(k)).1.None?
    ensures made <= k
    ensures made == k ==> Seen(cfg, core, s)(made).Rejected?
  {
    hide CoreAfter, CB.BeforeCall, CB.Record;
    assert Seen(cfg, core, s)(k).Rejected?;
    R.StopsBecause(p, Seen(cfg, core, s), made);
  }

  /** A breaker nobody else uses cuts retries short: against a callable that keeps failing with
      counted errors, a breaker that is closed with f failures lets at most failureThreshold - f
      attempts through; if its timeout has not run when the next one comes, that one is rejected
      and ends the loop. */
  lemma BreakerCutsShort(cfg: CB.Config, core: CB.Core, s: Script, p: R.Policy, made: nat)
    requires CB.ValidConfig(cfg) && core.state.Closed? && 0 <= core.failureCount < cfg.failureThreshold
    requires Undisturbed(s) && forall k :: ReportOf(cfg, s.calls(k)) == CB.Failure
    requires var n := cfg.failureThreshold - core.failureCount;
      cfg.timeout > 0.0 && s.begins(n + 1) - s.ends(n) < cfg.timeout
    requires R.ValidPolicy(p) && R.StopsAt(p, Seen(cfg, core, s), made)
    ensures var n, seen := cfg.failureThreshold - core.failureCount, Seen(cfg, core, s);
      && made <= n + 1
      && (made == n + 1 <==> seen(made).Rejected?)
      && (made == n + 1 ==> CoreAfter(cfg, core, s, made).state.Open?)
  {
    hide CoreAfter, Seen, ReportOf;
    var n: nat := cfg.failureThreshold - core.failureCount;
    RejectedOnceOpen(cfg, core, s, n);
    if made <= n { AdmittedUntilOpen(cfg, core, s, made); }
    R.StopsBecause(p, Seen(cfg, core, s), made);
  }
}
