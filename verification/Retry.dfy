/**
 The retry loop: how often the callable runs, when it stops, and how long it sleeps. What each
 attempt comes to, and each jitter draw, is arbitrary.
 */
module Retry {
  import opened Wrappers

  datatype Strategy = Fixed | Exponential | Linear

  /** What an attempt comes to. A rejection comes from an open circuit breaker, before the
      callable runs; an error has a code if it is an RPC error. */
  datatype Attempt = Succeeds(value: int) | Fails(code: Option<int>) | Rejected

  datatype Policy = Policy(maxAttempts: int, strategy: Strategy, initialDelay: int, maxDelay: int,
                           multiplier: real, jitter: real, codes: Option<set<int>>)

  predicate ValidPolicy(p: Policy) {
    p.maxAttempts >= 1 && 0 <= p.initialDelay <= p.maxDelay && p.multiplier >= 1.0 && 0.0 <= p.jitter <= 1.0
  }

  /** The executor's normalisation of what it is given. */
  function Normalised(p: Policy): (r: Policy)
    ensures ValidPolicy(r)
    ensures ValidPolicy(p) ==> r == p
  {
    var initial := if p.initialDelay < 0 then 0 else p.initialDelay;
    Policy(if p.maxAttempts < 1 then 1 else p.maxAttempts, p.strategy, initial,
           if p.maxDelay < initial then initial else p.maxDelay,
           if p.multiplier < 1.0 then 1.0 else p.multiplier,
           if p.jitter < 0.0 then 0.0 else if p.jitter > 1.0 then 1.0 else p.jitter, p.codes)
  }

  predicate Retryable(p: Policy, a: Attempt) {
    a.Fails? && (p.codes.Some? ==> a.code.Some? && a.code.value in p.codes.value)
  }

  // ---------------------------------------------------------------- delays

  function Power(m: real, k: nat): real { if k == 0 then 1.0 else m * Power(m, k - 1) }

  /** Milliseconds before the cap. */
  function Uncapped(p: Policy, attempt: nat): real {
    match p.strategy
    case Fixed => p.initialDelay as real
    case Exponential => p.initialDelay as real * Power(p.multiplier, if attempt == 0 then 0 else attempt - 1)
    case Linear => p.initialDelay as real * attempt as real
  }

  /** Milliseconds before jitter, after the cap. */
  function BaseDelay(p: Policy, attempt: nat): real {
    var base := Uncapped(p, attempt);
    if base <= p.maxDelay as real then base else p.maxDelay as real
  }

  function Spread(p: Policy, base: real): real { p.jitter * base }

  /** How far a draw in [-1, 1] moves within a spread. */
  function Deviation(draw: real, spread: real): real { draw * spread }

  /** `draw` is in [-1, 1]. */
  function Jittered(p: Policy, base: real, draw: real): real {
    if p.jitter > 0.0 && base > 0.0 then
      var d := base + Deviation(draw, Spread(p, base));
      if d < 0.0 then 0.0 else d
    else base
  }

  /** The cap, widened by the jitter, in seconds. */
  function WidestSleep(p: Policy): real {
    (p.maxDelay as real + Spread(p, p.maxDelay as real)) / 1000.0
  }

  lemma SpreadGrows(p: Policy, x: real, y: real)
    requires ValidPolicy(p) && 0.0 <= x <= y
    ensures 0.0 <= Spread(p, x) <= Spread(p, y)
  {
    Scales(p.jitter, 0.0, x);
    Scales(p.jitter, x, y);
  }

  lemma DeviationBound(draw: real, spread: real)
    requires -1.0 <= draw <= 1.0 && spread >= 0.0
    ensures -spread <= Deviation(draw, spread) <= spread
    ensures Deviation(1.0, spread) == spread
  {
    NonnegativeProduct(1.0 - draw, spread);
    NonnegativeProduct(draw + 1.0, spread);
  }

  lemma NonnegativeProduct(x: real, y: real)
    requires x >= 0.0 && y >= 0.0
    ensures x * y >= 0.0
  {
  }

  lemma {:induction false} PowerGrows(m: real, j: nat, k: nat)
    requires m >= 1.0 && j <= k
    ensures 1.0 <= Power(m, j) <= Power(m, k)
    decreases k
  {
    if j < k {
      PowerGrows(m, j, k - 1);
      Grows(m, Power(m, k - 1));
    } else if k > 0 {
      PowerGrows(m, k - 1, k - 1);
      Grows(m, Power(m, k - 1));
    }
  }

  lemma Grows(m: real, x: real)
    requires m >= 1.0 && x >= 0.0
    ensures m * x >= x
  {
    NonnegativeProduct(m - 1.0, x);
  }

  lemma Scales(c: real, x: real, y: real)
    requires c >= 0.0 && x <= y
    ensures c * x <= c * y
  {
    NonnegativeProduct(c, y - x);
  }

  /** Delays before jitter never shrink from one attempt to the next and never pass the cap. */
  lemma BaseDelayGrows(p: Policy, i: nat, j: nat)
    requires ValidPolicy(p) && 1 <= i <= j
    ensures 0.0 <= BaseDelay(p, i) <= BaseDelay(p, j) <= p.maxDelay as real
  {
    UncappedGrows(p, i, j);
    hide Uncapped;
  }

  lemma UncappedGrows(p: Policy, i: nat, j: nat)
    requires ValidPolicy(p) && 1 <= i <= j
    ensures 0.0 <= Uncapped(p, i) <= Uncapped(p, j)
  {
    hide Power;
    match p.strategy
    case Fixed =>
    case Exponential =>
      PowerGrows(p.multiplier, i - 1, j - 1);
      Scales(p.initialDelay as real, Power(p.multiplier, i - 1), Power(p.multiplier, j - 1));
      Scales(p.initialDelay as real, 0.0, Power(p.multiplier, i - 1));
    case Linear =>
      Scales(p.initialDelay as real, i as real, j as real);
      Scales(p.initialDelay as real, 0.0, i as real);
  }

  lemma SpreadIsNone(p: Policy, base: real)
    ensures p.jitter == 0.0 || base == 0.0 ==> Spread(p, base) == 0.0
  {
  }

  lemma JitteredBound(p: Policy, base: real, draw: real)
    requires ValidPolicy(p) && base >= 0.0 && -1.0 <= draw <= 1.0
    ensures 0.0 <= Jittered(p, base, draw) <= base + Spread(p, base)
    ensures Jittered(p, base, 1.0) == base + Spread(p, base)
  {
    hide Spread, Deviation;
    SpreadGrows(p, base, base);
    SpreadIsNone(p, base);
    DeviationBound(draw, Spread(p, base));
  }

  /** The uncapped delay after a delay: the same, multiplied, or longer by the initial delay. */
  function NextDelay(p: Policy, delay: real): real {
    match p.strategy
    case Fixed => delay
    case Exponential => p.multiplier * delay
    case Linear => delay + p.initialDelay as real
  }

  /** The delays themselves: the first is the initial one, each other the next one up to the cap. */
  lemma DelaysFollow(p: Policy, k: nat)
    requires ValidPolicy(p) && k >= 1
    ensures BaseDelay(p, 1) == p.initialDelay as real
    ensures var (next, cap) := (NextDelay(p, BaseDelay(p, k)), p.maxDelay as real);
      BaseDelay(p, k + 1) == if next <= cap then next else cap
  {
    UncappedFollows(p, k);
    UncappedGrows(p, k, k + 1);
    NextIsLater(p, p.maxDelay as real);
    hide Uncapped, NextDelay;
  }

  lemma NextIsLater(p: Policy, delay: real)
    requires ValidPolicy(p) && delay >= 0.0
    ensures NextDelay(p, delay) >= delay
  {
    Grows(p.multiplier, delay);
  }

  lemma UncappedFollows(p: Policy, k: nat)
    requires k >= 1
    ensures Uncapped(p, 1) == p.initialDelay as real
    ensures Uncapped(p, k + 1) == NextDelay(p, Uncapped(p, k))
  {
    if p.strategy.Exponential? {
      var a, m, x := p.initialDelay as real, p.multiplier, Power(p.multiplier, k - 1);
      assert Power(p.multiplier, k) == m * x;
      assert a * (m * x) == m * (a * x);
    }
  }

  /** Jitter moves a delay by at most the configured share of it, in proportion to the draw. */
  lemma JitteredIs(p: Policy, base: real, draw: real)
    requires ValidPolicy(p) && base >= 0.0 && -1.0 <= draw <= 1.0
    ensures Jittered(p, base, draw) == base + draw * (p.jitter * base)
  {
    DeviationBound(draw, Spread(p, base));
    SpreadGrows(p, base, base);
    SpreadWithinBase(p, base);
    DeviationIs(draw, p.jitter * base);
    hide Deviation;
  }

  lemma SpreadWithinBase(p: Policy, base: real)
    requires ValidPolicy(p) && base >= 0.0
    ensures Spread(p, base) <= base
    ensures p.jitter == 0.0 || base == 0.0 ==> Spread(p, base) == 0.0
  {
    NonnegativeProduct(1.0 - p.jitter, base);
  }

  lemma DeviationIs(draw: real, spread: real)
    requires -1.0 <= draw <= 1.0 && spread >= 0.0
    ensures Deviation(draw, spread) == draw * spread && Deviation(draw, 0.0) == 0.0
  {
  }

  /** One sleep is within the cap widened by the jitter. */
  lemma SleepBound(p: Policy, attempt: nat, draw: real)
    requires ValidPolicy(p) && attempt >= 1 && -1.0 <= draw <= 1.0
    ensures 0.0 <= Jittered(p, BaseDelay(p, attempt), draw) / 1000.0 <= WidestSleep(p)
  {
    hide BaseDelay, Spread, Jittered;
    BaseDelayGrows(p, attempt, attempt);
    SpreadGrows(p, BaseDelay(p, attempt), p.maxDelay as real);
    JitteredBound(p, BaseDelay(p, attempt), draw);
  }

  /** The cap is applied before the jitter, so a sleep can pass maxDelay. No draw can make it do
      so exactly when the widened base delay is within the cap. */
  lemma CapHoldsExactly(p: Policy, attempt: nat)
    requires ValidPolicy(p) && attempt >= 1
    ensures (forall draw :: -1.0 <= draw <= 1.0 ==> Jittered(p, BaseDelay(p, attempt), draw) <= p.maxDelay as real)
       <==> BaseDelay(p, attempt) + Spread(p, BaseDelay(p, attempt)) <= p.maxDelay as real
  {
    hide BaseDelay, Spread, Jittered;
    BaseDelayGrows(p, attempt, attempt);
    var base := BaseDelay(p, attempt);
    forall draw | -1.0 <= draw <= 1.0
      ensures Jittered(p, base, draw) <= base + Spread(p, base) && Jittered(p, base, 1.0) == base + Spread(p, base)
    {
      JitteredBound(p, base, draw);
    }
    JitteredBound(p, base, 1.0);
  }

  // ---------------------------------------------------------------- the loop

  /** How an execution ends: with a value, or with the error of the last attempt made. */
  datatype Outcome = Value(value: int) | Error(last: Attempt)

  /** The attempt at which the loop stops: the first that succeeds, is rejected, cannot be retried,
      or is the last one allowed. */
  predicate StopsAt(p: Policy, attempts: nat -> Attempt, k: nat) {
    && 1 <= k <= p.maxAttempts
    && (forall i :: 1 <= i < k ==> Retryable(p, attempts(i)))
    && (k == p.maxAttempts || !Retryable(p, attempts(k)))
  }

  function Times(n: nat, x: real): real { n as real * x }

  /** Seconds slept after the first `k` attempts. */
  function SleptAfter(p: Policy, draws: nat -> real, k: nat): real {
    if k == 0 then 0.0 else SleptAfter(p, draws, k - 1) + Jittered(p, BaseDelay(p, k), draws(k)) / 1000.0
  }

  lemma OneMoreSleep(p: Policy, draws: nat -> real, k: nat)
    ensures SleptAfter(p, draws, 0) == 0.0
    ensures SleptAfter(p, draws, k + 1)
         == SleptAfter(p, draws, k) + Jittered(p, BaseDelay(p, k + 1), draws(k + 1)) / 1000.0
  {
  }

  lemma OneMoreTime(n: nat, x: real)
    ensures Times(n + 1, x) == Times(n, x) + x && Times(0, x) == 0.0
  {
  }

  /** Where the loop stops, said of the attempts themselves: no earlier attempt succeeded or was
      rejected, each failed and, if codes are configured, with one of them; and this attempt is the
      last one allowed, or did not fail, or failed without such a code. */
  lemma StopsAtExactly(p: Policy, attempts: nat -> Attempt, k: nat)
    ensures StopsAt(p, attempts, k)
       <==> && 1 <= k <= p.maxAttempts
            && (forall i :: 1 <= i < k ==>
                  match (attempts(i), p.codes)
                  case (Fails(_), None) => true
                  case (Fails(Some(code)), Some(codes)) => code in codes
                  case _ => false)
            && (k == p.maxAttempts
                || match (attempts(k), p.codes)
                   case (Fails(_), None) => false
                   case (Fails(Some(code)), Some(codes)) => code !in codes
                   case _ => true)
  {
  }

  /** The loop always stops inside, at one attempt number only: the raise behind it is never
      reached. Without codes that is the first attempt that does not fail, or the last one allowed;
      with codes, a failed attempt before the last is followed by another exactly if it has one.
      The callable ran once per attempt, but not for a rejection. One jittered delay is
      slept after each attempt but the last, at most (made - 1) widened caps in all. */
  method Execute(given: Policy, attempts: nat -> Attempt, draws: nat -> real)
    returns (outcome: Outcome, made: nat, runs: nat, slept: real)
    requires forall k :: -1.0 <= draws(k) <= 1.0
    ensures var p := Normalised(given);
      && StopsAt(p, attempts, made)
      && outcome == (if attempts(made).Succeeds? then Value(attempts(made).value) else Error(attempts(made)))
      && runs == (if attempts(made).Rejected? then made - 1 else made)
      && slept == SleptAfter(p, draws, made - 1)
      && 0.0 <= slept <= Times(made - 1, WidestSleep(p))
    ensures var allowed := if given.maxAttempts < 1 then 1 else given.maxAttempts;
      && 1 <= made <= allowed
      && (forall i :: 1 <= i < made ==> attempts(i).Fails?)
      && (given.codes.None? ==> made == allowed || !attempts(made).Fails?)
      && (given.codes.Some? ==>
            forall i :: 1 <= i <= made && i < allowed && attempts(i).Fails? ==>
              (i < made <==> attempts(i).code.Some? && attempts(i).code.value in given.codes.value))
  {
    StoppingMeans(given, attempts);
    hide BaseDelay, Jittered, WidestSleep, Times, Retryable, Normalised, SleptAfter;
    var p := Normalised(given);
    OneMoreTime(0, WidestSleep(p));
    OneMoreSleep(p, draws, 0);
    slept, runs := 0.0, 0;
    var attempt := 1;
    while attempt < p.maxAttempts + 1
      invariant 1 <= attempt <= p.maxAttempts && runs == attempt - 1
      invariant forall i :: 1 <= i < attempt ==> Retryable(p, attempts(i))
      invariant slept == SleptAfter(p, draws, attempt - 1)
      invariant 0.0 <= slept <= Times(attempt - 1, WidestSleep(p))
    {
      var a := attempts(attempt);
      OnlyFailuresAreRetried(p, a);
      if !a.Rejected? { runs := runs + 1; }
      if a.Succeeds? { return Value(a.value), attempt, runs, slept; }
      if attempt >= p.maxAttempts || !Retryable(p, a) { return Error(a), attempt, runs, slept; }
      SleepBound(p, attempt, draws(attempt));
      OneMoreTime(attempt - 1, WidestSleep(p));
      OneMoreSleep(p, draws, attempt - 1);
      var delay := Jittered(p, BaseDelay(p, attempt), draws(attempt)) / 1000.0;
      if delay > 0.0 { slept := slept + delay; }
      attempt := attempt + 1;
    }
    assert false;
  }

  lemma StoppingMeans(given: Policy, attempts: nat -> Attempt)
    ensures Normalised(given).codes == given.codes
    ensures Normalised(given).maxAttempts == if given.maxAttempts < 1 then 1 else given.maxAttempts
    ensures forall a :: Retryable(Normalised(given), a)
                   <==> a.Fails? && (given.codes.None? || (a.code.Some? && a.code.value in given.codes.value))
  {
  }

  lemma OnlyFailuresAreRetried(p: Policy, a: Attempt)
    ensures Retryable(p, a) ==> a.Fails?
  {
  }

  lemma StopsOnce(p: Policy, attempts: nat -> Attempt, j: nat, k: nat)
    requires StopsAt(p, attempts, j) && StopsAt(p, attempts, k)
    ensures j == k
  {
    var a, b := attempts(j), attempts(k);
  }

  /** What an execution amounts to: as many attempts as allowed unless one ends it first; a
      rejection by an open breaker ends it at once. */
  lemma StopsBecause(p: Policy, attempts: nat -> Attempt, k: nat)
    requires StopsAt(p, attempts, k)
    ensures forall i :: 1 <= i < k ==> attempts(i).Fails?
    ensures k < p.maxAttempts ==> attempts(k).Succeeds? || attempts(k).Rejected? || !Retryable(p, attempts(k))
    ensures forall i :: 1 <= i <= p.maxAttempts && attempts(i).Rejected? ==> k <= i
    ensures forall i :: 1 <= i <= p.maxAttempts && attempts(i).Succeeds? ==> k <= i
  {
  }
}
