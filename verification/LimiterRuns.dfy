/**
 Whole runs of the limiter object: which requests it grants, for each algorithm it can be configured
 with.
 */
module LimiterRuns {
  import opened RateLimiter
  import opened Requests
  import TB = TokenBucket
  import SW = SlidingWindow
  import FW = FixedWindow

  function StepOf(c: Settings, s: State, e: Event): State
    requires e.Acquire? ==> e.tokens > 0
  {
    match e
    case Acquire(n, t) => Attempt(c, s, n, t).0
    case Query(t) => Asked(c, s, t).0
  }

  function StateAfter(c: Settings, s: State, es: seq<Event>): State
    requires PositiveRequests(es)
    decreases |es|
  {
    if es == [] then s else StateAfter(c, StepOf(c, s, es[0]), es[1..])
  }

  /** A new limiter: a full bucket, an empty queue, a window that starts now. */
  function Fresh(c: Settings, now: real): State {
    State(TB.Bucket(c.limits.burst as real, now), SW.Window([], 0), FW.Window(now, 0))
  }

  /** Whether call `j` of a run on a new limiter is granted. */
  predicate GrantedAt(c: Settings, es: seq<Event>, origin: real, j: nat)
    requires Run(es, origin) && j < |es|
  {
    es[j].Acquire? && Attempt(c, StateAfter(c, Fresh(c, origin), es[..j]), es[j].tokens, es[j].time).1
  }

  lemma {:induction false} BucketFollows(c: Settings, s: State, es: seq<Event>)
    requires c.algorithm.TokenBucket? && PositiveRequests(es)
    ensures StateAfter(c, s, es).bucket == TB.Final(c.limits, s.bucket, es)
    decreases |es|
  {
    hide TB.TryAcquire, TB.Available;
    if es != [] { BucketFollows(c, StepOf(c, s, es[0]), es[1..]); }
  }

  lemma {:induction false} QueueFollows(c: Settings, s: State, es: seq<Event>, from: real)
    requires c.algorithm.SlidingWindow? && Run(es, from)
    ensures StateAfter(c, s, es).sliding == SW.Final(c.limits.rate, s.sliding, es, from)
    decreases |es|
  {
    hide SW.TryAcquire, SW.Available;
    if es != [] {
      RunTail(es, from);
      QueueFollows(c, StepOf(c, s, es[0]), es[1..], es[0].time);
    }
  }

  lemma {:induction false} WindowFollows(c: Settings, s: State, es: seq<Event>)
    requires c.algorithm.FixedWindow? && PositiveRequests(es)
    ensures StateAfter(c, s, es).fixed == FW.Final(c.limits.rate, s.fixed, es)
    decreases |es|
  {
    hide FW.TryAcquire, FW.Available;
    if es != [] { WindowFollows(c, StepOf(c, s, es[0]), es[1..]); }
  }

  /** Who is granted, exactly, by a limiter configured with each algorithm. Token bucket: for every
      earlier call, or this one, what was granted from it on and what is requested is within
      burst + rate * (the time since). Sliding window: it and what was granted before in the last
      second is within the rate. Fixed window: the same of the present aligned second. */
  lemma GrantsExactly(c: Settings, es: seq<Event>, origin: real, j: nat)
    requires TB.ValidLimits(c.limits) && Run(es, origin) && j < |es| && es[j].Acquire?
    ensures var (n, t, rate) := (es[j].tokens, es[j].time, c.limits.rate);
      GrantedAt(c, es, origin, j) <==>
        match c.algorithm
        case TokenBucket =>
          var full := TB.Bucket(c.limits.burst as real, origin);
          forall i :: 0 <= i <= j ==>
            (TB.Taken(c.limits, full, es, i, j) + n) as real <= c.limits.burst as real + (t - es[i].time) * rate
        case SlidingWindow =>
          (InSecond(SW.LogBefore(rate, es, origin, j), t - 1.0) + n) as real <= rate
        case FixedWindow =>
          var s := origin + (t - origin).Floor as real;
          (FW.InWindow(FW.GrantsOf(rate, origin, es[..j]), s) + n) as real <= rate
  {
    hide *;
    match c.algorithm
    case TokenBucket =>
      AsBucket(c, es, origin, j);
      TB.GrantedExactly(c.limits, origin, es, j);
    case SlidingWindow =>
      LimitNonnegative(c);
      AsSliding(c, es, origin, j);
      SW.GrantedExactly(c.limits.rate, es, origin, j);
    case FixedWindow =>
      LimitNonnegative(c);
      AsFixed(c, es, origin, j);
      FW.GrantedExactly(c.limits.rate, es, origin, j);
  }

  lemma LimitNonnegative(c: Settings)
    requires TB.ValidLimits(c.limits)
    ensures c.limits.rate >= 0.0
  {
  }

  lemma AsBucket(c: Settings, es: seq<Event>, origin: real, j: nat)
    requires c.algorithm.TokenBucket? && Run(es, origin) && j < |es|
    ensures GrantedAt(c, es, origin, j)
       <==> TB.GrantedAt(c.limits, TB.Bucket(c.limits.burst as real, origin), es, j)
  {
    BucketFollows(c, Fresh(c, origin), es[..j]);
    hide TB.TryAcquire, TB.Final, StateAfter;
  }

  lemma AsSliding(c: Settings, es: seq<Event>, origin: real, j: nat)
    requires c.algorithm.SlidingWindow? && Run(es, origin) && j < |es|
    ensures GrantedAt(c, es, origin, j) <==> SW.GrantedAt(c.limits.rate, es, origin, j)
  {
    SW.PrefixOfRun(es, origin, j);
    QueueFollows(c, Fresh(c, origin), es[..j], origin);
    hide SW.TryAcquire, SW.Final, StateAfter;
  }

  lemma AsFixed(c: Settings, es: seq<Event>, origin: real, j: nat)
    requires c.algorithm.FixedWindow? && Run(es, origin) && j < |es|
    ensures GrantedAt(c, es, origin, j) <==> FW.GrantedAt(c.limits.rate, origin, es, j)
  {
    WindowFollows(c, Fresh(c, origin), es[..j]);
    hide FW.TryAcquire, FW.Final, StateAfter;
  }

  lemma {:induction false} AfterSnoc(c: Settings, s: State, es: seq<Event>, j: nat)
    requires PositiveRequests(es) && j < |es|
    ensures StateAfter(c, s, es[..j + 1]) == StepOf(c, StateAfter(c, s, es[..j]), es[j])
    decreases |es|
  {
    hide StepOf;
    if j == 0 {
      assert es[..1][1..] == [] && es[..1][0] == es[0];
      assert StateAfter(c, StepOf(c, s, es[0]), []) == StepOf(c, s, es[0]);
    } else {
      assert es[..j + 1][1..] == es[1..][..j] && es[..j][1..] == es[1..][..j - 1];
      AfterSnoc(c, StepOf(c, s, es[0]), es[1..], j - 1);
    }
  }

  /** A limiter object serving a run of requests and queries. */
  method Serve(config: Config, es: seq<Event>, origin: real) returns (granted: seq<bool>)
    requires Run(es, origin)
    ensures |granted| == |es|
    ensures var rate, burst := if config.rate < 0.0 then 0.0 else config.rate, AtLeastZero(config.burst);
      var c := Settings(config.algorithm, TB.Limits(rate, burst), AtLeastZero(config.waitTimeoutMs));
      forall j :: 0 <= j < |es| ==> granted[j] == GrantedAt(c, es, origin, j)
  {
    hide Attempt, Asked, ValidState;
    var l := new RateLimiter(config, origin);
    ghost var c := l.TheSettings();
    ghost var fresh_ := Fresh(c, origin);
    granted := [];
    for i := 0 to |es|
      invariant fresh(l) && l.Valid() && l.TheSettings() == c && |granted| == i
      invariant l.clock == if i == 0 then origin else es[i - 1].time
      invariant l.TheState() == StateAfter(c, fresh_, es[..i])
      invariant forall j :: 0 <= j < i ==> granted[j] == GrantedAt(c, es, origin, j)
    {
      AfterSnoc(c, fresh_, es, i);
      match es[i]
      case Acquire(n, t) =>
        var ok, _ := l.TryAcquire(n, t);
        granted := granted + [ok];
      case Query(t) =>
        var _ := l.GetAvailableTokens(t);
        granted := granted + [false];
    }
  }
}
