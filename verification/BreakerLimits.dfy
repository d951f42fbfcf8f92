/**
 The limit on concurrent half-open probes over whole runs from a fresh breaker: which
 configurations keep it, with and without resets in between.
 */
module BreakerLimits {
  import opened BreakerRuns
  import opened CircuitBreaker

  lemma {:induction false} RunJoins(cfg: Config, w: World, a: seq<Event>, b: seq<Event>)
    requires Run(cfg, w, a) && Run(cfg, Final(cfg, w, a), b)
    ensures Run(cfg, w, a + b) && Final(cfg, w, a + b) == Final(cfg, Final(cfg, w, a), b)
    ensures NoReset(a) && NoReset(b) ==> NoReset(a + b)
    decreases |a|
  {
    hide Step, Enabled;
    if a == [] {
      assert a + b == b;
    } else {
      assert (a + b)[0] == a[0] && (a + b)[1..] == a[1..] + b;
      RunJoins(cfg, Step(cfg, w, a[0]), a[1..], b);
    }
  }

  lemma OneStep(cfg: Config, w: World, e: Event)
    requires Enabled(cfg, w, e)
    ensures Run(cfg, w, [e]) && Final(cfg, w, [e]) == Step(cfg, w, e)
    ensures NoReset([e]) <==> !e.Reset?
  {
    assert [e][1..] == [];
    assert Run(cfg, Step(cfg, w, e), []) && Final(cfg, Step(cfg, w, e), []) == Step(cfg, w, e);
  }

  lemma AddStep(cfg: Config, w: World, es: seq<Event>, e: Event)
    requires Run(cfg, w, es) && Enabled(cfg, Final(cfg, w, es), e)
    ensures Run(cfg, w, es + [e]) && Final(cfg, w, es + [e]) == Step(cfg, Final(cfg, w, es), e)
    ensures NoReset(es) && !e.Reset? ==> NoReset(es + [e])
  {
    OneStep(cfg, Final(cfg, w, es), e);
    RunJoins(cfg, w, es, [e]);
  }

  // ---------------------------------------------------------------- getting a stale probe

  /** From closed, by calls that fail at once. */
  lemma {:induction false} FailUntilOpen(cfg: Config, w: World) returns (es: seq<Event>)
    requires Inv(cfg, w) && w.core.state.Closed?
    ensures Run(cfg, w, es) && NoReset(es)
    ensures var w' := Final(cfg, w, es);
      Inv(cfg, w') && w'.core.state.Open? && w'.calls == w.calls && w'.episode == w.episode + 1
    decreases cfg.failureThreshold - w.core.failureCount
  {
    var begin, call := Begin(w.clock), Call(Closed, w.episode);
    var end := End(call, Failure, w.clock);
    var w1 := Step(cfg, w, begin);
    StepKeepsInv(cfg, w, begin);
    assert Enabled(cfg, w1, end);
    var w2 := Step(cfg, w1, end);
    StepKeepsInv(cfg, w1, end);
    assert w2.calls == w.calls;
    OneStep(cfg, w, begin);
    AddStep(cfg, w, [begin], end);
    if w2.core.state.Open? {
      es := [begin] + [end];
    } else {
      var rest := FailUntilOpen(cfg, w2);
      RunJoins(cfg, w, [begin] + [end], rest);
      es := [begin] + [end] + rest;
    }
  }

  /** An open breaker probes once its timeout has run. */
  lemma Probe(cfg: Config, w: World) returns (e: Event)
    requires Inv(cfg, w) && w.core.state.Open?
    ensures Enabled(cfg, w, e) && e.Begin?
    ensures var w' := Step(cfg, w, e);
      && Inv(cfg, w') && w'.core.state.HalfOpen? && w'.log == [] && w'.episode == w.episode + 1
      && w'.calls == w.calls + multiset{Call(HalfOpen, w'.episode)} && w'.core.halfOpenInFlight == 1
  {
    e := Begin(w.clock + cfg.timeout);
    StepKeepsInv(cfg, w, e);
  }

  /** One more probe, and the failure of one of the two: the other is still running. */
  lemma FailOneOfTwo(cfg: Config, w: World) returns (es: seq<Event>)
    requires Inv(cfg, w) && w.core.state.HalfOpen? && w.core.halfOpenInFlight == 1 < cfg.halfOpenMaxCalls
    requires Live(w) >= 1
    ensures Run(cfg, w, es) && NoReset(es)
    ensures var w' := Final(cfg, w, es);
      Inv(cfg, w') && w'.core.state.Open? && Call(HalfOpen, w.episode) in w'.calls && w'.episode == w.episode + 1
  {
    var second, fails := Begin(w.clock), End(Call(HalfOpen, w.episode), Failure, w.clock);
    StepKeepsInv(cfg, w, second);
    var w1 := Step(cfg, w, second);
    assert Live(w1) >= 2 && w1.core.state.HalfOpen? && w1.episode == w.episode;
    StepKeepsInv(cfg, w1, fails);
    OneStep(cfg, w, second);
    AddStep(cfg, w, [second], fails);
    es := [second] + [fails];
  }

  /** Two probes of which one fails: the other is still running when the breaker probes again. */
  lemma StaleWithoutReset(cfg: Config, now: real) returns (es: seq<Event>, stale: Call)
    requires ValidConfig(cfg) && cfg.halfOpenMaxCalls >= 2
    ensures Run(cfg, Start(now), es) && NoReset(es)
    ensures var w := Final(cfg, Start(now), es);
      && Inv(cfg, w) && w.core.state.HalfOpen? && w.log == []
      && stale in w.calls && stale.tag.HalfOpen? && stale.episode != w.episode
  {
    hide Run, Final, NoReset, Enabled;
    var w0 := Start(now);
    es := FailUntilOpen(cfg, w0);
    var w1 := Final(cfg, w0, es);
    var first := Probe(cfg, w1);
    AddStep(cfg, w0, es, first);
    es := es + [first];
    var w2 := Step(cfg, w1, first);
    stale := Call(HalfOpen, w2.episode);
    var more := FailOneOfTwo(cfg, w2);
    RunJoins(cfg, w0, es, more);
    es := es + more;
    var w3 := Final(cfg, w2, more);
    var again := Probe(cfg, w3);
    AddStep(cfg, w0, es, again);
    es := es + [again];
  }

  /** A reset leaves the probe running. */
  lemma StaleByReset(cfg: Config, now: real) returns (es: seq<Event>, stale: Call)
    requires ValidConfig(cfg)
    ensures Run(cfg, Start(now), es)
    ensures var w := Final(cfg, Start(now), es);
      && Inv(cfg, w) && w.core.state.HalfOpen? && w.log == []
      && stale in w.calls && stale.tag.HalfOpen? && stale.episode != w.episode
  {
    var w0 := Start(now);
    es := FailUntilOpen(cfg, w0);
    var w1 := Final(cfg, w0, es);
    var first := Probe(cfg, w1);
    AddStep(cfg, w0, es, first);
    es := es + [first];
    var w2 := Step(cfg, w1, first);
    stale := Call(HalfOpen, w2.episode);
    var reset := Event.Reset(w2.clock);
    StepKeepsInv(cfg, w2, reset);
    AddStep(cfg, w0, es, reset);
    es := es + [reset];
    var w3 := Step(cfg, w2, reset);
    var more := FailUntilOpen(cfg, w3);
    RunJoins(cfg, w0, es, more);
    es := es + more;
    var w4 := Final(cfg, w3, more);
    var again := Probe(cfg, w4);
    AddStep(cfg, w0, es, again);
    es := es + [again];
  }

  // ---------------------------------------------------------------- one probe at a time

  /** Without resets, a limit of one probe leaves none behind when its episode ends. */
  ghost predicate SingleInv(cfg: Config, w: World) {
    && Inv(cfg, w) && cfg.halfOpenMaxCalls == 1 && StaleReports(w.log, w.episode) == 0
    && forall call :: call in w.calls && call.tag.HalfOpen? ==> call.episode == w.episode && w.core.state.HalfOpen?
  }

  lemma SingleStep(cfg: Config, w: World, e: Event)
    requires SingleInv(cfg, w) && Enabled(cfg, w, e) && !e.Reset?
    ensures SingleInv(cfg, Step(cfg, w, e))
  {
    StepKeepsInv(cfg, w, e);
    var w' := Step(cfg, w, e);
    if e.End? {
      assert forall call :: call in w.calls - multiset{e.call} ==> call in w.calls;
      LogGrows(w.log, Report(e.call, e.outcome), w.episode);
      if w.core.state.HalfOpen? && !w'.core.state.HalfOpen? {
        assert e.call == Call(HalfOpen, w.episode) && Live(w) <= 1;
        assert (w.calls - multiset{e.call})[e.call] == 0;
      }
    }
  }

  lemma {:induction false} SingleRun(cfg: Config, w: World, es: seq<Event>)
    requires SingleInv(cfg, w) && Run(cfg, w, es) && NoReset(es)
    ensures SingleInv(cfg, Final(cfg, w, es))
    decreases |es|
  {
    hide SingleInv, Enabled, Step;
    if es != [] {
      SingleStep(cfg, w, es[0]);
      SingleRun(cfg, Step(cfg, w, es[0]), es[1..]);
    }
  }

  // ---------------------------------------------------------------- the limit

  lemma LimitHolds(cfg: Config, now: real, es: seq<Event>)
    requires ValidConfig(cfg) && Run(cfg, Start(now), es)
    requires (cfg.successThreshold == 1 && !cfg.excludes) || (cfg.halfOpenMaxCalls == 1 && NoReset(es))
    ensures Live(Final(cfg, Start(now), es)) <= cfg.halfOpenMaxCalls
  {
    hide Run, Final, NoReset, Live;
    StartIsFine(cfg, now);
    RunKeepsInv(cfg, Start(now), es);
    if cfg.successThreshold == 1 && !cfg.excludes {
      FirstReportEnds(cfg, Final(cfg, Start(now), es));
    } else {
      SingleRun(cfg, Start(now), es);
      NoStaleNoExcess(cfg, Final(cfg, Start(now), es));
    }
  }

  lemma StartIsFine(cfg: Config, now: real)
    requires ValidConfig(cfg)
    ensures Inv(cfg, Start(now))
    ensures cfg.halfOpenMaxCalls == 1 ==> SingleInv(cfg, Start(now))
  {
  }

  lemma NoStaleNoExcess(cfg: Config, w: World)
    requires Inv(cfg, w) && StaleReports(w.log, w.episode) == 0
    ensures Live(w) <= cfg.halfOpenMaxCalls
  {
  }

  lemma FirstReportEnds(cfg: Config, w: World)
    requires Inv(cfg, w) && cfg.successThreshold == 1 && !cfg.excludes
    ensures Live(w) <= cfg.halfOpenMaxCalls
  {
    if w.core.state.HalfOpen? {
      NoReportsNoStale(w.log, w.episode);
      NoStaleNoExcess(cfg, w);
    }
  }

  /** Which configurations keep the limit on concurrent probes: over all runs from a fresh
      breaker, the probes of an episode that run at once stay within it if and only if the first
      probe report always ends the episode (a success threshold of one, nothing excluded), or the
      limit is one and the breaker is never reset. */
  lemma LimitOverRunsExactly(cfg: Config, now: real, resets: bool)
    requires ValidConfig(cfg)
    ensures (forall es {:trigger Run(cfg, Start(now), es)} :: Run(cfg, Start(now), es) && (resets || NoReset(es))
                  ==> Live(Final(cfg, Start(now), es)) <= cfg.halfOpenMaxCalls)
       <==> (cfg.successThreshold == 1 && !cfg.excludes) || (cfg.halfOpenMaxCalls == 1 && !resets)
  {
    hide Live, Final, Inv, NoReset;
    if (cfg.successThreshold == 1 && !cfg.excludes) || (cfg.halfOpenMaxCalls == 1 && !resets) {
      forall es {:trigger Run(cfg, Start(now), es)} | Run(cfg, Start(now), es) && (resets || NoReset(es))
        ensures Live(Final(cfg, Start(now), es)) <= cfg.halfOpenMaxCalls
      {
        LimitHolds(cfg, now, es);
      }
    } else {
      var es := RunOverLimit(cfg, now, resets);
    }
  }

  lemma RunOverLimit(cfg: Config, now: real, resets: bool) returns (es: seq<Event>)
    requires ValidConfig(cfg) && (cfg.successThreshold >= 2 || cfg.excludes) && (cfg.halfOpenMaxCalls >= 2 || resets)
    ensures Run(cfg, Start(now), es) && (resets || NoReset(es))
    ensures Live(Final(cfg, Start(now), es)) > cfg.halfOpenMaxCalls
  {
    hide Inv;
    var stale: Call;
    if resets {
      es, stale := StaleByReset(cfg, now);
    } else {
      es, stale := StaleWithoutReset(cfg, now);
    }
    var more := OverLimitRun(cfg, Final(cfg, Start(now), es), stale);
    RunJoins(cfg, Start(now), es, more);
    es := es + more;
  }

  // ---------------------------------------------------------------- probes of every episode together

  /** Half-open calls in flight that were admitted in the first `n` episodes. */
  function ProbesUpto(calls: multiset<Call>, n: nat): nat {
    if n == 0 then 0 else ProbesUpto(calls, n - 1) + calls[Call(HalfOpen, n - 1)]
  }

  /** All half-open calls in flight. */
  function RunningProbes(w: World): nat { ProbesUpto(w.calls, w.episode + 1) }

  lemma {:induction false} NoProbes(calls: multiset<Call>, n: nat)
    requires forall i: nat :: i < n ==> calls[Call(HalfOpen, i)] == 0
    ensures ProbesUpto(calls, n) == 0
  {
    if n > 0 { NoProbes(calls, n - 1); }
  }

  lemma {:induction false} TwoEpisodes(calls: multiset<Call>, n: nat, i: nat, j: nat)
    requires i < n && j < n && i != j
    ensures ProbesUpto(calls, n) >= calls[Call(HalfOpen, i)] + calls[Call(HalfOpen, j)]
  {
    if i < n - 1 && j < n - 1 {
      TwoEpisodes(calls, n - 1, i, j);
    } else {
      OneEpisode(calls, n - 1, if i < j then i else j);
    }
  }

  lemma {:induction false} OneEpisode(calls: multiset<Call>, n: nat, i: nat)
    requires i < n
    ensures ProbesUpto(calls, n) >= calls[Call(HalfOpen, i)]
  {
    if i < n - 1 { OneEpisode(calls, n - 1, i); }
  }

  /** More probes until the slots are taken. */
  lemma {:induction false} FillSlots(cfg: Config, w: World, stale: Call) returns (es: seq<Event>)
    requires Inv(cfg, w) && w.core.state.HalfOpen? && stale in w.calls
    ensures Run(cfg, w, es) && NoReset(es)
    ensures var w' := Final(cfg, w, es);
      Inv(cfg, w') && stale in w'.calls && w'.episode == w.episode && Live(w') >= cfg.halfOpenMaxCalls
    decreases cfg.halfOpenMaxCalls - w.core.halfOpenInFlight
  {
    if w.core.halfOpenInFlight < cfg.halfOpenMaxCalls {
      var begin := Begin(w.clock);
      StepKeepsInv(cfg, w, begin);
      OneStep(cfg, w, begin);
      var rest := FillSlots(cfg, Step(cfg, w, begin), stale);
      RunJoins(cfg, w, [begin], rest);
      es := [begin] + rest;
    } else {
      es := [];
    }
  }

  lemma TotalHolds(cfg: Config, now: real, es: seq<Event>)
    requires ValidConfig(cfg) && Run(cfg, Start(now), es) && cfg.halfOpenMaxCalls == 1 && NoReset(es)
    ensures RunningProbes(Final(cfg, Start(now), es)) <= cfg.halfOpenMaxCalls
  {
    var w := Final(cfg, Start(now), es);
    StartIsFine(cfg, now);
    SingleRun(cfg, Start(now), es);
    hide Run, Final, NoReset;
    forall i: nat | i < w.episode ensures w.calls[Call(HalfOpen, i)] == 0 {
      assert Call(HalfOpen, i) !in w.calls;
    }
    NoProbes(w.calls, w.episode);
  }

  lemma TotalOverLimit(cfg: Config, now: real, resets: bool) returns (es: seq<Event>)
    requires ValidConfig(cfg) && (cfg.halfOpenMaxCalls >= 2 || resets)
    ensures Run(cfg, Start(now), es) && (resets || NoReset(es))
    ensures RunningProbes(Final(cfg, Start(now), es)) > cfg.halfOpenMaxCalls
  {
    hide Inv, Run, Final, NoReset, RunningProbes;
    var stale: Call;
    if resets {
      es, stale := StaleByReset(cfg, now);
    } else {
      es, stale := StaleWithoutReset(cfg, now);
    }
    var w := Final(cfg, Start(now), es);
    var more := FillSlots(cfg, w, stale);
    RunJoins(cfg, Start(now), es, more);
    es := es + more;
    StaleOnTop(cfg, Final(cfg, w, more), stale);
  }

  lemma StaleOnTop(cfg: Config, w: World, stale: Call)
    requires Inv(cfg, w) && stale in w.calls && stale.tag.HalfOpen? && stale.episode != w.episode
    ensures RunningProbes(w) > Live(w)
  {
    TwoEpisodes(w.calls, w.episode + 1, stale.episode, w.episode);
  }

  /** The documented sentence, that half-open calls in flight are limited: counting the probes of
      every episode, it holds over all runs if and only if the limit is one and the breaker is
      never reset. */
  lemma TotalLimitExactly(cfg: Config, now: real, resets: bool)
    requires ValidConfig(cfg)
    ensures (forall es {:trigger Run(cfg, Start(now), es)} :: Run(cfg, Start(now), es) && (resets || NoReset(es))
                  ==> RunningProbes(Final(cfg, Start(now), es)) <= cfg.halfOpenMaxCalls)
       <==> cfg.halfOpenMaxCalls == 1 && !resets
  {
    hide RunningProbes, Final, Inv, NoReset;
    if cfg.halfOpenMaxCalls == 1 && !resets {
      forall es {:trigger Run(cfg, Start(now), es)} | Run(cfg, Start(now), es) && (resets || NoReset(es))
        ensures RunningProbes(Final(cfg, Start(now), es)) <= cfg.halfOpenMaxCalls
      {
        TotalHolds(cfg, now, es);
      }
    } else {
      var es := TotalOverLimit(cfg, now, resets);
      assert Run(cfg, Start(now), es) && RunningProbes(Final(cfg, Start(now), es)) > cfg.halfOpenMaxCalls;
    }
  }
}
