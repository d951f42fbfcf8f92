/**
 Every interleaving of calls through one circuit breaker. A call carries the tag it was
 admitted under and, in the model only, the episode (the period between two state
 changes) in which it was admitted; the breaker never sees the episode, so a call admitted
 in one half-open episode can report in a later one.
 */
module BreakerRuns {
  import opened Wrappers
  import opened CircuitBreaker

  datatype Call = Call(tag: CircuitState, episode: nat)

  datatype Report = Report(call: Call, outcome: Outcome)

  /** The breaker, the calls in flight, and what happened in the present episode. */
  datatype World = World(core: Core, episode: nat, calls: multiset<Call>,
                         log: seq<Report>, admitted: nat, clock: real)

  datatype Event =
    | Begin(time: real)
    | End(call: Call, outcome: Outcome, time: real)
    | Reset(time: real)

  function Start(now: real): World {
    World(INITIAL, 0, multiset{}, [], 0, now)
  }

  predicate Enabled(cfg: Config, w: World, e: Event) {
    && w.clock <= e.time
    && (e.End? ==> e.call in w.calls && (e.outcome.Excluded? ==> cfg.excludes))
  }

  /** The tag the breaker gives the call that this event begins. */
  function Admission(cfg: Config, w: World, e: Event): Option<CircuitState> {
    if e.Begin? then BeforeCall(cfg, w.core, e.time).1 else None
  }

  function Step(cfg: Config, w: World, e: Event): World
    requires Enabled(cfg, w, e)
  {
    match e
    case Begin(now) =>
      var (core, tag) := BeforeCall(cfg, w.core, now);
      var entered := core.state != w.core.state;
      var episode := if entered then w.episode + 1 else w.episode;
      World(core, episode,
            if tag.Some? then w.calls + multiset{Call(tag.value, episode)} else w.calls,
            if entered then [] else w.log,
            (if entered then 0 else w.admitted) + (if tag == Some(HalfOpen) then 1 else 0), now)
    case End(call, outcome, now) =>
      var core := Record(cfg, w.core, call.tag, outcome, now);
      var entered := core.state != w.core.state;
      World(core, if entered then w.episode + 1 else w.episode, w.calls - multiset{call},
            if entered then [] else w.log + [Report(call, outcome)],
            if entered then 0 else w.admitted, now)
    case Reset(now) =>
      World(EnterClosed(), w.episode + 1, w.calls, [], 0, now)
  }

  ghost predicate Run(cfg: Config, w: World, es: seq<Event>)
    decreases |es|
  {
    es == [] || (Enabled(cfg, w, es[0]) && Run(cfg, Step(cfg, w, es[0]), es[1..]))
  }

  function Final(cfg: Config, w: World, es: seq<Event>): World
    requires Run(cfg, w, es)
    decreases |es|
  {
    if es == [] then w else Final(cfg, Step(cfg, w, es[0]), es[1..])
  }

  // ---------------------------------------------------------------- the history of an episode

  /** Failures since the last success, excluded outcomes not counting. */
  function TrailingFailures(log: seq<Report>): nat {
    if log == [] then 0
    else
      var last, init := log[|log| - 1].outcome, log[..|log| - 1];
      match last
      case Failure => TrailingFailures(init) + 1
      case Excluded => TrailingFailures(init)
      case Success => 0
  }

  function ProbeReports(log: seq<Report>): nat {
    if log == [] then 0
    else ProbeReports(log[..|log| - 1]) + if log[|log| - 1].call.tag.HalfOpen? then 1 else 0
  }

  function ProbeSuccesses(log: seq<Report>): nat {
    if log == [] then 0
    else ProbeSuccesses(log[..|log| - 1])
         + if log[|log| - 1].call.tag.HalfOpen? && log[|log| - 1].outcome.Success? then 1 else 0
  }

  /** Reports of probes admitted in an earlier episode. */
  function StaleReports(log: seq<Report>, episode: nat): nat {
    if log == [] then 0
    else StaleReports(log[..|log| - 1], episode)
         + if log[|log| - 1].call.tag.HalfOpen? && log[|log| - 1].call.episode != episode then 1 else 0
  }

  predicate NoProbeFailed(log: seq<Report>) {
    forall i :: 0 <= i < |log| ==> !(log[i].call.tag.HalfOpen? && log[i].outcome.Failure?)
  }

  /** Probes of the present episode still running. */
  function Live(w: World): nat {
    w.calls[Call(HalfOpen, w.episode)]
  }

  /** No probe admitted in an earlier episode is still running. */
  ghost predicate NoStale(w: World) {
    forall call :: call in w.calls && call.tag.HalfOpen? ==> call.episode == w.episode
  }

  ghost predicate Inv(cfg: Config, w: World) {
    && ValidConfig(cfg)
    && (forall call :: call in w.calls ==> call.episode <= w.episode)
    && (cfg.excludes || forall i :: 0 <= i < |w.log| ==> !w.log[i].outcome.Excluded?)
    && (w.core.openedAt.Some? <==> w.core.state.Open?)
    && (w.core.openedAt.Some? ==> w.core.openedAt.value <= w.clock)
    && (w.core.state.Closed? ==>
          && w.core.failureCount == TrailingFailures(w.log) < cfg.failureThreshold
          && w.core.halfOpenInFlight == 0)
    && (w.core.state.Open? ==> w.core.halfOpenInFlight == 0)
    && (!w.core.state.HalfOpen? ==> Live(w) == 0)
    && (w.core.state.HalfOpen? ==> ProbingInv(cfg, w))
  }

  /** The half-open part: the success counter is history, and the slot counter is tied to the
      probes that are really running and to those that have reported. */
  ghost predicate ProbingInv(cfg: Config, w: World) {
    && w.core.successCount == ProbeSuccesses(w.log) < cfg.successThreshold
    && NoProbeFailed(w.log)
    && 0 <= w.core.halfOpenInFlight <= cfg.halfOpenMaxCalls
    && w.core.halfOpenInFlight <= Live(w)
    && w.admitted <= w.core.halfOpenInFlight + ProbeReports(w.log)
    && Live(w) + ProbeReports(w.log) == w.admitted + StaleReports(w.log, w.episode)
  }

  lemma LogGrows(log: seq<Report>, r: Report, episode: nat)
    ensures TrailingFailures(log + [r]) == match r.outcome
                                           case Failure => TrailingFailures(log) + 1
                                           case Excluded => TrailingFailures(log)
                                           case Success => 0
    ensures ProbeReports(log + [r]) == ProbeReports(log) + if r.call.tag.HalfOpen? then 1 else 0
    ensures ProbeSuccesses(log + [r])
         == ProbeSuccesses(log) + if r.call.tag.HalfOpen? && r.outcome.Success? then 1 else 0
    ensures StaleReports(log + [r], episode)
         == StaleReports(log, episode) + if r.call.tag.HalfOpen? && r.call.episode != episode then 1 else 0
    ensures NoProbeFailed(log + [r]) <==> NoProbeFailed(log) && !(r.call.tag.HalfOpen? && r.outcome.Failure?)
  {
    var l := log + [r];
    assert l[..|l| - 1] == log && l[|l| - 1] == r;
    assert NoProbeFailed(l) ==> NoProbeFailed(log) by {
      if NoProbeFailed(l) {
        forall i | 0 <= i < |log| ensures !(log[i].call.tag.HalfOpen? && log[i].outcome.Failure?) {
          assert l[i] == log[i];
        }
      }
    }
  }

  lemma CallsShrink(w: World, call: Call)
    requires call in w.calls && forall c :: c in w.calls ==> c.episode <= w.episode
    ensures forall c :: c in w.calls - multiset{call} ==> c.episode <= w.episode
    ensures (w.calls - multiset{call})[Call(HalfOpen, w.episode)]
         == Live(w) - if call == Call(HalfOpen, w.episode) then 1 else 0
    ensures (w.calls - multiset{call})[Call(HalfOpen, w.episode + 1)] == 0
    ensures call == Call(HalfOpen, w.episode) ==> Live(w) >= 1
  {
    assert Call(HalfOpen, w.episode + 1) !in w.calls;
  }

  lemma EndMovesKeepsInv(cfg: Config, w: World, e: Event)
    requires Inv(cfg, w) && Enabled(cfg, w, e) && e.End?
    requires Step(cfg, w, e).core.state != w.core.state
    ensures Inv(cfg, Step(cfg, w, e))
  {
    CallsShrink(w, e.call);
    var w' := Step(cfg, w, e);
    assert Live(w') == 0 && w'.log == [] && w'.admitted == 0;
  }

  /** A report that leaves the breaker half-open. */
  lemma ReportWhileProbing(cfg: Config, c: Core, tag: CircuitState, outcome: Outcome, now: real)
    requires c.state.HalfOpen? && Record(cfg, c, tag, outcome, now).state.HalfOpen?
    ensures var c' := Record(cfg, c, tag, outcome, now);
      if !tag.HalfOpen? then c' == c
      else
        && !outcome.Failure?
        && c'.halfOpenInFlight == (if c.halfOpenInFlight > 0 then c.halfOpenInFlight - 1 else c.halfOpenInFlight)
        && c'.successCount == (if outcome.Success? then c.successCount + 1 else c.successCount)
        && (outcome.Success? ==> c'.successCount < cfg.successThreshold)
  {
  }

  lemma EndStays(cfg: Config, w: World, e: Event)
    requires Inv(cfg, w) && Enabled(cfg, w, e) && e.End?
    requires Step(cfg, w, e).core.state == w.core.state
    ensures var w' := Step(cfg, w, e);
      && w'.core == Record(cfg, w.core, e.call.tag, e.outcome, e.time)
      && w'.log == w.log + [Report(e.call, e.outcome)]
      && w'.admitted == w.admitted && w'.episode == w.episode
      && w'.calls == w.calls - multiset{e.call}
      && Live(w') == Live(w) - if e.call == Call(HalfOpen, w.episode) then 1 else 0
  {
    CallsShrink(w, e.call);
  }

  lemma EndWhileProbing(cfg: Config, w: World, e: Event)
    requires Inv(cfg, w) && Enabled(cfg, w, e) && e.End?
    requires w.core.state.HalfOpen? && Step(cfg, w, e).core.state.HalfOpen?
    requires ProbingInv(cfg, w)
    ensures ProbingInv(cfg, Step(cfg, w, e))
  {
    hide Live, Inv, Step, Enabled, Record, ProbeReports, ProbeSuccesses, StaleReports, NoProbeFailed, TrailingFailures;
    EndStays(cfg, w, e);
    LogGrows(w.log, Report(e.call, e.outcome), w.episode);
    ReportWhileProbing(cfg, w.core, e.call.tag, e.outcome, e.time);
  }

  lemma EndStaysKeepsInv(cfg: Config, w: World, e: Event)
    requires Inv(cfg, w) && Enabled(cfg, w, e) && e.End?
    requires Step(cfg, w, e).core.state == w.core.state
    ensures Inv(cfg, Step(cfg, w, e))
  {
    hide ProbingInv, TrailingFailures, ProbeReports, ProbeSuccesses, StaleReports, NoProbeFailed;
    CallsShrink(w, e.call);
    EndStays(cfg, w, e);
    if w.core.state.HalfOpen? {
      EndWhileProbing(cfg, w, e);
    } else {
      LogGrows(w.log, Report(e.call, e.outcome), w.episode);
    }
  }

  lemma EndKeepsInv(cfg: Config, w: World, e: Event)
    requires Inv(cfg, w) && Enabled(cfg, w, e) && e.End?
    ensures Inv(cfg, Step(cfg, w, e))
  {
    hide Inv, Step;
    if Step(cfg, w, e).core.state == w.core.state {
      EndStaysKeepsInv(cfg, w, e);
    } else {
      EndMovesKeepsInv(cfg, w, e);
    }
  }

  lemma StepKeepsInv(cfg: Config, w: World, e: Event)
    requires Inv(cfg, w) && Enabled(cfg, w, e)
    ensures Inv(cfg, Step(cfg, w, e))
  {
    if e.End? { EndKeepsInv(cfg, w, e); }
  }

  lemma {:induction false} RunKeepsInv(cfg: Config, w: World, es: seq<Event>)
    requires Inv(cfg, w) && Run(cfg, w, es)
    ensures Inv(cfg, Final(cfg, w, es))
    decreases |es|
  {
    hide Inv, Step, Enabled;
    if es != [] {
      StepKeepsInv(cfg, w, es[0]);
      RunKeepsInv(cfg, Step(cfg, w, es[0]), es[1..]);
    }
  }

  // ---------------------------------------------------------------- counters are history

  /** In every interleaving: while closed, the failure count is the trailing run of failures
      reported since the breaker closed, below the threshold; while half-open, the success
      count is the number of probe successes reported in the episode, below the threshold,
      and no probe has failed in it. */
  lemma CountersAreHistory(cfg: Config, now: real, es: seq<Event>)
    requires ValidConfig(cfg) && Run(cfg, Start(now), es)
    ensures var w := Final(cfg, Start(now), es);
      && (w.core.state.Closed? ==> w.core.failureCount == TrailingFailures(w.log) < cfg.failureThreshold)
      && (w.core.state.HalfOpen? ==>
            w.core.successCount == ProbeSuccesses(w.log) < cfg.successThreshold && NoProbeFailed(w.log))
  {
    RunKeepsInv(cfg, Start(now), es);
  }

  /** What one report does to a closed breaker, whatever tag the call was admitted under: it opens,
      at the time of the report, exactly when this failure makes the trailing run of failures as
      long as the threshold; otherwise it stays closed and counts that run. */
  lemma ClosedDecides(cfg: Config, w: World, e: Event)
    requires Inv(cfg, w) && Enabled(cfg, w, e) && e.End? && w.core.state.Closed?
    ensures var w', run := Step(cfg, w, e), TrailingFailures(w.log + [Report(e.call, e.outcome)]);
      if e.outcome.Failure? && run == cfg.failureThreshold
      then w'.core.state.Open? && w'.core.openedAt == Some(e.time)
      else w'.core.state.Closed? && w'.core.failureCount == run && w'.core.openedAt.None?
  {
    LogGrows(w.log, Report(e.call, e.outcome), w.episode);
  }

  /** An open breaker takes no notice of reports. */
  lemma OpenIgnores(cfg: Config, w: World, e: Event)
    requires Inv(cfg, w) && Enabled(cfg, w, e) && e.End? && w.core.state.Open?
    ensures Step(cfg, w, e).core == w.core
  {
  }

  /** Who is admitted, and what admission leaves: everybody by a closed breaker, which it does not
      change; by a half-open one exactly while slots are free, each taking one; by an open one
      exactly once the timeout has run, which makes it half-open with one slot taken. */
  lemma AdmissionExactly(cfg: Config, w: World, now: real)
    requires Inv(cfg, w) && w.clock <= now
    ensures var (core, tag) := BeforeCall(cfg, w.core, now);
      match w.core.state
      case Closed => tag == Some(Closed) && core == w.core
      case HalfOpen =>
        if w.core.halfOpenInFlight < cfg.halfOpenMaxCalls
        then tag == Some(HalfOpen) && core == w.core.(halfOpenInFlight := w.core.halfOpenInFlight + 1)
        else tag.None? && core == w.core && RetryAfterMs(cfg, core, now) == 0
      case Open =>
        if now - w.core.openedAt.value >= cfg.timeout
        then tag == Some(HalfOpen) && core == Core(HalfOpen, 0, 0, None, 1)
        else tag.None? && core == w.core
  {
  }

  /** What one report does to a half-open breaker: it closes exactly when this is the probe
      success that completes the threshold, opens exactly when a probe fails, and a call
      admitted while closed changes nothing. */
  lemma HalfOpenDecides(cfg: Config, w: World, e: Event)
    requires Inv(cfg, w) && Enabled(cfg, w, e) && e.End? && w.core.state.HalfOpen?
    ensures var w', probe := Step(cfg, w, e), e.call.tag.HalfOpen?;
      && (w'.core.state.Closed? <==>
            probe && e.outcome.Success? && ProbeSuccesses(w.log + [Report(e.call, e.outcome)]) == cfg.successThreshold)
      && (w'.core.state.Open? <==> probe && e.outcome.Failure?)
      && (w'.core.state.Open? ==> w'.core.openedAt == Some(e.time))
      && (!probe ==> w'.core == w.core)
  {
    LogGrows(w.log, Report(e.call, e.outcome), w.episode);
    hide ProbeReports, ProbeSuccesses, StaleReports, NoProbeFailed, TrailingFailures;
  }

  // ---------------------------------------------------------------- the open period

  predicate NoReset(es: seq<Event>) {
    forall i :: 0 <= i < |es| ==> !es[i].Reset?
  }

  datatype FirstCall = Nobody | Admitted(time: real, tag: CircuitState)

  /** The first call a run admits. */
  function FirstAdmission(cfg: Config, w: World, es: seq<Event>): FirstCall
    requires Run(cfg, w, es)
    decreases |es|
  {
    if es == [] then Nobody
    else if Admission(cfg, w, es[0]).Some? then Admitted(es[0].time, Admission(cfg, w, es[0]).value)
    else FirstAdmission(cfg, Step(cfg, w, es[0]), es[1..])
  }

  lemma OpenStep(cfg: Config, w: World, e: Event)
    requires Inv(cfg, w) && w.core.state.Open? && Enabled(cfg, w, e) && !e.Reset?
    ensures match Admission(cfg, w, e)
            case None => Step(cfg, w, e).core == w.core
            case Some(tag) => tag.HalfOpen? && e.time - w.core.openedAt.value >= cfg.timeout
  {
  }

  /** From an open breaker and without a reset: nobody is admitted before the timeout has
      run, the first to be admitted is a half-open probe, and until then the breaker stays
      open, whatever late calls report; so it never goes from open to closed directly. */
  lemma {:induction false} OpenPeriod(cfg: Config, w: World, es: seq<Event>)
    requires Inv(cfg, w) && w.core.state.Open? && Run(cfg, w, es) && NoReset(es)
    ensures match FirstAdmission(cfg, w, es)
            case Nobody => Final(cfg, w, es).core == w.core
            case Admitted(t, tag) => t - w.core.openedAt.value >= cfg.timeout && tag == HalfOpen
    decreases |es|
  {
    hide Inv, Enabled, Step, Admission;
    if es != [] {
      StepKeepsInv(cfg, w, es[0]);
      OpenStep(cfg, w, es[0]);
      if Admission(cfg, w, es[0]).None? {
        OpenPeriod(cfg, Step(cfg, w, es[0]), es[1..]);
      }
    }
  }

  // ---------------------------------------------------------------- half-open probes

  /** In every interleaving: an episode admits at most the configured number of probes plus
      one for each probe report in it, and the probes really running exceed the slot counter
      by at most the reports of probes left over from earlier episodes. */
  lemma ProbesInAnEpisode(cfg: Config, now: real, es: seq<Event>)
    requires ValidConfig(cfg) && Run(cfg, Start(now), es)
    requires Final(cfg, Start(now), es).core.state.HalfOpen?
    ensures var w := Final(cfg, Start(now), es);
      && w.admitted <= cfg.halfOpenMaxCalls + ProbeReports(w.log)
      && w.core.halfOpenInFlight <= Live(w) <= w.core.halfOpenInFlight + StaleReports(w.log, w.episode)
      && Live(w) <= cfg.halfOpenMaxCalls + StaleReports(w.log, w.episode)
  {
    RunKeepsInv(cfg, Start(now), es);
  }

  lemma {:induction false} EpisodesOnlyGrow(cfg: Config, w: World, es: seq<Event>)
    requires Run(cfg, w, es)
    ensures w.episode <= Final(cfg, w, es).episode
    decreases |es|
  {
    if es != [] { EpisodesOnlyGrow(cfg, Step(cfg, w, es[0]), es[1..]); }
  }

  lemma NoStaleStep(cfg: Config, w: World, e: Event)
    requires Inv(cfg, w) && Enabled(cfg, w, e) && w.core.state.HalfOpen? && Step(cfg, w, e).episode == w.episode
    requires NoStale(w) && StaleReports(w.log, w.episode) == 0
    ensures var w' := Step(cfg, w, e);
      w'.core.state.HalfOpen? && NoStale(w') && StaleReports(w'.log, w'.episode) == 0
  {
    if e.End? {
      assert forall call :: call in w.calls - multiset{e.call} ==> call in w.calls;
      LogGrows(w.log, Report(e.call, e.outcome), w.episode);
    }
  }

  lemma {:induction false} NoStaleRun(cfg: Config, w: World, es: seq<Event>)
    requires Inv(cfg, w) && Run(cfg, w, es) && w.core.state.HalfOpen? && Final(cfg, w, es).episode == w.episode
    requires NoStale(w) && StaleReports(w.log, w.episode) == 0
    ensures var w' := Final(cfg, w, es); w'.core.state.HalfOpen? && StaleReports(w'.log, w'.episode) == 0
    decreases |es|
  {
    hide Inv, NoStale, StaleReports, Enabled;
    if es != [] {
      StepKeepsInv(cfg, w, es[0]);
      EpisodesOnlyGrow(cfg, Step(cfg, w, es[0]), es[1..]);
      NoStaleStep(cfg, w, es[0]);
      NoStaleRun(cfg, Step(cfg, w, es[0]), es[1..]);
    }
  }

  /** With a threshold of one and nothing excluded, every probe report ends the episode. */
  lemma {:induction false} NoReportsNoStale(log: seq<Report>, episode: nat)
    requires ProbeSuccesses(log) == 0 && NoProbeFailed(log)
    requires forall i :: 0 <= i < |log| ==> !log[i].outcome.Excluded?
    ensures StaleReports(log, episode) == 0
  {
    if log != [] {
      var init := log[..|log| - 1];
      assert log == init + [log[|log| - 1]];
      LogGrows(init, log[|log| - 1], episode);
      NoReportsNoStale(init, episode);
    }
  }

  lemma {:induction false} StaysHalfOpen(cfg: Config, w: World, es: seq<Event>)
    requires Run(cfg, w, es) && w.core.state.HalfOpen? && Final(cfg, w, es).episode == w.episode
    ensures Final(cfg, w, es).core.state.HalfOpen?
    decreases |es|
  {
    if es != [] {
      EpisodesOnlyGrow(cfg, Step(cfg, w, es[0]), es[1..]);
      StaysHalfOpen(cfg, Step(cfg, w, es[0]), es[1..]);
    }
  }

  /** A run within the episode that has one probe too many, by way of a stale report. */
  lemma {:induction false} OverLimitRun(cfg: Config, w: World, stale: Call) returns (es: seq<Event>)
    requires Inv(cfg, w) && w.core.state.HalfOpen? && w.log == []
    requires stale in w.calls && stale.tag.HalfOpen? && stale.episode != w.episode
    requires cfg.successThreshold >= 2 || cfg.excludes
    ensures Run(cfg, w, es) && NoReset(es) && Final(cfg, w, es).episode == w.episode
    ensures Live(Final(cfg, w, es)) == cfg.halfOpenMaxCalls + 1
    decreases cfg.halfOpenMaxCalls - w.core.halfOpenInFlight
  {
    var begin := Begin(w.clock);
    if w.core.halfOpenInFlight < cfg.halfOpenMaxCalls {
      StepKeepsInv(cfg, w, begin);
      var rest := OverLimitRun(cfg, Step(cfg, w, begin), stale);
      es := [begin] + rest;
      assert es[0] == begin && es[1..] == rest;
    } else {
      es := OneTooMany(cfg, w, stale);
    }
  }

  lemma OneTooMany(cfg: Config, w: World, stale: Call) returns (es: seq<Event>)
    requires Inv(cfg, w) && w.core.state.HalfOpen? && w.log == []
    requires stale in w.calls && stale.tag.HalfOpen? && stale.episode != w.episode
    requires cfg.successThreshold >= 2 || cfg.excludes
    requires w.core.halfOpenInFlight == cfg.halfOpenMaxCalls
    ensures Run(cfg, w, es) && NoReset(es) && Final(cfg, w, es).episode == w.episode
    ensures Live(Final(cfg, w, es)) == cfg.halfOpenMaxCalls + 1
  {
    var late, begin := End(stale, if cfg.excludes then Excluded else Success, w.clock), Begin(w.clock);
    var w1 := Step(cfg, w, late);
    assert w1.core.state.HalfOpen? && w1.episode == w.episode;
    assert Live(w1) == Live(w) == cfg.halfOpenMaxCalls;
    var w2 := Step(cfg, w1, begin);
    assert Live(w2) == Live(w1) + 1 && w2.episode == w.episode;
    es := [late, begin];
    assert es[1..] == [begin] && es[1..][1..] == [];
    assert Run(cfg, w2, []) && Final(cfg, w2, []) == w2;
    assert Run(cfg, w1, [begin]) && Final(cfg, w1, [begin]) == w2;
  }

  /** When the documented limit on concurrent probes holds. At the start of a half-open
      episode, every way the episode can go on keeps the running probes within the limit if
      and only if no probe from an earlier episode is still running, or the first probe
      report is bound to end the episode. */
  lemma ProbeLimitExactly(cfg: Config, w: World)
    requires Inv(cfg, w) && w.core.state.HalfOpen? && w.log == []
    ensures (forall es {:trigger Run(cfg, w, es)} :: Run(cfg, w, es) && Final(cfg, w, es).episode == w.episode
                  ==> Live(Final(cfg, w, es)) <= cfg.halfOpenMaxCalls)
       <==> NoStale(w) || (cfg.successThreshold == 1 && !cfg.excludes)
  {
    hide Inv, Live, Final;
    if NoStale(w) || (cfg.successThreshold == 1 && !cfg.excludes) {
      forall es {:trigger Run(cfg, w, es)} | Run(cfg, w, es) && Final(cfg, w, es).episode == w.episode
        ensures Live(Final(cfg, w, es)) <= cfg.halfOpenMaxCalls
      {
        WithinLimit(cfg, w, es);
      }
    } else {
      ValidFromInv(cfg, w);
      var stale :| stale in w.calls && stale.tag.HalfOpen? && stale.episode != w.episode;
      var es := OverLimitRun(cfg, w, stale);
      assert Run(cfg, w, es) && Final(cfg, w, es).episode == w.episode;
      assert Live(Final(cfg, w, es)) > cfg.halfOpenMaxCalls;
    }
  }

  lemma ValidFromInv(cfg: Config, w: World)
    requires Inv(cfg, w)
    ensures ValidConfig(cfg)
  {
  }

  lemma WithinLimit(cfg: Config, w: World, es: seq<Event>)
    requires Inv(cfg, w) && w.core.state.HalfOpen? && w.log == []
    requires NoStale(w) || (cfg.successThreshold == 1 && !cfg.excludes)
    requires Run(cfg, w, es) && Final(cfg, w, es).episode == w.episode
    ensures Live(Final(cfg, w, es)) <= cfg.halfOpenMaxCalls
  {
    hide NoStale, Run, Final;
    RunKeepsInv(cfg, w, es);
    StaysHalfOpen(cfg, w, es);
    if NoStale(w) {
      NoStaleRun(cfg, w, es);
    } else {
      NoReportsNoStale(Final(cfg, w, es).log, w.episode);
    }
  }

  /** While no earlier probe was running when the episode began, the slot counter is exactly
      the number of probes running. */
  lemma CounterIsLive(cfg: Config, w: World, es: seq<Event>)
    requires Inv(cfg, w) && w.core.state.HalfOpen? && w.log == [] && NoStale(w)
    requires Run(cfg, w, es) && Final(cfg, w, es).episode == w.episode
    ensures var w' := Final(cfg, w, es); w'.core.halfOpenInFlight == Live(w') <= cfg.halfOpenMaxCalls
  {
    RunKeepsInv(cfg, w, es);
    NoStaleRun(cfg, w, es);
  }
}
