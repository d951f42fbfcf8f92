/**
 Health tracking with hysteresis: one entry per key, fed by check results. The registry and
 the client transport each have a copy; they differ in the key, and in what they make of a check
 that raises. Both are here.
 */
module Health {
  import opened Wrappers

  datatype Status = Healthy | Unhealthy | Degraded | Unknown

  datatype Config = Config(healthyThreshold: int, unhealthyThreshold: int)

  datatype Entry = Entry(status: Status, lastCheck: Option<Status>, failures: nat, successes: nat)

  datatype Instance = Instance(id: string, host: string, port: int)

  const NEW := Entry(Unknown, None, 0, 0)

  /** One check result applied to an entry. */
  function Check(c: Config, e: Entry, result: Status): Entry {
    if result.Healthy? then
      Entry(if e.successes + 1 >= c.healthyThreshold then Healthy else e.status, Some(result), 0, e.successes + 1)
    else
      Entry(if e.failures + 1 >= c.unhealthyThreshold then Unhealthy else e.status, Some(result), e.failures + 1, 0)
  }

  /** The entry after a history of results. */
  function After(c: Config, results: seq<Status>): Entry {
    if results == [] then NEW else Check(c, After(c, results[..|results| - 1]), results[|results| - 1])
  }

  // ---------------------------------------------------------------- history

  /** Length of the run of healthy (or of other) results at the end. */
  function TrailingRun(results: seq<Status>, healthy: bool): nat {
    if results == [] || results[|results| - 1].Healthy? != healthy then 0
    else 1 + TrailingRun(results[..|results| - 1], healthy)
  }

  lemma {:induction false} CountersAreRuns(c: Config, results: seq<Status>)
    ensures After(c, results).successes == TrailingRun(results, true)
    ensures After(c, results).failures == TrailingRun(results, false)
    ensures After(c, results).lastCheck == if results == [] then None else Some(results[|results| - 1])
  {
    if results != [] { CountersAreRuns(c, results[..|results| - 1]); }
  }

  /** How often the status changed over a history. */
  function Changes(c: Config, results: seq<Status>): nat {
    if results == [] then 0
    else
      var init := results[..|results| - 1];
      Changes(c, init) + if After(c, results).status != After(c, init).status then 1 else 0
  }

  function Effective(threshold: int): nat { if threshold < 1 then 1 else threshold }

  function Smaller(c: Config): nat {
    if Effective(c.healthyThreshold) <= Effective(c.unhealthyThreshold)
    then Effective(c.healthyThreshold) else Effective(c.unhealthyThreshold)
  }

  /** Results already spent towards the next change of status. */
  function Progress(e: Entry): nat {
    match e.status
    case Healthy => e.failures
    case Unhealthy => e.successes
    case _ => if e.failures >= e.successes then e.failures else e.successes
  }

  lemma OneMoreChange(n: nat, m: nat)
    ensures (n + 1) * m == n * m + m
  {
  }

  lemma {:induction false} ChangesCost(c: Config, results: seq<Status>)
    ensures Changes(c, results) * Smaller(c) + Progress(After(c, results)) <= |results|
    ensures !After(c, results).status.Degraded?
    ensures After(c, results).successes == 0 || After(c, results).failures == 0
  {
    if results != [] {
      var init := results[..|results| - 1];
      ChangesCost(c, init);
      OneMoreChange(Changes(c, init), Smaller(c));
    }
  }

  /** Flap bound: each change of status takes at least as many checks as the smaller threshold,
      all of them after the change before it. */
  lemma FlapBound(c: Config, results: seq<Status>)
    ensures Changes(c, results) * Smaller(c) <= |results|
  {
    ChangesCost(c, results);
  }

  /** A run of healthy (or other) results as long as its threshold ends after `k` results. */
  predicate LongRunEnds(c: Config, results: seq<Status>, k: int, healthy: bool) {
    1 <= k <= |results|
    && TrailingRun(results[..k], healthy) >= Effective(if healthy then c.healthyThreshold else c.unhealthyThreshold)
  }

  /** No long run of this kind ends after the first `k` results. */
  ghost predicate NoLongRunAfter(c: Config, results: seq<Status>, k: int, healthy: bool) {
    forall j :: k < j <= |results| ==> !LongRunEnds(c, results, j, healthy)
  }

  /** Some long run of this kind has ended, and no long run of the other kind since. */
  ghost predicate LastLongRun(c: Config, results: seq<Status>, healthy: bool) {
    exists k :: LongRunEnds(c, results, k, healthy) && NoLongRunAfter(c, results, k, !healthy)
  }

  lemma LongRunsOfInit(c: Config, results: seq<Status>, k: int, h: bool)
    requires results != []
    ensures LongRunEnds(c, results[..|results| - 1], k, h) <==> k < |results| && LongRunEnds(c, results, k, h)
  {
    if 1 <= k < |results| { assert results[..|results| - 1][..k] == results[..k]; }
  }

  /** A long run that was the last one stays the last one if none of the other kind ends now. */
  lemma StaysLast(c: Config, results: seq<Status>, h: bool)
    requires results != [] && LastLongRun(c, results[..|results| - 1], h)
    requires !LongRunEnds(c, results, |results|, !h)
    ensures LastLongRun(c, results, h)
  {
    hide LongRunEnds;
    var init := results[..|results| - 1];
    var k :| LongRunEnds(c, init, k, h) && NoLongRunAfter(c, init, k, !h);
    LongRunsOfInit(c, results, k, h);
    var other := !h;
    forall j | k < j <= |results| ensures !LongRunEnds(c, results, j, other) {
      LongRunsOfInit(c, results, j, other);
    }
    assert NoLongRunAfter(c, results, k, !h);
  }

  /** The transition in terms of the history: a long run that ends now sets the status. */
  lemma LongRunSetsStatus(c: Config, results: seq<Status>)
    requires results != []
    ensures var (n, h) := (|results|, results[|results| - 1].Healthy?);
      && !LongRunEnds(c, results, n, !h)
      && After(c, results).status ==
           if LongRunEnds(c, results, n, h) then (if h then Healthy else Unhealthy)
           else After(c, results[..n - 1]).status
  {
    assert results[..|results|] == results;
    CountersAreRuns(c, results);
  }

  lemma LongRunNow(c: Config, results: seq<Status>, h: bool)
    requires LongRunEnds(c, results, |results|, h)
    ensures LastLongRun(c, results, h)
  {
    assert NoLongRunAfter(c, results, |results|, !h);
  }

  /** What a status says about the history: healthy or unhealthy, that the last run long enough
      for its threshold was of that kind; unknown, that there was none. */
  lemma {:induction false} StatusIsLastLongRun(c: Config, results: seq<Status>)
    ensures After(c, results).status.Healthy? ==> LastLongRun(c, results, true)
    ensures After(c, results).status.Unhealthy? ==> LastLongRun(c, results, false)
    ensures After(c, results).status.Unknown? ==> forall k, h :: !LongRunEnds(c, results, k, h)
    ensures !After(c, results).status.Degraded?
    decreases |results|
  {
    hide LongRunEnds, LastLongRun;
    if results == [] {
      NothingYet(c);
    } else {
      var n, init := |results|, results[..|results| - 1];
      StatusIsLastLongRun(c, init);
      LongRunSetsStatus(c, results);
      var h := results[n - 1].Healthy?;
      var s := After(c, init).status;
      if LongRunEnds(c, results, n, h) {
        LongRunNow(c, results, h);
      } else if s.Healthy? || s.Unhealthy? {
        StaysLast(c, results, s.Healthy?);
      } else {
        NoneYet(c, init, results);
      }
    }
  }

  lemma NothingYet(c: Config)
    ensures After(c, []) == NEW
    ensures forall k, h :: !LongRunEnds(c, [], k, h)
  {
  }

  lemma NoneYet(c: Config, init: seq<Status>, results: seq<Status>)
    requires results != [] && init == results[..|results| - 1]
    requires forall k, h :: !LongRunEnds(c, init, k, h)
    requires forall h :: !LongRunEnds(c, results, |results|, h)
    ensures forall k, h :: !LongRunEnds(c, results, k, h)
  {
    forall k, h ensures !LongRunEnds(c, results, k, h) {
      if 1 <= k <= |results| { LongRunsOfInit(c, results, k, h); }
    }
  }

  // ---------------------------------------------------------------- the two copies

  type Key = (string, int)

  datatype Copy = Registry | Transport

  /** What a health check comes to. */
  datatype Outcome = Result(status: Status) | Raised

  type Checks = seq<(Instance, Outcome)>

  /** The registry's key is the address, the transport's the instance id. */
  function KeyOf(copy: Copy, x: Instance): Key {
    if copy.Registry? then (x.host, x.port) else (x.id, 0)
  }

  /** The result a copy records: the transport takes a check that raises for unhealthy; in the
      registry the exception passes by the entry. */
  function Recorded(copy: Copy, o: Outcome): Option<Status> {
    match o
    case Result(status) => Some(status)
    case Raised => if copy.Registry? then None else Some(Unhealthy)
  }

  /** The results of a series of checks that end up under one key. */
  function ResultsUnder(checks: Checks, copy: Copy, k: Key): seq<Status> {
    if checks == [] then []
    else
      var (x, o) := checks[|checks| - 1];
      var r := Recorded(copy, o);
      ResultsUnder(checks[..|checks| - 1], copy, k) + if KeyOf(copy, x) == k && r.Some? then [r.value] else []
  }

  /** The status a copy gives an instance after a series of checks. */
  function StatusOf(c: Config, checks: Checks, copy: Copy, x: Instance): Status {
    After(c, ResultsUnder(checks, copy, KeyOf(copy, x))).status
  }

  lemma OneMoreResult(c: Config, checks: Checks, x: Instance, o: Outcome, copy: Copy)
    ensures var now, k := checks + [(x, o)], KeyOf(copy, x);
      && (forall j :: j != k ==> ResultsUnder(now, copy, j) == ResultsUnder(checks, copy, j))
      && match Recorded(copy, o)
         case None => ResultsUnder(now, copy, k) == ResultsUnder(checks, copy, k)
         case Some(r) =>
           && ResultsUnder(now, copy, k) != []
           && After(c, ResultsUnder(now, copy, k)) == Check(c, After(c, ResultsUnder(checks, copy, k)), r)
  {
    var now := checks + [(x, o)];
    assert now[..|now| - 1] == checks;
    var rs := ResultsUnder(checks, copy, KeyOf(copy, x));
    match Recorded(copy, o)
    case None =>
    case Some(r) =>
      assert ResultsUnder(now, copy, KeyOf(copy, x)) == rs + [r];
      assert (rs + [r])[..|rs + [r]| - 1] == rs;
  }

  /** A result goes under the address in the registry and under the id in the transport, in the order
      of the checks; a check that raises leaves a result only in the transport, an unhealthy one. */
  lemma ResultsAre(early: Checks, late: Checks, x: Instance, status: Status, k: Key)
    ensures forall copy :: ResultsUnder(early + late, copy, k)
                        == ResultsUnder(early, copy, k) + ResultsUnder(late, copy, k)
    ensures ResultsUnder([(x, Result(status))], Registry, k) == if k == (x.host, x.port) then [status] else []
    ensures ResultsUnder([(x, Result(status))], Transport, k) == if k == (x.id, 0) then [status] else []
    ensures ResultsUnder([(x, Raised)], Registry, k) == []
    ensures ResultsUnder([(x, Raised)], Transport, k) == if k == (x.id, 0) then [Unhealthy] else []
  {
    forall copy ensures ResultsUnder(early + late, copy, k)
                     == ResultsUnder(early, copy, k) + ResultsUnder(late, copy, k) {
      ResultsJoin(early, late, copy, k);
    }
  }

  lemma {:induction false} ResultsJoin(early: Checks, late: Checks, copy: Copy, k: Key)
    ensures ResultsUnder(early + late, copy, k) == ResultsUnder(early, copy, k) + ResultsUnder(late, copy, k)
    decreases |late|
  {
    if late == [] {
      assert early + late == early;
    } else {
      var n := |late| - 1;
      ResultsJoin(early, late[..n], copy, k);
      assert (early + late)[..|early| + n] == early + late[..n];
      ResultsNext(early + late, copy, k);
      ResultsNext(late, copy, k);
      hide ResultsUnder;
    }
  }

  lemma ResultsNext(checks: Checks, copy: Copy, k: Key)
    requires checks != []
    ensures var ((x, o), init) := (checks[|checks| - 1], checks[..|checks| - 1]);
      ResultsUnder(checks, copy, k) == ResultsUnder(init, copy, k) +
        if KeyOf(copy, x) == k && Recorded(copy, o).Some? then [Recorded(copy, o).value] else []
  {
  }

  predicate NoneRaised(checks: Checks) {
    forall i :: 0 <= i < |checks| ==> !checks[i].1.Raised?
  }

  lemma {:induction false} SameResults(checks: Checks, x: Instance)
    requires NoneRaised(checks)
    requires forall i :: 0 <= i < |checks| ==> SameKeys(checks[i].0, x)
    ensures ResultsUnder(checks, Registry, KeyOf(Registry, x)) == ResultsUnder(checks, Transport, KeyOf(Transport, x))
  {
    if checks != [] {
      var init := checks[..|checks| - 1];
      assert forall i :: 0 <= i < |init| ==> init[i] == checks[i];
      SameResults(init, x);
    }
  }

  /** The same check outcome `n` times. */
  function Repeated(y: Instance, o: Outcome, n: nat): Checks { seq(n, _ => (y, o)) }

  function Failures(n: nat): seq<Status> { seq(n, _ => Unhealthy) }

  lemma {:induction false} RepeatedResults(y: Instance, o: Outcome, n: nat, copy: Copy, k: Key)
    requires o == Raised || o == Result(Unhealthy)
    ensures ResultsUnder(Repeated(y, o, n), copy, k)
         == if KeyOf(copy, y) == k && Recorded(copy, o).Some? then Failures(n) else []
  {
    if n > 0 {
      RepeatedResults(y, o, n - 1, copy, k);
      assert Repeated(y, o, n)[..n - 1] == Repeated(y, o, n - 1) && Repeated(y, o, n)[n - 1] == (y, o);
      assert Failures(n - 1) + [Unhealthy] == Failures(n);
    }
  }

  lemma {:induction false} FailuresCount(c: Config, n: nat)
    ensures After(c, Failures(n)).failures == n
    ensures n >= Effective(c.unhealthyThreshold) ==> After(c, Failures(n)).status.Unhealthy?
  {
    if n > 0 {
      assert Failures(n)[..n - 1] == Failures(n - 1);
      FailuresCount(c, n - 1);
    }
  }

  /** The two copies agree about `x` after these checks. */
  ghost predicate AgreeAfter(c: Config, x: Instance, checks: Checks) {
    StatusOf(c, checks, Registry, x) == StatusOf(c, checks, Transport, x)
  }

  /** A series of checks of `x` and `y`, which may raise only if `raises`. */
  predicate Possible(x: Instance, y: Instance, raises: bool, checks: Checks) {
    && (forall i :: 0 <= i < |checks| ==> checks[i].0 == x || checks[i].0 == y)
    && (raises || NoneRaised(checks))
  }

  /** The same address exactly when the same id. */
  predicate SameKeys(x: Instance, y: Instance) {
    (x.host == y.host && x.port == y.port) <==> x.id == y.id
  }

  lemma SameKeysAgree(c: Config, x: Instance, y: Instance, checks: Checks)
    requires SameKeys(x, y) && Possible(x, y, false, checks)
    ensures AgreeAfter(c, x, checks)
  {
    SameResults(checks, x);
  }

  /** Enough failed checks of `y` are held against `x` by one copy only. */
  lemma OneKeyDisagrees(c: Config, x: Instance, y: Instance) returns (checks: Checks)
    requires !SameKeys(x, y)
    ensures Possible(x, y, false, checks) && !AgreeAfter(c, x, checks)
  {
    hide ResultsUnder, After;
    var n := Effective(c.unhealthyThreshold);
    checks := Repeated(y, Result(Unhealthy), n);
    RepeatedResults(y, Result(Unhealthy), n, Registry, KeyOf(Registry, x));
    RepeatedResults(y, Result(Unhealthy), n, Transport, KeyOf(Transport, x));
    FailuresCount(c, n);
    NothingYet(c);
  }

  /** Enough raising checks of `x` make it unhealthy for the transport; the registry has no entry. */
  lemma RaisingDisagrees(c: Config, x: Instance, y: Instance) returns (checks: Checks)
    ensures Possible(x, y, true, checks) && !AgreeAfter(c, x, checks)
    ensures ResultsUnder(checks, Registry, KeyOf(Registry, x)) == []
  {
    hide ResultsUnder, After;
    var n := Effective(c.unhealthyThreshold);
    checks := Repeated(x, Raised, n);
    RepeatedResults(x, Raised, n, Registry, KeyOf(Registry, x));
    RepeatedResults(x, Raised, n, Transport, KeyOf(Transport, x));
    FailuresCount(c, n);
    NothingYet(c);
  }

  /** The two copies agree about `x` after every series of checks of `x` and `y` exactly when no
      check can raise and the two instances share both keys or neither. */
  lemma CopiesAgreeExactly(c: Config, x: Instance, y: Instance, raises: bool)
    ensures (forall checks :: Possible(x, y, raises, checks) ==> AgreeAfter(c, x, checks))
       <==> !raises && ((x.host == y.host && x.port == y.port) <==> x.id == y.id)
  {
    hide AgreeAfter, Possible;
    if raises {
      var checks := RaisingDisagrees(c, x, y);
    } else if SameKeys(x, y) {
      forall checks | Possible(x, y, raises, checks) ensures AgreeAfter(c, x, checks) {
        SameKeysAgree(c, x, y, checks);
      }
    } else {
      var checks := OneKeyDisagrees(c, x, y);
    }
  }

  /** An instance the registry offers. */
  predicate Offered(cache: map<Key, Entry>, x: Instance) {
    var k := KeyOf(Registry, x);
    k !in cache || cache[k].status.Healthy?
    || (cache[k].status.Unknown? && cache[k].lastCheck == Some(Healthy))
  }

  /** An instance the transport offers. */
  predicate CachedHealthy(cache: map<Key, Entry>, x: Instance) {
    var k := KeyOf(Transport, x);
    k in cache && cache[k].status.Healthy?
  }

  function ByRegistry(cache: map<Key, Entry>): Instance -> bool { x => Offered(cache, x) }

  function ByTransport(cache: map<Key, Entry>): Instance -> bool { x => CachedHealthy(cache, x) }

  /** The instances to keep, in list order. */
  function Filter(xs: seq<Instance>, keep: Instance -> bool): seq<Instance> {
    if xs == [] then [] else Filter(xs[..|xs| - 1], keep) + if keep(xs[|xs| - 1]) then [xs[|xs| - 1]] else []
  }

  lemma FilterNone(keep: Instance -> bool)
    ensures Filter([], keep) == []
  {
  }

  lemma FilterNext(xs: seq<Instance>, keep: Instance -> bool, i: nat)
    requires i < |xs|
    ensures Filter(xs[..i + 1], keep) == Filter(xs[..i], keep) + if keep(xs[i]) then [xs[i]] else []
  {
    assert xs[..i + 1][..i] == xs[..i];
  }

  /** The kept instances in list order, with their repetitions. */
  lemma {:induction false} FilterKeeps(xs: seq<Instance>, ys: seq<Instance>, x: Instance, keep: Instance -> bool)
    ensures Filter(xs + ys, keep) == Filter(xs, keep) + Filter(ys, keep)
    ensures Filter([x], keep) == if keep(x) then [x] else []
    decreases |ys|
  {
    hide Filter;
    FilterOne(x, keep);
    if ys == [] {
      assert xs + ys == xs;
      FilterNone(keep);
    } else {
      var n, all := |ys| - 1, xs + ys;
      FilterKeeps(xs, ys[..n], x, keep);
      assert all[..|xs| + n] == xs + ys[..n] && all[..|all|] == all && ys[..|ys|] == ys;
      FilterNext(all, keep, |xs| + n);
      FilterNext(ys, keep, n);
    }
  }

  lemma FilterOne(x: Instance, keep: Instance -> bool)
    ensures Filter([x], keep) == if keep(x) then [x] else []
  {
    assert [x][..0] == [];
    FilterNone(keep);
  }

  /** Not both kinds can have been the last. */
  lemma OneLastLongRun(c: Config, results: seq<Status>, i: int, j: int)
    requires LongRunEnds(c, results, i, true) && LongRunEnds(c, results, j, false)
    ensures !NoLongRunAfter(c, results, i, false) || !NoLongRunAfter(c, results, j, true)
  {
    assert i != j;
    hide LongRunEnds;
    if i < j { assert !NoLongRunAfter(c, results, i, false); }
    assert j <= |results| && i <= |results|;
  }

  lemma HealthyExactly(c: Config, results: seq<Status>)
    ensures After(c, results).status.Healthy? <==> LastLongRun(c, results, true)
    ensures After(c, results).status.Unknown? <==> forall k, h :: !LongRunEnds(c, results, k, h)
  {
    hide After, LongRunEnds, NoLongRunAfter;
    StatusIsLastLongRun(c, results);
    forall i, j | LongRunEnds(c, results, i, true) && LongRunEnds(c, results, j, false)
      ensures !NoLongRunAfter(c, results, i, false) || !NoLongRunAfter(c, results, j, true)
    {
      OneLastLongRun(c, results, i, j);
    }
  }

  /** Who is offered, by the results of the checks. The registry offers an instance without results
      under its address, one whose last long run was healthy, and while there was no long run one whose
      last result was healthy; the transport only one whose last long run under its id was healthy. */
  lemma OfferedExactly(h: HealthCache, x: Instance)
    requires h.Valid()
    ensures var rs := ResultsUnder(h.checks, Registry, (x.host, x.port));
      h.copy.Registry? ==>
        (Offered(h.cache, x) <==>
           || rs == []
           || LastLongRun(h.config, rs, true)
           || ((forall k, b :: !LongRunEnds(h.config, rs, k, b)) && rs[|rs| - 1].Healthy?))
    ensures var rs := ResultsUnder(h.checks, Transport, (x.id, 0));
      h.copy.Transport? ==> (CachedHealthy(h.cache, x) <==> LastLongRun(h.config, rs, true))
  {
    hide After, LongRunEnds, LastLongRun, ResultsUnder;
    var rs := ResultsUnder(h.checks, h.copy, KeyOf(h.copy, x));
    HealthyExactly(h.config, rs);
    CountersAreRuns(h.config, rs);
    if rs == [] { NothingYet(h.config); }
  }

  /** Either copy: entries under a key, with the history of checks it has seen. */
  class HealthCache {
    const config: Config
    const copy: Copy
    const allowUnhealthyFallback: bool
    var cache: map<Key, Entry>
    ghost var checks: Checks

    ghost predicate Valid()
      reads this
    {
      && (forall k :: k in cache <==> ResultsUnder(checks, copy, k) != [])
      && (forall k :: k in cache ==> cache[k] == After(config, ResultsUnder(checks, copy, k)))
    }

    constructor (config: Config, copy: Copy, allowUnhealthyFallback: bool)
      ensures Valid() && checks == [] && this.config == config && this.copy == copy
      ensures this.allowUnhealthyFallback == allowUnhealthyFallback
    {
      this.config, this.copy, this.allowUnhealthyFallback := config, copy, allowUnhealthyFallback;
      cache, checks := map[], [];
    }

    /** One check of an instance: the registry lets an exception through before it has touched any
        entry, the transport records an unhealthy result instead. */
    method CheckInstance(x: Instance, outcome: Outcome) returns (raised: bool)
      requires Valid()
      modifies this
      ensures Valid() && checks == old(checks) + [(x, outcome)]
      ensures raised <==> outcome.Raised? && copy.Registry?
      ensures raised ==> cache == old(cache)
      ensures var k := KeyOf(copy, x);
        && (!raised ==> k in cache)
        && (k in cache ==> cache[k].status == StatusOf(config, checks, copy, x))
        && forall j :: j != k ==> (j in cache <==> j in old(cache)) && (j in cache ==> cache[j] == old(cache)[j])
    {
      hide ResultsUnder, After;
      OneMoreResult(config, checks, x, outcome, copy);
      NothingYet(config);
      ghost var before := checks;
      if outcome.Raised? {
        if copy.Registry? {
          checks := checks + [(x, outcome)];
          return true;
        }
        RecordResult(x, Unhealthy);
      } else {
        RecordResult(x, outcome.status);
      }
      checks := before + [(x, outcome)];
      return false;
    }

    /** The entry update, the same in both copies. */
    method RecordResult(x: Instance, result: Status)
      modifies this`cache
      ensures var k := KeyOf(copy, x);
        cache == old(cache)[k := Check(config, if k in old(cache) then old(cache)[k] else NEW, result)]
    {
      var k := KeyOf(copy, x);
      if k !in cache { cache := cache[k := NEW]; }
      var e := cache[k];
      if result.Healthy? {
        e := e.(lastCheck := Some(result), successes := e.successes + 1, failures := 0);
        if e.successes >= config.healthyThreshold { e := e.(status := Healthy); }
      } else {
        e := e.(lastCheck := Some(result), failures := e.failures + 1, successes := 0);
        if e.failures >= config.unhealthyThreshold { e := e.(status := Unhealthy); }
      }
      cache := cache[k := e];
    }

    /** The registry's filter, in list order; all instances if none qualifies and that is allowed. */
    method ListHealthyInstances(all: seq<Instance>) returns (r: seq<Instance>)
      ensures var kept := Filter(all, ByRegistry(cache));
        r == if kept != [] then kept else if allowUnhealthyFallback then all else []
    {
      hide Filter;
      ghost var keep := ByRegistry(cache);
      var healthy := [];
      FilterNone(keep);
      for i := 0 to |all|
        invariant healthy == Filter(all[..i], keep)
      {
        FilterNext(all, keep, i);
        var k := KeyOf(Registry, all[i]);
        if k !in cache {
          healthy := healthy + [all[i]];
        } else if cache[k].status == Healthy {
          healthy := healthy + [all[i]];
        } else if cache[k].status == Unknown && cache[k].lastCheck == Some(Healthy) {
          healthy := healthy + [all[i]];
        }
      }
      assert all[..|all|] == all;
      if healthy != [] { return healthy; }
      return if allowUnhealthyFallback then all else [];
    }

    /** The transport's filter: only instances known to be healthy. */
    method ListCachedHealthy(all: seq<Instance>) returns (r: seq<Instance>)
      ensures var kept := Filter(all, ByTransport(cache));
        r == if kept != [] then kept else if allowUnhealthyFallback then all else []
    {
      hide Filter;
      ghost var keep := ByTransport(cache);
      var healthy := [];
      FilterNone(keep);
      for i := 0 to |all|
        invariant healthy == Filter(all[..i], keep)
      {
        FilterNext(all, keep, i);
        var k := KeyOf(Transport, all[i]);
        if k in cache && cache[k].status == Healthy { healthy := healthy + [all[i]]; }
      }
      assert all[..|all|] == all;
      if healthy != [] { return healthy; }
      return if allowUnhealthyFallback then all else [];
    }
  }
}
