/**
 The sliding-window algorithm: a queue of recent grants with a running sum, compared
 with the full log of grants that the limiter itself never keeps.
 */
module SlidingWindow {
  import opened Wrappers
  import opened Millis
  import opened Requests

  /** `_sliding_window` and `_sliding_count`. */
  datatype Window = Window(grants: seq<Grant>, count: int)

  function Sum(grants: seq<Grant>): int {
    if grants == [] then 0 else grants[0].count + Sum(grants[1..])
  }

  /** What is left after popping from the front while the front is at or before `threshold`. */
  function Recent(grants: seq<Grant>, threshold: real): seq<Grant> {
    if grants != [] && grants[0].time <= threshold then Recent(grants[1..], threshold) else grants
  }

  /** Entries after `threshold`, wherever they stand. */
  function After(grants: seq<Grant>, threshold: real): seq<Grant> {
    if grants == [] then []
    else (if grants[0].time > threshold then [grants[0]] else []) + After(grants[1..], threshold)
  }

  predicate Ordered(grants: seq<Grant>) {
    forall i, j :: 0 <= i <= j < |grants| ==> grants[i].time <= grants[j].time
  }

  predicate Upto(grants: seq<Grant>, now: real) {
    forall i :: 0 <= i < |grants| ==> grants[i].time <= now
  }

  predicate Valid(w: Window) {
    Positive(w.grants) && Ordered(w.grants) && w.count == Sum(w.grants)
  }

  function Cleanup(w: Window, now: real): Window {
    var kept := Recent(w.grants, now - 1.0);
    Window(kept, Sum(kept))
  }

  /** The end of the first grant whose expiry frees at least `excess` tokens. */
  function FreedAt(grants: seq<Grant>, excess: real): real
    requires Sum(grants) as real >= excess > 0.0
    decreases |grants|
  {
    if grants[0].count as real >= excess then grants[0].time + 1.0
    else FreedAt(grants[1..], excess - grants[0].count as real)
  }

  function TryAcquire(limit: real, w: Window, tokens: int, now: real): (Window, Outcome)
    requires tokens > 0
  {
    if limit <= 0.0 || tokens as real > limit then (w, Outcome(false, None))
    else
      var c := Cleanup(w, now);
      if (c.count + tokens) as real <= limit then
        (Window(c.grants + [Grant(now, tokens)], c.count + tokens), Outcome(true, Some(0)))
      else
        (c, Outcome(false, Some(CeilMs(FreedAt(c.grants, (c.count + tokens) as real - limit) - now))))
  }

  function Available(limit: real, w: Window, now: real): (Window, int) {
    var c := Cleanup(w, now);
    var free := (limit - c.count as real).Floor;
    (c, if free < 0 then 0 else free)
  }

  // ---------------------------------------------------------------- runs

  function Step(limit: real, w: Window, e: Event): Window
    requires e.Acquire? ==> e.tokens > 0
  {
    match e
    case Acquire(n, t) => TryAcquire(limit, w, n, t).0
    case Query(t) => Available(limit, w, t).0
  }

  /** The log of everything granted so far. */
  function Log(limit: real, log: seq<Grant>, w: Window, e: Event): seq<Grant>
    requires e.Acquire? ==> e.tokens > 0
  {
    if e.Acquire? && TryAcquire(limit, w, e.tokens, e.time).1.granted then log + [Grant(e.time, e.tokens)] else log
  }

  function RunLog(limit: real, log: seq<Grant>, w: Window, es: seq<Event>, from: real): seq<Grant>
    requires Run(es, from)
    decreases |es|
  {
    if es == [] then log
    else RunLog(limit, Log(limit, log, w, es[0]), Step(limit, w, es[0]), es[1..], es[0].time)
  }

  function Final(limit: real, w: Window, es: seq<Event>, from: real): Window
    requires Run(es, from)
    decreases |es|
  {
    if es == [] then w else Final(limit, Step(limit, w, es[0]), es[1..], es[0].time)
  }

  // ---------------------------------------------------------------- popping and filtering

  lemma {:induction false} SumSplits(a: seq<Grant>, b: seq<Grant>)
    ensures Sum(a + b) == Sum(a) + Sum(b)
  {
    if a == [] {
      assert a + b == b;
    } else {
      assert (a + b)[1..] == a[1..] + b;
      SumSplits(a[1..], b);
    }
  }

  lemma {:induction false} SumNonnegative(a: seq<Grant>)
    requires Positive(a)
    ensures Sum(a) >= 0 && (a != [] ==> Sum(a) > 0)
  {
    if a != [] { SumNonnegative(a[1..]); }
  }

  lemma {:induction false} RecentIsSuffix(a: seq<Grant>, th: real)
    ensures |Recent(a, th)| <= |a| && Recent(a, th) == a[|a| - |Recent(a, th)|..]
    ensures Upto(a[..|a| - |Recent(a, th)|], th)
    ensures Recent(a, th) != [] ==> Recent(a, th)[0].time > th
  {
    if a != [] && a[0].time <= th {
      RecentIsSuffix(a[1..], th);
      var k := |a| - |Recent(a, th)|;
      assert a[..k] == [a[0]] + a[1..][..k - 1];
    }
  }

  /** One turn of the popping loop. */
  lemma Pop(a: seq<Grant>, th: real)
    ensures a == [] ==> Recent(a, th) == a
    ensures a != [] ==>
      && Recent(a, th) == (if a[0].time <= th then Recent(a[1..], th) else a)
      && Sum(a) == a[0].count + Sum(a[1..])
  {
  }

  lemma CleanupKeepsValid(w: Window, now: real)
    requires Valid(w)
    ensures Valid(Cleanup(w, now))
  {
    RecentIsSuffix(w.grants, now - 1.0);
  }

  lemma AppendKeepsValid(w: Window, now: real, n: int)
    requires Valid(w) && Upto(w.grants, now) && n > 0
    ensures Valid(Window(w.grants + [Grant(now, n)], w.count + n)) && Upto(w.grants + [Grant(now, n)], now)
  {
    SumSplits(w.grants, [Grant(now, n)]);
  }

  lemma UptoGrows(a: seq<Grant>, s: real, t: real)
    requires Upto(a, s) && s <= t
    ensures Upto(a, t)
  {
  }

  /** On an ordered log, popping from the front is filtering. */
  lemma {:induction false} RecentIsAfter(a: seq<Grant>, th: real)
    requires Ordered(a)
    ensures Recent(a, th) == After(a, th)
  {
    if a != [] {
      RecentIsAfter(a[1..], th);
      if a[0].time > th { assert Recent(a[1..], th) == a[1..]; }
    }
  }

  lemma {:induction false} RecentOfRecent(a: seq<Grant>, s: real, t: real)
    requires s <= t
    ensures Recent(Recent(a, s), t) == Recent(a, t)
  {
    if a != [] && a[0].time <= s { RecentOfRecent(a[1..], s, t); }
  }

  lemma {:induction false} RecentOfAppend(a: seq<Grant>, g: Grant, th: real)
    ensures Recent(a + [g], th) == if Recent(a, th) == [] then Recent([g], th) else Recent(a, th) + [g]
  {
    if a == [] {
      assert a + [g] == [g];
    } else {
      assert (a + [g])[1..] == a[1..] + [g];
      if a[0].time <= th { RecentOfAppend(a[1..], g, th); }
    }
  }

  lemma {:induction false} InSecondOfAppend(a: seq<Grant>, g: Grant, x: real)
    ensures InSecond(a + [g], x) == InSecond(a, x) + if x < g.time <= x + 1.0 then g.count else 0
  {
    if a == [] {
      assert a + [g] == [g];
    } else {
      assert (a + [g])[1..] == a[1..] + [g];
      InSecondOfAppend(a[1..], g, x);
    }
  }

  lemma {:induction false} RecentCovers(a: seq<Grant>, th: real, x: real)
    requires Positive(a) && th <= x
    ensures InSecond(a, x) <= Sum(Recent(a, th))
    ensures InSecond(a, x) <= Sum(a)
  {
    if a != [] {
      RecentCovers(a[1..], th, x);
      SumNonnegative(a[1..]);
    }
  }

  // ---------------------------------------------------------------- the limit

  /** The queue agrees with the log on everything that can still matter after `now`. */
  ghost predicate Agrees(w: Window, log: seq<Grant>, now: real) {
    forall th :: th >= now - 1.0 ==> Recent(w.grants, th) == Recent(log, th)
  }

  ghost predicate WithinLimit(limit: real, log: seq<Grant>) {
    forall x :: InSecond(log, x) as real <= limit
  }

  ghost predicate Inv(limit: real, w: Window, log: seq<Grant>, now: real) {
    && limit >= 0.0 && Valid(w) && Positive(log) && Ordered(log) && Upto(log, now) && Upto(w.grants, now)
    && Agrees(w, log, now) && WithinLimit(limit, log)
  }

  /** Cleaning up at `now` leaves exactly the log filtered to the last second. */
  lemma CleanupIsFilter(limit: real, w: Window, log: seq<Grant>, from: real, now: real)
    requires Inv(limit, w, log, from) && from <= now
    ensures Cleanup(w, now).grants == After(log, now - 1.0)
    ensures Inv(limit, Cleanup(w, now), log, now)
  {
    CleanupKeepsValid(w, now);
    RecentIsSuffix(w.grants, now - 1.0);
    RecentIsAfter(log, now - 1.0);
    forall th | th >= now - 1.0 ensures Recent(Cleanup(w, now).grants, th) == Recent(log, th) {
      RecentOfRecent(w.grants, now - 1.0, th);
    }
  }

  lemma GrantKeepsInv(limit: real, w: Window, log: seq<Grant>, now: real, n: int)
    requires Inv(limit, w, log, now) && w == Cleanup(w, now)
    requires n > 0 && (w.count + n) as real <= limit
    ensures Inv(limit, Window(w.grants + [Grant(now, n)], w.count + n), log + [Grant(now, n)], now)
  {
    var g := Grant(now, n);
    AppendKeepsValid(w, now, n);
    forall th | th >= now - 1.0 ensures Recent(w.grants + [g], th) == Recent(log + [g], th) {
      RecentOfAppend(w.grants, g, th);
      RecentOfAppend(log, g, th);
    }
    forall x ensures InSecond(log + [g], x) as real <= limit {
      InSecondOfAppend(log, g, x);
      if x < now <= x + 1.0 { RecentCovers(log, now - 1.0, x); }
    }
  }

  lemma InvLater(limit: real, w: Window, log: seq<Grant>, from: real, now: real)
    requires Inv(limit, w, log, from) && from <= now
    ensures Inv(limit, w, log, now)
  {
    hide Recent, Sum;
  }

  lemma StepKeepsInv(limit: real, w: Window, log: seq<Grant>, from: real, e: Event)
    requires Inv(limit, w, log, from) && from <= e.time && (e.Acquire? ==> e.tokens > 0)
    ensures Inv(limit, Step(limit, w, e), Log(limit, log, w, e), e.time)
  {
    hide Inv, Recent, Sum;
    InvLater(limit, w, log, from, e.time);
    CleanupIsFilter(limit, w, log, from, e.time);
    var c := Cleanup(w, e.time);
    RecentOfRecent(w.grants, e.time - 1.0, e.time - 1.0);
    if e.Acquire? && (c.count + e.tokens) as real <= limit {
      GrantKeepsInv(limit, c, log, e.time, e.tokens);
    }
  }

  lemma {:induction false} RunKeepsInv(limit: real, w: Window, log: seq<Grant>, es: seq<Event>, from: real)
    requires Inv(limit, w, log, from) && Run(es, from)
    ensures Inv(limit, Final(limit, w, es, from), RunLog(limit, log, w, es, from),
                if es == [] then from else es[|es| - 1].time)
    decreases |es|
  {
    hide Inv, Step, Log;
    if es != [] {
      StepKeepsInv(limit, w, log, from, es[0]);
      RunKeepsInv(limit, Step(limit, w, es[0]), Log(limit, log, w, es[0]), es[1..], es[0].time);
    }
  }

  /** In every run from an empty limiter, the tokens granted in any interval (x, x+1] stay
      within the limit; the running count is the sum of the queue; and a cleanup at any
      later time leaves exactly the grants of the last second. */
  lemma OneSecondBound(limit: real, es: seq<Event>, from: real, x: real, now: real)
    requires limit >= 0.0 && Run(es, from) && (if es == [] then from else es[|es| - 1].time) <= now
    ensures var log, w := RunLog(limit, [], Window([], 0), es, from), Final(limit, Window([], 0), es, from);
      && InSecond(log, x) as real <= limit
      && w.count == Sum(w.grants)
      && Cleanup(w, now).grants == After(log, now - 1.0)
  {
    RunKeepsInv(limit, Window([], 0), [], es, from);
    CleanupIsFilter(limit, Final(limit, Window([], 0), es, from), RunLog(limit, [], Window([], 0), es, from),
                    if es == [] then from else es[|es| - 1].time, now);
  }

  // ---------------------------------------------------------------- who is granted

  lemma {:induction false} SumOfLastSecond(log: seq<Grant>, now: real)
    requires Upto(log, now)
    ensures Sum(After(log, now - 1.0)) == InSecond(log, now - 1.0)
  {
    if log != [] {
      SumOfLastSecond(log[1..], now);
      var rest := After(log[1..], now - 1.0);
      assert ([log[0]] + rest)[1..] == rest && [] + rest == rest;
    }
  }

  lemma {:induction false} InSecondNonnegative(log: seq<Grant>, x: real)
    requires Positive(log)
    ensures InSecond(log, x) >= 0
  {
    if log != [] { InSecondNonnegative(log[1..], x); }
  }

  lemma PrefixOfRun(es: seq<Event>, from: real, j: nat)
    requires Run(es, from) && j < |es|
    ensures Run(es[..j], from) && from <= es[j].time
    ensures (if es[..j] == [] then from else es[..j][|es[..j]| - 1].time) <= es[j].time
    ensures es[j].Acquire? ==> es[j].tokens > 0
  {
  }

  lemma GrantedIfRoom(limit: real, w: Window, log: seq<Grant>, from: real, n: int, now: real)
    requires Inv(limit, w, log, from) && from <= now && n > 0
    ensures TryAcquire(limit, w, n, now).1.granted <==> (InSecond(log, now - 1.0) + n) as real <= limit
  {
    CleanupIsFilter(limit, w, log, from, now);
    UptoGrows(log, from, now);
    SumOfLastSecond(log, now);
    InSecondNonnegative(log, now - 1.0);
    hide Inv, Recent, After, Sum, InSecond;
  }

  /** Everything granted before call `j`, and whether that is. */
  function LogBefore(limit: real, es: seq<Event>, from: real, j: nat): seq<Grant>
    requires Run(es, from) && j < |es|
  {
    PrefixOfRun(es, from, j);
    RunLog(limit, [], Window([], 0), es[..j], from)
  }

  predicate GrantedAt(limit: real, es: seq<Event>, from: real, j: nat)
    requires Run(es, from) && j < |es|
  {
    PrefixOfRun(es, from, j);
    && es[j].Acquire?
    && TryAcquire(limit, Final(limit, Window([], 0), es[..j], from), es[j].tokens, es[j].time).1.granted
  }

  /** Who is granted, exactly: in every run from an empty limiter, a request is granted if and only
      if it and the tokens granted before it in the last second are within the limit. */
  lemma GrantedExactly(limit: real, es: seq<Event>, from: real, j: nat)
    requires limit >= 0.0 && Run(es, from) && j < |es| && es[j].Acquire?
    ensures GrantedAt(limit, es, from, j)
       <==> (InSecond(LogBefore(limit, es, from, j), es[j].time - 1.0) + es[j].tokens) as real <= limit
  {
    PrefixOfRun(es, from, j);
    NothingYet(limit, from);
    RunKeepsInv(limit, Window([], 0), [], es[..j], from);
    hide RunLog, Final, Run, Inv, TryAcquire, InSecond;
    GrantedIfRoom(limit, Final(limit, Window([], 0), es[..j], from), RunLog(limit, [], Window([], 0), es[..j], from),
                  if es[..j] == [] then from else es[..j][|es[..j]| - 1].time, es[j].tokens, es[j].time);
  }

  lemma NothingYet(limit: real, from: real)
    requires limit >= 0.0
    ensures Inv(limit, Window([], 0), [], from)
  {
  }

  // ---------------------------------------------------------------- queries are harmless

  /** What the callers of `acquire` saw, in order. */
  function Outcomes(limit: real, w: Window, es: seq<Event>): seq<Outcome>
    requires PositiveRequests(es)
    decreases |es|
  {
    if es == [] then []
    else
      (if es[0].Acquire? then [TryAcquire(limit, w, es[0].tokens, es[0].time).1] else [])
      + Outcomes(limit, Step(limit, w, es[0]), es[1..])
  }

  /** Two windows that nothing from time `from` on can tell apart. */
  ghost predicate SameFrom(a: Window, b: Window, from: real) {
    forall th :: th >= from - 1.0 ==> Recent(a.grants, th) == Recent(b.grants, th)
  }

  lemma SameStep(limit: real, a: Window, b: Window, e: Event, from: real)
    requires SameFrom(a, b, from) && from <= e.time && (e.Acquire? ==> e.tokens > 0)
    ensures SameFrom(Step(limit, a, e), if e.Acquire? then Step(limit, b, e) else b, e.time)
    ensures e.Acquire? ==> TryAcquire(limit, a, e.tokens, e.time).1 == TryAcquire(limit, b, e.tokens, e.time).1
  {
    assert Cleanup(a, e.time) == Cleanup(b, e.time);
    forall th | th >= e.time - 1.0 ensures Recent(Cleanup(a, e.time).grants, th) == Recent(b.grants, th) {
      RecentOfRecent(a.grants, e.time - 1.0, th);
    }
  }

  lemma {:induction false} SameOutcomes(limit: real, a: Window, b: Window, es: seq<Event>, from: real)
    requires SameFrom(a, b, from) && Run(es, from)
    ensures Outcomes(limit, a, es) == Outcomes(limit, b, AcquiresOf(es))
    decreases |es|
  {
    hide SameFrom, TryAcquire, Step;
    if es != [] {
      RunTail(es, from);
      SameStep(limit, a, b, es[0], from);
      var b' := if es[0].Acquire? then Step(limit, b, es[0]) else b;
      SameOutcomes(limit, Step(limit, a, es[0]), b', es[1..], es[0].time);
      if es[0].Acquire? {
        assert AcquiresOf(es)[1..] == AcquiresOf(es[1..]);
      } else {
        assert AcquiresOf(es) == AcquiresOf(es[1..]);
      }
    }
  }

  /** Calling `get_available_tokens` at any points of a run changes no caller's outcome,
      hints included. */
  lemma QueriesAreHarmless(limit: real, w: Window, es: seq<Event>, from: real)
    requires Run(es, from)
    ensures Outcomes(limit, w, es) == Outcomes(limit, w, AcquiresOf(es))
  {
    SameOutcomes(limit, w, w, es, from);
  }

  // ---------------------------------------------------------------- hints

  /** Popping up to `th` frees at least `excess` tokens exactly from FreedAt - 1 on. */
  lemma {:induction false} FreedExactly(a: seq<Grant>, excess: real, th: real)
    requires Positive(a) && Ordered(a) && Sum(a) as real >= excess > 0.0
    ensures (Sum(a) - Sum(Recent(a, th))) as real >= excess <==> th >= FreedAt(a, excess) - 1.0
    ensures exists i :: 0 <= i < |a| && FreedAt(a, excess) == a[i].time + 1.0
    decreases |a|
  {
    if a[0].count as real >= excess {
      RecentIsSuffix(a[1..], th);
      SumNonnegative(Recent(a[1..], th));
      FreedNonnegative(a[1..], th);
    } else {
      FreedExactly(a[1..], excess - a[0].count as real, th);
      var i :| 0 <= i < |a[1..]| && FreedAt(a[1..], excess - a[0].count as real) == a[1..][i].time + 1.0;
      assert a[1..][i] == a[i + 1];
    }
  }

  lemma FreedNonnegative(a: seq<Grant>, th: real)
    requires Positive(a)
    ensures Sum(Recent(a, th)) <= Sum(a)
  {
    RecentIsSuffix(a, th);
    var k := |a| - |Recent(a, th)|;
    assert a == a[..k] + a[k..];
    SumSplits(a[..k], a[k..]);
    SumNonnegative(a[..k]);
  }

  /** After a refusal within the limit the queue is not empty and some entry's expiry frees
      enough, so the hint loop always returns from inside; a later request is granted
      exactly from that expiry on. */
  lemma GrantedFrom(limit: real, w: Window, n: int, now: real, t: real)
    requires Valid(w) && Upto(w.grants, now) && now <= t && 0 < n && n as real <= limit
    requires !TryAcquire(limit, w, n, now).1.granted
    ensures var c := Cleanup(w, now);
      && c.grants != []
      && Sum(c.grants) as real >= (c.count + n) as real - limit > 0.0
      && var at := FreedAt(c.grants, (c.count + n) as real - limit);
      now < at && (TryAcquire(limit, c, n, t).1.granted <==> t >= at)
  {
    CleanupKeepsValid(w, now);
    var c := Cleanup(w, now);
    var excess := (c.count + n) as real - limit;
    LiveAreRecent(w.grants, now - 1.0);
    FreedExactly(c.grants, excess, t - 1.0);
    hide FreedAt, Recent;
  }

  lemma LiveAreRecent(a: seq<Grant>, th: real)
    requires Ordered(a)
    ensures forall i :: 0 <= i < |Recent(a, th)| ==> th < Recent(a, th)[i].time
  {
    RecentIsSuffix(a, th);
  }

  /** A refused attempt leaves no trace: the same request later does what it would have done. */
  lemma RefusalLeavesNoTrace(limit: real, w: Window, n: int, s: real, t: real)
    requires s <= t && n > 0 && !TryAcquire(limit, w, n, s).1.granted
    ensures TryAcquire(limit, TryAcquire(limit, w, n, s).0, n, t) == TryAcquire(limit, w, n, t)
  {
    RecentOfRecent(w.grants, s - 1.0, t - 1.0);
  }

  /** The hint is exact: None exactly when no later time grants the request; otherwise at
      least 1 ms, enough at its end, and not enough up to 1 ms before its end. */
  lemma HintIsExact(limit: real, w: Window, n: int, now: real)
    requires Valid(w) && Upto(w.grants, now) && n > 0
    requires !TryAcquire(limit, w, n, now).1.granted
    ensures var (w1, o) := TryAcquire(limit, w, n, now);
      && (o.waitMs.None? <==> forall t :: t >= now ==> !TryAcquire(limit, w1, n, t).1.granted)
      && (o.waitMs.Some? ==>
            && o.waitMs.value >= 1
            && TryAcquire(limit, w1, n, Millis.After(now, o.waitMs.value)).1.granted
            && forall t :: now <= t <= Millis.After(now, o.waitMs.value - 1) ==> !TryAcquire(limit, w1, n, t).1.granted)
  {
    if limit > 0.0 && n as real <= limit {
      var c := Cleanup(w, now);
      GrantedFrom(limit, w, n, now, now);
      var at := FreedAt(c.grants, (c.count + n) as real - limit);
      CeilMsIsTight(now, at);
      forall t | t >= now ensures TryAcquire(limit, c, n, t).1.granted <==> t >= at {
        GrantedFrom(limit, w, n, now, t);
      }
      assert TryAcquire(limit, c, n, at).1.granted;
    }
  }

  /** `get_available_tokens` is exact: k tokens can be taken at that instant iff k <= it. */
  lemma AvailableIsExact(limit: real, w: Window, k: int, now: real)
    requires Valid(w) && limit >= 0.0 && k > 0
    ensures TryAcquire(limit, w, k, now).1.granted <==> k <= Available(limit, w, now).1
  {
    CleanupKeepsValid(w, now);
    SumNonnegative(Cleanup(w, now).grants);
  }
}
