/**
 The fixed-window algorithm: one counter that restarts at aligned one-second windows.
 */
module FixedWindow {
  import opened Wrappers
  import opened Millis
  import opened Requests

  /** `_fixed_window_start` and `_fixed_window_count`. */
  datatype Window = Window(start: real, count: int)

  function Rotate(w: Window, now: real): Window {
    if now - w.start < 1.0 then w
    else Window(w.start + (now - w.start).Floor as real, if w.count > 0 then 0 else w.count)
  }

  function TryAcquire(limit: real, w: Window, tokens: int, now: real): (Window, Outcome) {
    if limit <= 0.0 || tokens as real > limit then (w, Outcome(false, None))
    else
      var r := Rotate(w, now);
      if (r.count + tokens) as real <= limit then
        (Window(r.start, r.count + tokens), Outcome(true, Some(0)))
      else
        (r, Outcome(false, Some(CeilMs(r.start + 1.0 - now))))
  }

  function Available(limit: real, w: Window, now: real): (Window, int) {
    var r := Rotate(w, now);
    var free := (limit - r.count as real).Floor;
    (r, if free < 0 then 0 else free)
  }

  // ---------------------------------------------------------------- runs

  function Step(limit: real, w: Window, e: Event): Window {
    match e
    case Acquire(n, t) => TryAcquire(limit, w, n, t).0
    case Query(t) => Available(limit, w, t).0
  }

  function Log(limit: real, log: seq<Grant>, w: Window, e: Event): seq<Grant> {
    if e.Acquire? && TryAcquire(limit, w, e.tokens, e.time).1.granted then log + [Grant(e.time, e.tokens)] else log
  }

  function RunLog(limit: real, log: seq<Grant>, w: Window, es: seq<Event>): seq<Grant>
    decreases |es|
  {
    if es == [] then log else RunLog(limit, Log(limit, log, w, es[0]), Step(limit, w, es[0]), es[1..])
  }

  /** Tokens granted in the aligned second [s, s + 1). */
  function InWindow(log: seq<Grant>, s: real): int {
    if log == [] then 0
    else (if s <= log[0].time < s + 1.0 then log[0].count else 0) + InWindow(log[1..], s)
  }

  // ---------------------------------------------------------------- the limit

  lemma {:induction false} InWindowOfAppend(a: seq<Grant>, g: Grant, s: real)
    ensures InWindow(a + [g], s) == InWindow(a, s) + if s <= g.time < s + 1.0 then g.count else 0
  {
    if a == [] {
      assert a + [g] == [g];
    } else {
      assert (a + [g])[1..] == a[1..] + [g];
      InWindowOfAppend(a[1..], g, s);
    }
  }

  lemma {:induction false} EmptyWindow(a: seq<Grant>, s: real)
    requires forall i :: 0 <= i < |a| ==> a[i].time < s
    ensures InWindow(a, s) == 0
  {
    if a != [] { EmptyWindow(a[1..], s); }
  }

  lemma RotateAligns(w: Window, now: real)
    requires w.start <= now && w.count >= 0
    ensures var r := Rotate(w, now);
      && r.start <= now < r.start + 1.0
      && (r.start == w.start ==> r.count == w.count)
      && (r.start != w.start ==> r.start >= w.start + 1.0 && r.count == 0)
      && (r.start - w.start).Floor as real == r.start - w.start
  {
    var k := (now - w.start).Floor;
    assert (k as real).Floor == k;
  }

  /** Rotating part of the way first makes no difference later. */
  lemma RotateTwice(w: Window, s: real, t: real)
    requires w.start <= s <= t && w.count >= 0
    ensures Rotate(Rotate(w, s), t) == Rotate(w, t)
  {
    RotateAligns(w, s);
    RotateAligns(w, t);
    RotateAligns(Rotate(w, s), t);
    var r := Rotate(w, s);
    AlignedAdds(w.start, r.start, Rotate(r, t).start);
    if Rotate(r, t).start < Rotate(w, t).start { AlignedApart(w.start, Rotate(r, t).start, Rotate(w, t).start); }
    if Rotate(r, t).start > Rotate(w, t).start { AlignedApart(w.start, Rotate(w, t).start, Rotate(r, t).start); }
  }

  /** The counter is what the log holds for the current aligned window, and every aligned
      window is within the limit. */
  ghost predicate Inv(limit: real, w: Window, log: seq<Grant>, origin: real, now: real) {
    && limit >= 0.0 && w.count >= 0 && Positive(log) && w.start <= now
    && Aligned(origin, w.start)
    && (forall i :: 0 <= i < |log| ==> log[i].time < w.start + 1.0)
    && w.count == InWindow(log, w.start)
    && (forall s {:trigger InWindow(log, s)} :: Aligned(origin, s) ==> InWindow(log, s) as real <= limit)
  }

  predicate Aligned(origin: real, s: real) {
    (s - origin).Floor as real == s - origin
  }

  lemma AlignedApart(origin: real, s: real, t: real)
    requires Aligned(origin, s) && Aligned(origin, t) && s < t
    ensures s + 1.0 <= t
  {
    var i, j := (s - origin).Floor, (t - origin).Floor;
    assert t - s == (j - i) as real;
    assert j - i > 0;
  }

  lemma AlignedAdds(origin: real, s: real, t: real)
    requires Aligned(origin, s) && Aligned(s, t)
    ensures Aligned(origin, t)
  {
    var j, k := (s - origin).Floor, (t - s).Floor;
    assert ((j + k) as real).Floor == j + k;
    assert t - origin == (j + k) as real;
  }

  lemma RotateKeepsInv(limit: real, w: Window, log: seq<Grant>, origin: real, from: real, now: real)
    requires Inv(limit, w, log, origin, from) && from <= now
    ensures Inv(limit, Rotate(w, now), log, origin, now) && now < Rotate(w, now).start + 1.0
  {
    RotateAligns(w, now);
    var r := Rotate(w, now);
    AlignedAdds(origin, w.start, r.start);
    if r.start != w.start { EmptyWindow(log, r.start); }
  }

  lemma GrantKeepsInv(limit: real, w: Window, log: seq<Grant>, origin: real, now: real, n: int)
    requires Inv(limit, w, log, origin, now) && now < w.start + 1.0
    requires n > 0 && (w.count + n) as real <= limit
    ensures Inv(limit, Window(w.start, w.count + n), log + [Grant(now, n)], origin, now)
  {
    var g := Grant(now, n);
    InWindowOfAppend(log, g, w.start);
    forall s {:trigger InWindow(log + [g], s)} | Aligned(origin, s) ensures InWindow(log + [g], s) as real <= limit {
      InWindowOfAppend(log, g, s);
      if s < w.start { AlignedApart(origin, s, w.start); }
      if s > w.start { AlignedApart(origin, w.start, s); }
    }
  }

  lemma StepKeepsInv(limit: real, w: Window, log: seq<Grant>, origin: real, from: real, e: Event)
    requires Inv(limit, w, log, origin, from) && from <= e.time && (e.Acquire? ==> e.tokens > 0)
    ensures Inv(limit, Step(limit, w, e), Log(limit, log, w, e), origin, e.time)
  {
    RotateKeepsInv(limit, w, log, origin, from, e.time);
    var r := Rotate(w, e.time);
    if e.Acquire? && (r.count + e.tokens) as real <= limit {
      GrantKeepsInv(limit, r, log, origin, e.time, e.tokens);
    }
  }

  function Final(limit: real, w: Window, es: seq<Event>): Window
    decreases |es|
  {
    if es == [] then w else Final(limit, Step(limit, w, es[0]), es[1..])
  }

  lemma {:induction false} RunKeepsInv(limit: real, w: Window, log: seq<Grant>, es: seq<Event>,
                                       origin: real, from: real)
    requires Inv(limit, w, log, origin, from) && Run(es, from)
    ensures Inv(limit, Final(limit, w, es), RunLog(limit, log, w, es), origin,
                if es == [] then from else es[|es| - 1].time)
    decreases |es|
  {
    hide Step, Log, Inv;
    if es != [] {
      RunTail(es, from);
      StepKeepsInv(limit, w, log, origin, from, es[0]);
      RunKeepsInv(limit, Step(limit, w, es[0]), Log(limit, log, w, es[0]), es[1..], origin, es[0].time);
    }
  }

  /** Whether call `j` of a run is granted. */
  predicate GrantedAt(limit: real, origin: real, es: seq<Event>, j: nat)
    requires j < |es|
  {
    && es[j].Acquire?
    && TryAcquire(limit, Final(limit, Window(origin, 0), es[..j]), es[j].tokens, es[j].time).1.granted
  }

  /** Who is granted, exactly: in every run from a limiter created at `origin`, a request is granted
      if and only if it and the tokens granted before it in the present aligned second are within
      the limit. */
  lemma GrantedExactly(limit: real, es: seq<Event>, origin: real, j: nat)
    requires limit >= 0.0 && Run(es, origin) && j < |es| && es[j].Acquire?
    ensures var s := origin + (es[j].time - origin).Floor as real;
      GrantedAt(limit, origin, es, j)
      <==> (InWindow(GrantsOf(limit, origin, es[..j]), s) + es[j].tokens) as real <= limit
  {
    var now, prefix := es[j].time, es[..j];
    var from := if prefix == [] then origin else prefix[|prefix| - 1].time;
    var w, log := Final(limit, Window(origin, 0), prefix), GrantsOf(limit, origin, prefix);
    NothingYet(limit, origin);
    RunKeepsInv(limit, Window(origin, 0), [], prefix, origin, origin);
    RotateKeepsInv(limit, w, log, origin, from, now);
    WindowAt(origin, Rotate(w, now).start, now);
    hide Inv, InWindow, RunLog, Final, Rotate, Run;
    GrantedIfRoom(limit, w, log, origin, from, es[j].tokens, now);
  }

  /** The aligned second an instant is in. */
  lemma WindowAt(origin: real, s: real, now: real)
    requires Aligned(origin, s) && s <= now < s + 1.0
    ensures s == origin + (now - origin).Floor as real
  {
    var i := (s - origin).Floor;
    FloorIs(now - origin, i);
  }

  lemma FloorIs(x: real, i: int)
    requires i as real <= x < i as real + 1.0
    ensures x.Floor == i
  {
  }

  lemma GrantedIfRoom(limit: real, w: Window, log: seq<Grant>, origin: real, from: real, n: int, now: real)
    requires Inv(limit, w, log, origin, from) && from <= now && n > 0
    ensures TryAcquire(limit, w, n, now).1.granted
       <==> (InWindow(log, Rotate(w, now).start) + n) as real <= limit
  {
    RotateKeepsInv(limit, w, log, origin, from, now);
    hide Rotate, InWindow;
  }

  /** A second is covered by two adjacent aligned windows. */
  lemma {:induction false} SecondInTwoWindows(log: seq<Grant>, s: real, x: real)
    requires Positive(log) && s <= x < s + 1.0
    ensures InSecond(log, x) <= InWindow(log, s) + InWindow(log, s + 1.0)
    ensures InWindow(log, s) >= 0 && InWindow(log, s + 1.0) >= 0
  {
    if log != [] { SecondInTwoWindows(log[1..], s, x); }
  }

  /** Everything granted in a run from a limiter created at `origin`. */
  function GrantsOf(limit: real, origin: real, es: seq<Event>): seq<Grant> {
    RunLog(limit, [], Window(origin, 0), es)
  }

  /** In every run each aligned second stays within the limit and each second, however placed,
      within twice the limit rounded down. */
  lemma AlignedBound(limit: real, es: seq<Event>, origin: real, k: int, x: real)
    requires limit >= 0.0 && Run(es, origin)
    ensures InWindow(GrantsOf(limit, origin, es), origin + k as real) as real <= limit
    ensures InSecond(GrantsOf(limit, origin, es), x) <= 2 * limit.Floor
  {
    hide *;
    var log := GrantsOf(limit, origin, es);
    WholeSecondsAlign(origin, k);
    var s := AlignedBefore(origin, x);
    WithinWindow(limit, es, origin, origin + k as real);
    WithinWindow(limit, es, origin, s);
    WithinWindow(limit, es, origin, s + 1.0);
    SecondInTwoWindows(log, s, x);
  }

  lemma WithinWindow(limit: real, es: seq<Event>, origin: real, s: real)
    requires limit >= 0.0 && Run(es, origin) && Aligned(origin, s)
    ensures InWindow(GrantsOf(limit, origin, es), s) <= limit.Floor
    ensures InWindow(GrantsOf(limit, origin, es), s) as real <= limit
    ensures Positive(GrantsOf(limit, origin, es))
  {
    NothingYet(limit, origin);
    RunKeepsInv(limit, Window(origin, 0), [], es, origin, origin);
    hide RunLog, InWindow, Aligned, Final, Run;
  }

  lemma NothingYet(limit: real, origin: real)
    requires limit >= 0.0
    ensures Inv(limit, Window(origin, 0), [], origin, origin)
  {
  }

  lemma WholeSecondsAlign(origin: real, k: int)
    ensures Aligned(origin, origin + k as real)
  {
    assert (k as real).Floor == k;
  }

  /** The aligned window an instant is in, and the one after. */
  lemma AlignedBefore(origin: real, x: real) returns (s: real)
    ensures s <= x < s + 1.0 && Aligned(origin, s) && Aligned(origin, s + 1.0)
  {
    var j := (x - origin).Floor;
    s := origin + j as real;
    WholeSecondsAlign(origin, j);
    WholeSecondsAlign(origin, j + 1);
  }

  /** That bound is reached, within a tenth of a second, for every limit that grants at all. */
  lemma TwiceTheLimitIsReached(limit: real, origin: real) returns (es: seq<Event>)
    requires limit >= 1.0
    ensures Run(es, origin)
    ensures GrantsOf(limit, origin, es) == [Grant(origin + 0.95, limit.Floor), Grant(origin + 1.05, limit.Floor)]
    ensures InSecond(GrantsOf(limit, origin, es), origin + 0.5) == 2 * limit.Floor
  {
    var n := limit.Floor;
    var t1, t2 := origin + 0.95, origin + 1.05;
    es := [Acquire(n, t1), Acquire(n, t2)];
    var w1, log1, log2 := Window(origin, n), [Grant(t1, n)], [Grant(t1, n), Grant(t2, n)];
    assert (1.05 as real).Floor == 1 && t2 - origin == 1.05;
    assert Rotate(w1, t2) == Window(origin + 1.0, 0);
    assert Step(limit, Window(origin, 0), es[0]) == w1 && Log(limit, [], Window(origin, 0), es[0]) == log1;
    assert Log(limit, log1, w1, es[1]) == log2;
    assert es[1..] == [es[1]] && es[1..][1..] == [];
    assert GrantsOf(limit, origin, es) == RunLog(limit, log1, w1, es[1..]) == log2;
    assert log2[1..] == [Grant(t2, n)];
    assert InSecond(log2, origin + 0.5) == n + InSecond(log2[1..], origin + 0.5) == 2 * n;
  }

  ghost predicate EverySecondWithin(limit: real, log: seq<Grant>) {
    forall x :: InSecond(log, x) as real <= limit
  }

  /** A limit below one grants nothing. */
  lemma {:induction false} NothingGranted(limit: real, w: Window, es: seq<Event>, from: real)
    requires limit < 1.0 && Run(es, from)
    ensures RunLog(limit, [], w, es) == []
    decreases |es|
  {
    if es != [] {
      RunTail(es, from);
      NothingGranted(limit, Step(limit, w, es[0]), es[1..], es[0].time);
    }
  }

  /** When the limit holds of every second, as a rate limit should: exactly for limits below one,
      which grant nothing. */
  lemma EverySecondWithinExactly(limit: real, origin: real)
    requires limit >= 0.0
    ensures (forall es :: Run(es, origin) ==> EverySecondWithin(limit, GrantsOf(limit, origin, es))) <==> limit < 1.0
  {
    if limit < 1.0 {
      forall es | Run(es, origin) ensures EverySecondWithin(limit, GrantsOf(limit, origin, es)) {
        NothingGranted(limit, Window(origin, 0), es, origin);
      }
    } else {
      var es := TwiceTheLimitIsReached(limit, origin);
      assert InSecond(GrantsOf(limit, origin, es), origin + 0.5) as real > limit;
    }
  }

  // ---------------------------------------------------------------- queries are harmless

  /** What the callers of `acquire` saw, in order. */
  function Outcomes(limit: real, w: Window, es: seq<Event>): seq<Outcome>
    decreases |es|
  {
    if es == [] then []
    else
      (if es[0].Acquire? then [TryAcquire(limit, w, es[0].tokens, es[0].time).1] else [])
      + Outcomes(limit, Step(limit, w, es[0]), es[1..])
  }

  /** Two windows that nothing from time `from` on can tell apart. */
  ghost predicate SameFrom(a: Window, b: Window, from: real) {
    && a.start <= from && a.count >= 0
    && forall t :: t >= from ==> Rotate(a, t) == Rotate(b, t)
  }

  lemma SameStep(limit: real, a: Window, b: Window, e: Event, from: real)
    requires SameFrom(a, b, from) && from <= e.time && (e.Acquire? ==> e.tokens > 0)
    ensures SameFrom(Step(limit, a, e), if e.Acquire? then Step(limit, b, e) else b, e.time)
    ensures e.Acquire? ==> TryAcquire(limit, a, e.tokens, e.time).1 == TryAcquire(limit, b, e.tokens, e.time).1
  {
    RotateAligns(a, e.time);
    assert Rotate(a, e.time) == Rotate(b, e.time);
    forall t | t >= e.time ensures Rotate(Rotate(a, e.time), t) == Rotate(b, t) {
      RotateTwice(a, e.time, t);
      assert Rotate(a, t) == Rotate(b, t);
    }
    hide Rotate;
  }

  lemma {:induction false} SameOutcomes(limit: real, a: Window, b: Window, es: seq<Event>, from: real)
    requires SameFrom(a, b, from) && Run(es, from)
    ensures Outcomes(limit, a, es) == Outcomes(limit, b, AcquiresOf(es))
    decreases |es|
  {
    hide SameFrom, TryAcquire, Step;
    if es != [] {
      RunTail(es, from);
      SameStep(limit, a, b, es[0], from);
      var b' := if es[0].Acquire? then Step(limit, b, es[0]) else b;
      SameOutcomes(limit, Step(limit, a, es[0]), b', es[1..], es[0].time);
      if es[0].Acquire? {
        assert AcquiresOf(es)[1..] == AcquiresOf(es[1..]);
      } else {
        assert AcquiresOf(es) == AcquiresOf(es[1..]);
      }
    }
  }

  /** Calling `get_available_tokens` at any points of a run changes no caller's outcome,
      hints included. */
  lemma QueriesAreHarmless(limit: real, w: Window, es: seq<Event>, from: real)
    requires w.start <= from && w.count >= 0 && Run(es, from)
    ensures Outcomes(limit, w, es) == Outcomes(limit, w, AcquiresOf(es))
  {
    SameOutcomes(limit, w, w, es, from);
  }

  // ---------------------------------------------------------------- hints

  /** A refused attempt leaves no trace: the same request later does what it would have done. */
  lemma RefusalLeavesNoTrace(limit: real, w: Window, n: int, s: real, t: real)
    requires w.start <= s <= t && w.count >= 0 && n > 0 && !TryAcquire(limit, w, n, s).1.granted
    ensures TryAcquire(limit, TryAcquire(limit, w, n, s).0, n, t) == TryAcquire(limit, w, n, t)
  {
    RotateTwice(w, s, t);
  }

  /** The hint is exact: None exactly when no later time grants the request; otherwise at
      least 1 ms, enough at its end, and not enough up to 1 ms before its end. */
  lemma HintIsExact(limit: real, w: Window, n: int, now: real)
    requires w.start <= now && w.count >= 0 && n > 0
    requires !TryAcquire(limit, w, n, now).1.granted
    ensures var (w1, o) := TryAcquire(limit, w, n, now);
      && (o.waitMs.None? <==> forall t :: t >= now ==> !TryAcquire(limit, w1, n, t).1.granted)
      && (o.waitMs.Some? ==>
            && o.waitMs.value >= 1
            && TryAcquire(limit, w1, n, After(now, o.waitMs.value)).1.granted
            && forall t :: now <= t <= After(now, o.waitMs.value - 1) ==> !TryAcquire(limit, w1, n, t).1.granted)
  {
    if limit > 0.0 && n as real <= limit {
      RotateAligns(w, now);
      var r := Rotate(w, now);
      CeilMsIsTight(now, r.start + 1.0);
      forall t | t >= now ensures TryAcquire(limit, r, n, t).1.granted <==> t >= r.start + 1.0 {
        RotateAligns(r, t);
      }
      assert TryAcquire(limit, r, n, r.start + 1.0).1.granted;
    }
  }

  /** `get_available_tokens` is exact: k tokens can be taken at that instant iff k <= it. */
  lemma AvailableIsExact(limit: real, w: Window, k: int, now: real)
    requires w.start <= now && w.count >= 0 && limit >= 0.0 && k > 0
    ensures TryAcquire(limit, w, k, now).1.granted <==> k <= Available(limit, w, now).1
  {
    RotateAligns(w, now);
  }
}
