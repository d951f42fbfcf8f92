/**
 The token-bucket algorithm: what a bucket holds at a given time, what one call does,
 and what every run of calls keeps.
 */
module TokenBucket {
  import opened Wrappers
  import opened Millis
  import opened Requests

  datatype Limits = Limits(rate: real, burst: int)

  datatype Bucket = Bucket(tokens: real, last: real)

  predicate ValidLimits(c: Limits) {
    c.rate >= 0.0 && c.burst >= 0
  }

  predicate Valid(c: Limits, b: Bucket) {
    ValidLimits(c) && 0.0 <= b.tokens <= c.burst as real
  }

  function Min(a: real, b: real): real { if a <= b then a else b }

  /** Tokens produced between two instants. */
  function Earned(c: Limits, from: real, to: real): real { (to - from) * c.rate }

  /** What the bucket holds at time `t`, as a closed formula of the elapsed time. */
  function Level(c: Limits, b: Bucket, t: real): real {
    if c.rate <= 0.0 || t <= b.last then b.tokens
    else Min(c.burst as real, b.tokens + Earned(c, b.last, t))
  }

  function Refill(c: Limits, b: Bucket, now: real): Bucket {
    if c.rate <= 0.0 then Bucket(b.tokens, now)
    else if now <= b.last then b
    else Bucket(Min(c.burst as real, b.tokens + Earned(c, b.last, now)), now)
  }

  function WaitMs(c: Limits, b: Bucket, tokens: int): Option<int> {
    if c.rate <= 0.0 then None
    else if tokens as real <= b.tokens then Some(0)
    else Some(Ceil((tokens as real - b.tokens) / c.rate * 1000.0))
  }

  function TryAcquire(c: Limits, b: Bucket, tokens: int, now: real): (Bucket, Outcome) {
    if c.burst <= 0 || tokens > c.burst then (b, Outcome(false, None))
    else
      var r := Refill(c, b, now);
      if r.tokens >= tokens as real then (Bucket(r.tokens - tokens as real, r.last), Outcome(true, Some(0)))
      else (r, Outcome(false, WaitMs(c, r, tokens)))
  }

  /** `get_available_tokens` for this algorithm: it refills as a side effect. */
  function Available(c: Limits, b: Bucket, now: real): (Bucket, int) {
    var r := Refill(c, b, now);
    (r, if r.tokens.Floor < 0 then 0 else r.tokens.Floor)
  }

  // ---------------------------------------------------------------- runs

  function Step(c: Limits, b: Bucket, e: Event): Bucket {
    match e
    case Acquire(n, t) => TryAcquire(c, b, n, t).0
    case Query(t) => Available(c, b, t).0
  }

  function Final(c: Limits, b: Bucket, es: seq<Event>): Bucket
    decreases |es|
  {
    if es == [] then b else Final(c, Step(c, b, es[0]), es[1..])
  }

  /** Tokens one event grants. */
  function Gain(c: Limits, b: Bucket, e: Event): int {
    if e.Acquire? && TryAcquire(c, b, e.tokens, e.time).1.granted then e.tokens else 0
  }

  /** Tokens granted over a run. */
  function Granted(c: Limits, b: Bucket, es: seq<Event>): int
    decreases |es|
  {
    if es == [] then 0
    else Gain(c, b, es[0]) + Granted(c, Step(c, b, es[0]), es[1..])
  }

  /** What the callers of `acquire` saw, in order. */
  function Outcomes(c: Limits, b: Bucket, es: seq<Event>): seq<Outcome>
    decreases |es|
  {
    if es == [] then []
    else (if es[0].Acquire? then [TryAcquire(c, b, es[0].tokens, es[0].time).1] else [])
         + Outcomes(c, Step(c, b, es[0]), es[1..])
  }

  // ---------------------------------------------------------------- one step

  /** The only multiplications of the proofs are in these two lemmas. */
  lemma EarnedAdds(c: Limits, r: real, s: real, t: real)
    requires ValidLimits(c) && r <= s <= t
    ensures Earned(c, r, t) == Earned(c, r, s) + Earned(c, s, t)
    ensures Earned(c, r, s) >= 0.0 && Earned(c, s, t) >= 0.0
    ensures Earned(c, t, t) == 0.0
  {
  }

  lemma EarnedReaches(c: Limits, need: real, from: real, to: real)
    requires c.rate > 0.0 && from <= to
    ensures to >= from + need / c.rate <==> Earned(c, from, to) >= need
    ensures need > 0.0 ==> need / c.rate > 0.0
  {
    var d := need / c.rate;
    assert d * c.rate == need;
    assert (to - from - d) * c.rate == Earned(c, from, to) - need;
  }

  lemma RefillReachesLevel(c: Limits, b: Bucket, now: real)
    requires Valid(c, b) && b.last <= now
    ensures Refill(c, b, now) == Bucket(Level(c, b, now), now)
    ensures Valid(c, Refill(c, b, now))
    ensures b.tokens <= Level(c, b, now) <= b.tokens + Earned(c, b.last, now)
  {
    EarnedAdds(c, b.last, now, now);
    hide Earned;
  }

  lemma StepKeepsValid(c: Limits, b: Bucket, e: Event)
    requires Valid(c, b) && b.last <= e.time && (e.Acquire? ==> e.tokens > 0)
    ensures Valid(c, Step(c, b, e)) && Step(c, b, e).last <= e.time
  {
    hide Earned;
    RefillReachesLevel(c, b, e.time);
  }

  /** Refilling part of the way first makes no difference to the level later. */
  lemma LevelComposes(c: Limits, b: Bucket, s: real, t: real)
    requires Valid(c, b) && b.last <= s <= t
    ensures Level(c, Refill(c, b, s), t) == Level(c, b, t)
  {
    EarnedAdds(c, b.last, s, t);
    hide Earned;
    RefillReachesLevel(c, b, s);
  }

  // ---------------------------------------------------------------- the rate bound

  lemma GainOfStep(c: Limits, b: Bucket, e: Event, t: real)
    requires Valid(c, b) && b.last <= e.time <= t && (e.Acquire? ==> e.tokens > 0)
    ensures Gain(c, b, e) as real + Level(c, Step(c, b, e), t) <= Level(c, b, e.time) + Earned(c, e.time, t)
    ensures Valid(c, Step(c, b, e)) && Step(c, b, e).last <= e.time
    ensures Step(c, b, e).tokens <= Level(c, Step(c, b, e), t)
  {
    hide Earned;
    StepKeepsValid(c, b, e);
    RefillReachesLevel(c, b, e.time);
    RefillReachesLevel(c, Step(c, b, e), t);
    LevelComposes(c, b, e.time, t);
    RefillReachesLevel(c, Refill(c, b, e.time), t);
  }

  /** The last time of a run. */
  function Last(es: seq<Event>): real
    requires es != []
  {
    es[|es| - 1].time
  }

  /** Conservation: tokens granted plus tokens left never exceed what the bucket held at
      the first call plus what the elapsed time produced. */
  lemma {:induction false} Conservation(c: Limits, b: Bucket, es: seq<Event>)
    requires Valid(c, b) && Run(es, b.last) && es != []
    ensures Valid(c, Final(c, b, es)) && Final(c, b, es).last <= Last(es)
    ensures Granted(c, b, es) as real + Final(c, b, es).tokens
         <= Level(c, b, es[0].time) + Earned(c, es[0].time, Last(es))
    decreases |es|
  {
    var b1, rest, t0 := Step(c, b, es[0]), es[1..], es[0].time;
    EarnedAdds(c, t0, t0, t0);
    hide Level, Step, Gain, Earned;
    if rest == [] {
      GainOfStep(c, b, es[0], t0);
    } else {
      var t1 := rest[0].time;
      GainOfStep(c, b, es[0], t1);
      RunTail(es, b.last);
      assert Run(rest, b1.last);
      Conservation(c, b1, rest);
      assert Last(rest) == Last(es);
      EarnedAdds(c, t0, t1, Last(es));
    }
  }

  lemma RunSplits(c: Limits, b: Bucket, es: seq<Event>, i: nat)
    requires Valid(c, b) && Run(es, b.last) && i < |es|
    ensures Valid(c, Final(c, b, es[..i])) && Run(es[i..], Final(c, b, es[..i]).last)
  {
    hide Level, Granted;
    if i > 0 {
      assert Run(es[..i], b.last);
      Conservation(c, b, es[..i]);
      assert Last(es[..i]) == es[i - 1].time;
    }
  }

  /** In every run and for all i <= j, the tokens granted in calls i..j are at most
      burst + rate * (t_j - t_i), and the level stays in [0, burst]. */
  lemma RateBound(c: Limits, b: Bucket, es: seq<Event>, i: nat, j: nat)
    requires Valid(c, b) && Run(es, b.last) && i <= j < |es|
    ensures 0.0 <= Final(c, b, es[..i]).tokens <= c.burst as real
    ensures Granted(c, Final(c, b, es[..i]), es[i..j + 1]) as real
         <= c.burst as real + (es[j].time - es[i].time) * c.rate
  {
    hide Level, Granted, Final, Earned, Run;
    var mid, part := Final(c, b, es[..i]), es[i..j + 1];
    EarnedIs(c, es[i].time, es[j].time);
    RunSplits(c, b, es, i);
    PartOfRun(es[i..], mid.last, j - i);
    assert es[i..][..j - i + 1] == part && part[0] == es[i] && Last(part) == es[j].time;
    Conservation(c, mid, part);
    LevelWithinBurst(c, mid, es[i].time);
  }

  lemma EarnedIs(c: Limits, from: real, to: real)
    ensures Earned(c, from, to) == (to - from) * c.rate
  {
  }

  lemma PartOfRun(es: seq<Event>, from: real, n: nat)
    requires Run(es, from) && n < |es|
    ensures Run(es[..n + 1], from) && from <= es[0].time
  {
  }

  lemma LevelWithinBurst(c: Limits, b: Bucket, t: real)
    requires Valid(c, b)
    ensures Level(c, b, t) <= c.burst as real
  {
    hide Earned;
  }

  // ---------------------------------------------------------------- who is granted

  /** Whether call `j` of a run is granted. */
  predicate GrantedAt(c: Limits, b: Bucket, es: seq<Event>, j: nat)
    requires j < |es|
  {
    es[j].Acquire? && TryAcquire(c, Final(c, b, es[..j]), es[j].tokens, es[j].time).1.granted
  }

  /** Tokens granted in calls i..j-1. */
  function Taken(c: Limits, b: Bucket, es: seq<Event>, i: nat, j: nat): int
    requires j <= |es|
  {
    if j <= i then 0
    else Taken(c, b, es, i, j - 1) + if GrantedAt(c, b, es, j - 1) then es[j - 1].tokens else 0
  }

  lemma {:induction false} FinalSnoc(c: Limits, b: Bucket, es: seq<Event>, j: nat)
    requires j < |es|
    ensures Final(c, b, es[..0]) == b
    ensures Final(c, b, es[..j + 1]) == Step(c, Final(c, b, es[..j]), es[j])
    decreases |es|
  {
    hide Step;
    if j == 0 {
      assert es[..1][1..] == [] && es[..1][0] == es[0];
      assert Final(c, Step(c, b, es[0]), []) == Step(c, b, es[0]);
    } else {
      assert es[..j + 1][1..] == es[1..][..j] && es[..j][1..] == es[1..][..j - 1];
      FinalSnoc(c, Step(c, b, es[0]), es[1..], j - 1);
    }
  }

  /** What the bucket holds when call `j` comes. */
  function LevelAt(c: Limits, b: Bucket, es: seq<Event>, j: nat): real
    requires j < |es|
  {
    Level(c, Final(c, b, es[..j]), es[j].time)
  }

  /** One event and the time up to the next: what was granted is gone, what was earned is there,
      up to the burst. */
  lemma LevelNext(c: Limits, b: Bucket, e: Event, t: real)
    requires Valid(c, b) && b.last <= e.time <= t && (e.Acquire? ==> e.tokens > 0)
    ensures Level(c, Step(c, b, e), t)
         == Min(c.burst as real, Level(c, b, e.time) - Gain(c, b, e) as real + Earned(c, e.time, t))
  {
    RefillReachesLevel(c, b, e.time);
    LevelComposes(c, b, e.time, t);
    EarnedAdds(c, b.last, e.time, t);
    EarnedAdds(c, e.time, t, t);
    NothingEarned(c, b.last, e.time);
    NothingEarned(c, e.time, t);
    hide Earned;
  }

  lemma NothingEarned(c: Limits, from: real, to: real)
    ensures c.rate == 0.0 || from == to ==> Earned(c, from, to) == 0.0
  {
  }

  /** In a run from a full bucket, the level is the least of what the bounds leave. */
  lemma {:induction false} LevelIsLeast(c: Limits, start: real, es: seq<Event>, j: nat) returns (least: nat)
    requires ValidLimits(c) && Run(es, start) && j < |es|
    ensures var b := Bucket(c.burst as real, start);
      && Valid(c, Final(c, b, es[..j])) && Final(c, b, es[..j]).last <= es[j].time
      && (forall i :: 0 <= i <= j ==>
            LevelAt(c, b, es, j) <= c.burst as real + Earned(c, es[i].time, es[j].time) - Taken(c, b, es, i, j) as real)
      && least <= j
      && LevelAt(c, b, es, j)
         == c.burst as real + Earned(c, es[least].time, es[j].time) - Taken(c, b, es, least, j) as real
  {
    var b := Bucket(c.burst as real, start);
    FinalSnoc(c, b, es, j);
    EarnedAdds(c, es[j].time, es[j].time, es[j].time);
    if j == 0 {
      least := 0;
      FullStaysFull(c, b, es[0].time);
      hide *;
    } else {
      var before := LevelIsLeast(c, start, es, j - 1);
      FinalSnoc(c, b, es, j - 1);
      var s, e, t := Final(c, b, es[..j - 1]), es[j - 1], es[j].time;
      StepKeepsValid(c, s, e);
      LevelNext(c, s, e, t);
      LevelWithinBurst(c, Final(c, b, es[..j]), t);
      forall i | 0 <= i <= j - 1
        ensures Earned(c, es[i].time, t) == Earned(c, es[i].time, e.time) + Earned(c, e.time, t)
        ensures Taken(c, b, es, i, j) == Taken(c, b, es, i, j - 1) + Gain(c, s, e)
      {
        EarnedAdds(c, es[i].time, e.time, t);
        TakenNext(c, b, es, i, j);
      }
      least := if LevelAt(c, b, es, j) == c.burst as real then j else before;
      hide Level, Step, Gain, Earned, Final, TryAcquire, Run;
    }
  }

  lemma TakenNext(c: Limits, b: Bucket, es: seq<Event>, i: nat, j: nat)
    requires i < j <= |es|
    ensures Taken(c, b, es, i, j) == Taken(c, b, es, i, j - 1) + Gain(c, Final(c, b, es[..j - 1]), es[j - 1])
  {
  }

  lemma FullStaysFull(c: Limits, b: Bucket, t: real)
    requires ValidLimits(c) && b.tokens == c.burst as real && b.last <= t
    ensures Level(c, b, t) == c.burst as real && Valid(c, b)
  {
    EarnedAdds(c, b.last, b.last, t);
    hide Earned;
  }

  /** Who is granted, exactly: in every run from a full bucket, a request is granted if and only if
      for every earlier call i, or this one, the tokens granted from i on and those requested are
      within burst + rate * (the time since i). */
  lemma GrantedExactly(c: Limits, start: real, es: seq<Event>, j: nat)
    requires ValidLimits(c) && Run(es, start) && j < |es| && es[j].Acquire?
    ensures var b := Bucket(c.burst as real, start);
      GrantedAt(c, b, es, j)
      <==> forall i :: 0 <= i <= j ==>
             (Taken(c, b, es, i, j) + es[j].tokens) as real <= c.burst as real + (es[j].time - es[i].time) * c.rate
  {
    hide *;
    var b, n := Bucket(c.burst as real, start), es[j].tokens;
    var least := LevelIsLeast(c, start, es, j);
    GrantedIfLevel(c, b, es, j, start);
    if n as real <= LevelAt(c, b, es, j) {
      forall i | 0 <= i <= j
        ensures (Taken(c, b, es, i, j) + n) as real <= c.burst as real + (es[j].time - es[i].time) * c.rate
      {
        EarnedIs(c, es[i].time, es[j].time);
      }
    } else {
      EarnedIs(c, es[least].time, es[j].time);
      assert (Taken(c, b, es, least, j) + n) as real > c.burst as real + (es[j].time - es[least].time) * c.rate;
    }
  }

  lemma GrantedIfLevel(c: Limits, b: Bucket, es: seq<Event>, j: nat, start: real)
    requires j < |es| && es[j].Acquire? && Run(es, start)
    requires Valid(c, Final(c, b, es[..j])) && Final(c, b, es[..j]).last <= es[j].time
    ensures GrantedAt(c, b, es, j) <==> es[j].tokens as real <= LevelAt(c, b, es, j)
  {
    hide Final, Level;
    GrantedIfEnough(c, Final(c, b, es[..j]), es[j].tokens, es[j].time);
    LevelWithinBurst(c, Final(c, b, es[..j]), es[j].time);
  }

  lemma GrantedIfEnough(c: Limits, b: Bucket, n: int, now: real)
    requires Valid(c, b) && b.last <= now && n > 0
    ensures TryAcquire(c, b, n, now).1.granted <==> n <= c.burst && n as real <= Level(c, b, now)
  {
    RefillReachesLevel(c, b, now);
    hide Level;
  }

  // ---------------------------------------------------------------- queries are harmless

  /** Two buckets that nothing from time `from` on can tell apart. */
  ghost predicate SameFrom(c: Limits, a: Bucket, b: Bucket, from: real) {
    forall t :: t >= from ==> Level(c, a, t) == Level(c, b, t)
  }

  lemma {:induction false} SameOutcomes(c: Limits, a: Bucket, b: Bucket, es: seq<Event>, from: real)
    requires Valid(c, a) && Valid(c, b) && a.last <= from && b.last <= from
    requires SameFrom(c, a, b, from) && Run(es, from)
    ensures Outcomes(c, a, es) == Outcomes(c, b, AcquiresOf(es))
    decreases |es|
  {
    if es != [] {
      var t := es[0].time;
      RunTail(es, from);
      StepKeepsValid(c, a, es[0]);
      RefillReachesLevel(c, a, t);
      RefillReachesLevel(c, b, t);
      assert Level(c, a, t) == Level(c, b, t);
      if es[0].Acquire? {
        StepKeepsValid(c, b, es[0]);
        SameOutcomes(c, Step(c, a, es[0]), Step(c, b, es[0]), es[1..], t);
        assert AcquiresOf(es)[1..] == AcquiresOf(es[1..]);
      } else {
        forall u | u >= t ensures Level(c, Refill(c, a, t), u) == Level(c, b, u) {
          LevelComposes(c, a, t, u);
          assert Level(c, a, u) == Level(c, b, u);
        }
        SameOutcomes(c, Step(c, a, es[0]), b, es[1..], t);
        assert AcquiresOf(es) == AcquiresOf(es[1..]);
      }
    }
  }

  /** Calling `get_available_tokens` at any points of a run changes no caller's outcome,
      hints included. */
  lemma QueriesAreHarmless(c: Limits, b: Bucket, es: seq<Event>)
    requires Valid(c, b) && Run(es, b.last)
    ensures Outcomes(c, b, es) == Outcomes(c, b, AcquiresOf(es))
  {
    SameOutcomes(c, b, b, es, b.last);
  }

  // ---------------------------------------------------------------- hints

  /** After a refusal, a later request is granted exactly from one instant on, if ever. */
  lemma GrantedFrom(c: Limits, b: Bucket, n: int, now: real, t: real)
    requires Valid(c, b) && b.last <= now <= t && n > 0
    requires !TryAcquire(c, b, n, now).1.granted
    ensures TryAcquire(c, TryAcquire(c, b, n, now).0, n, t).1.granted
       <==> n <= c.burst && c.rate > 0.0 && t >= now + (n as real - Level(c, b, now)) / c.rate
  {
    var r := Refill(c, b, now);
    if c.rate > 0.0 { EarnedReaches(c, n as real - r.tokens, now, t); }
    hide Earned;
    RefillReachesLevel(c, b, now);
    RefillReachesLevel(c, r, t);
  }

  /** A refused attempt leaves no trace: the same request later does what it would have done. */
  lemma RefusalLeavesNoTrace(c: Limits, b: Bucket, n: int, s: real, t: real)
    requires Valid(c, b) && b.last <= s <= t && n > 0
    requires !TryAcquire(c, b, n, s).1.granted
    ensures TryAcquire(c, TryAcquire(c, b, n, s).0, n, t) == TryAcquire(c, b, n, t)
  {
    LevelComposes(c, b, s, t);
    hide Level;
    RefillReachesLevel(c, b, s);
    RefillReachesLevel(c, b, t);
    RefillReachesLevel(c, Refill(c, b, s), t);
  }

  /** The hint is exact: None exactly when no later time grants the request; otherwise at
      least 1 ms, enough at its end, and not enough up to 1 ms before its end. */
  lemma HintIsExact(c: Limits, b: Bucket, n: int, now: real)
    requires Valid(c, b) && b.last <= now && n > 0
    requires !TryAcquire(c, b, n, now).1.granted
    ensures var (b1, o) := TryAcquire(c, b, n, now);
      && (o.waitMs.None? <==> forall t :: t >= now ==> !TryAcquire(c, b1, n, t).1.granted)
      && (o.waitMs.Some? ==>
            && o.waitMs.value >= 1
            && TryAcquire(c, b1, n, After(now, o.waitMs.value)).1.granted
            && forall t :: now <= t <= After(now, o.waitMs.value - 1) ==> !TryAcquire(c, b1, n, t).1.granted)
  {
    var (b1, o) := TryAcquire(c, b, n, now);
    RefillReachesLevel(c, b, now);
    forall t | t >= now
      ensures TryAcquire(c, b1, n, t).1.granted
         <==> n <= c.burst && c.rate > 0.0 && t >= now + (n as real - Level(c, b, now)) / c.rate
    {
      GrantedFrom(c, b, n, now, t);
    }
    if n <= c.burst && c.rate > 0.0 {
      var wait := (n as real - Level(c, b, now)) / c.rate;
      EarnedReaches(c, n as real - Level(c, b, now), now, now);
      CeilMsIsTight(now, now + wait);
      assert now + wait - now == wait;
      assert TryAcquire(c, b1, n, now + wait).1.granted;
    }
  }

  /** `get_available_tokens` is exact: k tokens can be taken at that instant iff k <= it. */
  lemma AvailableIsExact(c: Limits, b: Bucket, k: int, now: real)
    requires Valid(c, b) && b.last <= now && k > 0
    ensures TryAcquire(c, b, k, now).1.granted <==> k <= Available(c, b, now).1
  {
    RefillReachesLevel(c, b, now);
  }
}
