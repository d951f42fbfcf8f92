/**
 The bulkhead: a semaphore, a bounded queue of placeholders that is entered before the
 semaphore and left only on release, and a separate counter. Tasks are counted by phase;
 each suspension point of the code ends a step. Every acquire is matched by one release.
 */
module Bulkhead {

  /** Normalised configuration; a depth of 0 makes the queue unbounded. */
  datatype Config = Config(maxConcurrent: int, queueDepth: int)

  predicate ValidConfig(c: Config) { c.maxConcurrent >= 1 && c.queueDepth >= 0 }

  /** The object's own fields. */
  datatype Slots = Slots(permits: int, queued: int, active: int)

  /** The tasks: with a placeholder, waiting for the semaphore or on the way to it; past it but not
      yet counted; counted; released but still counted. */
  datatype State = State(slots: Slots, waiting: nat, entering: nat, counted: nat, leaving: nat)

  datatype Step = Enqueue | Acquire | CountIn | Release | CountOut

  function Start(c: Config): State { State(Slots(c.maxConcurrent, 0, 0), 0, 0, 0, 0) }

  predicate QueueFull(c: Config, s: Slots) { c.queueDepth > 0 && s.queued >= c.queueDepth }

  predicate Enabled(c: Config, s: State, step: Step) {
    match step
    case Enqueue => !QueueFull(c, s.slots)
    case Acquire => s.waiting > 0 && s.slots.permits > 0
    case CountIn => s.entering > 0
    case Release => s.counted > 0
    case CountOut => s.leaving > 0
  }

  function ReleaseSlot(s: Slots): Slots {
    s.(permits := s.permits + 1, queued := if s.queued > 0 then s.queued - 1 else s.queued)
  }

  function Next(c: Config, s: State, step: Step): State
    requires Enabled(c, s, step)
  {
    match step
    case Enqueue =>
      s.(slots := s.slots.(queued := s.slots.queued + 1), waiting := s.waiting + 1)
    case Acquire =>
      s.(slots := s.slots.(permits := s.slots.permits - 1), waiting := s.waiting - 1, entering := s.entering + 1)
    case CountIn =>
      s.(slots := s.slots.(active := s.slots.active + 1), entering := s.entering - 1, counted := s.counted + 1)
    case Release => s.(slots := ReleaseSlot(s.slots), counted := s.counted - 1, leaving := s.leaving + 1)
    case CountOut =>
      s.(slots := s.slots.(active := if s.slots.active > 0 then s.slots.active - 1 else 0), leaving := s.leaving - 1)
  }

  predicate Run(c: Config, s: State, steps: seq<Step>)
    decreases |steps|
  {
    steps == [] || (Enabled(c, s, steps[0]) && Run(c, Next(c, s, steps[0]), steps[1..]))
  }

  function Final(c: Config, s: State, steps: seq<Step>): State
    requires Run(c, s, steps)
    decreases |steps|
  {
    if steps == [] then s else Final(c, Next(c, s, steps[0]), steps[1..])
  }

  /** Tasks that hold a permit. */
  function Inside(s: State): nat { s.entering + s.counted }

  predicate Inv(c: Config, s: State) {
    && ValidConfig(c)
    && s.slots.permits + Inside(s) == c.maxConcurrent && s.slots.permits >= 0
    && s.slots.queued == s.waiting + Inside(s)
    && (c.queueDepth > 0 ==> s.slots.queued <= c.queueDepth)
    && s.slots.active == s.counted + s.leaving
  }

  lemma {:induction false} RunKeepsInv(c: Config, s: State, steps: seq<Step>)
    requires Inv(c, s) && Run(c, s, steps)
    ensures Inv(c, Final(c, s, steps))
    decreases |steps|
  {
    if steps != [] { RunKeepsInv(c, Next(c, s, steps[0]), steps[1..]); }
  }

  /** How many tasks can really be inside at once. */
  function RealLimit(c: Config): int {
    if c.queueDepth == 0 || c.queueDepth >= c.maxConcurrent then c.maxConcurrent else c.queueDepth
  }

  /** In every run: tasks inside never exceed the semaphore nor, because a placeholder is kept
      until release, the queue depth; inside and waiting together never exceed the depth; and
      when every task has gone, the bulkhead is as it was at the start. */
  lemma RunBounds(c: Config, steps: seq<Step>)
    requires ValidConfig(c) && Run(c, Start(c), steps)
    ensures var s := Final(c, Start(c), steps);
      && Inside(s) <= RealLimit(c)
      && (c.queueDepth > 0 ==> s.waiting + Inside(s) <= c.queueDepth)
      && (s.waiting == 0 && Inside(s) == 0 && s.leaving == 0 ==> s == Start(c))
  {
    RunKeepsInv(c, Start(c), steps);
  }

  /** The semaphore never makes anybody wait when 1 <= depth <= maxConcurrent; with a deeper
      queue at most depth - maxConcurrent tasks ever wait for it. */
  lemma WaitingForTheSemaphore(c: Config, steps: seq<Step>)
    requires ValidConfig(c) && Run(c, Start(c), steps) && c.queueDepth > 0
    ensures var s := Final(c, Start(c), steps);
      && (c.queueDepth <= c.maxConcurrent && s.waiting > 0 ==> Enabled(c, s, Acquire))
      && (!Enabled(c, s, Acquire) && s.waiting > 0 ==> s.waiting <= c.queueDepth - c.maxConcurrent)
  {
    RunKeepsInv(c, Start(c), steps);
  }

  lemma {:induction false} RunConcat(c: Config, s: State, a: seq<Step>, b: seq<Step>)
    requires Run(c, s, a) && Run(c, Final(c, s, a), b)
    ensures Run(c, s, a + b) && Final(c, s, a + b) == Final(c, Final(c, s, a), b)
    decreases |a|
  {
    if a == [] {
      assert a + b == b;
    } else {
      assert (a + b)[0] == a[0] && (a + b)[1..] == a[1..] + b;
      RunConcat(c, Next(c, s, a[0]), a[1..], b);
    }
  }

  /** A run that brings `n` tasks inside. */
  lemma {:induction false} Fill(c: Config, n: nat) returns (steps: seq<Step>)
    requires ValidConfig(c) && n <= RealLimit(c)
    ensures Run(c, Start(c), steps)
    ensures Final(c, Start(c), steps) == State(Slots(c.maxConcurrent - n, n, n), 0, 0, n, 0)
  {
    if n == 0 {
      steps := [];
    } else {
      var before := Fill(c, n - 1);
      var s := Final(c, Start(c), before);
      var one := [Enqueue, Acquire, CountIn];
      assert one[1..] == [Acquire, CountIn] && [Acquire, CountIn][1..] == [CountIn] && [CountIn][1..] == [];
      var s1 := Next(c, s, Enqueue);
      var s2 := Next(c, s1, Acquire);
      var s3 := Next(c, s2, CountIn);
      assert Run(c, s3, []) && Run(c, s2, [CountIn]) && Run(c, s1, [Acquire, CountIn]);
      assert Final(c, s2, [CountIn]) == s3 && Final(c, s1, [Acquire, CountIn]) == s3;
      RunConcat(c, Start(c), before, one);
      steps := before + one;
    }
  }

  /** `n` tasks can be inside at once, in some run, exactly when n is within the real limit. So
      the documented limit, maxConcurrent, is reached exactly when the queue is unbounded or at
      least as deep as it. */
  lemma RealLimitExactly(c: Config, n: nat)
    requires ValidConfig(c)
    ensures (exists steps :: Run(c, Start(c), steps) && Inside(Final(c, Start(c), steps)) == n) <==> n <= RealLimit(c)
    ensures (exists steps :: Run(c, Start(c), steps) && Inside(Final(c, Start(c), steps)) == c.maxConcurrent)
       <==> c.queueDepth == 0 || c.queueDepth >= c.maxConcurrent
  {
    forall steps | Run(c, Start(c), steps) ensures Inside(Final(c, Start(c), steps)) <= RealLimit(c) {
      RunBounds(c, steps);
    }
    if n <= RealLimit(c) {
      var steps := Fill(c, n);
      assert Inside(Final(c, Start(c), steps)) == n;
    }
    if RealLimit(c) == c.maxConcurrent {
      var steps := Fill(c, c.maxConcurrent);
      assert Inside(Final(c, Start(c), steps)) == c.maxConcurrent;
    }
  }

  function Count(steps: seq<Step>, step: Step): nat {
    if steps == [] then 0 else (if steps[0] == step then 1 else 0) + Count(steps[1..], step)
  }

  /** Every step in a run moves one task on by one phase. */
  lemma {:induction false} PhasesCount(c: Config, s: State, steps: seq<Step>)
    requires Inv(c, s) && Run(c, s, steps)
    ensures var t := Final(c, s, steps);
      && Inv(c, t)
      && t.waiting == s.waiting + Count(steps, Enqueue) - Count(steps, Acquire)
      && t.entering == s.entering + Count(steps, Acquire) - Count(steps, CountIn)
      && t.counted == s.counted + Count(steps, CountIn) - Count(steps, Release)
      && t.leaving == s.leaving + Count(steps, Release) - Count(steps, CountOut)
    decreases |steps|
  {
    hide Inv, Next, Enabled;
    if steps != [] {
      StepMoves(c, s, steps[0]);
      PhasesCount(c, Next(c, s, steps[0]), steps[1..]);
    }
  }

  lemma StepMoves(c: Config, s: State, step: Step)
    requires Inv(c, s) && Enabled(c, s, step)
    ensures var t := Next(c, s, step);
      && Inv(c, t)
      && t.waiting == s.waiting + (if step.Enqueue? then 1 else 0) - (if step.Acquire? then 1 else 0)
      && t.entering == s.entering + (if step.Acquire? then 1 else 0) - (if step.CountIn? then 1 else 0)
      && t.counted == s.counted + (if step.CountIn? then 1 else 0) - (if step.Release? then 1 else 0)
      && t.leaving == s.leaving + (if step.Release? then 1 else 0) - (if step.CountOut? then 1 else 0)
  {
  }

  /** Executions leave no trace, however they interleave and however long they wait: a run in which
      every task that came has gone, so with as many of each step as of the others, ends in the
      state it began in, whatever other tasks were inside. */
  lemma ExecutionsLeaveNoTrace(c: Config, s: State, steps: seq<Step>)
    requires Inv(c, s) && Run(c, s, steps)
    requires forall step :: Count(steps, step) == Count(steps, Enqueue)
    ensures Final(c, s, steps) == s
  {
    PhasesCount(c, s, steps);
    hide Run, Final, Count;
  }

  /** Why the releases have to match: one release too many, at any time, adds a permit for good. */
  lemma ExtraReleaseAddsPermit(c: Config, s: State)
    requires Inv(c, s)
    ensures ReleaseSlot(s.slots).permits + Inside(s) == c.maxConcurrent + 1
  {
  }

  // ---------------------------------------------------------------- the object

  class Bulkhead {
    const config: Config
    var permits: int
    var queued: int
    var active: int

    function View(): Slots
      reads this
    {
      Slots(permits, queued, active)
    }

    constructor (maxConcurrent: int, queueDepth: int)
      ensures ValidConfig(config) && View() == Start(config).slots
      ensures config.maxConcurrent == if maxConcurrent < 1 then 1 else maxConcurrent
      ensures config.queueDepth == if queueDepth < 0 then 0 else queueDepth
    {
      config := Config(if maxConcurrent < 1 then 1 else maxConcurrent, if queueDepth < 0 then 0 else queueDepth);
      permits := if maxConcurrent < 1 then 1 else maxConcurrent;
      queued, active := 0, 0;
    }

    /** `_queue.put` at the moment it can go through. */
    method PutPlaceholder(ghost s: State)
      requires View() == s.slots && Enabled(config, s, Enqueue)
      modifies this
      ensures View() == Next(config, s, Enqueue).slots
    {
      queued := queued + 1;
    }

    /** `_semaphore.acquire` at the moment it can go through. */
    method TakePermit(ghost s: State)
      requires View() == s.slots && Enabled(config, s, Acquire)
      modifies this
      ensures View() == Next(config, s, Acquire).slots
    {
      permits := permits - 1;
    }

    method IncrementActive(ghost s: State)
      requires View() == s.slots && Enabled(config, s, CountIn)
      modifies this
      ensures View() == Next(config, s, CountIn).slots
    {
      active := active + 1;
    }

    method ReleasePermit(ghost s: State)
      requires View() == s.slots && Enabled(config, s, Release)
      modifies this
      ensures View() == Next(config, s, Release).slots
    {
      permits := permits + 1;
      if queued > 0 { queued := queued - 1; }
    }

    method DecrementActive(ghost s: State)
      requires View() == s.slots && Enabled(config, s, CountOut)
      modifies this
      ensures View() == Next(config, s, CountOut).slots
    {
      active := if active - 1 > 0 then active - 1 else 0;
    }

    /** Takes a slot at once or not at all. `locked()` sees the tasks that wait at the semaphore, not
        those that hold a placeholder and have yet to get there. It succeeds exactly when nobody is
        seen waiting, a permit is free and the queue has room, and then the three acquire steps
        happen together; with nobody waiting at all, exactly when one more task fits within the real
        limit. */
    method TryAcquire(waiters: bool, ghost s: State) returns (ok: bool)
      requires View() == s.slots && Inv(config, s) && (waiters ==> s.waiting > 0)
      modifies this
      ensures ok <==> !waiters && Inside(s) < config.maxConcurrent && !QueueFull(config, s.slots)
      ensures s.waiting == 0 ==> (ok <==> Inside(s) < RealLimit(config))
      ensures !ok ==> View() == old(View())
      ensures ok ==> View() == Slots(s.slots.permits - 1, s.slots.queued + 1, s.slots.active + 1)
      ensures ok ==> Inv(config, State(View(), s.waiting, s.entering, s.counted + 1, s.leaving))
    {
      if permits == 0 || waiters { return false; }
      if config.queueDepth > 0 && queued >= config.queueDepth { return false; }
      PutPlaceholder(s);
      TakePermit(Next(config, s, Enqueue));
      IncrementActive(Next(config, Next(config, s, Enqueue), Acquire));
      return true;
    }

    /** One task by itself: while the callable runs it holds a permit, a placeholder and a count;
        afterwards `execute` has left no trace. */
    method Execute(ghost s: State) returns (ghost during: Slots)
      requires View() == s.slots && Inv(config, s) && Inside(s) + s.waiting < RealLimit(config)
      modifies this
      ensures during == Slots(s.slots.permits - 1, s.slots.queued + 1, s.slots.active + 1)
      ensures View() == old(View())
    {
      PutPlaceholder(s);
      ghost var s1 := Next(config, s, Enqueue);
      TakePermit(s1);
      ghost var s2 := Next(config, s1, Acquire);
      IncrementActive(s2);
      during := View();
      ghost var s3 := Next(config, s2, CountIn);
      ReleasePermit(s3);
      ghost var s4 := Next(config, s3, Release);
      DecrementActive(s4);
    }
  }
}
