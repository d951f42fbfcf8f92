/** Rounding a wait up to whole milliseconds, as the rate limiter's hints do. */
module Millis {

  /** `int(math.ceil(x))`. */
  function Ceil(x: real): (n: int)
    ensures n as real >= x
    ensures (n - 1) as real < x
  {
    -((-x).Floor)
  }

  /** A wait in seconds, rounded up to milliseconds. */
  function CeilMs(seconds: real): int {
    Ceil(seconds * 1000.0)
  }

  /** The instant `ms` milliseconds after `t`. */
  function After(t: real, ms: int): real {
    t + ms as real / 1000.0
  }

  /** A rounded-up positive wait is at least one millisecond, ends at or after the
      target, and is the shortest such: one millisecond less ends before it. */
  lemma CeilMsIsTight(t: real, target: real)
    requires t < target
    ensures CeilMs(target - t) >= 1
    ensures After(t, CeilMs(target - t)) >= target
    ensures After(t, CeilMs(target - t) - 1) < target
  {
    var h := CeilMs(target - t);
    assert h as real >= (target - t) * 1000.0;
    assert (h - 1) as real < (target - t) * 1000.0;
  }
}
