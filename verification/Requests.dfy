/** What the three rate-limiting algorithms share: requests, their outcomes, runs, and logs of grants. */
module Requests {
  import opened Wrappers

  /** Outcome of one acquire: granted or not, and the wait hint (None: never). */
  datatype Outcome = Outcome(granted: bool, waitMs: Option<int>)

  datatype Event =
    | Acquire(tokens: int, time: real)
    | Query(time: real)

  datatype Grant = Grant(time: real, count: int)

  /** Positive requests at nondecreasing times, none before `from`. */
  predicate Run(es: seq<Event>, from: real) {
    && (forall i :: 0 <= i < |es| ==> from <= es[i].time && (es[i].Acquire? ==> es[i].tokens > 0))
    && (forall i, j :: 0 <= i <= j < |es| ==> es[i].time <= es[j].time)
  }

  /** The run without its queries. */
  function AcquiresOf(es: seq<Event>): (r: seq<Event>)
    ensures PositiveRequests(es) ==> PositiveRequests(r)
  {
    if es == [] then [] else (if es[0].Acquire? then [es[0]] else []) + AcquiresOf(es[1..])
  }

  predicate PositiveRequests(es: seq<Event>) {
    forall i :: 0 <= i < |es| && es[i].Acquire? ==> es[i].tokens > 0
  }

  lemma RunTail(es: seq<Event>, from: real)
    requires Run(es, from) && es != []
    ensures Run(es[1..], es[0].time)
  {
  }

  predicate Positive(grants: seq<Grant>) {
    forall i :: 0 <= i < |grants| ==> grants[i].count > 0
  }

  /** Tokens granted in the second (x, x + 1]. */
  function InSecond(grants: seq<Grant>, x: real): int {
    if grants == [] then 0
    else (if x < grants[0].time <= x + 1.0 then grants[0].count else 0) + InSecond(grants[1..], x)
  }
}
