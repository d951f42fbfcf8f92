/**
 Whole runs of the idempotency cache, judged by the operations and their answers alone. The
 operations on many keys are series of these.
 */
module LruRuns {
  import opened LruCache
  import opened LruOrder
  import opened Wrappers

  datatype Op =
    | Get(key: string, now: real)
    | Set(key: string, value: Value, ttl: Option<real>, now: real)
    | Add(key: string, value: Value, ttl: Option<real>, now: real, later: real)
    | Incr(key: string, delta: int, ttl: Option<real>, now: real, later: real)
    | Delete(key: string)
    | Contains(key: string, now: real)
    | Ttl(key: string, now: real)
    | Clear

  datatype Answer =
    | Got(value: Option<Value>)
    | Flag(yes: bool)
    | Counted(result: IncrResult)
    | Left(seconds: Option<real>)
    | Done

  type History = seq<(Op, Answer)>

  /** The value an answered operation has written under a key. */
  function WrittenBy(op: Op, a: Answer, key: string): Option<Value> {
    match (op, a)
    case (Set(k, v, _, _), _) => if k == key then Some(v) else None
    case (Add(k, v, _, _, _), Flag(true)) => if k == key then Some(v) else None
    case (Incr(k, _, _, _, _), Counted(Incremented(n))) => if k == key then Some(IntValue(n)) else None
    case _ => None
  }

  function LastWritten(h: History, key: string): Option<Value> {
    if h == [] then None
    else
      var (op, a) := h[|h| - 1];
      var w := WrittenBy(op, a, key);
      if w.Some? then w else LastWritten(h[..|h| - 1], key)
  }

  /** Whether an answered operation has removed a key or found it absent. */
  predicate AbsentBy(op: Op, a: Answer, key: string) {
    match (op, a)
    case (Delete(k), _) => k == key
    case (Clear, _) => true
    case (Get(k, _), Got(None)) => k == key
    case (Contains(k, _), Flag(false)) => k == key
    case (Ttl(k, _), Left(None)) => k == key
    case _ => false
  }

  /** Whether the key was removed or found absent since it was last written. */
  predicate AbsentSinceWritten(h: History, key: string) {
    if h == [] then false
    else
      var (op, a) := h[|h| - 1];
      WrittenBy(op, a, key).None? && (AbsentBy(op, a, key) || AbsentSinceWritten(h[..|h| - 1], key))
  }

  function Increments(h: History): nat {
    if h == [] then 0 else Increments(h[..|h| - 1]) + if h[|h| - 1].0.Incr? then 1 else 0
  }

  /** The keys a history names. */
  function Named(h: History): set<string> { set i | 0 <= i < |h| && !h[i].0.Clear? :: h[i].0.key }

  /** What the ghost history of the object and the observed one have to do with each other. */
  ghost predicate Agrees(c: InMemoryIdempotencyCache, h: History)
    reads c
  {
    && (forall k :: LastWritten(h, k) == if k in c.written then Some(c.written[k]) else None)
    && (forall k :: k in c.removed ==> AbsentSinceWritten(h, k))
    && (forall i :: 0 <= i < |c.touches| ==> c.touches[i] in Named(h))
    && c.created <= Increments(h)
  }

  /** One operation, and what it adds to the ghost history. */
  method Perform(c: InMemoryIdempotencyCache, op: Op) returns (a: Answer)
    requires c.Valid()
    modifies c
    ensures c.Valid()
    ensures op.Get? && a.Got? && a.value.Some? ==> op.key in old(c.written) && a.value.value == old(c.written)[op.key]
    ensures forall k :: match WrittenBy(op, a, k)
                        case Some(v) => k in c.written && c.written[k] == v
                        case None => (k in c.written <==> k in old(c.written))
                                     && (k in c.written ==> c.written[k] == old(c.written)[k])
    ensures forall k :: k in c.removed ==> WrittenBy(op, a, k).None? && (k in old(c.removed) || AbsentBy(op, a, k))
    ensures c.touches == old(c.touches) || (!op.Clear? && c.touches == old(c.touches) + [op.key])
    ensures c.created <= old(c.created) + if op.Incr? then 1 else 0
  {
    hide InTouchOrder, Current, Accounted, Inserted, Put, Read, Purged, Without, Position;
    match op
    case Get(key, now) =>
      var r := c.Get(key, now);
      a := Got(r);
    case Set(key, value, ttl, now) =>
      c.Set(key, value, ttl, now);
      a := Done;
    case Add(key, value, ttl, now, later) =>
      var added := c.Add(key, value, ttl, now, later);
      a := Flag(added);
    case Incr(key, delta, ttl, now, later) =>
      var r := c.Incr(key, delta, ttl, now, later);
      a := Counted(r);
    case Delete(key) =>
      var present := c.Delete(key);
      a := Flag(present);
    case Contains(key, now) =>
      var present := c.Contains(key, now);
      a := Flag(present);
    case Ttl(key, now) =>
      var r := c.Ttl(key, now);
      a := Left(r);
    case Clear =>
      c.Clear();
      a := Done;
  }

  lemma HistoryGrows(h: History, op: Op, a: Answer)
    ensures forall k :: LastWritten(h + [(op, a)], k)
                     == var w := WrittenBy(op, a, k); if w.Some? then w else LastWritten(h, k)
    ensures forall k :: AbsentSinceWritten(h + [(op, a)], k)
                   <==> WrittenBy(op, a, k).None? && (AbsentBy(op, a, k) || AbsentSinceWritten(h, k))
    ensures Named(h + [(op, a)]) == Named(h) + if op.Clear? then {} else {op.key}
    ensures Increments(h + [(op, a)]) == Increments(h) + if op.Incr? then 1 else 0
  {
    var h' := h + [(op, a)];
    assert h'[..|h|] == h && h'[|h|] == (op, a);
    forall k ensures k in Named(h') <==> k in Named(h) + if op.Clear? then {} else {op.key} {
      if k in Named(h) {
        var i :| 0 <= i < |h| && !h[i].0.Clear? && h[i].0.key == k;
        assert h'[i] == h[i];
      }
    }
  }

  /** Every run on a fresh cache: a hit is the value last written under its key; the size is at most
      max_size plus the number of increments; a key that was not removed nor found absent since it was
      last written is still there, with that value, unless at least max_size other keys were touched
      since its last touch; so it is always there when the run names at most max_size keys. */
  method Replay(ops: seq<Op>, maxSize: int, ttlSeconds: int)
    returns (answers: seq<Answer>, h: History, c: InMemoryIdempotencyCache)
    ensures |answers| == |ops| == |h| && forall i :: 0 <= i < |ops| ==> h[i] == (ops[i], answers[i])
    ensures forall i :: 0 <= i < |ops| ==> HitIsLatest(h, i)
    ensures c.Valid() && Agrees(c, h) && c.maxSize == if maxSize < 1 then 1 else maxSize
    ensures |c.cache| <= c.maxSize + Increments(h)
    ensures forall k {:trigger Holds(c.cache, k)} :: LastWritten(h, k).Some? && !AbsentSinceWritten(h, k) ==>
              Holds(c.cache, k) || |TouchedSince(c.touches, k)| >= c.maxSize
    ensures |Named(h)| <= c.maxSize ==>
              forall k {:trigger Holds(c.cache, k)} ::
                LastWritten(h, k).Some? && !AbsentSinceWritten(h, k) ==> Holds(c.cache, k)
  {
    c := new InMemoryIdempotencyCache(maxSize, ttlSeconds);
    answers, h := [], [];
    for i := 0 to |ops|
      invariant fresh(c) && c.Valid() && Agrees(c, h)
      invariant |answers| == |h| == i && forall j :: 0 <= j < i ==> h[j] == (ops[j], answers[j])
      invariant forall j :: 0 <= j < i ==> HitIsLatest(h, j)
    {
      var a := Step(c, ops[i], h);
      answers, h := answers + [a], h + [(ops[i], a)];
    }
    StillThere(c, h);
  }

  /** A hit at step `i` of a history gives the value last written before. */
  predicate HitIsLatest(h: History, i: nat)
    requires i < |h|
  {
    h[i].0.Get? && h[i].1.Got? && h[i].1.value.Some? ==> LastWritten(h[..i], h[i].0.key) == h[i].1.value
  }

  method Step(c: InMemoryIdempotencyCache, op: Op, h: History) returns (a: Answer)
    requires c.Valid() && Agrees(c, h)
    requires forall j :: 0 <= j < |h| ==> HitIsLatest(h, j)
    modifies c
    ensures c.Valid() && Agrees(c, h + [(op, a)])
    ensures forall j :: 0 <= j <= |h| ==> HitIsLatest(h + [(op, a)], j)
  {
    hide LastWritten, WrittenBy, AbsentBy, AbsentSinceWritten, Named, Increments;
    hide InTouchOrder, Current, Accounted;
    ghost var written := c.written;
    a := Perform(c, op);
    HistoryGrows(h, op, a);
    ghost var h' := h + [(op, a)];
    assert h'[..|h|] == h && h'[|h|] == (op, a);
    forall j | 0 <= j <= |h| ensures HitIsLatest(h', j) {
      if j < |h| {
        assert HitIsLatest(h, j) && h'[j] == h[j] && h'[..j] == h[..j];
      } else if op.Get? && a.Got? && a.value.Some? {
        assert LastWritten(h, op.key) == Some(written[op.key]);
      }
    }
  }

  lemma StillThere(c: InMemoryIdempotencyCache, h: History)
    requires c.Valid() && Agrees(c, h)
    ensures |c.cache| <= c.maxSize + Increments(h)
    ensures forall k {:trigger Holds(c.cache, k)} :: LastWritten(h, k).Some? && !AbsentSinceWritten(h, k) ==>
              Holds(c.cache, k) || |TouchedSince(c.touches, k)| >= c.maxSize
    ensures |Named(h)| <= c.maxSize ==>
              forall k {:trigger Holds(c.cache, k)} ::
                LastWritten(h, k).Some? && !AbsentSinceWritten(h, k) ==> Holds(c.cache, k)
  {
    hide AbsentSinceWritten, InTouchOrder, Current;
    forall k {:trigger Holds(c.cache, k)}
      | LastWritten(h, k).Some? && !AbsentSinceWritten(h, k) && |Named(h)| <= c.maxSize
      ensures Holds(c.cache, k)
    {
      WrittenIsNamed(h, k);
      var others := TouchedSince(c.touches, k);
      assert others <= Named(h) - {k};
      SubsetCount(others, Named(h) - {k});
      assert |Named(h) - {k}| == |Named(h)| - 1;
    }
  }

  lemma {:induction false} WrittenIsNamed(h: History, k: string)
    requires LastWritten(h, k).Some?
    ensures k in Named(h)
  {
    var n := |h| - 1;
    if WrittenBy(h[n].0, h[n].1, k).None? {
      WrittenIsNamed(h[..n], k);
      var i :| 0 <= i < n && !h[..n][i].0.Clear? && h[..n][i].0.key == k;
      assert h[i] == h[..n][i];
    } else {
      assert h[n].0.key == k;
    }
  }
}
