/**
 Fallback handlers: trees of chains over leaf handlers, the executor that walks them after a
 failure, and the flat list of leaves that means the same. What a user callable returns may
 depend on every leaf call made before it.
 */
module Fallback {
  import opened Wrappers

  type Value = int
  type Cell = nat  // a CachedValueFallback object

  datatype Error = ChainExhausted | NoCachedValue | Raised(code: int)

  datatype Leaf = Static(value: Value) | Cached(cell: Cell) | Callable(func: nat)

  datatype Handler = One(leaf: Leaf) | Chain(handlers: seq<Handler>)

  datatype Result = Ok(value: Value) | Err(error: Error)

  /** Values held by cached handlers, and what each callable does given the leaf calls so far. */
  datatype Env = Env(caches: map<Cell, Value>, call: (nat, seq<Leaf>) -> Result)

  /** What trying a list of handlers comes to, with the leaf calls made. */
  datatype Tried =
    | Handled(value: Value, calls: seq<Leaf>)
    | Unhandled(last: Option<Error>, calls: seq<Leaf>)

  predicate LeafCan(env: Env, leaf: Leaf) {
    leaf.Cached? ==> leaf.cell in env.caches
  }

  predicate CanHandle(env: Env, h: Handler) {
    match h
    case One(leaf) => LeafCan(env, leaf)
    case Chain(hs) => SomeCan(env, hs)
  }

  predicate SomeCan(env: Env, hs: seq<Handler>) {
    exists k :: 0 <= k < |hs| && CanHandle(env, hs[k])
  }

  function LeafResult(env: Env, leaf: Leaf, calls: seq<Leaf>): Result {
    match leaf
    case Static(v) => Ok(v)
    case Cached(c) => if c in env.caches then Ok(env.caches[c]) else Err(NoCachedValue)
    case Callable(f) => env.call(f, calls)
  }

  function Handle(env: Env, h: Handler, calls: seq<Leaf>): (Result, seq<Leaf>)
    decreases h, 0
  {
    match h
    case One(leaf) => (LeafResult(env, leaf, calls), calls + [leaf])
    case Chain(hs) =>
      match Try(env, hs, calls, None)
      case Handled(v, calls') => (Ok(v), calls')
      case Unhandled(Some(e), calls') => (Err(e), calls')
      case Unhandled(None, calls') => (Err(ChainExhausted), calls')
  }

  /** The loop shared by the chain and the executor. */
  function Try(env: Env, hs: seq<Handler>, calls: seq<Leaf>, last: Option<Error>): Tried
    decreases hs, 1
  {
    if hs == [] then Unhandled(last, calls)
    else if !CanHandle(env, hs[0]) then Try(env, hs[1..], calls, last)
    else
      var (r, calls') := Handle(env, hs[0], calls);
      if r.Ok? then Handled(r.value, calls') else Try(env, hs[1..], calls', Some(r.error))
  }

  // ---------------------------------------------------------------- flattening

  function Leaves(h: Handler): seq<Leaf> {
    match h case One(leaf) => [leaf] case Chain(hs) => AllLeaves(hs)
  }

  function AllLeaves(hs: seq<Handler>): seq<Leaf> {
    if hs == [] then [] else Leaves(hs[0]) + AllLeaves(hs[1..])
  }

  function Ones(leaves: seq<Leaf>): seq<Handler> {
    seq(|leaves|, k requires 0 <= k < |leaves| => One(leaves[k]))
  }

  /** The handlers with all chains dissolved. */
  function Flatten(hs: seq<Handler>): seq<Handler> { Ones(AllLeaves(hs)) }

  lemma {:induction false} TryConcat(env: Env, a: seq<Handler>, b: seq<Handler>, calls: seq<Leaf>, last: Option<Error>)
    ensures Try(env, a + b, calls, last)
         == match Try(env, a, calls, last)
            case Handled(v, c) => Handled(v, c)
            case Unhandled(l, c) => Try(env, b, c, l)
    decreases |a|
  {
    if a == [] {
      assert a + b == b;
    } else {
      assert (a + b)[1..] == a[1..] + b;
      var (r, calls') := Handle(env, a[0], calls);
      if !CanHandle(env, a[0]) {
        TryConcat(env, a[1..], b, calls, last);
      } else if r.Err? {
        TryConcat(env, a[1..], b, calls', Some(r.error));
      }
    }
  }

  /** An earlier error only shows when nothing later raised one. */
  lemma {:induction false} TryFrom(env: Env, hs: seq<Handler>, calls: seq<Leaf>, last: Option<Error>)
    ensures Try(env, hs, calls, last)
         == match Try(env, hs, calls, None)
            case Handled(v, c) => Handled(v, c)
            case Unhandled(l, c) => Unhandled(if l.Some? then l else last, c)
    decreases |hs|
  {
    if hs != [] {
      var (r, calls') := Handle(env, hs[0], calls);
      if !CanHandle(env, hs[0]) {
        TryFrom(env, hs[1..], calls, last);
      } else if r.Err? {
        TryFrom(env, hs[1..], calls', Some(r.error));
      }
    }
  }

  lemma OnesConcat(a: seq<Leaf>, b: seq<Leaf>)
    ensures Ones(a + b) == Ones(a) + Ones(b)
  {
  }

  predicate SomeLeafCan(env: Env, leaves: seq<Leaf>) {
    exists k :: 0 <= k < |leaves| && LeafCan(env, leaves[k])
  }

  lemma SomeLeafConcat(env: Env, a: seq<Leaf>, b: seq<Leaf>)
    ensures SomeLeafCan(env, a + b) <==> SomeLeafCan(env, a) || SomeLeafCan(env, b)
  {
    hide LeafCan;
    if SomeLeafCan(env, a) {
      var k :| 0 <= k < |a| && LeafCan(env, a[k]);
      assert (a + b)[k] == a[k];
    }
    if SomeLeafCan(env, b) {
      var k :| 0 <= k < |b| && LeafCan(env, b[k]);
      assert (a + b)[|a| + k] == b[k];
    }
  }

  lemma SomeCanCons(env: Env, hs: seq<Handler>)
    requires hs != []
    ensures SomeCan(env, hs) <==> CanHandle(env, hs[0]) || SomeCan(env, hs[1..])
  {
    hide CanHandle;
    if SomeCan(env, hs[1..]) {
      var k :| 0 <= k < |hs[1..]| && CanHandle(env, hs[1..][k]);
      assert hs[k + 1] == hs[1..][k];
    }
    if SomeCan(env, hs) {
      var k :| 0 <= k < |hs| && CanHandle(env, hs[k]);
      if k > 0 { assert hs[1..][k - 1] == hs[k]; }
    }
  }

  /** A chain can handle exactly when one of its leaves can. */
  lemma {:induction false} CanIsSomeLeaf(env: Env, h: Handler)
    ensures CanHandle(env, h) <==> SomeLeafCan(env, Leaves(h))
    decreases h, 0
  {
    match h
    case One(leaf) =>
      assert Leaves(h)[0] == leaf;
    case Chain(hs) => CanIsSomeLeafOf(env, hs);
  }

  lemma {:induction false} CanIsSomeLeafOf(env: Env, hs: seq<Handler>)
    ensures SomeCan(env, hs) <==> SomeLeafCan(env, AllLeaves(hs))
    decreases hs, 1
  {
    if hs != [] {
      SomeCanCons(env, hs);
      CanIsSomeLeaf(env, hs[0]);
      CanIsSomeLeafOf(env, hs[1..]);
      SomeLeafConcat(env, Leaves(hs[0]), AllLeaves(hs[1..]));
    }
  }

  lemma {:induction false} NobodyCan(env: Env, leaves: seq<Leaf>, calls: seq<Leaf>, last: Option<Error>)
    requires !SomeLeafCan(env, leaves)
    ensures Try(env, Ones(leaves), calls, last) == Unhandled(last, calls)
  {
    if leaves != [] {
      assert leaves == [leaves[0]] + leaves[1..];
      SomeLeafConcat(env, [leaves[0]], leaves[1..]);
      assert [leaves[0]][0] == leaves[0];
      assert Ones(leaves)[1..] == Ones(leaves[1..]) && !CanHandle(env, Ones(leaves)[0]);
      NobodyCan(env, leaves[1..], calls, last);
    }
  }

  /** A list in which somebody can handle either handles or leaves an error behind. */
  lemma {:induction false} SomebodyTries(env: Env, hs: seq<Handler>, calls: seq<Leaf>)
    requires SomeCan(env, hs)
    ensures Try(env, hs, calls, None).Unhandled? ==> Try(env, hs, calls, None).last.Some?
    decreases |hs|
  {
    var (r, calls') := Handle(env, hs[0], calls);
    if !CanHandle(env, hs[0]) {
      SomeCanCons(env, hs);
      SomebodyTries(env, hs[1..], calls);
    } else if r.Err? {
      TryFrom(env, hs[1..], calls', Some(r.error));
    }
  }

  /** The chain's own "no handler" error is never raised for a chain that was asked first, as
      the executor and every enclosing chain do. */
  lemma ExhaustedIsUnreachable(env: Env, hs: seq<Handler>, calls: seq<Leaf>)
    requires CanHandle(env, Chain(hs))
    ensures var t := Try(env, hs, calls, None);
      && (t.Handled? || t.last.Some?)
      && Handle(env, Chain(hs), calls) == (if t.Handled? then Ok(t.value) else Err(t.last.value), t.calls)
  {
    SomebodyTries(env, hs, calls);
  }

  /** Trying one handler, from the point of view of the loop around it. */
  lemma {:induction false} TryOne(env: Env, h: Handler, calls: seq<Leaf>, last: Option<Error>)
    ensures Try(env, [h], calls, last) == Try(env, Ones(Leaves(h)), calls, last)
    decreases h, 0
  {
    assert [h][1..] == [];
    match h
    case One(leaf) =>
      assert Ones(Leaves(h)) == [h];
    case Chain(hs) =>
      CanIsSomeLeaf(env, h);
      if CanHandle(env, h) {
        ExhaustedIsUnreachable(env, hs, calls);
        FlattenSame(env, hs, calls, None);
        TryFrom(env, Flatten(hs), calls, last);
      } else {
        NobodyCan(env, Leaves(h), calls, last);
      }
  }

  /** Dissolving all chains changes neither the result, nor the leaf calls and their order, nor
      the last handler error. */
  lemma {:induction false} FlattenSame(env: Env, hs: seq<Handler>, calls: seq<Leaf>, last: Option<Error>)
    ensures Try(env, hs, calls, last) == Try(env, Flatten(hs), calls, last)
    decreases hs, 1
  {
    if hs == [] {
      assert Flatten(hs) == [];
    } else {
      TryOne(env, hs[0], calls, last);
      assert hs == [hs[0]] + hs[1..];
      TryConcat(env, [hs[0]], hs[1..], calls, last);
      OnesConcat(Leaves(hs[0]), AllLeaves(hs[1..]));
      TryConcat(env, Ones(Leaves(hs[0])), Flatten(hs[1..]), calls, last);
      match Try(env, [hs[0]], calls, last)
      case Handled(_, _) =>
      case Unhandled(l, c) => FlattenSame(env, hs[1..], c, l);
    }
  }

  // ---------------------------------------------------------------- the executor

  datatype Policy = Policy(handlers: seq<Handler>, fallbackOn: Option<set<Error>>, propagate: bool)

  datatype Answer =
    | Returned(value: Value)
    | Reraised(error: Error)
    | Exhausted(original: Error, handlerError: Option<Error>)

  predicate ShouldFallback(p: Policy, e: Error) { p.fallbackOn.None? || e in p.fallbackOn.value }

  /** The cached handlers of a tree, in order. */
  function CachedCells(hs: seq<Handler>): seq<Cell>
    decreases hs
  {
    if hs == [] then []
    else
      (match hs[0]
       case One(Cached(c)) => [c]
       case One(_) => []
       case Chain(inner) => assert hs[0] == Chain(inner); CachedCells(inner))
      + CachedCells(hs[1..])
  }

  function UpdateAll(caches: map<Cell, Value>, cells: seq<Cell>, v: Value): map<Cell, Value>
    decreases |cells|
  {
    if cells == [] then caches else UpdateAll(caches[cells[0] := v], cells[1..], v)
  }

  /** One execution: the answer, the leaf calls made, and the cached values afterwards. */
  function Execute(p: Policy, env: Env, result: Result): (Answer, seq<Leaf>, map<Cell, Value>) {
    match result
    case Ok(v) => (Returned(v), [], UpdateAll(env.caches, CachedCells(p.handlers), v))
    case Err(e) =>
      if !ShouldFallback(p, e) then (Reraised(e), [], env.caches)
      else
        match Try(env, p.handlers, [], None)
        case Handled(v, calls) => (Returned(v), calls, env.caches)
        case Unhandled(last, calls) =>
          (if p.propagate then Reraised(e) else Exhausted(e, last), calls, env.caches)
  }

  lemma {:induction false} CachedCellsConcat(a: seq<Handler>, b: seq<Handler>)
    ensures CachedCells(a + b) == CachedCells(a) + CachedCells(b)
    decreases |a|
  {
    if a == [] {
      assert a + b == b;
    } else {
      assert (a + b)[1..] == a[1..] + b;
      CachedCellsConcat(a[1..], b);
    }
  }

  lemma {:induction false} CachedCellsOfFlat(hs: seq<Handler>)
    ensures CachedCells(Flatten(hs)) == CachedCells(hs)
    decreases hs
  {
    if hs == [] {
      assert Flatten(hs) == [];
    } else {
      OnesConcat(Leaves(hs[0]), AllLeaves(hs[1..]));
      CachedCellsConcat(Ones(Leaves(hs[0])), Flatten(hs[1..]));
      CachedCellsOfFlat(hs[1..]);
      match hs[0]
      case One(leaf) =>
        assert Ones(Leaves(hs[0])) == [One(leaf)] && [One(leaf)][1..] == [];
      case Chain(inner) =>
        assert hs[0] == Chain(inner);
        CachedCellsOfFlat(inner);
    }
  }

  /** Flattening preserves meaning: an executor over a tree and one over its flat list of leaves
      give the same answer, make the same leaf calls in the same order, report the same last
      handler error and leave the same cached values, whatever the call came to. */
  lemma FlatteningPreservesMeaning(p: Policy, env: Env, result: Result)
    ensures Execute(p.(handlers := Flatten(p.handlers)), env, result) == Execute(p, env, result)
  {
    FlattenSame(env, p.handlers, [], None);
    CachedCellsOfFlat(p.handlers);
  }

  lemma {:induction false} UpdateAllHolds(caches: map<Cell, Value>, cells: seq<Cell>, v: Value, c: Cell)
    ensures c in cells || (c in caches && caches[c] == v)
        ==> c in UpdateAll(caches, cells, v) && UpdateAll(caches, cells, v)[c] == v
    ensures c !in cells ==> (c in UpdateAll(caches, cells, v) <==> c in caches)
    ensures c !in cells && c in caches ==> UpdateAll(caches, cells, v)[c] == caches[c]
    decreases |cells|
  {
    if cells != [] { UpdateAllHolds(caches[cells[0] := v], cells[1..], v, c); }
  }

  /** The caches after a series of executions. */
  function CachesAfter(p: Policy, env: Env, results: seq<Result>): map<Cell, Value> {
    if results == [] then env.caches
    else Execute(p, env.(caches := CachesAfter(p, env, results[..|results| - 1])), results[|results| - 1]).2
  }

  function LastSuccess(results: seq<Result>): Option<Value> {
    if results == [] then None
    else if results[|results| - 1].Ok? then Some(results[|results| - 1].value)
    else LastSuccess(results[..|results| - 1])
  }

  lemma {:induction false} CellsAreCachedLeaves(hs: seq<Handler>, c: Cell)
    ensures c in CachedCells(hs) <==> Cached(c) in AllLeaves(hs)
    decreases hs
  {
    if hs != [] {
      CellsAreCachedLeaves(hs[1..], c);
      match hs[0]
      case One(leaf) =>
      case Chain(inner) =>
        assert hs[0] == Chain(inner);
        CellsAreCachedLeaves(inner, c);
    }
  }

  /** Over any series of executions, every cached handler anywhere in the tree holds the last
      successful result, or what it held before if there was none; other cells are untouched. */
  lemma {:induction false} CachedIsLastSuccess(p: Policy, env: Env, results: seq<Result>, c: Cell)
    ensures var caches := CachesAfter(p, env, results);
      if Cached(c) in AllLeaves(p.handlers) && LastSuccess(results).Some?
      then c in caches && caches[c] == LastSuccess(results).value
      else (c in caches <==> c in env.caches) && (c in caches ==> caches[c] == env.caches[c])
  {
    CellsAreCachedLeaves(p.handlers, c);
    if results != [] {
      var init, r := results[..|results| - 1], results[|results| - 1];
      CachedIsLastSuccess(p, env, init, c);
      if r.Ok? { UpdateAllHolds(CachesAfter(p, env, init), CachedCells(p.handlers), r.value, c); }
    }
  }

  // ---------------------------------------------------------------- the answer, from the leaves

  /** The leaves that take part, in order: all but the cached ones without a value. */
  function AbleLeaves(caches: map<Cell, Value>, leaves: seq<Leaf>): seq<Leaf> {
    if leaves == [] then []
    else
      (match leaves[0]
       case Cached(c) => if c in caches then [Cached(c)] else []
       case other => [other])
      + AbleLeaves(caches, leaves[1..])
  }

  /** What the k-th of them says when asked, after `calls` and the ones before it. */
  function Says(env: Env, calls: seq<Leaf>, able: seq<Leaf>, k: nat): Result
    requires k < |able|
  {
    match able[k]
    case Static(v) => Ok(v)
    case Cached(c) => if c in env.caches then Ok(env.caches[c]) else Err(NoCachedValue)
    case Callable(f) => env.call(f, calls + able[..k])
  }

  predicate FailBefore(env: Env, calls: seq<Leaf>, able: seq<Leaf>, k: nat)
    requires k <= |able|
  {
    forall j :: 0 <= j < k ==> Says(env, calls, able, j).Err?
  }

  lemma SaysNext(env: Env, calls: seq<Leaf>, able: seq<Leaf>, k: nat)
    requires k < |able| - 1
    ensures Says(env, calls, able, k + 1) == Says(env, calls + [able[0]], able[1..], k)
  {
    assert calls + able[..k + 1] == (calls + [able[0]]) + able[1..][..k];
  }

  lemma FailNext(env: Env, calls: seq<Leaf>, able: seq<Leaf>, k: nat)
    requires 0 < k <= |able|
    ensures FailBefore(env, calls, able, k)
       <==> Says(env, calls, able, 0).Err? && FailBefore(env, calls + [able[0]], able[1..], k - 1)
  {
    hide Says;
    forall j | 0 <= j < k - 1 ensures Says(env, calls, able, j + 1) == Says(env, calls + [able[0]], able[1..], j) {
      SaysNext(env, calls, able, j);
    }
    if FailBefore(env, calls, able, k) {
      forall j | 0 <= j < k - 1 ensures Says(env, calls + [able[0]], able[1..], j).Err? {
        assert Says(env, calls, able, j + 1).Err?;
      }
    }
    if Says(env, calls, able, 0).Err? && FailBefore(env, calls + [able[0]], able[1..], k - 1) {
      forall j | 0 <= j < k ensures Says(env, calls, able, j).Err? {
        if j > 0 { assert Says(env, calls + [able[0]], able[1..], j - 1).Err?; }
      }
    }
  }

  /** Asking able leaves one after the other. */
  function Ask(env: Env, able: seq<Leaf>, calls: seq<Leaf>, last: Option<Error>): Tried
    decreases |able|
  {
    if able == [] then Unhandled(last, calls)
    else
      match LeafResult(env, able[0], calls)
      case Ok(v) => Handled(v, calls + [able[0]])
      case Err(e) => Ask(env, able[1..], calls + [able[0]], Some(e))
  }

  lemma AbleCons(env: Env, leaves: seq<Leaf>)
    requires leaves != []
    ensures AbleLeaves(env.caches, leaves)
         == (if LeafCan(env, leaves[0]) then [leaves[0]] else []) + AbleLeaves(env.caches, leaves[1..])
  {
  }

  lemma TryCons(env: Env, leaves: seq<Leaf>, calls: seq<Leaf>, last: Option<Error>)
    requires leaves != []
    ensures Try(env, Ones(leaves), calls, last)
         == if !LeafCan(env, leaves[0]) then Try(env, Ones(leaves[1..]), calls, last)
            else
              match LeafResult(env, leaves[0], calls)
              case Ok(v) => Handled(v, calls + [leaves[0]])
              case Err(e) => Try(env, Ones(leaves[1..]), calls + [leaves[0]], Some(e))
  {
    assert Ones(leaves)[1..] == Ones(leaves[1..]) && Ones(leaves)[0] == One(leaves[0]);
  }

  lemma NothingToTry(env: Env, calls: seq<Leaf>, last: Option<Error>)
    ensures Try(env, Ones([]), calls, last) == Unhandled(last, calls) && AbleLeaves(env.caches, []) == []
    ensures Ask(env, [], calls, last) == Unhandled(last, calls)
  {
  }

  lemma AskCons(env: Env, leaf: Leaf, rest: seq<Leaf>, calls: seq<Leaf>, last: Option<Error>)
    ensures Ask(env, [leaf] + rest, calls, last)
         == match LeafResult(env, leaf, calls)
            case Ok(v) => Handled(v, calls + [leaf])
            case Err(e) => Ask(env, rest, calls + [leaf], Some(e))
  {
    assert ([leaf] + rest)[1..] == rest;
  }

  lemma {:induction false} TryIsAsk(env: Env, leaves: seq<Leaf>, calls: seq<Leaf>, last: Option<Error>)
    ensures Try(env, Ones(leaves), calls, last) == Ask(env, AbleLeaves(env.caches, leaves), calls, last)
    decreases |leaves|
  {
    hide *;
    NothingToTry(env, calls, last);
    if leaves != [] {
      var rest, leaf := AbleLeaves(env.caches, leaves[1..]), leaves[0];
      AbleCons(env, leaves);
      TryCons(env, leaves, calls, last);
      if LeafCan(env, leaf) {
        AskCons(env, leaf, rest, calls, last);
        var r := LeafResult(env, leaf, calls);
        if r.Err? { TryIsAsk(env, leaves[1..], calls + [leaf], Some(r.error)); }
      } else {
        assert [] + rest == rest;
        TryIsAsk(env, leaves[1..], calls, last);
      }
    }
  }

  lemma SaysFirst(env: Env, calls: seq<Leaf>, able: seq<Leaf>)
    requires able != []
    ensures Says(env, calls, able, 0) == LeafResult(env, able[0], calls)
  {
    assert calls + able[..0] == calls;
  }

  /** The first able leaf that succeeds handles it, those before it having been called. */
  lemma {:induction false} AskUntil(env: Env, able: seq<Leaf>, calls: seq<Leaf>, last: Option<Error>, k: nat)
    requires k < |able| && FailBefore(env, calls, able, k) && Says(env, calls, able, k).Ok?
    ensures Ask(env, able, calls, last) == Handled(Says(env, calls, able, k).value, calls + able[..k + 1])
    decreases |able|
  {
    hide *;
    SaysFirst(env, calls, able);
    assert able == [able[0]] + able[1..];
    AskCons(env, able[0], able[1..], calls, last);
    if k == 0 {
      assert able[..1] == [able[0]];
    } else {
      FailNext(env, calls, able, k);
      SaysNext(env, calls, able, k - 1);
      AskUntil(env, able[1..], calls + [able[0]], Some(Says(env, calls, able, 0).error), k - 1);
      assert (calls + [able[0]]) + able[1..][..k] == calls + able[..k + 1];
    }
  }

  /** If none succeeds, all were called and the last one's error is left. */
  lemma {:induction false} AskInVain(env: Env, able: seq<Leaf>, calls: seq<Leaf>, last: Option<Error>)
    requires FailBefore(env, calls, able, |able|)
    ensures able != [] ==> Says(env, calls, able, |able| - 1).Err?
    ensures Ask(env, able, calls, last)
         == Unhandled(if able == [] then last else Some(Says(env, calls, able, |able| - 1).error), calls + able)
    decreases |able|
  {
    hide Ask, Says;
    NothingToTry(env, calls, last);
    if able == [] {
      assert calls + able == calls;
    } else {
      SaysFirst(env, calls, able);
      assert able == [able[0]] + able[1..];
      AskCons(env, able[0], able[1..], calls, last);
      FailNext(env, calls, able, |able|);
      var error := Says(env, calls, able, 0).error;
      AskInVain(env, able[1..], calls + [able[0]], Some(error));
      assert (calls + [able[0]]) + able[1..] == calls + able;
      if |able| > 1 { SaysNext(env, calls, able, |able| - 2); }
    }
  }

  /** What an execution answers, for every tree, from its leaves: a success is returned; an error
      that is not to be caught is re-raised, no leaf being called; otherwise the first able leaf
      that succeeds gives the answer, and exactly the able leaves up to it were called; if none
      does, all able ones were, and the answer is the original error, or the exhausted error with
      that of the last of them. */
  lemma AnswerExactly(p: Policy, env: Env, result: Result, k: nat)
    ensures var (answer, calls, _) := Execute(p, env, result);
      var able := AbleLeaves(env.caches, AllLeaves(p.handlers));
      match result
      case Ok(v) => answer == Returned(v) && calls == []
      case Err(e) =>
        if p.fallbackOn.Some? && e !in p.fallbackOn.value then answer == Reraised(e) && calls == []
        else
          && (k < |able| && FailBefore(env, [], able, k) && Says(env, [], able, k).Ok? ==>
                answer == Returned(Says(env, [], able, k).value) && calls == able[..k + 1])
          && (FailBefore(env, [], able, |able|) ==>
                calls == able
                && answer == if p.propagate then Reraised(e)
                             else if able == [] then Exhausted(e, None)
                             else Exhausted(e, Some(Says(env, [], able, |able| - 1).error)))
  {
    hide AllLeaves, AbleLeaves, Says, FailBefore, Ask, Try, CachedCells, UpdateAll, Flatten;
    var able := AbleLeaves(env.caches, AllLeaves(p.handlers));
    ExecuteAsks(p, env);
    if k < |able| && FailBefore(env, [], able, k) && Says(env, [], able, k).Ok? {
      AskUntil(env, able, [], None, k);
      assert [] + able[..k + 1] == able[..k + 1];
    }
    if FailBefore(env, [], able, |able|) {
      AskInVain(env, able, [], None);
      assert [] + able == able;
    }
  }

  lemma ExecuteAsks(p: Policy, env: Env)
    ensures Try(env, p.handlers, [], None) == Ask(env, AbleLeaves(env.caches, AllLeaves(p.handlers)), [], None)
  {
    FlattenSame(env, p.handlers, [], None);
    TryIsAsk(env, AllLeaves(p.handlers), [], None);
    hide Try, Ask, AllLeaves, AbleLeaves;
  }

  // ---------------------------------------------------------------- the code's loops

  /** The executor with the cells and the log of leaf calls it changes. */
  class FallbackExecutor {
    const policy: Policy
    const call: (nat, seq<Leaf>) -> Result
    var caches: map<Cell, Value>
    var calls: seq<Leaf>

    constructor (policy: Policy, call: (nat, seq<Leaf>) -> Result, caches: map<Cell, Value>)
      ensures this.policy == policy && this.call == call && this.caches == caches && calls == []
    {
      this.policy, this.call, this.caches, calls := policy, call, caches, [];
    }

    function TheEnv(): Env
      reads this
    {
      Env(caches, call)
    }

    method CheckHandler(h: Handler) returns (can: bool)
      ensures can == CanHandle(TheEnv(), h)
      decreases h
    {
      match h
      case One(leaf) => can := leaf.Cached? ==> leaf.cell in caches;
      case Chain(hs) =>
        for k := 0 to |hs|
          invariant forall j :: 0 <= j < k ==> !CanHandle(TheEnv(), hs[j])
        {
          var c := CheckHandler(hs[k]);
          if c { return true; }
        }
        can := false;
    }

    method HandleWith(h: Handler) returns (r: Result)
      modifies this`calls
      ensures (r, calls) == old(Handling(h))
      decreases h, 0
    {
      match h
      case One(leaf) =>
        r := match leaf
             case Static(v) => Ok(v)
             case Cached(c) => if c in caches then Ok(caches[c]) else Err(NoCachedValue)
             case Callable(f) => call(f, calls);
        calls := calls + [leaf];
      case Chain(hs) =>
        var last: Option<Error> := None;
        var i := 0;
        while i < |hs|
          invariant 0 <= i <= |hs|
          invariant Try(TheEnv(), hs[i..], calls, last) == Try(TheEnv(), hs, old(calls), None)
        {
          assert hs[i..][1..] == hs[i + 1..];
          var can := CheckHandler(hs[i]);
          if can {
            var r1 := HandleWith(hs[i]);
            if r1.Ok? { return r1; }
            last := Some(r1.error);
          }
          i := i + 1;
        }
        if last.Some? { return Err(last.value); }
        return Err(ChainExhausted);
    }

    function Handling(h: Handler): (Result, seq<Leaf>)
      reads this
    {
      Handle(TheEnv(), h, calls)
    }

    method RecordSuccess(v: Value)
      modifies this`caches
      ensures caches == old(UpdateAll(caches, CachedCells(policy.handlers), v))
    {
      UpdateCached(policy.handlers, v);
    }

    method UpdateCached(hs: seq<Handler>, v: Value)
      modifies this`caches
      ensures caches == old(UpdateAll(caches, CachedCells(hs), v))
      decreases hs
    {
      var i := 0;
      while i < |hs|
        invariant 0 <= i <= |hs|
        invariant UpdateAll(caches, CachedCells(hs[i..]), v) == UpdateAll(old(caches), CachedCells(hs), v)
        decreases |hs| - i
      {
        CellsOfFirst(hs[i..]);
        assert hs[i..][1..] == hs[i + 1..];
        ghost var rest := CachedCells(hs[i + 1..]);
        match hs[i] {
          case One(leaf) =>
            if leaf.Cached? {
              UpdateConcat(caches, [leaf.cell], rest, v);
              UpdateOne(caches, leaf.cell, v);
              caches := caches[leaf.cell := v];
            }
          case Chain(inner) =>
            assert hs[i] == Chain(inner);
            UpdateConcat(caches, CachedCells(inner), rest, v);
            UpdateCached(inner, v);
        }
        i := i + 1;
      }
    }

    static lemma CellsOfFirst(hs: seq<Handler>)
      requires hs != []
      ensures CachedCells(hs) == match hs[0]
                                 case One(Cached(c)) => [c] + CachedCells(hs[1..])
                                 case One(_) => CachedCells(hs[1..])
                                 case Chain(inner) => CachedCells(inner) + CachedCells(hs[1..])
    {
      match hs[0]
      case One(Cached(c)) =>
      case One(_) => assert [] + CachedCells(hs[1..]) == CachedCells(hs[1..]);
      case Chain(inner) =>
    }

    static lemma UpdateOne(caches: map<Cell, Value>, c: Cell, v: Value)
      ensures UpdateAll(caches, [c], v) == caches[c := v]
    {
      assert [c][1..] == [];
    }

    static lemma {:induction false} UpdateConcat(caches: map<Cell, Value>, a: seq<Cell>, b: seq<Cell>, v: Value)
      ensures UpdateAll(caches, a + b, v) == UpdateAll(UpdateAll(caches, a, v), b, v)
      decreases |a|
    {
      if a == [] {
        assert a + b == b;
      } else {
        assert (a + b)[1..] == a[1..] + b;
        UpdateConcat(caches[a[0] := v], a[1..], b, v);
      }
    }

    /** One execution of a callable that came to `result`; the log is of this execution. */
    method Run(result: Result) returns (answer: Answer)
      modifies this
      ensures (answer, calls, caches) == old(Execute(policy, TheEnv(), result))
    {
      calls := [];
      match result
      case Ok(v) =>
        RecordSuccess(v);
        answer := Returned(v);
      case Err(e) =>
        if policy.fallbackOn.Some? && e !in policy.fallbackOn.value { return Reraised(e); }
        var handlerError: Option<Error> := None;
        var i := 0;
        var hs := policy.handlers;
        while i < |hs|
          invariant 0 <= i <= |hs| && caches == old(caches)
          invariant Try(TheEnv(), hs[i..], calls, handlerError) == Try(TheEnv(), hs, [], None)
        {
          assert hs[i..][1..] == hs[i + 1..];
          var can := CheckHandler(hs[i]);
          if can {
            var r := HandleWith(hs[i]);
            if r.Ok? { return Returned(r.value); }
            handlerError := Some(r.error);
          }
          i := i + 1;
        }
        if policy.propagate { return Reraised(e); }
        return Exhausted(e, handlerError);
    }
  }
}
