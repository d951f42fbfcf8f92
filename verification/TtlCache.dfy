/**
 The TTL cache: an unordered dict whose expired entries are removed only when some
 operation happens to meet them. Beside it runs an ideal map that never removes an entry
 because of its age; the two are proved to answer alike. Clock readings are parameters; an
 operation that reads the clock more than once takes each reading separately.
 */
module TtlCache {
  import opened Wrappers

  datatype Value = NoneValue | IntValue(n: int) | Other(text: string)

  datatype Entry = Entry(value: Value, expiresAt: Option<real>)

  type Store = map<string, Entry>

  datatype IncrResult = Incremented(n: int) | NotAnInt

  // ---------------------------------------------------------------- the ideal map

  predicate Expired(e: Entry, t: real) { e.expiresAt.Some? && e.expiresAt.value <= t }

  predicate Live(m: Store, key: string, t: real) { key in m && !Expired(m[key], t) }

  function Expiry(ttl: Option<real>, now: real): Option<real> {
    match ttl
    case None => None
    case Some(t) => if t <= 0.0 then Some(now) else Some(now + t)
  }

  function IdealGet(m: Store, key: string, t: real): Option<Value> {
    if Live(m, key, t) then Some(m[key].value) else None
  }

  function Remaining(m: Store, key: string, t: real): Option<real> {
    if !Live(m, key, t) then None
    else if m[key].expiresAt.None? then Some(-1.0)
    else Some(m[key].expiresAt.value - t)
  }

  /** The entry an increment leaves, and its answer: exists at t1, expiry read at t2 and t3. */
  function IdealIncr(m: Store, key: string, delta: int, ttl: Option<real>, t1: real, t2: real, t3: real)
    : (Store, IncrResult)
  {
    if Live(m, key, t1) && !m[key].value.IntValue? then (m, NotAnInt)
    else
      var (base, kept) := if Live(m, key, t1) then (m[key].value.n, m[key].expiresAt) else (0, Expiry(ttl, t2));
      var e := Entry(IntValue(base + delta), if ttl.Some? then Expiry(ttl, t3) else kept);
      (m[key := e], Incremented(base + delta))
  }

  /** One clock pair per key: the read, and the second look at a None. */
  function IdealGetMany(m: Store, keys: seq<string>, times: seq<(real, real)>): map<string, Value>
    requires |keys| == |times|
  {
    if keys == [] then map[]
    else
      var n := |keys| - 1;
      var r := IdealGetMany(m, keys[..n], times[..n]);
      var v := IdealGet(m, keys[n], times[n].0);
      if (v.Some? && v.value != NoneValue) || Live(m, keys[n], times[n].1) then
        r[keys[n] := if v.Some? then v.value else NoneValue]
      else r
  }

  function PutAll(m: Store, items: seq<(string, Value)>, expiresAt: Option<real>): Store
    decreases |items|
  {
    if items == [] then m else PutAll(m[items[0].0 := Entry(items[0].1, expiresAt)], items[1..], expiresAt)
  }

  // ---------------------------------------------------------------- the relation

  /** The store is the ideal map minus some entries that had expired by `clock`. */
  ghost predicate Purged(store: Store, ideal: Store, clock: real) {
    && (forall k :: k in store ==> k in ideal && ideal[k] == store[k])
    && (forall k :: k in ideal && k !in store ==> Expired(ideal[k], clock))
  }

  /** From then on nobody can tell the two apart by asking about live entries. */
  lemma SameAnswers(store: Store, ideal: Store, clock: real, key: string, t: real)
    requires Purged(store, ideal, clock) && clock <= t
    ensures IdealGet(store, key, t) == IdealGet(ideal, key, t)
    ensures Live(store, key, t) <==> Live(ideal, key, t)
    ensures Remaining(store, key, t) == Remaining(ideal, key, t)
    ensures Purged(store, ideal, t)
    ensures !Live(ideal, key, t) ==> Purged(store - {key}, ideal, t)
  {
  }

  lemma PutBoth(store: Store, ideal: Store, clock: real, key: string, e: Entry)
    requires Purged(store, ideal, clock)
    ensures Purged(store[key := e], ideal[key := e], clock)
    ensures Purged(store - {key}, ideal - {key}, clock)
  {
  }

  function Without(m: Store, keys: seq<string>): Store { m - (set k | k in keys) }

  lemma WithoutNext(m: Store, keys: seq<string>, i: nat)
    requires i < |keys|
    ensures Without(m, keys[..i + 1]) == Without(m, keys[..i]) - {keys[i]}
  {
    assert keys[..i + 1] == keys[..i] + [keys[i]];
  }

  lemma RemovedCount(m: Store, key: string)
    ensures |m - {key}| == |m| - if key in m then 1 else 0
  {
    if key in m {
      assert m.Keys == (m - {key}).Keys + {key};
      assert |m.Keys| == |(m - {key}).Keys| + 1;
    } else {
      assert m - {key} == m;
    }
  }

  // ---------------------------------------------------------------- the cache

  class InMemoryCache {
    var store: Store
    ghost var ideal: Store
    ghost var clock: real

    ghost predicate Valid()
      reads this
    {
      Purged(store, ideal, clock)
    }

    constructor (ghost now: real)
      ensures Valid() && store == map[] && ideal == map[] && clock == now
    {
      store, ideal, clock := map[], map[], now;
    }

    method GetUnlocked(key: string, now: real) returns (r: Option<Value>)
      requires Valid() && clock <= now
      modifies this
      ensures Valid() && clock == now && ideal == old(ideal)
      ensures r == IdealGet(ideal, key, now)
    {
      SameAnswers(store, ideal, clock, key, now);
      clock := now;
      if key !in store { return None; }
      var e := store[key];
      if e.expiresAt.Some? && e.expiresAt.value <= now {
        store := store - {key};
        return None;
      }
      return Some(e.value);
    }

    method ExistsUnlocked(key: string, now: real) returns (r: bool)
      requires Valid() && clock <= now
      modifies this
      ensures Valid() && clock == now && ideal == old(ideal)
      ensures r == Live(ideal, key, now) && (r ==> key in store)
    {
      SameAnswers(store, ideal, clock, key, now);
      clock := now;
      if key !in store { return false; }
      var e := store[key];
      if e.expiresAt.None? { return true; }
      if e.expiresAt.value <= now {
        store := store - {key};
        return false;
      }
      return true;
    }

    method Get(key: string, now: real) returns (r: Option<Value>)
      requires Valid() && clock <= now
      modifies this
      ensures Valid() && clock == now && ideal == old(ideal)
      ensures r == IdealGet(ideal, key, now)
    {
      r := GetUnlocked(key, now);
    }

    /** The expiry is computed from a reading taken before the lock, which other operations may have
        overtaken by the time the entry is stored. */
    method Set(key: string, value: Value, ttl: Option<real>, before: real)
      requires Valid()
      modifies this`store, this`ideal
      ensures Valid() && ideal == old(ideal)[key := Entry(value, Expiry(ttl, before))]
    {
      var e := Entry(value, Expiry(ttl, before));
      PutBoth(store, ideal, clock, key, e);
      store := store[key := e];
      ideal := ideal[key := e];
    }

    /** The expiry is computed before the lock is taken, the existence check after. */
    method Add(key: string, value: Value, ttl: Option<real>, before: real, now: real) returns (added: bool)
      requires Valid() && clock <= now && before <= now
      modifies this
      ensures Valid() && clock == now && added == !old(Live(ideal, key, now))
      ensures ideal == if added then old(ideal)[key := Entry(value, Expiry(ttl, before))] else old(ideal)
    {
      var e := Entry(value, Expiry(ttl, before));
      var present := ExistsUnlocked(key, now);
      if present { return false; }
      PutBoth(store, ideal, now, key, e);
      store := store[key := e];
      ideal := ideal[key := e];
      return true;
    }

    /** The one answer that can betray an unpurged entry: it says whether the key was still in
        the store. It differs from what the ideal map would call live exactly for an entry
        that has expired and not been met since. */
    method Delete(key: string, ghost now: real) returns (present: bool)
      requires Valid() && clock <= now
      modifies this
      ensures Valid() && clock == now && ideal == old(ideal) - {key}
      ensures present != old(Live(ideal, key, now)) <==> old(key in store && Expired(store[key], now))
    {
      SameAnswers(store, ideal, clock, key, now);
      clock := now;
      present := Pop(key);
    }

    method Pop(key: string) returns (present: bool)
      requires Valid()
      modifies this`store, this`ideal
      ensures Valid() && ideal == old(ideal) - {key} && store == old(store) - {key}
      ensures present == (key in old(store)) && |store| == |old(store)| - if present then 1 else 0
    {
      PutBoth(store, ideal, clock, key, Entry(NoneValue, None));
      RemovedCount(store, key);
      present := key in store;
      store := store - {key};
      ideal := ideal - {key};
    }

    method Clear()
      requires Valid()
      modifies this
      ensures Valid() && clock == old(clock) && ideal == map[]
    {
      store, ideal := map[], map[];
    }

    method GetMany(keys: seq<string>, times: seq<(real, real)>, ghost end: real) returns (r: map<string, Value>)
      requires Valid() && |keys| == |times| && clock <= end
      requires forall i :: 0 <= i < |times| ==> clock <= times[i].0 <= times[i].1 <= end
      requires forall i, j :: 0 <= i < j < |times| ==> times[i].1 <= times[j].0
      modifies this
      ensures Valid() && ideal == old(ideal) && clock <= end
      ensures r == IdealGetMany(ideal, keys, times)
    {
      r := map[];
      var i := 0;
      while i < |keys|
        invariant 0 <= i <= |keys| && Valid() && ideal == old(ideal) && clock <= end
        invariant forall j :: i <= j < |times| ==> clock <= times[j].0
        invariant r == IdealGetMany(ideal, keys[..i], times[..i])
      {
        var v := GetUnlocked(keys[i], times[i].0);
        var value := if v.Some? then v.value else NoneValue;
        var wanted := value != NoneValue;
        if !wanted { wanted := ExistsUnlocked(keys[i], times[i].1); }
        if wanted { r := r[keys[i] := value]; }
        assert keys[..i + 1][..i] == keys[..i] && times[..i + 1][..i] == times[..i];
        i := i + 1;
      }
      assert keys[..i] == keys && times[..i] == times;
    }

    method SetMany(items: seq<(string, Value)>, ttl: Option<real>, before: real)
      requires Valid()
      modifies this`store, this`ideal
      ensures Valid() && ideal == PutAll(old(ideal), items, Expiry(ttl, before))
    {
      var expiresAt := Expiry(ttl, before);
      var i := 0;
      while i < |items|
        invariant 0 <= i <= |items| && Valid()
        invariant PutAll(ideal, items[i..], expiresAt) == PutAll(old(ideal), items, expiresAt)
      {
        var e := Entry(items[i].1, expiresAt);
        PutBoth(store, ideal, clock, items[i].0, e);
        assert items[i..][1..] == items[i + 1..];
        store := store[items[i].0 := e];
        ideal := ideal[items[i].0 := e];
        i := i + 1;
      }
    }

    method DeleteMany(keys: seq<string>) returns (count: nat)
      requires Valid()
      modifies this
      ensures Valid() && clock == old(clock)
      ensures ideal == Without(old(ideal), keys)
      ensures count == |old(store)| - |store| && forall k :: k in keys ==> k !in store
    {
      hide Purged, Without;
      count := 0;
      var i := 0;
      WithoutNothing(ideal);
      while i < |keys|
        invariant 0 <= i <= |keys| && Valid() && clock == old(clock)
        invariant ideal == Without(old(ideal), keys[..i])
        invariant count == |old(store)| - |store|
        invariant forall j :: 0 <= j < i ==> keys[j] !in store
      {
        WithoutNext(old(ideal), keys, i);
        var present := Pop(keys[i]);
        if present { count := count + 1; }
        i := i + 1;
      }
      assert keys[..i] == keys;
    }

    static lemma WithoutNothing(m: Store)
      ensures Without(m, []) == m
    {
    }

    method Contains(key: string, now: real) returns (r: bool)
      requires Valid() && clock <= now
      modifies this
      ensures Valid() && clock == now && ideal == old(ideal)
      ensures r == Live(ideal, key, now)
    {
      r := ExistsUnlocked(key, now);
    }

    method Ttl(key: string, now: real) returns (r: Option<real>)
      requires Valid() && clock <= now
      modifies this
      ensures Valid() && clock == now && ideal == old(ideal)
      ensures r == Remaining(ideal, key, now)
    {
      SameAnswers(store, ideal, clock, key, now);
      clock := now;
      if key !in store { return None; }
      var e := store[key];
      if e.expiresAt.None? { return Some(-1.0); }
      var remaining := e.expiresAt.value - now;
      if remaining <= 0.0 {
        store := store - {key};
        return None;
      }
      return Some(remaining);
    }

    method Incr(key: string, delta: int, ttl: Option<real>, t1: real, t2: real, t3: real) returns (r: IncrResult)
      requires Valid() && clock <= t1 <= t2 <= t3
      modifies this
      ensures Valid() && clock == t3
      ensures (ideal, r) == IdealIncr(old(ideal), key, delta, ttl, t1, t2, t3)
    {
      var present := ExistsUnlocked(key, t1);
      SameAnswers(store, ideal, clock, key, t3);
      var base, expiresAt := 0, None;
      if !present {
        expiresAt := Expiry(ttl, t2);
      } else {
        expiresAt := store[key].expiresAt;
        if !store[key].value.IntValue? {
          clock := t3;
          return NotAnInt;
        }
        base := store[key].value.n;
      }
      if ttl.Some? { expiresAt := Expiry(ttl, t3); }
      var e := Entry(IntValue(base + delta), expiresAt);
      PutBoth(store, ideal, t3, key, e);
      clock := t3;
      store := store[key := e];
      ideal := ideal[key := e];
      return Incremented(base + delta);
    }
  }

  // ---------------------------------------------------------------- every operation sequence

  datatype Op =
    | OpGet(key: string, now: real)
    | OpGetMany(keys: seq<string>, times: seq<(real, real)>, now: real)
    | OpSet(key: string, value: Value, ttl: Option<real>, before: real, now: real)
    | OpSetMany(items: seq<(string, Value)>, ttl: Option<real>, before: real, now: real)
    | OpAdd(key: string, value: Value, ttl: Option<real>, before: real, now: real)
    | OpContains(key: string, now: real)
    | OpTtl(key: string, now: real)
    | OpIncr(key: string, delta: int, ttl: Option<real>, t1: real, t2: real, now: real)
    | OpDelete(key: string, now: real)
    | OpDeleteMany(keys: seq<string>, now: real)
    | OpClear(now: real)

  /** What a caller is told; the return values of the two deletes are not part of it. */
  datatype Answer =
    | Silent
    | Found(value: Option<Value>)
    | FoundMany(values: map<string, Value>)
    | YesNo(b: bool)
    | Left(remaining: Option<real>)
    | Count(result: IncrResult)

  /** The clock readings of one operation are in order and none is before `from`, except that an
      expiry may be read `before` the lock is taken. */
  predicate InOrder(op: Op, from: real) {
    && from <= op.now
    && match op
       case OpGetMany(keys, times, now) =>
         && |keys| == |times|
         && (forall i :: 0 <= i < |times| ==> from <= times[i].0 <= times[i].1 <= now)
         && forall i, j :: 0 <= i < j < |times| ==> times[i].1 <= times[j].0
       case OpSet(_, _, _, before, now) => before <= now
       case OpSetMany(_, _, before, now) => before <= now
       case OpAdd(_, _, _, before, now) => before <= now
       case OpIncr(_, _, _, t1, t2, now) => from <= t1 <= t2 <= now
       case _ => true
  }

  predicate Sequence(ops: seq<Op>, from: real)
    decreases |ops|
  {
    ops == [] || (InOrder(ops[0], from) && Sequence(ops[1..], ops[0].now))
  }

  /** One operation on the map that never purges. */
  function IdealStep(m: Store, op: Op, from: real): (Store, Answer)
    requires InOrder(op, from)
  {
    match op
    case OpGet(k, t) => (m, Found(IdealGet(m, k, t)))
    case OpGetMany(ks, times, _) => (m, FoundMany(IdealGetMany(m, ks, times)))
    case OpSet(k, v, ttl, before, _) => (m[k := Entry(v, Expiry(ttl, before))], Silent)
    case OpSetMany(items, ttl, before, _) => (PutAll(m, items, Expiry(ttl, before)), Silent)
    case OpAdd(k, v, ttl, before, t) =>
      if Live(m, k, t) then (m, YesNo(false)) else (m[k := Entry(v, Expiry(ttl, before))], YesNo(true))
    case OpContains(k, t) => (m, YesNo(Live(m, k, t)))
    case OpTtl(k, t) => (m, Left(Remaining(m, k, t)))
    case OpIncr(k, d, ttl, t1, t2, t3) =>
      var (m', r) := IdealIncr(m, k, d, ttl, t1, t2, t3);
      (m', Count(r))
    case OpDelete(k, _) => (m - {k}, Silent)
    case OpDeleteMany(ks, _) => (Without(m, ks), Silent)
    case OpClear(_) => (map[], Silent)
  }

  function IdealAnswers(m: Store, ops: seq<Op>, from: real): seq<Answer>
    requires Sequence(ops, from)
    decreases |ops|
  {
    if ops == [] then []
    else
      var (m', a) := IdealStep(m, ops[0], from);
      [a] + IdealAnswers(m', ops[1..], ops[0].now)
  }

  // ---------------------------------------------------------------- the ideal map by its gets

  /** Whether what was written at `from` for `ttl` is still there at `t`. */
  predicate Lasts(ttl: Option<real>, from: real, t: real) {
    match ttl
    case None => true
    case Some(d) => if d > 0.0 then t < from + d else t < from
  }

  predicate FoundBy(m: Store, key: string, times: (real, real)) {
    var v := IdealGet(m, key, times.0);
    v.Some? && (v.value == NoneValue ==> IdealGet(m, key, times.1).Some?)
  }

  /** The i-th item is the last with this key. */
  predicate LastItem(items: seq<(string, Value)>, i: int, key: string) {
    0 <= i < |items| && items[i].0 == key && forall j :: i < j < |items| ==> items[j].0 != key
  }

  /** What one operation answers, and what a get of any key at any time finds after it, by what gets
      found before it. The remaining time is how long a get will go on finding the value, -1 standing
      for ever. An increment adds to the number a get would have found, or to 0; without a lifetime
      of its own the new number stays as long as the old one, or for ever if there was none. */
  ghost predicate Means(m: Store, op: Op, m': Store, a: Answer, key: string, t: real) {
    var (found, finds) := (IdealGet(m, key, t), IdealGet(m', key, t));
    match op
    case OpGet(k, now) => finds == found && a == Found(IdealGet(m, k, now))
    case OpContains(k, now) => finds == found && a == YesNo(IdealGet(m, k, now) != None)
    case OpTtl(k, now) =>
      && finds == found && a.Left? && (a.remaining.Some? <==> IdealGet(m, k, now).Some?)
      && (a.remaining.Some? ==> a.remaining.value == -1.0 || a.remaining.value > 0.0)
      && (key == k && t >= now ==>
            (found.Some? <==> a.remaining.Some? && (a.remaining.value == -1.0 || t < now + a.remaining.value)))
    case OpGetMany(ks, times, _) =>
      && finds == found && a.FoundMany? && |ks| == |times|
      && (key in a.values <==> exists i :: 0 <= i < |ks| && ks[i] == key && FoundBy(m, key, times[i]))
      && (key in a.values && found.Some? ==> found.value == a.values[key])
    case OpSet(k, v, ttl, before, _) =>
      a == Silent && finds == if key != k then found else if Lasts(ttl, before, t) then Some(v) else None
    case OpSetMany(items, ttl, before, _) =>
      && a == Silent
      && ((forall i :: 0 <= i < |items| ==> items[i].0 != key) ==> finds == found)
      && (forall i :: LastItem(items, i, key) ==> finds == if Lasts(ttl, before, t) then Some(items[i].1) else None)
    case OpAdd(k, v, ttl, before, now) =>
      && a == YesNo(IdealGet(m, k, now) == None)
      && finds == if key != k || !a.b then found else if Lasts(ttl, before, t) then Some(v) else None
    case OpIncr(k, d, ttl, t1, _, t3) =>
      (match IdealGet(m, k, t1)
       case None =>
         && a == Count(Incremented(d))
         && finds == if key != k then found else if Lasts(ttl, t3, t) then Some(IntValue(d)) else None
       case Some(IntValue(n)) =>
         && a == Count(Incremented(n + d))
         && finds == (if key != k then found
                   else if (if ttl.Some? then Lasts(ttl, t3, t) else found.Some?) then Some(IntValue(n + d)) else None)
       case Some(_) => a == Count(NotAnInt) && finds == found)
    case OpDelete(k, _) => a == Silent && finds == if key == k then None else found
    case OpDeleteMany(ks, _) => a == Silent && finds == if key in ks then None else found
    case OpClear(_) => a == Silent && finds == None
  }

  lemma StepMeans(m: Store, op: Op, from: real, key: string, t: real)
    requires InOrder(op, from)
    ensures var (m', a) := IdealStep(m, op, from); Means(m, op, m', a, key, t)
    ensures IdealGet(map[], key, t) == None
  {
    if op.OpSetMany? { PutMeans(m, op.items, op.ttl, op.before, key, t); }
    if op.OpGetMany? { GetManyMeans(m, op.keys, op.times, key); }
  }

  /** The last of the items with a key, if any, is what it is set to. */
  lemma {:induction false} PutMeans(m: Store, items: seq<(string, Value)>, ttl: Option<real>, from: real,
                                    key: string, t: real)
    ensures var m' := PutAll(m, items, Expiry(ttl, from));
      && ((forall i :: 0 <= i < |items| ==> items[i].0 != key) ==> IdealGet(m', key, t) == IdealGet(m, key, t))
      && forall i :: LastItem(items, i, key) ==>
           IdealGet(m', key, t) == if Lasts(ttl, from, t) then Some(items[i].1) else None
    decreases |items|
  {
    if items != [] {
      var next, rest := m[items[0].0 := Entry(items[0].1, Expiry(ttl, from))], items[1..];
      PutMeans(next, rest, ttl, from, key, t);
      forall i | LastItem(items, i, key)
        ensures IdealGet(PutAll(m, items, Expiry(ttl, from)), key, t)
             == if Lasts(ttl, from, t) then Some(items[i].1) else None
      {
        if i > 0 {
          assert rest[i - 1] == items[i] && LastItem(rest, i - 1, key);
        } else {
          assert forall j :: 0 <= j < |rest| ==> rest[j] == items[j + 1];
        }
      }
    }
  }

  /** A look at many keys reports a key when a get finds it, except that a value that is None must
      be found a second time. */
  lemma {:induction false} GetManyMeans(m: Store, keys: seq<string>, times: seq<(real, real)>, key: string)
    requires |keys| == |times| && forall i :: 0 <= i < |times| ==> times[i].0 <= times[i].1
    ensures var vs := IdealGetMany(m, keys, times);
      && (key in vs <==> exists i :: 0 <= i < |keys| && keys[i] == key && FoundBy(m, key, times[i]))
      && (key in vs ==> key in m && vs[key] == m[key].value)
  {
    if keys != [] {
      var n := |keys| - 1;
      GetManyMeans(m, keys[..n], times[..n], key);
      var before, vs := IdealGetMany(m, keys[..n], times[..n]), IdealGetMany(m, keys, times);
      if keys[n] == key && FoundBy(m, key, times[n]) {
        assert key in vs;
      } else if key in before {
        var i :| 0 <= i < n && keys[..n][i] == key && FoundBy(m, key, times[..n][i]);
        assert keys[i] == key && times[i] == times[..n][i];
      } else {
        forall i | 0 <= i < |keys| && keys[i] == key ensures !FoundBy(m, key, times[i]) {
          if i < n { assert keys[..n][i] == key && times[..n][i] == times[i]; }
        }
      }
    }
  }

  /** One operation on the real cache, answered as the ideal map would. */
  method Perform(c: InMemoryCache, op: Op) returns (a: Answer)
    requires c.Valid() && InOrder(op, c.clock)
    modifies c
    ensures c.Valid() && c.clock <= op.now
    ensures (c.ideal, a) == IdealStep(old(c.ideal), op, old(c.clock))
  {
    hide Purged, IdealGet, IdealGetMany, IdealIncr, PutAll, Without, Remaining;
    a := Silent;
    match op
    case OpGet(k, t) => var v := c.Get(k, t); a := Found(v);
    case OpGetMany(ks, times, now) => var vs := c.GetMany(ks, times, now); a := FoundMany(vs);
    case OpSet(k, v, ttl, before, _) => c.Set(k, v, ttl, before);
    case OpSetMany(items, ttl, before, _) => c.SetMany(items, ttl, before);
    case OpAdd(k, v, ttl, before, t) => var b := c.Add(k, v, ttl, before, t); a := YesNo(b);
    case OpContains(k, t) => var b := c.Contains(k, t); a := YesNo(b);
    case OpTtl(k, t) => var r := c.Ttl(k, t); a := Left(r);
    case OpIncr(k, d, ttl, t1, t2, t3) => var r := c.Incr(k, d, ttl, t1, t2, t3); a := Count(r);
    case OpDelete(k, t) => var _ := c.Delete(k, t);
    case OpDeleteMany(ks, _) => var _ := c.DeleteMany(ks);
    case OpClear(_) => c.Clear();
  }

  /** Lazy purging is invisible: every operation sequence on a fresh cache, under a clock that
      does not go back, is answered exactly as by a map that never purges. */
  method Replay(ops: seq<Op>, start: real) returns (answers: seq<Answer>)
    requires Sequence(ops, start)
    ensures answers == IdealAnswers(map[], ops, start)
  {
    hide IdealStep, InOrder, Purged;
    var c := new InMemoryCache(start);
    answers := [];
    ghost var from := start;
    var i := 0;
    while i < |ops|
      invariant 0 <= i <= |ops| && c.Valid() && c.clock <= from && fresh(c)
      invariant Sequence(ops[i..], from)
      invariant answers + IdealAnswers(c.ideal, ops[i..], from) == IdealAnswers(map[], ops, start)
    {
      assert ops[i..][1..] == ops[i + 1..];
      AdvanceClock(c, from);
      ghost var ideal := c.ideal;
      var a := Perform(c, ops[i]);
      assert IdealAnswers(ideal, ops[i..], from) == [a] + IdealAnswers(c.ideal, ops[i + 1..], ops[i].now);
      answers := answers + [a];
      from := ops[i].now;
      i := i + 1;
    }
  }

  ghost method AdvanceClock(c: InMemoryCache, t: real)
    requires c.Valid() && c.clock <= t
    modifies c`clock
    ensures c.Valid() && c.clock == t
  {
    SameAnswers(c.store, c.ideal, c.clock, "", t);
    c.clock := t;
  }
}
