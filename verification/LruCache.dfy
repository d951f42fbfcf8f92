/**
 The idempotency cache: an LRU list with expiry, changed in place also by reads. The object
 carries, as ghost history, every touch (insertion, hit or increment), the value last written
 under each key, how many times an increment created a key, and which keys were removed other
 than by eviction.
 */
module LruCache {
  import opened LruOrder
  import opened Wrappers

  datatype IncrResult = Incremented(n: int) | NotAnInt

  /** Whether `get_many` reports a key it reads at `first`, and again at `second` if it saw None. */
  predicate Found(cache: seq<Entry>, key: string, first: real, second: real) {
    var e := Live(cache, key, first);
    e.Some? && (e.value.value == NoneValue ==> !Expired(e.value, second))
  }

  predicate Nondecreasing(first: seq<real>, second: seq<real>, end: real)
    requires |first| == |second|
  {
    && (forall i :: 0 <= i < |first| ==> first[i] <= second[i] <= end)
    && (forall i, j :: 0 <= i < j < |first| ==> second[i] <= first[j])
  }

  /** Whether one of the first `n` reads reports the key. */
  predicate Reported(cache: seq<Entry>, keys: seq<string>, first: seq<real>, second: seq<real>, n: nat, key: string)
    requires |first| == |second| == |keys| && n <= |keys|
  {
    exists i :: 0 <= i < n && keys[i] == key && Found(cache, key, first[i], second[i])
  }

  lemma ReportedNext(cache: seq<Entry>, keys: seq<string>, first: seq<real>, second: seq<real>, i: nat)
    requires |first| == |second| == |keys| && i < |keys|
    ensures forall k :: Reported(cache, keys, first, second, i + 1, k)
                   <==> Reported(cache, keys, first, second, i, k)
                        || (k == keys[i] && Found(cache, k, first[i], second[i]))
  {
  }


  lemma LiveIsHeld(cache: seq<Entry>, key: string, t: real)
    ensures Live(cache, key, t).Some? ==> Holds(cache, key)
  {
  }

  /** The keys that were live when read, in the order of reading. */
  function Hits(cache: seq<Entry>, keys: seq<string>, times: seq<real>): seq<string>
    requires |times| == |keys|
  {
    if keys == [] then []
    else
      var n := |keys| - 1;
      Hits(cache, keys[..n], times[..n]) + if Live(cache, keys[n], times[n]).Some? then [keys[n]] else []
  }

  lemma NothingRead(cache: seq<Entry>, keys: seq<string>, first: seq<real>, second: seq<real>)
    requires |first| == |second| == |keys|
    ensures forall k :: !Reported(cache, keys, first, second, 0, k)
    ensures keys[..0] == [] && first[..0] == [] && Hits(cache, [], []) == []
  {
  }

  lemma HitsNext(cache: seq<Entry>, keys: seq<string>, times: seq<real>, i: nat)
    requires |times| == |keys| && i < |keys|
    ensures Hits(cache, keys[..i + 1], times[..i + 1])
         == Hits(cache, keys[..i], times[..i]) + if Live(cache, keys[i], times[i]).Some? then [keys[i]] else []
  {
    assert keys[..i + 1][..i] == keys[..i] && times[..i + 1][..i] == times[..i];
  }

  function WriteAll(written: map<string, Value>, items: seq<(string, Value)>): map<string, Value>
    decreases |items|
  {
    if items == [] then written else WriteAll(written[items[0].0 := items[0].1], items[1..])
  }

  // ---------------------------------------------------------------- the cache

  class InMemoryIdempotencyCache {
    const maxSize: nat
    const ttlSeconds: nat
    var cache: seq<Entry>

    ghost var touches: seq<string>
    ghost var written: map<string, Value>
    ghost var created: nat
    ghost var removed: set<string>

    ghost predicate Valid()
      reads this
    {
      && maxSize >= 1
      && InTouchOrder(cache, touches)
      && |cache| <= maxSize + created
      && Current(cache, written)
      && Accounted(cache, touches, written, removed, maxSize)
      && forall k :: k in removed ==> !Holds(cache, k)
    }

    constructor (maxSize: int, ttlSeconds: int)
      ensures Valid() && cache == [] && touches == [] && written == map[] && created == 0 && removed == {}
      ensures this.maxSize == if maxSize < 1 then 1 else maxSize
      ensures this.ttlSeconds == if ttlSeconds < 1 then 1 else ttlSeconds
    {
      this.maxSize := if maxSize < 1 then 1 else maxSize;
      this.ttlSeconds := if ttlSeconds < 1 then 1 else ttlSeconds;
      cache, touches, written, created, removed := [], [], map[], 0, {};
    }

    function ExpiresAt(ttl: Option<real>, now: real): Option<real> {
      match ttl
      case None => Some(now + ttlSeconds as real)
      case Some(t) => if t <= 0.0 then Some(now) else Some(now + t)
    }

    function Lookup(key: string, now: real): Option<Value>
      reads this
    {
      match Live(cache, key, now) case None => None case Some(e) => Some(e.value)
    }

    method Pop(key: string) returns (present: bool)
      requires Valid()
      modifies this`cache, this`removed
      ensures Valid() && present == old(Holds(cache, key)) && !Holds(cache, key)
      ensures cache == Without(old(cache), key) && |cache| == old(|cache|) - if present then 1 else 0
      ensures removed == old(removed) + if present then {key} else {}
      ensures forall k :: k != key ==> (Holds(cache, k) <==> old(Holds(cache, k)))
    {
      hide InTouchOrder, Current, Accounted;
      var p := Position(cache, key);
      present := p.Some?;
      if present {
        DropKeepsOrder(cache, touches, p.value);
        DropKeepsCurrent(cache, written, p.value);
        RemovalKeepsAccount(cache, Drop(cache, p.value), touches, written, removed, {key}, maxSize);
        cache := Drop(cache, p.value);
        removed := removed + {key};
      }
    }

    /** A hit returns the value last written under the key and makes it the most recent; an
        expired entry is dropped; nothing else moves. */
    method Get(key: string, now: real) returns (r: Option<Value>)
      requires Valid()
      modifies this
      ensures Valid() && created == old(created) && written == old(written)
      ensures r == old(Lookup(key, now)) && cache == old(Read(cache, key, now))
      ensures r.Some? ==> key in written && r.value == written[key]
      ensures r.Some? ==> touches == old(touches) + [key] && cache != [] && cache[|cache| - 1].key == key
      ensures r.None? ==> touches == old(touches) && !Holds(cache, key)
      ensures removed == if r.Some? then old(removed) - {key} else old(removed + Dropped(cache, key, now))
      ensures forall k :: k != key ==> (Holds(cache, k) <==> old(Holds(cache, k)))
    {
      hide InTouchOrder, Current, Accounted, LastTouch;
      CurrentAt(cache, written);
      var p := Position(cache, key);
      if p.None? { return None; }
      var e := cache[p.value];
      if e.expiresAt.Some? && e.expiresAt.value <= now {
        var _ := Pop(key);
        return None;
      }
      MoveToEnd(p.value);
      return Some(e.value);
    }

    static lemma CurrentAt(c: seq<Entry>, written: map<string, Value>)
      requires Current(c, written)
      ensures forall i :: 0 <= i < |c| ==> c[i].key in written && written[c[i].key] == c[i].value
    {
    }

    method MoveToEnd(i: nat)
      requires Valid() && i < |cache|
      modifies this`cache, this`touches, this`removed
      ensures Valid() && cache == Drop(old(cache), i) + [old(cache[i])] && touches == old(touches) + [old(cache[i].key)]
      ensures removed == old(removed) - {old(cache[i].key)}
      ensures forall k :: Holds(cache, k) <==> old(Holds(cache, k))
    {
      hide InTouchOrder, Current, Holds, Position, LastTouch, Accounted;
      var e := cache[i];
      var after := Drop(cache, i) + [e];
      DropKeepsOrder(cache, touches, i);
      DropKeepsCurrent(cache, written, i);
      AppendTouches(Drop(cache, i), touches, e);
      AppendKeepsCurrent(Drop(cache, i), written, e);
      HeldAt(cache, i);
      TouchKeepsAccount(cache, after, touches, e.key, written, e.value, removed, maxSize);
      assert written[e.key := e.value] == written;
      cache := after;
      touches := touches + [e.key];
      removed := removed - {e.key};
    }

    static lemma HeldAt(c: seq<Entry>, i: nat)
      requires i < |c|
      ensures Holds(c, c[i].key)
    {
    }

    /** The eviction guarantee of one insertion of `key`: at most the front entry goes, only
        when the cache is full, and only after at least maxSize other keys were touched. */
    twostate predicate EvictsLeastRecent(key: string)
      reads this
    {
      forall k :: old(Holds(cache, k)) && !Holds(cache, k) ==>
        && old(|cache|) >= maxSize
        && k == old(cache)[0].key
        && |TouchedSince(touches, k)| >= maxSize && k !in TouchedSince(touches, k)
    }

    method Append(key: string, value: Value, expiresAt: Option<real>)
      requires Valid() && !Holds(cache, key)
      modifies this
      ensures Valid() && created == old(created) && removed == old(removed) - {key}
      ensures cache == Inserted(old(cache), maxSize, Entry(key, value, expiresAt))
      ensures touches == old(touches) + [key] && written == old(written)[key := value]
      ensures EvictsLeastRecent(key) && Holds(cache, key)
    {
      hide InTouchOrder, Current, Holds, Position, LastTouch, TouchedSince, Accounted;
      var e := Entry(key, value, expiresAt);
      ghost var before := cache;
      if |cache| >= maxSize {
        EvictedIsLeastRecent(cache, touches, key);
        DropKeepsOrder(cache, touches, 0);
        DropKeepsCurrent(cache, written, 0);
        assert Drop(cache, 0) == cache[1..];
        cache := cache[1..];
      }
      AppendTouches(cache, touches, e);
      AppendKeepsCurrent(cache, written, e);
      TouchKeepsAccount(before, cache + [e], touches, key, written, value, removed, maxSize);
      cache := cache + [e];
      touches := touches + [key];
      written := written[key := value];
      removed := removed - {key};
    }

    /** Overwriting keeps the position: it is not a touch. A new key goes last. */
    method Set(key: string, value: Value, ttl: Option<real>, now: real)
      requires Valid()
      modifies this
      ensures Valid() && created == old(created) && written == old(written)[key := value]
      ensures removed == if old(Holds(cache, key)) then old(removed) else old(removed) - {key}
      ensures cache == Put(old(cache), maxSize, Entry(key, value, ExpiresAt(ttl, now)))
      ensures touches == old(touches) + if old(Holds(cache, key)) then [] else [key]
      ensures EvictsLeastRecent(key) && Holds(cache, key)
    {
      hide InTouchOrder, Current, Accounted;
      var expiresAt := ExpiresAt(ttl, now);
      var p := Position(cache, key);
      if p.Some? {
        var after := cache[p.value := Entry(key, value, expiresAt)];
        OverwriteKeepsCurrent(cache, touches, written, p.value, Entry(key, value, expiresAt));
        HeldAt(after, p.value);
        WriteKeepsAccount(cache, after, touches, key, written, value, removed, maxSize);
        cache := after;
        written := written[key := value];
      } else {
        Append(key, value, expiresAt);
      }
    }

    method Exists(key: string, now: real) returns (r: bool)
      requires Valid()
      modifies this`cache, this`removed
      ensures Valid() && r == old(Lookup(key, now)).Some? && cache == old(Purged(cache, key, now))
      ensures removed == old(removed + Dropped(cache, key, now))
      ensures !r ==> !Holds(cache, key) && |cache| <= old(|cache|)
      ensures forall k :: k != key ==> (Holds(cache, k) <==> old(Holds(cache, k)))
    {
      hide InTouchOrder, Current, Accounted;
      var p := Position(cache, key);
      if p.None? { return false; }
      var e := cache[p.value];
      if e.expiresAt.None? { return true; }
      if e.expiresAt.value <= now {
        var _ := Pop(key);
        return false;
      }
      return true;
    }

    method Contains(key: string, now: real) returns (r: bool)
      requires Valid()
      modifies this`cache, this`removed
      ensures Valid() && r == old(Lookup(key, now)).Some? && cache == old(Purged(cache, key, now))
      ensures removed == old(removed + Dropped(cache, key, now))
    {
      r := Exists(key, now);
    }

    /** The clock is read at `now` for the check and, if the key is not there, `later` for the expiry. */
    method Add(key: string, value: Value, ttl: Option<real>, now: real, later: real) returns (added: bool)
      requires Valid()
      modifies this
      ensures Valid() && created == old(created)
      ensures added == old(Lookup(key, now)).None?
      ensures !added ==>
        && cache == old(cache) && touches == old(touches) && written == old(written) && removed == old(removed)
      ensures added ==>
        && cache == Inserted(old(Purged(cache, key, now)), maxSize, Entry(key, value, ExpiresAt(ttl, later)))
        && touches == old(touches) + [key] && written == old(written)[key := value]
        && removed == old(removed) - {key}
      ensures forall k :: k != key && old(Holds(cache, k)) && !Holds(cache, k) ==>
                |TouchedSince(touches, k)| >= maxSize && k !in TouchedSince(touches, k)
    {
      hide InTouchOrder, Current, Accounted, Position, TouchedSince;
      var present := Exists(key, now);
      if present { return false; }
      Append(key, value, ExpiresAt(ttl, later));
      return true;
    }

    method Delete(key: string) returns (present: bool)
      requires Valid()
      modifies this`cache, this`removed
      ensures Valid() && present == old(Holds(cache, key)) && cache == Without(old(cache), key)
      ensures removed == old(removed) + if present then {key} else {}
      ensures !Holds(cache, key) && forall k :: k != key ==> (Holds(cache, k) <==> old(Holds(cache, k)))
    {
      present := Pop(key);
    }

    method Ttl(key: string, now: real) returns (r: Option<real>)
      requires Valid()
      modifies this`cache, this`removed
      ensures Valid() && cache == old(Purged(cache, key, now))
      ensures removed == old(removed + Dropped(cache, key, now))
      ensures r == match old(Live(cache, key, now))
                   case None => None
                   case Some(e) => Some(if e.expiresAt.None? then -1.0 else e.expiresAt.value - now)
    {
      hide InTouchOrder, Current, Accounted;
      var p := Position(cache, key);
      if p.None? { return None; }
      var e := cache[p.value];
      if e.expiresAt.None? { return Some(-1.0); }
      var remaining := e.expiresAt.value - now;
      if remaining <= 0.0 {
        var _ := Pop(key);
        return None;
      }
      return Some(remaining);
    }

    /** An increment that creates its key does not evict: the only way past maxSize. The clock is
        read at `now` for the check and `later` for a new expiry. */
    method Incr(key: string, delta: int, ttl: Option<real>, now: real, later: real) returns (r: IncrResult)
      requires Valid()
      modifies this
      ensures Valid()
      ensures match old(Live(cache, key, now))
              case None =>
                && r == Incremented(delta) && created == old(created) + 1
                && cache == old(Purged(cache, key, now)) + [Entry(key, IntValue(delta), ExpiresAt(ttl, later))]
                && touches == old(touches) + [key] && written == old(written)[key := IntValue(delta)]
                && removed == old(removed) - {key}
              case Some(Entry(_, IntValue(n), at)) =>
                && r == Incremented(n + delta) && created == old(created)
                && cache == Without(old(cache), key)
                         + [Entry(key, IntValue(n + delta), if ttl.Some? then ExpiresAt(ttl, later) else at)]
                && touches == old(touches) + [key] && written == old(written)[key := IntValue(n + delta)]
                && removed == old(removed) - {key}
              case Some(_) =>
                && r == NotAnInt && created == old(created) && cache == old(cache)
                && touches == old(touches) && written == old(written) && removed == old(removed)
      ensures forall k :: k != key ==> (Holds(cache, k) <==> old(Holds(cache, k)))
    {
      hide InTouchOrder, Current, LastTouch, Accounted;
      var live := Exists(key, now);
      if !live {
        CreateByIncr(Entry(key, IntValue(delta), ExpiresAt(ttl, later)));
        return Incremented(delta);
      }
      var p := Position(cache, key).value;
      var e := cache[p];
      if !e.value.IntValue? { return NotAnInt; }
      var n := e.value.n + delta;
      var e' := Entry(key, IntValue(n), if ttl.Some? then ExpiresAt(ttl, later) else e.expiresAt);
      OverwriteAndMove(p, e');
      return Incremented(n);
    }

    method OverwriteAndMove(i: nat, e: Entry)
      requires Valid() && i < |cache| && cache[i].key == e.key
      modifies this
      ensures Valid() && created == old(created) && cache == Drop(old(cache), i) + [e]
      ensures touches == old(touches) + [e.key] && written == old(written)[e.key := e.value]
      ensures removed == old(removed) - {e.key}
      ensures forall k :: Holds(cache, k) <==> old(Holds(cache, k))
    {
      hide InTouchOrder, Current, LastTouch, Accounted, Holds, Position;
      OverwriteKeepsCurrent(cache, touches, written, i, e);
      HeldAt(cache[i := e], i);
      WriteKeepsAccount(cache, cache[i := e], touches, e.key, written, e.value, removed, maxSize);
      assert Drop(cache[i := e], i) == Drop(cache, i);
      cache := cache[i := e];
      written := written[e.key := e.value];
      MoveToEnd(i);
    }

    method CreateByIncr(e: Entry)
      requires Valid() && !Holds(cache, e.key)
      modifies this
      ensures Valid() && created == old(created) + 1 && cache == old(cache) + [e]
      ensures touches == old(touches) + [e.key] && written == old(written)[e.key := e.value]
      ensures removed == old(removed) - {e.key}
      ensures forall k :: Holds(cache, k) <==> old(Holds(cache, k)) || k == e.key
    {
      hide InTouchOrder, Current, LastTouch, Accounted, Holds, Position;
      AppendTouches(cache, touches, e);
      AppendKeepsCurrent(cache, written, e);
      TouchKeepsAccount(cache, cache + [e], touches, e.key, written, e.value, removed, maxSize);
      cache := cache + [e];
      touches := touches + [e.key];
      written := written[e.key := e.value];
      created := created + 1;
      removed := removed - {e.key};
    }

    /** Every key in the result has the value last written under it. While the clock does not go
        back, the result has exactly the keys that were live when they were read, each hit is a
        touch, and nothing that is live later is lost. A value that is None is looked up a second
        time, and the entry may have expired in between. */
    method GetMany(keys: seq<string>, first: seq<real>, second: seq<real>, ghost end: real)
      returns (r: map<string, Value>)
      requires Valid() && |first| == |second| == |keys|
      modifies this
      ensures Valid() && created == old(created) && written == old(written)
      ensures forall k :: k in r ==> k in keys && k in written && r[k] == written[k]
      ensures Nondecreasing(first, second, end) ==>
        && (forall k :: k in r <==> old(Reported(cache, keys, first, second, |keys|, k)))
        && touches == old(touches) + Hits(old(cache), keys, first)
        && (forall k, t :: t >= end ==> Live(cache, k, t) == old(Live(cache, k, t)))
    {
      hide Position, InTouchOrder, Current, Accounted, Holds, Live, Purged, Read, Dropped, Reported, Hits;
      NothingRead(cache, keys, first, second);
      r := map[];
      ghost var forward := Nondecreasing(first, second, end);
      for i := 0 to |keys|
        invariant Valid() && created == old(created) && written == old(written)
        invariant forall k :: k in r ==> k in keys && k in written && r[k] == written[k]
        invariant forward ==> forall k, t :: t >= (if i == 0 then t else second[i - 1]) ==>
                                Live(cache, k, t) == old(Live(cache, k, t))
        invariant forward ==> forall k :: k in r <==> old(Reported(cache, keys, first, second, i, k))
        invariant forward ==> touches == old(touches) + Hits(old(cache), keys[..i], first[..i])
      {
        HitsNext(old(cache), keys, first, i);
        OrderMeansDistinct(cache, touches);
        LooksAreInvisible(cache, keys[i], first[i]);
        ReportedNext(old(cache), keys, first, second, i);
        if forward { LiveLater(old(cache), keys[i], first[i], second[i]); }
        var v := Get(keys[i], first[i]);
        if v.Some? && v.value != NoneValue {
          r := r[keys[i] := v.value];
        } else {
          OrderMeansDistinct(cache, touches);
          LooksAreInvisible(cache, keys[i], second[i]);
          LiveIsHeld(cache, keys[i], second[i]);
          var present := Exists(keys[i], second[i]);
          if present { r := r[keys[i] := NoneValue]; }
        }
      }
      assert keys[..|keys|] == keys && first[..|keys|] == first;
    }

    function Entries(items: seq<(string, Value)>, ttl: Option<real>, now: seq<real>): seq<Entry>
      requires |now| == |items|
    {
      seq(|items|, i requires 0 <= i < |items| => Entry(items[i].0, items[i].1, ExpiresAt(ttl, now[i])))
    }

    /** Each item is set in turn, so evictions are accounted for item by item. */
    method SetMany(items: seq<(string, Value)>, ttl: Option<real>, now: seq<real>)
      requires Valid() && |now| == |items|
      modifies this
      ensures Valid() && created == old(created) && removed <= old(removed)
      ensures written == WriteAll(old(written), items)
      ensures cache == PutAll(old(cache), maxSize, Entries(items, ttl, now))
      ensures touches == old(touches) + PutTouches(old(cache), maxSize, Entries(items, ttl, now))
    {
      hide Put, Inserted, InTouchOrder, Current, Accounted, Holds;
      ghost var es := Entries(items, ttl, now);
      var i := 0;
      while i < |items|
        invariant 0 <= i <= |items| && Valid() && created == old(created) && removed <= old(removed)
        invariant WriteAll(written, items[i..]) == WriteAll(old(written), items)
        invariant PutAll(cache, maxSize, es[i..]) == PutAll(old(cache), maxSize, es)
        invariant touches + PutTouches(cache, maxSize, es[i..]) == old(touches) + PutTouches(old(cache), maxSize, es)
      {
        assert items[i..][1..] == items[i + 1..] && es[i..][1..] == es[i + 1..];
        Set(items[i].0, items[i].1, ttl, now[i]);
        i := i + 1;
      }
    }

    method DeleteMany(keys: seq<string>) returns (count: nat)
      requires Valid()
      modifies this`cache, this`removed
      ensures Valid() && count == old(|cache|) - |cache| && cache == WithoutAll(old(cache), keys)
      ensures removed == old(removed) + set k | k in keys && Holds(old(cache), k)
      ensures forall k :: Holds(cache, k) <==> old(Holds(cache, k)) && k !in keys
    {
      hide InTouchOrder, Current, Holds, Without, WithoutAll, Accounted;
      count := 0;
      if keys == [] { NothingDropped(cache); return; }
      WithoutNext(cache, keys, 0);
      for i := 0 to |keys|
        invariant Valid() && count == old(|cache|) - |cache|
        invariant cache == WithoutAll(old(cache), keys[..i])
        invariant forall k :: k in removed <==> k in old(removed) || (k in keys[..i] && old(Holds(cache, k)))
        invariant forall k :: Holds(cache, k) <==> old(Holds(cache, k)) && k !in keys[..i]
      {
        WithoutNext(old(cache), keys, i);
        assert keys[..i + 1] == keys[..i] + [keys[i]];
        var present := Pop(keys[i]);
        if present { count := count + 1; }
      }
    }

    method Clear()
      requires Valid()
      modifies this`cache, this`removed
      ensures Valid() && cache == [] && removed == old(removed + Keys(cache))
    {
      hide InTouchOrder, Accounted;
      HeldKeys(cache);
      RemovalKeepsAccount(cache, [], touches, written, removed, Keys(cache), maxSize);
      EmptyInOrder(touches);
      removed := removed + Keys(cache);
      cache := [];
    }

    static lemma HeldKeys(c: seq<Entry>)
      ensures forall k :: Holds(c, k) ==> k in Keys(c)
    {
    }

    static lemma EmptyInOrder(touches: seq<string>)
      ensures InTouchOrder([], touches)
    {
    }
  }

  /** How long a written entry lives: for the time given, for none if that is not positive, and for the
      configured one if none is given. Until then its value is what a look finds; another key is found
      as before unless the write has dropped it. */
  lemma LivesExactly(c: InMemoryIdempotencyCache, cache: seq<Entry>, key: string, value: Value,
                     ttl: Option<real>, now: real, t: real, other: string)
    requires DistinctKeys(cache) && other != key
    ensures var after := Put(cache, c.maxSize, Entry(key, value, c.ExpiresAt(ttl, now)));
      && (ttl.None? ==> (Live(after, key, t).Some? <==> t < now + c.ttlSeconds as real))
      && (ttl.Some? && ttl.value > 0.0 ==> (Live(after, key, t).Some? <==> t < now + ttl.value))
      && (ttl.Some? && ttl.value <= 0.0 ==> (Live(after, key, t).Some? <==> t < now))
      && (Live(after, key, t).Some? ==> Live(after, key, t).value.value == value)
      && (Holds(after, other) ==> Live(after, other, t) == Live(cache, other, t))
      && (Holds(cache, other) && !Holds(after, other) ==> |cache| >= c.maxSize && cache[0].key == other)
  {
    hide Position, Put, Live, DistinctKeys;
    var e := Entry(key, value, c.ExpiresAt(ttl, now));
    PutFinds(cache, c.maxSize, e, key);
    PutFinds(cache, c.maxSize, e, other);
  }

  /** Overwriting is not a touch. After a held key was overwritten, the next new key drops it exactly
      when the cache is full and the key its oldest. */
  lemma OverwrittenSurvivesExactly(cache: seq<Entry>, maxSize: nat, e: Entry, new_: Entry)
    requires DistinctKeys(cache) && maxSize >= 1 && Holds(cache, e.key) && !Holds(cache, new_.key)
    ensures !Holds(Put(Put(cache, maxSize, e), maxSize, new_), e.key)
       <==> |cache| >= maxSize && cache[0].key == e.key
  {
    hide Position;
    var p, mid := Position(cache, e.key).value, Put(cache, maxSize, e);
    assert mid == cache[p := e];
    FoundAt(cache, 0);
    FoundAt(mid, 0);
    assert forall j :: 0 <= j < |mid| ==> mid[j].key == cache[j].key && cache[j].key != new_.key;
    var after := Put(mid, maxSize, new_);
    assert after == Inserted(mid, maxSize, new_);
    if |cache| < maxSize {
      assert after[p].key == e.key;
    } else if p > 0 {
      assert after[p - 1].key == e.key;
    } else {
      assert forall j :: 0 <= j < |after| - 1 ==> after[j] == mid[j + 1] && after[j].key != e.key;
    }
  }

  /** The same of the object. */
  method OverwriteThenInsert(c: InMemoryIdempotencyCache, key: string, value: Value, setAt: real,
                             newKey: string, newValue: Value, newAt: real)
    requires c.Valid() && Holds(c.cache, key) && !Holds(c.cache, newKey)
    modifies c
    ensures c.Valid() && c.written == old(c.written)[key := value][newKey := newValue] && Holds(c.cache, newKey)
    ensures !Holds(c.cache, key) <==> old(|c.cache| >= c.maxSize && c.cache[0].key == key)
  {
    hide InTouchOrder, Current, Accounted, Holds, Put;
    OrderMeansDistinct(c.cache, c.touches);
    OverwrittenSurvivesExactly(c.cache, c.maxSize, Entry(key, value, c.ExpiresAt(None, setAt)),
                               Entry(newKey, newValue, c.ExpiresAt(None, newAt)));
    HeldMeansSome(c.cache, key);
    c.Set(key, value, None, setAt);
    c.Set(newKey, newValue, None, newAt);
  }

  lemma HeldMeansSome(cache: seq<Entry>, key: string)
    ensures Holds(cache, key) ==> cache != []
  {
  }
}
