/**
 The ordered dict of the idempotency cache as a list of entries, least recent first, and the
 history it is judged by: every touch (insertion, hit or increment) and the last write of each key.
 */
module LruOrder {
  import opened Wrappers

  datatype Value = NoneValue | IntValue(n: int) | Other(text: string)

  datatype Entry = Entry(key: string, value: Value, expiresAt: Option<real>)

  // ---------------------------------------------------------------- the ordered dict

  function Position(cache: seq<Entry>, key: string): (r: Option<nat>)
    ensures r.Some? ==> r.value < |cache| && cache[r.value].key == key
    ensures r.None? <==> forall i :: 0 <= i < |cache| ==> cache[i].key != key
  {
    if cache == [] then None
    else if cache[0].key == key then Some(0)
    else
      var r := Position(cache[1..], key);
      if r.None? then
        assert forall i :: 0 < i < |cache| ==> cache[i] == cache[1..][i - 1];
        None
      else Some(r.value + 1)
  }

  predicate Holds(cache: seq<Entry>, key: string) { Position(cache, key).Some? }

  predicate DistinctKeys(cache: seq<Entry>) {
    forall i, j :: 0 <= i < j < |cache| ==> cache[i].key != cache[j].key
  }

  function Drop(cache: seq<Entry>, i: nat): seq<Entry>
    requires i < |cache|
  {
    cache[..i] + cache[i + 1..]
  }

  function Without(cache: seq<Entry>, key: string): seq<Entry> {
    var p := Position(cache, key);
    if p.None? then cache else Drop(cache, p.value)
  }

  function WithoutAll(cache: seq<Entry>, keys: seq<string>): seq<Entry> {
    if keys == [] then cache else Without(WithoutAll(cache, keys[..|keys| - 1]), keys[|keys| - 1])
  }

  lemma WithoutNext(cache: seq<Entry>, keys: seq<string>, i: nat)
    requires i < |keys|
    ensures WithoutAll(cache, keys[..i + 1]) == Without(WithoutAll(cache, keys[..i]), keys[i])
    ensures WithoutAll(cache, []) == cache && keys[..0] == [] && keys[..|keys|] == keys
  {
    assert keys[..i + 1][..i] == keys[..i];
  }

  lemma NothingDropped(cache: seq<Entry>)
    ensures WithoutAll(cache, []) == cache
  {
  }

  predicate Expired(e: Entry, now: real) { e.expiresAt.Some? && e.expiresAt.value <= now }

  /** The live entry of a key, if any. */
  function Live(cache: seq<Entry>, key: string, now: real): Option<Entry> {
    var p := Position(cache, key);
    if p.None? || Expired(cache[p.value], now) then None else Some(cache[p.value])
  }

  /** After a look at a key that is no touch: an expired entry is dropped. */
  function Purged(cache: seq<Entry>, key: string, now: real): seq<Entry> {
    if Live(cache, key, now).None? then Without(cache, key) else cache
  }

  /** What a look at a key drops. */
  function Dropped(cache: seq<Entry>, key: string, now: real): set<string> {
    if Holds(cache, key) && Live(cache, key, now).None? then {key} else {}
  }

  /** After a read of a key: a hit goes to the end. */
  function Read(cache: seq<Entry>, key: string, now: real): seq<Entry> {
    var e := Live(cache, key, now);
    Without(cache, key) + if e.Some? then [e.value] else []
  }

  function Inserted(cache: seq<Entry>, maxSize: nat, e: Entry): seq<Entry> {
    (if |cache| >= maxSize && cache != [] then cache[1..] else cache) + [e]
  }

  function Put(cache: seq<Entry>, maxSize: nat, e: Entry): seq<Entry> {
    var p := Position(cache, e.key);
    if p.Some? then cache[p.value := e] else Inserted(cache, maxSize, e)
  }

  function PutAll(cache: seq<Entry>, maxSize: nat, es: seq<Entry>): seq<Entry>
    decreases |es|
  {
    if es == [] then cache else PutAll(Put(cache, maxSize, es[0]), maxSize, es[1..])
  }

  /** The keys among these that are new when put. */
  function PutTouches(cache: seq<Entry>, maxSize: nat, es: seq<Entry>): seq<string>
    decreases |es|
  {
    if es == [] then []
    else
      (if Holds(cache, es[0].key) then [] else [es[0].key]) + PutTouches(Put(cache, maxSize, es[0]), maxSize, es[1..])
  }

  lemma FoundAt(cache: seq<Entry>, i: nat)
    requires DistinctKeys(cache) && i < |cache|
    ensures Position(cache, cache[i].key) == Some(i)
  {
  }

  lemma DropKeepsDistinct(cache: seq<Entry>, i: nat)
    requires DistinctKeys(cache) && i < |cache|
    ensures var d := Drop(cache, i);
      && DistinctKeys(d) && |d| == |cache| - 1
      && forall j :: 0 <= j < |d| ==> d[j] == cache[if j < i then j else j + 1] && d[j].key != cache[i].key
  {
  }

  lemma SameFound(a: seq<Entry>, b: seq<Entry>, k: string)
    requires Position(a, k).Some? <==> Position(b, k).Some?
    requires Position(a, k).Some? ==> a[Position(a, k).value] == b[Position(b, k).value]
    ensures forall t :: Live(a, k, t) == Live(b, k, t)
  {
  }

  lemma DropFinds(cache: seq<Entry>, i: nat, k: string)
    requires DistinctKeys(cache) && i < |cache|
    ensures DistinctKeys(Drop(cache, i))
    ensures k != cache[i].key ==> forall t :: Live(Drop(cache, i), k, t) == Live(cache, k, t)
    ensures Position(Drop(cache, i), cache[i].key).None?
  {
    DropKeepsDistinct(cache, i);
    hide Position, DistinctKeys, Live, Drop;
    var d, p := Drop(cache, i), Position(cache, k);
    if k != cache[i].key {
      if p.Some? {
        var q := if p.value < i then p.value else p.value - 1;
        assert d[q] == cache[p.value];
        FoundAt(d, q);
      }
      SameFound(d, cache, k);
    }
  }

  lemma AppendFinds(cache: seq<Entry>, e: Entry, k: string)
    requires DistinctKeys(cache) && Position(cache, e.key).None?
    ensures DistinctKeys(cache + [e])
    ensures forall t :: Live(cache + [e], k, t)
                     == if k != e.key then Live(cache, k, t) else if Expired(e, t) then None else Some(e)
  {
    hide Position;
    var d, p := cache + [e], Position(cache, k);
    if k == e.key { FoundAt(d, |cache|); }
    if p.Some? { FoundAt(d, p.value); }
  }

  lemma OverwriteFinds(cache: seq<Entry>, i: nat, e: Entry, k: string)
    requires DistinctKeys(cache) && i < |cache| && cache[i].key == e.key
    ensures forall t :: Live(cache[i := e], k, t)
                     == if k != e.key then Live(cache, k, t) else if Expired(e, t) then None else Some(e)
    ensures Holds(cache[i := e], k) <==> Holds(cache, k)
  {
    hide Position;
    var d, p := cache[i := e], Position(cache, k);
    assert forall j :: 0 <= j < |d| ==> d[j].key == cache[j].key;
    if p.Some? {
      FoundAt(d, p.value);
      FoundAt(cache, p.value);
    }
  }

  /** What is found after a put; only the front of a full list is lost. */
  lemma PutFinds(cache: seq<Entry>, maxSize: nat, e: Entry, k: string)
    requires DistinctKeys(cache)
    ensures var after := Put(cache, maxSize, e);
      && (k == e.key ==> forall t :: Live(after, k, t) == if Expired(e, t) then None else Some(e))
      && (k != e.key && Holds(after, k) ==> forall t :: Live(after, k, t) == Live(cache, k, t))
      && (k != e.key && Holds(cache, k) && !Holds(after, k) ==> |cache| >= maxSize && cache[0].key == k)
  {
    hide Position, Live, DistinctKeys;
    var p := Position(cache, e.key);
    if p.Some? {
      OverwriteFinds(cache, p.value, e, k);
    } else if |cache| >= maxSize && cache != [] {
      assert Put(cache, maxSize, e) == Drop(cache, 0) + [e];
      KeptAfterFront(cache, e, k);
    } else {
      AppendFinds(cache, e, k);
      AppendHolds(cache, cache, e, k);
    }
  }

  lemma KeptAfterFront(cache: seq<Entry>, e: Entry, k: string)
    requires DistinctKeys(cache) && cache != [] && Position(cache, e.key).None?
    ensures var after := Drop(cache, 0) + [e];
      && (k == e.key ==> forall t :: Live(after, k, t) == if Expired(e, t) then None else Some(e))
      && (k != e.key && Holds(after, k) ==> forall t :: Live(after, k, t) == Live(cache, k, t))
      && (k != e.key && Holds(cache, k) && !Holds(after, k) ==> cache[0].key == k)
  {
    hide Position, Live, DistinctKeys;
    var kept := Drop(cache, 0);
    AppendHolds(cache, kept, e, k);
    DropFinds(cache, 0, k);
    DropFinds(cache, 0, e.key);
    AppendFinds(kept, e, k);
    if Holds(kept + [e], k) && k != e.key {
      var q := Position(kept + [e], k).value;
      assert cache[q + 1].key == k;
    }
  }

  lemma AppendHolds(cache: seq<Entry>, kept: seq<Entry>, e: Entry, k: string)
    requires kept == cache || (cache != [] && kept == Drop(cache, 0))
    ensures Holds(cache, k) ==> Holds(kept + [e], k) || (kept != cache && cache[0].key == k)
  {
    hide Position;
    if Holds(cache, k) {
      var i := Position(cache, k).value;
      if kept == cache {
        assert (kept + [e])[i] == cache[i];
      } else if i > 0 {
        assert (kept + [e])[i - 1] == cache[i];
      }
    }
  }

  lemma LiveLater(cache: seq<Entry>, key: string, s: real, t: real)
    requires s <= t
    ensures Live(cache, key, t) == match Live(cache, key, s)
                                   case None => None
                                   case Some(e) => if Expired(e, t) then None else Some(e)
  {
  }

  /** Neither kind of look changes what is live later. */
  lemma LooksAreInvisible(cache: seq<Entry>, key: string, now: real)
    requires DistinctKeys(cache)
    ensures forall k, t :: t >= now ==> Live(Purged(cache, key, now), k, t) == Live(cache, k, t)
    ensures forall k, t :: t >= now ==> Live(Read(cache, key, now), k, t) == Live(cache, k, t)
  {
    var p, e := Position(cache, key), Live(cache, key, now);
    var rest := Without(cache, key);
    hide Position;
    forall k, t | t >= now
      ensures Live(Purged(cache, key, now), k, t) == Live(cache, k, t) == Live(Read(cache, key, now), k, t)
    {
      if p.Some? {
        DropFinds(cache, p.value, k);
        if e.Some? { AppendFinds(rest, e.value, k); } else { assert rest + [] == rest; }
      } else {
        assert rest + [] == rest == cache;
      }
    }
  }

  // ---------------------------------------------------------------- the touch history

  function LastTouch(touches: seq<string>, key: string): (r: int)
    ensures -1 <= r < |touches|
    ensures r >= 0 ==> touches[r] == key
    ensures forall i :: r < i < |touches| ==> touches[i] != key
  {
    if touches == [] then -1
    else if touches[|touches| - 1] == key then |touches| - 1
    else LastTouch(touches[..|touches| - 1], key)
  }

  /** The other keys touched since `key` was. */
  function TouchedSince(touches: seq<string>, key: string): set<string> {
    set i | LastTouch(touches, key) < i < |touches| :: touches[i]
  }

  lemma TouchMoves(touches: seq<string>, key: string, other: string)
    ensures LastTouch(touches + [key], other) == if other == key then |touches| else LastTouch(touches, other)
  {
    assert (touches + [key])[..|touches|] == touches;
  }

  /** Cache order is touch order. */
  ghost predicate InTouchOrder(cache: seq<Entry>, touches: seq<string>) {
    && (forall i :: 0 <= i < |cache| ==> LastTouch(touches, cache[i].key) >= 0)
    && (forall i, j :: 0 <= i < j < |cache| ==> LastTouch(touches, cache[i].key) < LastTouch(touches, cache[j].key))
  }

  /** Every entry carries the value last written under its key. */
  predicate Current(cache: seq<Entry>, written: map<string, Value>) {
    forall i :: 0 <= i < |cache| ==> cache[i].key in written && written[cache[i].key] == cache[i].value
  }

  lemma DropKeepsCurrent(cache: seq<Entry>, written: map<string, Value>, i: nat)
    requires Current(cache, written) && i < |cache|
    ensures Current(Drop(cache, i), written)
    ensures cache[i].key in written && written[cache[i].key] == cache[i].value
  {
    var d := Drop(cache, i);
    assert forall j :: 0 <= j < |d| ==> d[j] == cache[if j < i then j else j + 1];
  }

  lemma AppendKeepsCurrent(cache: seq<Entry>, written: map<string, Value>, e: Entry)
    requires Current(cache, written) && !Holds(cache, e.key)
    ensures Current(cache + [e], written[e.key := e.value])
    ensures forall k :: Holds(cache + [e], k) <==> Holds(cache, k) || k == e.key
  {
    hide Position;
    var c := cache + [e];
    forall k ensures Holds(c, k) <==> Holds(cache, k) || k == e.key {
      if Holds(cache, k) { assert c[Position(cache, k).value].key == k; }
      if k == e.key { assert c[|cache|].key == k; }
      if Holds(c, k) && k != e.key { assert cache[Position(c, k).value].key == k; }
    }
  }

  lemma OverwriteKeepsCurrent(cache: seq<Entry>, touches: seq<string>, written: map<string, Value>, i: nat, e: Entry)
    requires Current(cache, written) && InTouchOrder(cache, touches) && i < |cache| && cache[i].key == e.key
    ensures Current(cache[i := e], written[e.key := e.value]) && InTouchOrder(cache[i := e], touches)
    ensures forall k :: Holds(cache[i := e], k) <==> Holds(cache, k)
  {
    hide Position, LastTouch;
    OrderMeansDistinct(cache, touches);
    var c := cache[i := e];
    assert forall j :: 0 <= j < |c| ==> c[j].key == cache[j].key;
    forall k ensures Holds(c, k) <==> Holds(cache, k) {
      if Holds(cache, k) { assert c[Position(cache, k).value].key == k; }
      if Holds(c, k) { assert cache[Position(c, k).value].key == k; }
    }
  }

  lemma OrderMeansDistinct(cache: seq<Entry>, touches: seq<string>)
    requires InTouchOrder(cache, touches)
    ensures DistinctKeys(cache)
  {
  }

  lemma DropKeepsOrder(cache: seq<Entry>, touches: seq<string>, i: nat)
    requires InTouchOrder(cache, touches) && i < |cache|
    ensures InTouchOrder(Drop(cache, i), touches)
    ensures !Holds(Drop(cache, i), cache[i].key)
    ensures forall k :: k != cache[i].key ==> (Holds(Drop(cache, i), k) <==> Holds(cache, k))
  {
    var d := Drop(cache, i);
    hide LastTouch, Position;
    forall j | 0 <= j < |d| ensures d[j] == cache[if j < i then j else j + 1] {}
    forall k | k != cache[i].key ensures Holds(d, k) <==> Holds(cache, k) {
      if Holds(cache, k) {
        var p := Position(cache, k).value;
        assert d[if p < i then p else p - 1].key == k;
      }
    }
  }

  lemma AppendTouches(cache: seq<Entry>, touches: seq<string>, e: Entry)
    requires InTouchOrder(cache, touches) && !Holds(cache, e.key)
    ensures InTouchOrder(cache + [e], touches + [e.key])
  {
    forall k { TouchMoves(touches, e.key, k); }
  }

  function Keys(cache: seq<Entry>): set<string> { set i | 0 <= i < |cache| :: cache[i].key }

  lemma {:induction false} KeysCount(cache: seq<Entry>)
    requires DistinctKeys(cache)
    ensures |Keys(cache)| == |cache|
  {
    if cache != [] {
      var init, last := cache[..|cache| - 1], cache[|cache| - 1];
      KeysCount(init);
      assert Keys(cache) == Keys(init) + {last.key};
    }
  }

  lemma {:induction false} SubsetCount(a: set<string>, b: set<string>)
    requires a <= b
    ensures |a| <= |b|
  {
    assert b == a + (b - a) && a !! (b - a);
  }

  /** When the front entry makes room for a new key, at least as many other keys as the cache
      held have been touched since it was, the new key included. */
  lemma EvictedIsLeastRecent(cache: seq<Entry>, touches: seq<string>, key: string)
    requires InTouchOrder(cache, touches) && cache != [] && !Holds(cache, key)
    ensures var victim := cache[0].key;
      && |TouchedSince(touches + [key], victim)| >= |cache|
      && victim !in TouchedSince(touches + [key], victim)
  {
    hide LastTouch, Position;
    var e, victim, t := Entry(key, NoneValue, None), cache[0].key, touches + [key];
    var all := cache + [e];
    AppendTouches(cache, touches, e);
    OrderMeansDistinct(all, t);
    TailKeys(all);
    assert all[0].key == victim;
    forall k | k in Keys(all[1..]) ensures k in TouchedSince(t, victim) {
      var i :| 0 <= i < |all[1..]| && all[1..][i].key == k;
      assert LastTouch(t, all[0].key) < LastTouch(t, all[i + 1].key);
      assert t[LastTouch(t, k)] == k;
    }
    SubsetCount(Keys(all[1..]), TouchedSince(t, victim));
  }

  lemma TailKeys(all: seq<Entry>)
    requires DistinctKeys(all) && all != []
    ensures |Keys(all[1..])| == |all| - 1
  {
    assert forall i :: 0 <= i < |all| - 1 ==> all[1..][i] == all[i + 1];
    KeysCount(all[1..]);
  }

  // ---------------------------------------------------------------- where the missing keys went

  /** Every key that was written and is not there was either removed (deleted, cleared, or found
      expired), or evicted with at least `size` other keys touched since its own last touch. */
  ghost predicate Accounted(cache: seq<Entry>, touches: seq<string>, written: map<string, Value>,
                            removed: set<string>, size: nat)
  {
    forall k :: k in written && !Holds(cache, k) && k !in removed ==> |TouchedSince(touches, k)| >= size
  }

  lemma TouchGrows(touches: seq<string>, x: string, k: string)
    requires k != x
    ensures |TouchedSince(touches + [x], k)| >= |TouchedSince(touches, k)|
  {
    TouchMoves(touches, x, k);
    var a, b := TouchedSince(touches, k), TouchedSince(touches + [x], k);
    forall y | y in a ensures y in b {
      var i :| LastTouch(touches, k) < i < |touches| && touches[i] == y;
      assert (touches + [x])[i] == y;
    }
    SubsetCount(a, b);
  }

  /** A touch of `x` keeps the account, if whoever leaves at it leaves late enough. */
  lemma TouchKeepsAccount(cache: seq<Entry>, after: seq<Entry>, touches: seq<string>, x: string,
                          written: map<string, Value>, v: Value, removed: set<string>, size: nat)
    requires Accounted(cache, touches, written, removed, size) && Holds(after, x)
    requires forall k :: Holds(cache, k) && !Holds(after, k) ==> |TouchedSince(touches + [x], k)| >= size
    ensures Accounted(after, touches + [x], written[x := v], removed - {x}, size)
  {
    hide Position, Holds, TouchedSince;
    forall k | k in written && !Holds(after, k) && k !in removed - {x}
      ensures |TouchedSince(touches + [x], k)| >= size
    {
      if !Holds(cache, k) { TouchGrows(touches, x, k); }
    }
  }

  /** So does taking a key out and saying so. */
  lemma RemovalKeepsAccount(cache: seq<Entry>, after: seq<Entry>, touches: seq<string>,
                            written: map<string, Value>, removed: set<string>, gone: set<string>, size: nat)
    requires Accounted(cache, touches, written, removed, size)
    requires forall k :: Holds(cache, k) && !Holds(after, k) ==> k in gone
    ensures Accounted(after, touches, written, removed + gone, size)
  {
  }

  /** And overwriting a key that is there. */
  lemma WriteKeepsAccount(cache: seq<Entry>, after: seq<Entry>, touches: seq<string>, x: string,
                          written: map<string, Value>, v: Value, removed: set<string>, size: nat)
    requires Accounted(cache, touches, written, removed, size)
    requires Holds(after, x) && forall k :: Holds(cache, k) ==> Holds(after, k)
    ensures Accounted(after, touches, written[x := v], removed, size)
  {
  }
}
