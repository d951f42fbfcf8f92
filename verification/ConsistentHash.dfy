/**
 Consistent hashing: the ring an instance list gives rise to, who owns a key, the object
 that rebuilds its ring on every selection, and what changes when the list changes. The
 hash is any function from strings to integers; collisions are allowed everywhere.
 */
module ConsistentHash {
  import opened Wrappers

  datatype Instance = Instance(id: string, data: int)

  type Hash = string -> int

  // ---------------------------------------------------------------- points on the ring

  function Digits(n: nat): string {
    if n < 10 then [(n + '0' as int) as char] else Digits(n / 10) + Digits(n % 10)
  }

  /** The string hashed for virtual node `v` of an instance. */
  function NodeKey(inst: Instance, v: nat): string {
    inst.id + "#" + Digits(v)
  }

  /** The number a string of digits denotes. */
  function Denoted(s: string): int {
    if s == "" then 0 else 10 * Denoted(s[..|s| - 1]) + (s[|s| - 1] as int - '0' as int)
  }

  predicate AllDigits(s: string) { forall k :: 0 <= k < |s| ==> '0' <= s[k] <= '9' }

  lemma {:induction false} DigitsDenote(n: nat)
    ensures AllDigits(Digits(n)) && Denoted(Digits(n)) == n
    ensures |Digits(n)| >= 1 && (n > 0 ==> Digits(n)[0] != '0')
  {
    if n >= 10 {
      DigitsDenote(n / 10);
      DigitsDenote(n % 10);
      var s := Digits(n);
      assert s[..|s| - 1] == Digits(n / 10);
    }
  }

  /** The keys of different virtual nodes differ: a key is the instance's id, a `#`, and the decimal
      number of the node, which is read off behind the last `#`. */
  lemma NodeKeysDiffer(a: Instance, v: nat, b: Instance, w: nat)
    ensures NodeKey(a, v) == a.id + "#" + Digits(v)
    ensures NodeKey(a, v) == NodeKey(b, w) ==> a.id == b.id && v == w
  {
    DigitsDenote(v);
    DigitsDenote(w);
    if NodeKey(a, v) == NodeKey(b, w) { SameSplit(a.id, Digits(v), b.id, Digits(w)); }
  }

  lemma LastHash(p: string, x: string)
    requires AllDigits(x)
    ensures var s := p + "#" + x;
      && |p| < |s| && s[|p|] == '#' && (forall k :: |p| < k < |s| ==> s[k] != '#')
      && s[..|p|] == p && s[|p| + 1..] == x
  {
    var s := p + "#" + x;
    assert forall k :: |p| < k < |s| ==> s[k] == x[k - |p| - 1];
  }

  lemma SameSplit(p: string, x: string, q: string, y: string)
    requires p + "#" + x == q + "#" + y && AllDigits(x) && AllDigits(y)
    ensures p == q && x == y
  {
    hide AllDigits;
    LastHash(p, x);
    LastHash(q, y);
  }

  /** Instance `inst` puts a virtual node on point `p`. */
  ghost predicate Hits(hash: Hash, nodes: int, inst: Instance, p: int) {
    exists v: nat :: v < nodes && hash(NodeKey(inst, v)) == p
  }

  ghost predicate Occupied(hash: Hash, nodes: int, insts: seq<Instance>, p: int) {
    exists i :: 0 <= i < |insts| && Hits(hash, nodes, insts[i], p)
  }

  /** The list position that owns a point: the last one to write it. */
  ghost predicate WritesLast(hash: Hash, nodes: int, insts: seq<Instance>, p: int, i: int) {
    && 0 <= i < |insts| && Hits(hash, nodes, insts[i], p)
    && forall j :: i < j < |insts| ==> !Hits(hash, nodes, insts[j], p)
  }

  /** The first occupied point strictly after `h`, wrapping round to the smallest one. */
  ghost predicate Successor(hash: Hash, nodes: int, insts: seq<Instance>, h: int, p: int) {
    && Occupied(hash, nodes, insts, p)
    && (if p > h then forall q :: h < q < p ==> !Occupied(hash, nodes, insts, q)
        else forall q :: q > h || q < p ==> !Occupied(hash, nodes, insts, q))
  }

  /** How far clockwise a point lies from a hash, on a ring of `size` points. A point is reached from
      a hash equal to it only by going all the way round. */
  function Clockwise(size: int, h: int, p: int): int
    requires size > 0
  {
    (p - h - 1) % size
  }

  lemma ClockwiseIs(size: int, h: int, p: int)
    requires 0 <= h < size && 0 <= p < size
    ensures Clockwise(size, h, p) == if p > h then p - h - 1 else p - h - 1 + size
  {
  }

  /** The successor is the occupied point nearest in clockwise direction, for hashes of any size, such
      as the 128 bits of MD5. */
  lemma SuccessorIsNearest(hash: Hash, nodes: int, insts: seq<Instance>, h: int, p: int, size: int)
    requires 0 <= h < size && forall q :: Occupied(hash, nodes, insts, q) ==> 0 <= q < size
    ensures Successor(hash, nodes, insts, h, p)
       <==> && Occupied(hash, nodes, insts, p)
            && forall q :: Occupied(hash, nodes, insts, q) ==> Clockwise(size, h, p) <= Clockwise(size, h, q)
  {
    hide Occupied, Clockwise;
    forall q | 0 <= q < size
      ensures Clockwise(size, h, q) == if q > h then q - h - 1 else q - h - 1 + size
    {
      ClockwiseIs(size, h, q);
    }
  }

  /** Which points are occupied and who writes them last, said of the instances and their keys. */
  lemma PointsExactly(hash: Hash, nodes: int, insts: seq<Instance>, p: int, i: nat)
    requires i < |insts|
    ensures Occupied(hash, nodes, insts, p)
       <==> exists j, v: nat :: 0 <= j < |insts| && v < nodes && hash(NodeKey(insts[j], v)) == p
    ensures WritesLast(hash, nodes, insts, p, i)
       <==> && (exists v: nat :: v < nodes && hash(NodeKey(insts[i], v)) == p)
            && forall j, v: nat :: i < j < |insts| && v < nodes ==> hash(NodeKey(insts[j], v)) != p
  {
    hide NodeKey;
  }

  /** List position `i` owns the keys that hash to `h`. */
  ghost predicate Owns(hash: Hash, nodes: int, insts: seq<Instance>, h: int, i: int) {
    exists p :: Successor(hash, nodes, insts, h, p) && WritesLast(hash, nodes, insts, p, i)
  }

  lemma SuccessorUnique(hash: Hash, nodes: int, insts: seq<Instance>, h: int, p: int, q: int)
    requires Successor(hash, nodes, insts, h, p) && Successor(hash, nodes, insts, h, q)
    ensures p == q
  {
    hide Occupied;
  }

  lemma OwnerUnique(hash: Hash, nodes: int, insts: seq<Instance>, h: int, i: int, j: int)
    requires Owns(hash, nodes, insts, h, i) && Owns(hash, nodes, insts, h, j)
    ensures i == j
  {
    var p :| Successor(hash, nodes, insts, h, p) && WritesLast(hash, nodes, insts, p, i);
    var q :| Successor(hash, nodes, insts, h, q) && WritesLast(hash, nodes, insts, q, j);
    SuccessorUnique(hash, nodes, insts, h, p, q);
  }

  // ---------------------------------------------------------------- changing the list

  function Remove<T>(s: seq<T>, k: nat): seq<T>
    requires k < |s|
  {
    s[..k] + s[k + 1..]
  }

  /** Where list position `i` ends up once position `k` is taken out. */
  function Shift(i: int, k: int): int { if i < k then i else i - 1 }

  lemma RemoveKeepsPoints(hash: Hash, nodes: int, insts: seq<Instance>, k: nat, p: int)
    requires k < |insts|
    ensures Occupied(hash, nodes, Remove(insts, k), p) ==> Occupied(hash, nodes, insts, p)
    ensures Occupied(hash, nodes, insts, p) && !Hits(hash, nodes, insts[k], p)
        ==> Occupied(hash, nodes, Remove(insts, k), p)
  {
    hide Hits;
    var r := Remove(insts, k);
    if Occupied(hash, nodes, r, p) {
      var i :| 0 <= i < |r| && Hits(hash, nodes, r[i], p);
      assert insts[if i < k then i else i + 1] == r[i];
    }
    if Occupied(hash, nodes, insts, p) && !Hits(hash, nodes, insts[k], p) {
      var i :| 0 <= i < |insts| && Hits(hash, nodes, insts[i], p);
      assert r[Shift(i, k)] == insts[i];
    }
  }

  lemma RemoveKeepsWriter(hash: Hash, nodes: int, insts: seq<Instance>, k: nat, p: int, i: int)
    requires k < |insts| && WritesLast(hash, nodes, insts, p, i) && i != k
    ensures WritesLast(hash, nodes, Remove(insts, k), p, Shift(i, k))
    ensures Occupied(hash, nodes, Remove(insts, k), p)
  {
    hide Hits;
    var r := Remove(insts, k);
    assert r[Shift(i, k)] == insts[i];
    forall j | Shift(i, k) < j < |r| ensures !Hits(hash, nodes, r[j], p) {
      assert r[j] == insts[if j < k then j else j + 1];
    }
  }

  /** Minimal disruption: taking one instance out of the list leaves every key that it did
      not own with the same owner, collisions or not. */
  lemma MinimalDisruption(hash: Hash, nodes: int, insts: seq<Instance>, k: nat, h: int, i: int)
    requires k < |insts| && i != k && Owns(hash, nodes, insts, h, i)
    ensures Owns(hash, nodes, Remove(insts, k), h, Shift(i, k))
  {
    var p :| Successor(hash, nodes, insts, h, p) && WritesLast(hash, nodes, insts, p, i);
    RemoveKeepsWriter(hash, nodes, insts, k, p, i);
    forall q | !Occupied(hash, nodes, insts, q) ensures !Occupied(hash, nodes, Remove(insts, k), q) {
      RemoveKeepsPoints(hash, nodes, insts, k, q);
    }
    hide Occupied, WritesLast;
    assert Successor(hash, nodes, Remove(insts, k), h, p);
  }

  /** An occupied point has a last writer. */
  lemma {:induction false} HasWriter(hash: Hash, nodes: int, insts: seq<Instance>, p: int) returns (i: int)
    requires Occupied(hash, nodes, insts, p)
    ensures WritesLast(hash, nodes, insts, p, i)
  {
    hide Hits;
    var n := |insts| - 1;
    if Hits(hash, nodes, insts[n], p) {
      i := n;
    } else {
      var k :| 0 <= k < |insts| && Hits(hash, nodes, insts[k], p);
      assert insts[..n][k] == insts[k];
      i := HasWriter(hash, nodes, insts[..n], p);
      forall j | i < j < |insts| ensures !Hits(hash, nodes, insts[j], p) {
        if j < n { assert insts[..n][j] == insts[j]; }
      }
    }
  }

  lemma {:induction false} Least(s: set<int>) returns (m: int)
    requires exists x :: x in s
    ensures m in s && forall x :: x in s ==> m <= x
    decreases |s|
  {
    m :| m in s;
    var rest := s - {m};
    if exists x :: x in rest {
      var r := Least(rest);
      assert forall x :: x in s ==> x == m || x in rest;
      if r < m { m := r; }
    }
  }

  /** As soon as there is a virtual node, every key has an owner. */
  lemma HasOwner(hash: Hash, nodes: int, insts: seq<Instance>, h: int) returns (i: int)
    requires insts != [] && nodes > 0
    ensures Owns(hash, nodes, insts, h, i)
  {
    var points := set j, v | 0 <= j < |insts| && 0 <= v < nodes :: hash(NodeKey(insts[j], v));
    forall p ensures p in points <==> Occupied(hash, nodes, insts, p) {}
    assert hash(NodeKey(insts[0], 0)) in points;
    var above := set p | p in points && p > h;
    var p := Least(if exists q :: q in above then above else points);
    assert Successor(hash, nodes, insts, h, p) by {
      hide Occupied;
      forall q | Occupied(hash, nodes, insts, q) ensures q > h ==> q in above {}
    }
    i := HasWriter(hash, nodes, insts, p);
  }

  /** Putting an instance into the list, anywhere, moves keys only to it: a key's owner
      afterwards is the new instance or the old owner. */
  lemma InsertionMovesOnlyToTheNew(hash: Hash, nodes: int, insts: seq<Instance>, k: nat, h: int, i: int)
    requires k < |insts| && Owns(hash, nodes, Remove(insts, k), h, i)
    ensures Owns(hash, nodes, insts, h, k) || Owns(hash, nodes, insts, h, if i < k then i else i + 1)
  {
    assert nodes > 0 by {
      var p :| Successor(hash, nodes, Remove(insts, k), h, p) && WritesLast(hash, nodes, Remove(insts, k), p, i);
    }
    var o := HasOwner(hash, nodes, insts, h);
    if o != k {
      MinimalDisruption(hash, nodes, insts, k, h, o);
      OwnerUnique(hash, nodes, Remove(insts, k), h, i, Shift(o, k));
    }
  }

  // ---------------------------------------------------------------- order of the list

  /** Instance `a` is the one selected for keys that hash to `h`. */
  ghost predicate Picks(hash: Hash, nodes: int, insts: seq<Instance>, h: int, a: Instance) {
    exists i :: Owns(hash, nodes, insts, h, i) && insts[i] == a
  }

  /** No point of the ring belongs to two different instances. */
  ghost predicate NoCollisions(hash: Hash, nodes: int, insts: seq<Instance>) {
    forall i, j, p :: 0 <= i < j < |insts| && insts[i] != insts[j] && Hits(hash, nodes, insts[i], p)
                  ==> !Hits(hash, nodes, insts[j], p)
  }

  predicate Reordered(a: seq<Instance>, b: seq<Instance>) {
    multiset(a) == multiset(b)
  }

  lemma ReorderedMembers(a: seq<Instance>, b: seq<Instance>)
    requires Reordered(a, b)
    ensures forall x :: x in a <==> x in b
  {
    forall x ensures x in a <==> x in b {
      assert x in a <==> x in multiset(a);
      assert x in b <==> x in multiset(b);
    }
  }

  lemma SameOccupied(hash: Hash, nodes: int, a: seq<Instance>, b: seq<Instance>, p: int)
    requires (forall x :: x in a ==> x in b) && Occupied(hash, nodes, a, p)
    ensures Occupied(hash, nodes, b, p)
  {
    hide Hits;
    var i :| 0 <= i < |a| && Hits(hash, nodes, a[i], p);
    assert a[i] in b;
    var j :| 0 <= j < |b| && b[j] == a[i];
  }

  lemma SamePick(hash: Hash, nodes: int, a: seq<Instance>, b: seq<Instance>, h: int, x: Instance)
    requires NoCollisions(hash, nodes, a) && Reordered(a, b) && Picks(hash, nodes, a, h, x)
    ensures Picks(hash, nodes, b, h, x)
  {
    ReorderedMembers(a, b);
    var i :| Owns(hash, nodes, a, h, i) && a[i] == x;
    var p :| Successor(hash, nodes, a, h, p) && WritesLast(hash, nodes, a, p, i);
    forall q ensures Occupied(hash, nodes, a, q) <==> Occupied(hash, nodes, b, q) {
      if Occupied(hash, nodes, a, q) { SameOccupied(hash, nodes, a, b, q); }
      if Occupied(hash, nodes, b, q) { SameOccupied(hash, nodes, b, a, q); }
    }
    var j := HasWriter(hash, nodes, b, p);
    OnlyHitter(hash, nodes, a, i, b[j], p);
    SuccessorOfSamePoints(hash, nodes, a, b, h, p);
    assert Owns(hash, nodes, b, h, j);
  }

  lemma SuccessorOfSamePoints(hash: Hash, nodes: int, a: seq<Instance>, b: seq<Instance>, h: int, p: int)
    requires Successor(hash, nodes, a, h, p)
    requires forall q :: Occupied(hash, nodes, a, q) <==> Occupied(hash, nodes, b, q)
    ensures Successor(hash, nodes, b, h, p)
  {
    hide Occupied;
  }

  lemma OnlyHitter(hash: Hash, nodes: int, a: seq<Instance>, i: int, y: Instance, p: int)
    requires NoCollisions(hash, nodes, a) && 0 <= i < |a| && y in a
    requires Hits(hash, nodes, a[i], p) && Hits(hash, nodes, y, p)
    ensures y == a[i]
  {
    hide Hits;
    var k :| 0 <= k < |a| && a[k] == y;
  }

  /** The list with position `k` moved to the end. */
  function MovedLast(insts: seq<Instance>, k: nat): seq<Instance>
    requires k < |insts|
  {
    Remove(insts, k) + [insts[k]]
  }

  lemma LastWins(hash: Hash, nodes: int, insts: seq<Instance>, k: nat, p: int)
    requires k < |insts| && Hits(hash, nodes, insts[k], p)
    ensures Reordered(insts, MovedLast(insts, k))
    ensures Picks(hash, nodes, MovedLast(insts, k), p - 1, insts[k])
  {
    hide Hits;
    var m, n := MovedLast(insts, k), |insts| - 1;
    assert insts == insts[..k] + [insts[k]] + insts[k + 1..];
    assert m[n] == insts[k];
    assert WritesLast(hash, nodes, m, p, n) && Successor(hash, nodes, m, p - 1, p);
    assert Owns(hash, nodes, m, p - 1, n);
  }

  /** The registry's list order is immaterial exactly when different instances never share a
      ring point: then every reordering selects the same instance for every key, and
      otherwise some two orders disagree. */
  lemma OrderImmaterialExactly(hash: Hash, nodes: int, insts: seq<Instance>)
    ensures NoCollisions(hash, nodes, insts)
       <==> (forall a, b, h, x {:trigger Picks(hash, nodes, a, h, x), Reordered(insts, b)} ::
               Reordered(insts, a) && Reordered(insts, b) && Picks(hash, nodes, a, h, x)
               ==> Picks(hash, nodes, b, h, x))
  {
    if NoCollisions(hash, nodes, insts) {
      forall a, b, h, x {:trigger Picks(hash, nodes, a, h, x), Reordered(insts, b)}
        | Reordered(insts, a) && Reordered(insts, b) && Picks(hash, nodes, a, h, x)
        ensures Picks(hash, nodes, b, h, x)
      {
        ReorderedKeepsNoCollisions(hash, nodes, insts, a);
        SamePick(hash, nodes, a, b, h, x);
      }
    } else {
      var i, j, p :| 0 <= i < j < |insts| && insts[i] != insts[j]
                  && Hits(hash, nodes, insts[i], p) && Hits(hash, nodes, insts[j], p);
      LastWins(hash, nodes, insts, i, p);
      LastWins(hash, nodes, insts, j, p);
      PickUnique(hash, nodes, MovedLast(insts, j), p - 1, insts[i], insts[j]);
    }
  }

  lemma PickUnique(hash: Hash, nodes: int, insts: seq<Instance>, h: int, x: Instance, y: Instance)
    requires Picks(hash, nodes, insts, h, y) && x != y
    ensures !Picks(hash, nodes, insts, h, x)
  {
    if Picks(hash, nodes, insts, h, x) {
      var i :| Owns(hash, nodes, insts, h, i) && insts[i] == x;
      var j :| Owns(hash, nodes, insts, h, j) && insts[j] == y;
      OwnerUnique(hash, nodes, insts, h, i, j);
    }
  }

  lemma ReorderedKeepsNoCollisions(hash: Hash, nodes: int, a: seq<Instance>, b: seq<Instance>)
    requires NoCollisions(hash, nodes, a) && Reordered(a, b)
    ensures NoCollisions(hash, nodes, b)
  {
    hide Hits;
    ReorderedMembers(a, b);
    forall i, j, p | 0 <= i < j < |b| && b[i] != b[j] && Hits(hash, nodes, b[i], p)
      ensures !Hits(hash, nodes, b[j], p)
    {
      if Hits(hash, nodes, b[j], p) {
        assert b[i] in a;
        var k :| 0 <= k < |a| && a[k] == b[i];
        OnlyHitter(hash, nodes, a, k, b[j], p);
      }
    }
  }

  // ---------------------------------------------------------------- the balancer

  predicate Sorted(s: seq<int>) {
    forall i, j :: 0 <= i <= j < |s| ==> s[i] <= s[j]
  }

  lemma InsertKeepsSorted(r: seq<int>, k: nat, x: int)
    requires Sorted(r) && k <= |r|
    requires (forall i :: 0 <= i < k ==> r[i] <= x) && forall i :: k <= i < |r| ==> x < r[i]
    ensures Sorted(r[..k] + [x] + r[k..])
  {
    var t := r[..k] + [x] + r[k..];
    assert forall i :: 0 <= i < |t| ==> t[i] == if i < k then r[i] else if i == k then x else r[i - 1];
  }

  lemma InsertKeepsContents(r: seq<int>, k: nat, x: int)
    requires k <= |r|
    ensures multiset(r[..k] + [x] + r[k..]) == multiset(r) + multiset{x}
  {
    assert r == r[..k] + r[k..];
  }

  /** `list.sort()`. */
  method Sort(s: seq<int>) returns (r: seq<int>)
    ensures Sorted(r) && multiset(r) == multiset(s)
  {
    r := [];
    for n := 0 to |s|
      invariant Sorted(r) && multiset(r) == multiset(s[..n])
    {
      var k := Bisect(r, s[n]);
      assert s[..n + 1] == s[..n] + [s[n]];
      InsertKeepsSorted(r, k, s[n]);
      InsertKeepsContents(r, k, s[n]);
      r := r[..k] + [s[n]] + r[k..];
    }
    assert s[..|s|] == s;
  }

  /** `bisect.bisect`: the end of the keys at or before `h`. */
  method Bisect(s: seq<int>, h: int) returns (lo: nat)
    requires Sorted(s)
    ensures lo <= |s|
    ensures forall i :: 0 <= i < lo ==> s[i] <= h
    ensures forall i :: lo <= i < |s| ==> h < s[i]
  {
    lo := 0;
    var hi := |s|;
    while lo < hi
      invariant lo <= hi <= |s|
      invariant forall i :: 0 <= i < lo ==> s[i] <= h
      invariant forall i :: hi <= i < |s| ==> h < s[i]
    {
      var mid := (lo + hi) / 2;
      if h < s[mid] { hi := mid; } else { lo := mid + 1; }
    }
  }

  /** What the ring holds once the instances before `n`, and the first `v` virtual nodes of
      instance `n`, have been written. */
  ghost predicate RingUpto(hash: Hash, nodes: int, insts: seq<Instance>, n: nat, v: nat, ring: map<int, Instance>)
    requires n <= |insts| && (v > 0 ==> n < |insts|)
  {
    forall p :: (p in ring <==> (v > 0 && Hits(hash, v, insts[n], p)) || Occupied(hash, nodes, insts[..n], p))
             && (p in ring ==>
                   if v > 0 && Hits(hash, v, insts[n], p) then ring[p] == insts[n]
                   else exists i :: WritesLast(hash, nodes, insts[..n], p, i) && ring[p] == insts[i])
  }

  lemma RingGrows(hash: Hash, nodes: int, insts: seq<Instance>, n: nat, v: nat, ring: map<int, Instance>)
    requires n < |insts| && RingUpto(hash, nodes, insts, n, v, ring)
    ensures RingUpto(hash, nodes, insts, n, v + 1, ring[hash(NodeKey(insts[n], v)) := insts[n]])
  {
    var p0 := hash(NodeKey(insts[n], v));
    forall p ensures Hits(hash, v + 1, insts[n], p) <==> p == p0 || (v > 0 && Hits(hash, v, insts[n], p)) {
      if Hits(hash, v + 1, insts[n], p) {
        var u: nat :| u < v + 1 && hash(NodeKey(insts[n], u)) == p;
        assert u == v || u < v;
      }
      if v > 0 && Hits(hash, v, insts[n], p) {
        var u: nat :| u < v && hash(NodeKey(insts[n], u)) == p;
      }
    }
    hide Hits, Occupied, WritesLast;
  }

  lemma RingCloses(hash: Hash, nodes: int, insts: seq<Instance>, n: nat, v: nat, ring: map<int, Instance>)
    requires n < |insts| && RingUpto(hash, nodes, insts, n, v, ring) && (if nodes < 0 then 0 else nodes) == v
    ensures RingUpto(hash, nodes, insts, n + 1, 0, ring)
  {
    var a, b := insts[..n], insts[..n + 1];
    forall p ensures Hits(hash, nodes, insts[n], p) <==> v > 0 && Hits(hash, v, insts[n], p) {}
    hide Hits, Occupied, WritesLast;
    forall p
      ensures (p in ring <==> Occupied(hash, nodes, b, p))
           && (p in ring ==> exists i :: WritesLast(hash, nodes, b, p, i) && ring[p] == insts[i])
    {
      OccupiedByOneMore(hash, nodes, insts, n, p);
      if p in ring && !Hits(hash, nodes, insts[n], p) {
        var i :| WritesLast(hash, nodes, a, p, i) && ring[p] == insts[i];
        WriterStays(hash, nodes, insts, n, p, i);
      } else if p in ring {
        NewWriter(hash, nodes, insts, n, p);
      }
    }
  }

  lemma WriterStays(hash: Hash, nodes: int, insts: seq<Instance>, n: nat, p: int, i: int)
    requires n < |insts| && WritesLast(hash, nodes, insts[..n], p, i) && !Hits(hash, nodes, insts[n], p)
    ensures WritesLast(hash, nodes, insts[..n + 1], p, i)
  {
    hide Hits;
    var a, b := insts[..n], insts[..n + 1];
    assert forall j :: 0 <= j < n ==> b[j] == a[j];
  }

  lemma NewWriter(hash: Hash, nodes: int, insts: seq<Instance>, n: nat, p: int)
    requires n < |insts| && Hits(hash, nodes, insts[n], p)
    ensures WritesLast(hash, nodes, insts[..n + 1], p, n)
  {
  }

  lemma OccupiedByOneMore(hash: Hash, nodes: int, insts: seq<Instance>, n: nat, p: int)
    requires n < |insts|
    ensures Occupied(hash, nodes, insts[..n + 1], p)
       <==> Occupied(hash, nodes, insts[..n], p) || Hits(hash, nodes, insts[n], p)
  {
    hide Hits;
    var a, b := insts[..n], insts[..n + 1];
    assert b[n] == insts[n];
    if Occupied(hash, nodes, a, p) {
      var i :| 0 <= i < |a| && Hits(hash, nodes, a[i], p);
      assert b[i] == a[i];
    }
    if Occupied(hash, nodes, b, p) {
      var i :| 0 <= i < |b| && Hits(hash, nodes, b[i], p);
      if i < n { assert a[i] == b[i]; }
    }
  }

  class ConsistentHashLB {
    const hash: Hash
    const virtualNodes: int
    var ring: map<int, Instance>
    var sortedKeys: seq<int>

    constructor (hash: Hash, virtualNodes: int)
      ensures this.hash == hash && this.virtualNodes == virtualNodes
      ensures ring == map[] && sortedKeys == []
    {
      this.hash, this.virtualNodes := hash, virtualNodes;
      ring, sortedKeys := map[], [];
    }

    /** Rebuilds the ring: a point is in it exactly when some virtual node falls on it, its
        value is the last instance that wrote it, and the key list is sorted (with one entry
        per virtual node, collisions included). */
    method InitHashRing(instances: seq<Instance>, nodes: int)
      modifies this
      ensures RingUpto(hash, nodes, instances, |instances|, 0, ring)
      ensures Sorted(sortedKeys) && forall p :: p in sortedKeys <==> p in ring
    {
      ring, sortedKeys := map[], [];
      var n := 0;
      while n < |instances|
        invariant 0 <= n <= |instances|
        invariant RingUpto(hash, nodes, instances, n, 0, ring)
        invariant forall p :: p in sortedKeys <==> p in ring
      {
        var v := 0;
        while v < nodes
          invariant 0 <= v && (v <= nodes || v == 0)
          invariant RingUpto(hash, nodes, instances, n, v, ring)
          invariant forall p :: p in sortedKeys <==> p in ring
        {
          var point := hash(NodeKey(instances[n], v));
          RingGrows(hash, nodes, instances, n, v, ring);
          ring := ring[point := instances[n]];
          sortedKeys := sortedKeys + [point];
          v := v + 1;
        }
        RingCloses(hash, nodes, instances, n, v, ring);
        n := n + 1;
      }
      ghost var unsorted := sortedKeys;
      sortedKeys := Sort(sortedKeys);
      SameMembers(unsorted, sortedKeys);
    }

    static lemma SameMembers(a: seq<int>, b: seq<int>)
      requires multiset(a) == multiset(b)
      ensures forall p :: p in a <==> p in b
    {
      forall p ensures p in a <==> p in b {
        assert p in a <==> p in multiset(a);
        assert p in b <==> p in multiset(b);
      }
    }

    /** Selects an owner. None exactly when there is no virtual node at all; with a key, the
        owner of the key's hash; without one, any instance on the ring. */
    method SelectInstance(instances: seq<Instance>, key: Option<string>) returns (r: Option<Instance>)
      modifies this
      ensures r.None? <==> instances == [] || virtualNodes <= 0
      ensures r.Some? && key.Some? ==> Picks(hash, virtualNodes, instances, hash(key.value), r.value)
      ensures r.Some? && key.None? ==> r.value in instances
    {
      hide Hits, Occupied, Successor;
      InitHashRing(instances, virtualNodes);
      assert instances[..|instances|] == instances;
      if ring == map[] {
        EmptyRing(instances);
        return None;
      }
      EmptyOrNot(ring);
      ghost var q :| q in ring.Keys;
      assert q in sortedKeys;
      var p: int;
      if key.None? {
        p :| p in ring.Keys;
      } else {
        var idx := Bisect(sortedKeys, hash(key.value));
        SortedSuccessor(instances, sortedKeys, hash(key.value), idx);
        if idx == |sortedKeys| { idx := 0; }
        p := sortedKeys[idx];
        assert p in sortedKeys;
      }
      ghost var i :| WritesLast(hash, virtualNodes, instances, p, i) && ring[p] == instances[i];
      NoNodesNoRing(instances, p, i);
      if key.Some? { assert Owns(hash, virtualNodes, instances, hash(key.value), i); }
      return Some(ring[p]);
    }

    static lemma EmptyOrNot(ring: map<int, Instance>)
      ensures ring == map[] || exists p :: p in ring.Keys
    {
      if forall p :: p !in ring.Keys { assert ring == map[]; }
    }

    /** The bisection point of the sorted keys, wrapped, is the successor of `h`. */
    lemma SortedSuccessor(instances: seq<Instance>, keys: seq<int>, h: int, idx: nat)
      requires Sorted(keys) && keys != [] && idx <= |keys|
      requires forall p :: p in keys <==> Occupied(hash, virtualNodes, instances, p)
      requires forall i :: 0 <= i < idx ==> keys[i] <= h
      requires forall i :: idx <= i < |keys| ==> h < keys[i]
      ensures Successor(hash, virtualNodes, instances, h, keys[if idx == |keys| then 0 else idx])
    {
      hide Occupied;
    }

    lemma EmptyRing(instances: seq<Instance>)
      requires RingUpto(hash, virtualNodes, instances, |instances|, 0, map[])
      ensures instances == [] || virtualNodes <= 0
    {
      if instances != [] && virtualNodes > 0 {
        var p := hash(NodeKey(instances[0], 0));
        assert instances[..|instances|] == instances && Hits(hash, virtualNodes, instances[0], p);
        assert Occupied(hash, virtualNodes, instances, p);
      }
    }

    lemma NoNodesNoRing(instances: seq<Instance>, p: int, i: int)
      requires WritesLast(hash, virtualNodes, instances, p, i)
      ensures instances != [] && virtualNodes > 0 && instances[i] in instances
    {
    }
  }
}
