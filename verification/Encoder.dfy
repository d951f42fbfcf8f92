/**
 The JSON encoder on an object graph that may share and cycle. Containers are guarded by
 one `_seen` set for the whole traversal. Each container node of the output also carries,
 in the model only, the identity of the object it came from; Plain erases it.
 */
module Encoder {
  import opened Wrappers

  type Id = nat

  datatype Scalar = Null | Bool(b: bool) | Num(r: real) | Str(s: string)

  /** One heap object. Mapping keys are strings, in insertion order. */
  datatype Node =
    | Primitive(value: Scalar)
    | Mapping(items: seq<(string, Id)>)
    | Sequence(elems: seq<Id>)

  type Graph = map<Id, Node>

  /** `sqlalchemy_safe` and `exclude_none`. */
  datatype Options = Options(sqlalchemySafe: bool, excludeNone: bool)

  /** Output, with object identities: an expanded container (with keys if it is a mapping),
      a scalar, or the marker. */
  datatype Tree =
    | Leaf(value: Scalar)
    | Branch(id: Id, keys: Option<seq<string>>, kids: seq<Tree>)
    | Circular(id: Id)

  /** Output as the caller sees it. */
  datatype Json =
    | JScalar(value: Scalar)
    | JObject(fields: seq<(string, Json)>)
    | JArray(elems: seq<Json>)

  const MARKER := JScalar(Str("<circular_ref>"))

  // ---------------------------------------------------------------- the graph

  predicate WellFormed(g: Graph) {
    forall id :: id in g ==>
      match g[id]
      case Primitive(_) => true
      case Mapping(items) => forall k :: 0 <= k < |items| ==> items[k].1 in g
      case Sequence(elems) => forall k :: 0 <= k < |elems| ==> elems[k] in g
  }

  predicate Container(g: Graph, id: Id) {
    id in g && !g[id].Primitive?
  }

  /** Whether a mapping entry survives the filters. */
  predicate Kept(o: Options, g: Graph, item: (string, Id)) {
    && !(o.sqlalchemySafe && |item.0| >= 3 && item.0[..3] == "_sa")
    && !(o.excludeNone && item.1 in g && g[item.1] == Primitive(Null))
  }

  function KeptItems(o: Options, g: Graph, items: seq<(string, Id)>): (r: seq<(string, Id)>)
    ensures forall k :: 0 <= k < |r| ==> r[k] in items
  {
    if items == [] then []
    else (if Kept(o, g, items[0]) then [items[0]] else []) + KeptItems(o, g, items[1..])
  }

  function Firsts(items: seq<(string, Id)>): seq<string> {
    seq(|items|, k requires 0 <= k < |items| => items[k].0)
  }

  function Seconds(items: seq<(string, Id)>): seq<Id> {
    seq(|items|, k requires 0 <= k < |items| => items[k].1)
  }

  /** The objects an object is expanded into, in order. */
  function Kids(o: Options, g: Graph, id: Id): (r: seq<Id>)
    requires WellFormed(g) && id in g
    ensures forall k :: 0 <= k < |r| ==> r[k] in g
  {
    match g[id]
    case Primitive(_) => []
    case Mapping(items) => Seconds(KeptItems(o, g, items))
    case Sequence(elems) => elems
  }

  function Keys(o: Options, g: Graph, id: Id): Option<seq<string>>
    requires id in g
  {
    if g[id].Mapping? then Some(Firsts(KeptItems(o, g, g[id].items))) else None
  }

  // ---------------------------------------------------------------- the guarded encoder

  /** The traversal with its set of identities threaded through. */
  function Encode(o: Options, g: Graph, id: Id, seen: set<Id>): (r: (Tree, set<Id>))
    requires WellFormed(g) && id in g
    ensures seen <= r.1
    decreases g.Keys - seen, 0
  {
    if id in seen then (Circular(id), seen)
    else if g[id].Primitive? then (Leaf(g[id].value), seen)
    else
      var (kids, seen') := EncodeAll(o, g, Kids(o, g, id), seen + {id});
      (Branch(id, Keys(o, g, id), kids), seen')
  }

  function EncodeAll(o: Options, g: Graph, ids: seq<Id>, seen: set<Id>): (r: (seq<Tree>, set<Id>))
    requires WellFormed(g) && forall k :: 0 <= k < |ids| ==> ids[k] in g
    ensures seen <= r.1 && |r.0| == |ids|
    decreases g.Keys - seen, 1 + |ids|
  {
    if ids == [] then ([], seen)
    else
      var (t, seen') := Encode(o, g, ids[0], seen);
      var (ts, seen'') := EncodeAll(o, g, ids[1..], seen');
      ([t] + ts, seen'')
  }

  function Plain(t: Tree): Json {
    match t
    case Leaf(v) => JScalar(v)
    case Circular(_) => MARKER
    case Branch(_, None, kids) => JArray(PlainAll(kids))
    case Branch(_, Some(keys), kids) => JObject(Zip(keys, PlainAll(kids)))
  }

  function PlainAll(ts: seq<Tree>): (r: seq<Json>)
    ensures |r| == |ts| && forall k :: 0 <= k < |ts| ==> r[k] == Plain(ts[k])
  {
    if ts == [] then [] else [Plain(ts[0])] + PlainAll(ts[1..])
  }

  function Zip(keys: seq<string>, js: seq<Json>): seq<(string, Json)> {
    seq(if |keys| <= |js| then |keys| else |js|, k requires 0 <= k < |keys| && k < |js| => (keys[k], js[k]))
  }

  /** Containers expanded in a tree, in order. */
  function Expanded(t: Tree): seq<Id> {
    if t.Branch? then [t.id] + ExpandedAll(t.kids) else []
  }

  function ExpandedAll(ts: seq<Tree>): seq<Id> {
    if ts == [] then [] else Expanded(ts[0]) + ExpandedAll(ts[1..])
  }

  predicate HasMarker(t: Tree) {
    match t
    case Leaf(_) => false
    case Circular(_) => true
    case Branch(_, _, kids) => exists k :: 0 <= k < |kids| && HasMarker(kids[k])
  }

  predicate Distinct(ids: seq<Id>) {
    forall i, j :: 0 <= i < j < |ids| ==> ids[i] != ids[j]
  }

  /** A tree that shows the graph from `id` on, node by node, except below markers. */
  ghost predicate Shows(o: Options, g: Graph, id: Id, t: Tree)
    requires WellFormed(g)
    decreases t
  {
    && id in g
    && match t
       case Leaf(v) => g[id] == Primitive(v)
       case Circular(c) => c == id && Container(g, id)
       case Branch(c, keys, kids) =>
         && c == id && Container(g, id) && keys == Keys(o, g, id) && |kids| == |Kids(o, g, id)|
         && forall k :: 0 <= k < |kids| ==> Shows(o, g, Kids(o, g, id)[k], kids[k])
  }

  /** Every marker points at a container in `known` or expanded in `done`. */
  ghost predicate MarkersIn(t: Tree, ids: set<Id>) {
    match t
    case Leaf(_) => true
    case Circular(c) => c in ids
    case Branch(_, _, kids) => forall k :: 0 <= k < |kids| ==> MarkersIn(kids[k], ids)
  }

  ghost function Set(ids: seq<Id>): set<Id> { set i | i in ids }

  predicate Containers(g: Graph, ids: set<Id>) {
    forall id :: id in ids ==> Container(g, id)
  }

  lemma {:induction false} MoreMarkers(t: Tree, a: set<Id>, b: set<Id>)
    requires MarkersIn(t, a) && a <= b
    ensures MarkersIn(t, b)
  {
    if t.Branch? {
      forall k | 0 <= k < |t.kids| ensures MarkersIn(t.kids[k], b) { MoreMarkers(t.kids[k], a, b); }
    }
  }

  /** What one traversal does: it shows the graph, expands exactly the containers it adds to
      `seen`, each once, and marks only containers already seen. */
  lemma {:induction false} EncodeFacts(o: Options, g: Graph, id: Id, seen: set<Id>)
    requires WellFormed(g) && id in g && Containers(g, seen)
    ensures var (t, seen') := Encode(o, g, id, seen);
      && Shows(o, g, id, t) && Containers(g, seen')
      && Distinct(Expanded(t)) && seen' == seen + Set(Expanded(t)) && Set(Expanded(t)) !! seen
      && MarkersIn(t, seen')
    decreases g.Keys - seen, 0
  {
    if id !in seen && !g[id].Primitive? {
      var ids := Kids(o, g, id);
      EncodeAllFacts(o, g, ids, seen + {id});
      var (kids, seen') := EncodeAll(o, g, ids, seen + {id});
      assert Set([id] + ExpandedAll(kids)) == {id} + Set(ExpandedAll(kids));
      assert id !in ExpandedAll(kids) by { assert id !in Set(ExpandedAll(kids)); }
    }
  }

  lemma {:induction false} EncodeAllFacts(o: Options, g: Graph, ids: seq<Id>, seen: set<Id>)
    requires WellFormed(g) && (forall k :: 0 <= k < |ids| ==> ids[k] in g) && Containers(g, seen)
    ensures var (ts, seen') := EncodeAll(o, g, ids, seen);
      && (forall k :: 0 <= k < |ids| ==> Shows(o, g, ids[k], ts[k]) && MarkersIn(ts[k], seen'))
      && Containers(g, seen')
      && Distinct(ExpandedAll(ts)) && seen' == seen + Set(ExpandedAll(ts)) && Set(ExpandedAll(ts)) !! seen
    decreases g.Keys - seen, 1 + |ids|
  {
    if ids != [] {
      EncodeFacts(o, g, ids[0], seen);
      var (t, seen1) := Encode(o, g, ids[0], seen);
      EncodeAllFacts(o, g, ids[1..], seen1);
      var (ts, seen2) := EncodeAll(o, g, ids[1..], seen1);
      MoreMarkers(t, seen1, seen2);
      var all := [t] + ts;
      assert all[1..] == ts && ExpandedAll(all) == Expanded(t) + ExpandedAll(ts);
      DistinctConcat(Expanded(t), ExpandedAll(ts));
      forall k | 0 <= k < |ids| ensures Shows(o, g, ids[k], all[k]) && MarkersIn(all[k], seen2) {
        if k > 0 { assert ids[k] == ids[1..][k - 1] && all[k] == ts[k - 1]; }
      }
    }
  }

  lemma DistinctConcat(a: seq<Id>, b: seq<Id>)
    requires Distinct(a) && Distinct(b) && Set(a) !! Set(b)
    ensures Distinct(a + b) && Set(a + b) == Set(a) + Set(b)
  {
    forall i, j | 0 <= i < j < |a + b| ensures (a + b)[i] != (a + b)[j] {
      if i < |a| <= j { assert a[i] in Set(a) && b[j - |a|] in Set(b); }
    }
  }

  // ---------------------------------------------------------------- paths

  /** The object reached from `id` by taking the given kept edges. */
  function At(o: Options, g: Graph, id: Id, path: seq<nat>): Option<Id>
    requires WellFormed(g) && id in g
    decreases |path|
  {
    if path == [] then Some(id)
    else if path[0] < |Kids(o, g, id)| then At(o, g, Kids(o, g, id)[path[0]], path[1..])
    else None
  }

  function TreeAt(t: Tree, path: seq<nat>): Option<Tree>
    decreases |path|
  {
    if path == [] then Some(t)
    else if t.Branch? && path[0] < |t.kids| then TreeAt(t.kids[path[0]], path[1..])
    else None
  }

  /** Two different kept paths to one container. */
  ghost predicate KeptTwice(o: Options, g: Graph, root: Id)
    requires WellFormed(g) && root in g
  {
    exists p: seq<nat>, q: seq<nat>, c: Id ::
      p != q && Container(g, c) && At(o, g, root, p) == Some(c) && At(o, g, root, q) == Some(c)
  }

  /** A position of the tree shows the object at the same position of the graph. */
  lemma {:induction false} TreeFollowsGraph(o: Options, g: Graph, id: Id, t: Tree, path: seq<nat>)
    requires WellFormed(g) && Shows(o, g, id, t) && TreeAt(t, path).Some?
    ensures At(o, g, id, path).Some? && Shows(o, g, At(o, g, id, path).value, TreeAt(t, path).value)
    decreases |path|
  {
    if path != [] { TreeFollowsGraph(o, g, Kids(o, g, id)[path[0]], t.kids[path[0]], path[1..]); }
  }

  /** Without markers the tree reaches as far as the graph does. */
  lemma {:induction false} GraphFollowsTree(o: Options, g: Graph, id: Id, t: Tree, path: seq<nat>)
    requires WellFormed(g) && Shows(o, g, id, t) && !HasMarker(t) && At(o, g, id, path).Some?
    ensures TreeAt(t, path).Some? && !TreeAt(t, path).value.Circular?
    decreases |path|
  {
    if path != [] { GraphFollowsTree(o, g, Kids(o, g, id)[path[0]], t.kids[path[0]], path[1..]); }
  }

  lemma {:induction false} ExpandedOfKid(ts: seq<Tree>, k: nat, c: Id)
    requires k < |ts| && c in Expanded(ts[k])
    ensures c in ExpandedAll(ts)
  {
    if k > 0 { ExpandedOfKid(ts[1..], k - 1, c); }
  }

  lemma {:induction false} ExpandedIsSomewhere(t: Tree, c: Id) returns (path: seq<nat>)
    requires c in Expanded(t)
    ensures TreeAt(t, path).Some? && TreeAt(t, path).value.Branch? && TreeAt(t, path).value.id == c
    decreases t, 0
  {
    if c == t.id {
      path := [];
    } else {
      var k, rest := ExpandedIsInKid(t.kids, c);
      path := [k] + rest;
    }
  }

  lemma {:induction false} ExpandedIsInKid(ts: seq<Tree>, c: Id) returns (k: nat, path: seq<nat>)
    requires c in ExpandedAll(ts)
    ensures k < |ts| && TreeAt(ts[k], path).Some?
    ensures TreeAt(ts[k], path).value.Branch? && TreeAt(ts[k], path).value.id == c
    decreases ts, 1
  {
    if c in Expanded(ts[0]) {
      k := 0;
      path := ExpandedIsSomewhere(ts[0], c);
    } else {
      k, path := ExpandedIsInKid(ts[1..], c);
      k := k + 1;
    }
  }

  lemma {:induction false} MarkerIsSomewhere(t: Tree) returns (path: seq<nat>)
    requires HasMarker(t)
    ensures TreeAt(t, path).Some? && TreeAt(t, path).value.Circular?
  {
    if t.Branch? {
      var k :| 0 <= k < |t.kids| && HasMarker(t.kids[k]);
      var rest := MarkerIsSomewhere(t.kids[k]);
      path := [k] + rest;
    } else {
      path := [];
    }
  }

  lemma {:induction false} MarkerIsKnown(t: Tree, ids: set<Id>, path: seq<nat>)
    requires MarkersIn(t, ids) && TreeAt(t, path).Some? && TreeAt(t, path).value.Circular?
    ensures TreeAt(t, path).value.id in ids
    decreases |path|
  {
    if path != [] { MarkerIsKnown(t.kids[path[0]], ids, path[1..]); }
  }

  lemma {:induction false} BranchIsExpanded(t: Tree, path: seq<nat>)
    requires TreeAt(t, path).Some? && TreeAt(t, path).value.Branch?
    ensures TreeAt(t, path).value.id in Expanded(t)
    decreases |path|
  {
    if path != [] {
      BranchIsExpanded(t.kids[path[0]], path[1..]);
      ExpandedOfKid(t.kids, path[0], TreeAt(t, path).value.id);
    }
  }

  lemma {:induction false} KidsApart(ts: seq<Tree>, j: nat, k: nat, c: Id)
    requires j < k < |ts| && c in Expanded(ts[j]) && c in Expanded(ts[k])
    ensures !Distinct(ExpandedAll(ts))
  {
    var a, b := Expanded(ts[0]), ExpandedAll(ts[1..]);
    if j == 0 {
      ExpandedOfKid(ts[1..], k - 1, c);
      var x :| 0 <= x < |a| && a[x] == c;
      var y :| 0 <= y < |b| && b[y] == c;
      assert (a + b)[x] == (a + b)[|a| + y];
    } else {
      KidsApart(ts[1..], j - 1, k - 1, c);
      var x, y :| 0 <= x < y < |b| && b[x] == b[y];
      assert (a + b)[|a| + x] == (a + b)[|a| + y];
    }
  }

  lemma {:induction false} KidDistinct(ts: seq<Tree>, k: nat)
    requires k < |ts| && Distinct(ExpandedAll(ts))
    ensures Distinct(Expanded(ts[k]))
  {
    var a, b := Expanded(ts[0]), ExpandedAll(ts[1..]);
    assert forall i :: 0 <= i < |a| ==> (a + b)[i] == a[i];
    assert forall i :: 0 <= i < |b| ==> (a + b)[|a| + i] == b[i];
    if k > 0 { KidDistinct(ts[1..], k - 1); }
  }

  /** A container expanded once stands at one position. */
  lemma {:induction false} OnePosition(t: Tree, p: seq<nat>, q: seq<nat>)
    requires Distinct(Expanded(t))
    requires TreeAt(t, p).Some? && TreeAt(t, p).value.Branch?
    requires TreeAt(t, q).Some? && TreeAt(t, q).value.Branch? && TreeAt(t, p).value.id == TreeAt(t, q).value.id
    ensures p == q
    decreases |p|
  {
    var c, e := TreeAt(t, p).value.id, ExpandedAll(t.kids);
    assert Expanded(t)[0] == t.id && forall i :: 0 <= i < |e| ==> Expanded(t)[i + 1] == e[i];
    if p == [] && q == [] {
    } else if p == [] || q == [] {
      var r := if p == [] then q else p;
      BranchIsExpanded(t.kids[r[0]], r[1..]);
      ExpandedOfKid(t.kids, r[0], c);
      assert false;
    } else {
      BranchIsExpanded(t.kids[p[0]], p[1..]);
      BranchIsExpanded(t.kids[q[0]], q[1..]);
      if p[0] < q[0] { KidsApart(t.kids, p[0], q[0], c); }
      if q[0] < p[0] { KidsApart(t.kids, q[0], p[0], c); }
      KidDistinct(t.kids, p[0]);
      OnePosition(t.kids[p[0]], p[1..], q[1..]);
      assert p == [p[0]] + p[1..] && q == [q[0]] + q[1..];
    }
  }

  // ---------------------------------------------------------------- main results

  lemma MarkerWhenKeptTwice(o: Options, g: Graph, root: Id)
    requires WellFormed(g) && root in g
    ensures HasMarker(Encode(o, g, root, {}).0) <==> KeptTwice(o, g, root)
  {
    EncodeFacts(o, g, root, {});
    var (t, seen) := Encode(o, g, root, {});
    if HasMarker(t) {
      var q := MarkerIsSomewhere(t);
      MarkerIsKnown(t, seen, q);
      var c := TreeAt(t, q).value.id;
      var p := ExpandedIsSomewhere(t, c);
      TreeFollowsGraph(o, g, root, t, p);
      TreeFollowsGraph(o, g, root, t, q);
    }
    if KeptTwice(o, g, root) && !HasMarker(t) {
      var p: seq<nat>, q: seq<nat>, c: Id :|
        p != q && Container(g, c) && At(o, g, root, p) == Some(c) && At(o, g, root, q) == Some(c);
      GraphFollowsTree(o, g, root, t, p);
      GraphFollowsTree(o, g, root, t, q);
      TreeFollowsGraph(o, g, root, t, p);
      TreeFollowsGraph(o, g, root, t, q);
      OnePosition(t, p, q);
    }
  }

  lemma ExpandsEachKeptOnce(o: Options, g: Graph, root: Id, c: Id)
    requires WellFormed(g) && root in g
    ensures var t := Encode(o, g, root, {}).0;
      && Distinct(Expanded(t))
      && (c in Expanded(t) <==> Container(g, c) && exists path: seq<nat> :: At(o, g, root, path) == Some(c))
  {
    EncodeFacts(o, g, root, {});
    var t := Encode(o, g, root, {}).0;
    if c in Expanded(t) {
      var path := ExpandedIsSomewhere(t, c);
      TreeFollowsGraph(o, g, root, t, path);
    }
    if Container(g, c) && exists path: seq<nat> :: At(o, g, root, path) == Some(c) {
      var path: seq<nat> :| At(o, g, root, path) == Some(c);
      assert Encode(o, g, root, {}).1 == Set(Expanded(t));
      ReachableIsExpanded(o, g, root, t, root, path);
    }
  }

  /** From the root or any expanded container, whatever is reached next is expanded too. */
  lemma {:induction false} ReachableIsExpanded(o: Options, g: Graph, root: Id, t: Tree, from: Id, path: seq<nat>)
    requires WellFormed(g) && Shows(o, g, root, t) && MarkersIn(t, Set(Expanded(t)))
    requires from in g && (Container(g, from) ==> from in Expanded(t))
    requires At(o, g, from, path).Some? && Container(g, At(o, g, from, path).value)
    ensures At(o, g, from, path).value in Expanded(t)
    decreases |path|
  {
    if path != [] {
      var kid := Kids(o, g, from)[path[0]];
      if Container(g, kid) {
        var p := ExpandedIsSomewhere(t, from);
        TreeFollowsGraph(o, g, root, t, p);
        var below := p + [path[0]];
        TreeAtSnoc(t, p, path[0]);
        if TreeAt(t, below).value.Circular? {
          MarkerIsKnown(t, Set(Expanded(t)), below);
        } else {
          BranchIsExpanded(t, below);
        }
      }
      ReachableIsExpanded(o, g, root, t, kid, path[1..]);
    }
  }

  lemma {:induction false} TreeAtSnoc(t: Tree, path: seq<nat>, k: nat)
    requires TreeAt(t, path).Some? && TreeAt(t, path).value.Branch? && k < |TreeAt(t, path).value.kids|
    ensures TreeAt(t, path + [k]) == Some(TreeAt(t, path).value.kids[k])
    decreases |path|
  {
    if path == [] {
      assert path + [k] == [k] && [k][1..] == [];
    } else {
      assert (path + [k])[1..] == path[1..] + [k];
      TreeAtSnoc(t.kids[path[0]], path[1..], k);
    }
  }

  // ---------------------------------------------------------------- reachability in the objects themselves

  /** The object one step away: an element of a sequence, or a value of a mapping unless the
      filters drop its entry. */
  function Next(o: Options, g: Graph, id: Id, k: nat): (r: Option<Id>)
    requires WellFormed(g) && id in g
    ensures r.Some? ==> r.value in g
  {
    match g[id]
    case Primitive(_) => None
    case Sequence(elems) => if k < |elems| then Some(elems[k]) else None
    case Mapping(items) =>
      if k >= |items| || (o.sqlalchemySafe && "_sa" <= items[k].0) then None
      else if o.excludeNone && g[items[k].1] == Primitive(Null) then None
      else Some(items[k].1)
  }

  function Follow(o: Options, g: Graph, id: Id, path: seq<nat>): (r: Option<Id>)
    requires WellFormed(g) && id in g
    decreases |path|
  {
    if path == [] then Some(id)
    else
      var next := Next(o, g, id, path[0]);
      if next.None? then None else Follow(o, g, next.value, path[1..])
  }

  /** A container that two different paths reach. */
  ghost predicate ReachedTwice(o: Options, g: Graph, root: Id)
    requires WellFormed(g) && root in g
  {
    exists p: seq<nat>, q: seq<nat>, c: Id ::
      p != q && Container(g, c) && Follow(o, g, root, p) == Some(c) && Follow(o, g, root, q) == Some(c)
  }

  /** How many of the first `k` entries are kept. */
  function Rank(o: Options, g: Graph, items: seq<(string, Id)>, k: nat): nat
    requires k <= |items|
  {
    if k == 0 then 0
    else if Kept(o, g, items[0]) then 1 + Rank(o, g, items[1..], k - 1)
    else Rank(o, g, items[1..], k - 1)
  }

  lemma {:induction false} RankIsPosition(o: Options, g: Graph, items: seq<(string, Id)>, k: nat)
    requires k < |items| && Kept(o, g, items[k])
    ensures Rank(o, g, items, k) < |KeptItems(o, g, items)|
    ensures KeptItems(o, g, items)[Rank(o, g, items, k)] == items[k]
  {
    hide Kept;
    if k > 0 { RankIsPosition(o, g, items[1..], k - 1); }
  }

  lemma {:induction false} PositionHasRank(o: Options, g: Graph, items: seq<(string, Id)>, q: nat) returns (k: nat)
    requires q < |KeptItems(o, g, items)|
    ensures k < |items| && Kept(o, g, items[k]) && Rank(o, g, items, k) == q
  {
    hide Kept;
    if Kept(o, g, items[0]) && q == 0 {
      k := 0;
    } else {
      var rest := PositionHasRank(o, g, items[1..], if Kept(o, g, items[0]) then q - 1 else q);
      k := rest + 1;
    }
  }

  lemma {:induction false} RankGrows(o: Options, g: Graph, items: seq<(string, Id)>, j: nat, k: nat)
    requires j < k < |items| && Kept(o, g, items[j])
    ensures Rank(o, g, items, j) < Rank(o, g, items, k)
  {
    hide Kept;
    if j > 0 { RankGrows(o, g, items[1..], j - 1, k - 1); }
  }

  /** The same step among the kept ones. */
  function KeptStep(o: Options, g: Graph, id: Id, k: nat): nat
    requires WellFormed(g) && id in g
  {
    if g[id].Mapping? && k < |g[id].items| then Rank(o, g, g[id].items, k) else k
  }

  lemma StepIsKept(o: Options, g: Graph, id: Id, k: nat)
    requires WellFormed(g) && id in g && Next(o, g, id, k).Some?
    ensures var q := KeptStep(o, g, id, k); q < |Kids(o, g, id)| && Kids(o, g, id)[q] == Next(o, g, id, k).value
  {
    if g[id].Mapping? {
      KeptMeans(o, g, g[id].items[k]);
      RankIsPosition(o, g, g[id].items, k);
    }
  }

  lemma KeptMeans(o: Options, g: Graph, item: (string, Id))
    requires item.1 in g
    ensures Kept(o, g, item)
       <==> !(o.sqlalchemySafe && "_sa" <= item.0) && !(o.excludeNone && g[item.1] == Primitive(Null))
  {
    if |item.0| >= 3 { assert "_sa" <= item.0 <==> item.0[..3] == "_sa"; }
  }

  lemma KeptIsStep(o: Options, g: Graph, id: Id, q: nat) returns (k: nat)
    requires WellFormed(g) && id in g && q < |Kids(o, g, id)|
    ensures Next(o, g, id, k) == Some(Kids(o, g, id)[q]) && KeptStep(o, g, id, k) == q
  {
    if g[id].Mapping? {
      k := PositionHasRank(o, g, g[id].items, q);
      KeptMeans(o, g, g[id].items[k]);
      RankIsPosition(o, g, g[id].items, k);
    } else {
      k := q;
    }
  }

  lemma StepsApart(o: Options, g: Graph, id: Id, j: nat, k: nat)
    requires WellFormed(g) && id in g && Next(o, g, id, j).Some? && Next(o, g, id, k).Some? && j != k
    ensures KeptStep(o, g, id, j) != KeptStep(o, g, id, k)
  {
    if g[id].Mapping? {
      var items := g[id].items;
      KeptMeans(o, g, items[j]);
      KeptMeans(o, g, items[k]);
      if j < k { RankGrows(o, g, items, j, k); } else { RankGrows(o, g, items, k, j); }
    }
  }

  /** The same path among the kept ones. */
  function KeptPath(o: Options, g: Graph, id: Id, path: seq<nat>): seq<nat>
    requires WellFormed(g) && id in g && Follow(o, g, id, path).Some?
    decreases |path|
  {
    if path == [] then []
    else [KeptStep(o, g, id, path[0])] + KeptPath(o, g, Next(o, g, id, path[0]).value, path[1..])
  }

  lemma {:induction false} PathIsKept(o: Options, g: Graph, id: Id, path: seq<nat>)
    requires WellFormed(g) && id in g && Follow(o, g, id, path).Some?
    ensures At(o, g, id, KeptPath(o, g, id, path)) == Follow(o, g, id, path)
    decreases |path|
  {
    if path != [] {
      StepIsKept(o, g, id, path[0]);
      PathIsKept(o, g, Next(o, g, id, path[0]).value, path[1..]);
    }
  }

  lemma {:induction false} KeptIsPath(o: Options, g: Graph, id: Id, q: seq<nat>) returns (path: seq<nat>)
    requires WellFormed(g) && id in g && At(o, g, id, q).Some?
    ensures Follow(o, g, id, path) == At(o, g, id, q) && KeptPath(o, g, id, path) == q
    decreases |q|
  {
    if q == [] {
      path := [];
    } else {
      var k := KeptIsStep(o, g, id, q[0]);
      var rest := KeptIsPath(o, g, Kids(o, g, id)[q[0]], q[1..]);
      path := [k] + rest;
      assert path[1..] == rest;
    }
  }

  lemma {:induction false} PathsApart(o: Options, g: Graph, id: Id, p: seq<nat>, q: seq<nat>)
    requires WellFormed(g) && id in g && Follow(o, g, id, p).Some? && Follow(o, g, id, q).Some? && p != q
    ensures KeptPath(o, g, id, p) != KeptPath(o, g, id, q)
    decreases |p|
  {
    if p != [] && q != [] {
      var p', q' := KeptPath(o, g, id, p), KeptPath(o, g, id, q);
      if p[0] != q[0] {
        StepsApart(o, g, id, p[0], q[0]);
        assert p'[0] != q'[0];
      } else {
        assert p == [p[0]] + p[1..] && q == [q[0]] + q[1..];
        PathsApart(o, g, Next(o, g, id, p[0]).value, p[1..], q[1..]);
        assert p'[1..] != q'[1..];
      }
    }
  }

  lemma TwiceIsTwice(o: Options, g: Graph, root: Id)
    requires WellFormed(g) && root in g
    ensures ReachedTwice(o, g, root) <==> KeptTwice(o, g, root)
  {
    if ReachedTwice(o, g, root) {
      var p: seq<nat>, q: seq<nat>, c: Id :|
        p != q && Container(g, c) && Follow(o, g, root, p) == Some(c) && Follow(o, g, root, q) == Some(c);
      PathIsKept(o, g, root, p);
      PathIsKept(o, g, root, q);
      PathsApart(o, g, root, p, q);
    }
    if KeptTwice(o, g, root) {
      var p: seq<nat>, q: seq<nat>, c: Id :|
        p != q && Container(g, c) && At(o, g, root, p) == Some(c) && At(o, g, root, q) == Some(c);
      var p' := KeptIsPath(o, g, root, p);
      var q' := KeptIsPath(o, g, root, q);
      assert p' != q';
    }
  }

  /** The marker appears exactly when some container is reached along two different paths,
      whether by a cycle or merely by sharing. */
  lemma MarkerExactlyWhenReachedTwice(o: Options, g: Graph, root: Id)
    requires WellFormed(g) && root in g
    ensures HasMarker(Encode(o, g, root, {}).0) <==> ReachedTwice(o, g, root)
  {
    MarkerWhenKeptTwice(o, g, root);
    TwiceIsTwice(o, g, root);
  }

  /** Every container that can be reached is expanded, and expanded once; nothing else is. */
  lemma ExpandsEachReachableOnce(o: Options, g: Graph, root: Id, c: Id)
    requires WellFormed(g) && root in g
    ensures var t := Encode(o, g, root, {}).0;
      && Distinct(Expanded(t))
      && (c in Expanded(t)
          <==> Container(g, c) && exists path: seq<nat> :: Follow(o, g, root, path) == Some(c))
  {
    ExpandsEachKeptOnce(o, g, root, c);
    if path: seq<nat> :| Follow(o, g, root, path) == Some(c) { PathIsKept(o, g, root, path); }
    if q: seq<nat> :| At(o, g, root, q) == Some(c) {
      var path := KeptIsPath(o, g, root, q);
    }
  }

  // ---------------------------------------------------------------- what the output is

  /** The output for an object, read off the object itself: a scalar as it is; a list with one
      output for each element, in order; a dict with the entries the filters leave, in order.
      Where `markers` are allowed, any container may be shown by the marker instead. */
  ghost predicate Renders(o: Options, g: Graph, id: Id, j: Json, markers: bool)
    requires WellFormed(g)
    decreases j, 0
  {
    && id in g
    && match g[id]
       case Primitive(v) => j == JScalar(v)
       case Sequence(elems) =>
         || (markers && j == JScalar(Str("<circular_ref>")))
         || (j.JArray? && |j.elems| == |elems|
             && forall k :: 0 <= k < |elems| ==> Renders(o, g, elems[k], j.elems[k], markers))
       case Mapping(items) =>
         || (markers && j == JScalar(Str("<circular_ref>")))
         || (j.JObject? && RendersItems(o, g, items, j.fields, markers))
  }

  /** The same of a dict's entries. A key that begins with `_sa` is dropped if that is asked for, and
      so is a None. */
  ghost predicate RendersItems(o: Options, g: Graph, items: seq<(string, Id)>, fields: seq<(string, Json)>,
                               markers: bool)
    requires WellFormed(g)
    decreases fields, |items|
  {
    if items == [] then fields == []
    else
      var (key, value) := items[0];
      if (o.sqlalchemySafe && "_sa" <= key) || (o.excludeNone && value in g && g[value] == Primitive(Null)) then
        RendersItems(o, g, items[1..], fields, markers)
      else
        && fields != [] && fields[0].0 == key
        && (assert fields[0].1 < fields[0]; Renders(o, g, value, fields[0].1, markers))
        && RendersItems(o, g, items[1..], fields[1..], markers)
  }

  lemma {:induction false} PlainRenders(o: Options, g: Graph, id: Id, t: Tree, markers: bool)
    requires WellFormed(g) && Shows(o, g, id, t) && (markers || !HasMarker(t))
    ensures Renders(o, g, id, Plain(t), markers)
    decreases t
  {
    if t.Branch? {
      forall k | 0 <= k < |t.kids| ensures Renders(o, g, Kids(o, g, id)[k], Plain(t.kids[k]), markers) {
        PlainRenders(o, g, Kids(o, g, id)[k], t.kids[k], markers);
      }
      if g[id].Mapping? {
        hide Shows, Renders, RendersItems, HasMarker;
        PlainRendersItems(o, g, g[id].items, t.kids, markers);
      }
    }
  }

  lemma ZipCons(keys: seq<string>, js: seq<Json>)
    requires |keys| == |js|
    ensures Zip(keys, js) == if keys == [] then [] else [(keys[0], js[0])] + Zip(keys[1..], js[1..])
  {
  }

  lemma FirstsCons(kept: seq<(string, Id)>)
    ensures |Firsts(kept)| == |kept|
    ensures kept != [] ==> Firsts(kept)[0] == kept[0].0 && Firsts(kept)[1..] == Firsts(kept[1..])
  {
  }

  lemma PlainAllCons(ts: seq<Tree>)
    ensures ts != [] ==> PlainAll(ts)[0] == Plain(ts[0]) && PlainAll(ts)[1..] == PlainAll(ts[1..])
  {
  }

  lemma ZipFirst(kept: seq<(string, Id)>, ts: seq<Tree>)
    requires |kept| == |ts|
    ensures Zip(Firsts(kept), PlainAll(ts))
         == if kept == [] then [] else [(kept[0].0, Plain(ts[0]))] + Zip(Firsts(kept[1..]), PlainAll(ts[1..]))
  {
    hide *;
    FirstsCons(kept);
    PlainAllCons(ts);
    ZipCons(Firsts(kept), PlainAll(ts));
  }

  lemma ItemsCons(o: Options, g: Graph, items: seq<(string, Id)>, field: (string, Json), fields: seq<(string, Json)>,
                  markers: bool)
    requires WellFormed(g) && items != [] && items[0].1 in g && RendersItems(o, g, items[1..], fields, markers)
    ensures !Kept(o, g, items[0]) ==> RendersItems(o, g, items, fields, markers)
    ensures Kept(o, g, items[0]) && field.0 == items[0].0 && Renders(o, g, items[0].1, field.1, markers)
        ==> RendersItems(o, g, items, [field] + fields, markers)
  {
    hide Renders;
    KeptMeans(o, g, items[0]);
    assert ([field] + fields)[1..] == fields;
  }

  lemma KeptItemsCons(o: Options, g: Graph, items: seq<(string, Id)>)
    ensures KeptItems(o, g, items)
         == if items == [] then []
            else (if Kept(o, g, items[0]) then [items[0]] else []) + KeptItems(o, g, items[1..])
  {
  }

  lemma {:induction false} PlainRendersItems(o: Options, g: Graph, items: seq<(string, Id)>, ts: seq<Tree>,
                                             markers: bool)
    requires WellFormed(g) && |ts| == |KeptItems(o, g, items)| && forall k :: 0 <= k < |items| ==> items[k].1 in g
    requires forall k :: 0 <= k < |ts| ==> Renders(o, g, KeptItems(o, g, items)[k].1, Plain(ts[k]), markers)
    ensures RendersItems(o, g, items, Zip(Firsts(KeptItems(o, g, items)), PlainAll(ts)), markers)
    decreases |items|
  {
    hide *;
    var kept := KeptItems(o, g, items);
    KeptItemsCons(o, g, items);
    ZipFirst(kept, ts);
    if items == [] {
      NoItems(o, g, markers);
    } else {
      var rest := KeptItems(o, g, items[1..]);
      assert items[0].1 in g;
      if Kept(o, g, items[0]) {
        assert kept[0] == items[0] && kept[1..] == rest;
        assert forall k :: 0 <= k < |rest| ==> ts[1..][k] == ts[k + 1] && rest[k] == kept[k + 1];
        PlainRendersItems(o, g, items[1..], ts[1..], markers);
        ItemsCons(o, g, items, (kept[0].0, Plain(ts[0])), Zip(Firsts(rest), PlainAll(ts[1..])), markers);
      } else {
        assert kept == rest;
        PlainRendersItems(o, g, items[1..], ts, markers);
        ItemsCons(o, g, items, ("", JArray([])), Zip(Firsts(kept), PlainAll(ts)), markers);
      }
    }
  }

  lemma NoItems(o: Options, g: Graph, markers: bool)
    requires WellFormed(g)
    ensures RendersItems(o, g, [], [], markers)
  {
  }

  lemma {:induction false} RenderingIsUnique(o: Options, g: Graph, id: Id, a: Json, b: Json)
    requires WellFormed(g) && Renders(o, g, id, a, false) && Renders(o, g, id, b, false)
    ensures a == b
    decreases a, 0
  {
    match g[id]
    case Primitive(_) =>
    case Sequence(elems) =>
      forall k | 0 <= k < |a.elems| ensures a.elems[k] == b.elems[k] {
        RenderingIsUnique(o, g, elems[k], a.elems[k], b.elems[k]);
      }
    case Mapping(items) => ItemsAreUnique(o, g, items, a.fields, b.fields);
  }

  lemma {:induction false} ItemsAreUnique(o: Options, g: Graph, items: seq<(string, Id)>,
                                          a: seq<(string, Json)>, b: seq<(string, Json)>)
    requires WellFormed(g) && RendersItems(o, g, items, a, false) && RendersItems(o, g, items, b, false)
    ensures a == b
    decreases a, |items|
  {
    if items != [] {
      var (key, value) := items[0];
      if (o.sqlalchemySafe && "_sa" <= key) || (o.excludeNone && value in g && g[value] == Primitive(Null)) {
        ItemsAreUnique(o, g, items[1..], a, b);
      } else {
        assert a[0].1 < a[0];
        RenderingIsUnique(o, g, value, a[0].1, b[0].1);
        ItemsAreUnique(o, g, items[1..], a[1..], b[1..]);
        assert a == [a[0]] + a[1..] && b == [b[0]] + b[1..];
      }
    }
  }

  /** Whatever the graph, the output shows every object as itself, or a container by the marker. */
  lemma OutputRenders(o: Options, g: Graph, root: Id)
    requires WellFormed(g) && root in g
    ensures Renders(o, g, root, Plain(Encode(o, g, root, {}).0), true)
  {
    EncodeFacts(o, g, root, {});
    PlainRenders(o, g, root, Encode(o, g, root, {}).0, true);
  }

  /** When nothing is reached twice, the output is the plain structural unfolding, without markers,
      and there is no other. */
  lemma OtherwisePlainUnfolding(o: Options, g: Graph, root: Id, j: Json)
    requires WellFormed(g) && root in g && !ReachedTwice(o, g, root)
    ensures Renders(o, g, root, j, false) <==> j == Plain(Encode(o, g, root, {}).0)
  {
    EncodeFacts(o, g, root, {});
    MarkerExactlyWhenReachedTwice(o, g, root);
    var t := Encode(o, g, root, {}).0;
    PlainRenders(o, g, root, t, false);
    if Renders(o, g, root, j, false) { RenderingIsUnique(o, g, root, j, Plain(t)); }
  }

  // ---------------------------------------------------------------- the encoder as written

  /** One top-level call: the shared mutable `_seen` set and the recursion over it. */
  class Traversal {
    const opts: Options
    const graph: Graph
    var seen: set<Id>

    constructor (opts: Options, graph: Graph)
      ensures this.opts == opts && this.graph == graph && seen == {}
    {
      this.opts, this.graph, seen := opts, graph, {};
    }

    method JsonableEncoder(id: Id) returns (j: Json)
      requires WellFormed(graph) && id in graph
      modifies this
      ensures j == Plain(old(Encode(opts, graph, id, seen)).0)
      ensures seen == old(Encode(opts, graph, id, seen)).1
      decreases graph.Keys - seen, 0
    {
      if id in seen { return MARKER; }
      match graph[id]
      case Primitive(value) =>
        return JScalar(value);
      case Mapping(items) =>
        seen := seen + {id};
        j := EncodeItems(items);
      case Sequence(elems) =>
        seen := seen + {id};
        j := EncodeElems(elems);
    }

    method EncodeItems(items: seq<(string, Id)>) returns (j: Json)
      requires WellFormed(graph) && forall k :: 0 <= k < |items| ==> items[k].1 in graph
      modifies this
      ensures var r := old(EncodeAll(opts, graph, Seconds(KeptItems(opts, graph, items)), seen));
        && j == JObject(Zip(Firsts(KeptItems(opts, graph, items)), PlainAll(r.0)))
        && seen == r.1
      decreases graph.Keys - seen, 2
    {
      hide Encode, EncodeAll, Kept, KeptItems, Plain, PlainAll, Zip, Firsts, Seconds, EncodedSoFar;
      var encoded := [];
      var i := 0;
      ghost var kept, done, before := [], [], seen;
      NothingEncoded(opts, graph, before);
      while i < |items|
        invariant 0 <= i <= |items| && before <= seen
        invariant kept + KeptItems(opts, graph, items[i..]) == KeptItems(opts, graph, items)
        invariant EncodedSoFar(opts, graph, kept, done, before, seen, encoded)
      {
        var (key, value) := items[i];
        OneMoreItem(opts, graph, items, i);
        i := i + 1;
        if opts.sqlalchemySafe && |key| >= 3 && key[..3] == "_sa" { continue; }
        if opts.excludeNone && graph[value] == Primitive(Null) { continue; }
        ghost var t := Encode(opts, graph, value, seen).0;
        ItemEncoded(opts, graph, kept, done, before, seen, encoded, (key, value));
        var encodedValue := JsonableEncoder(value);
        kept, done := kept + [(key, value)], done + [t];
        encoded := encoded + [(key, encodedValue)];
      }
      AllEncoded(opts, graph, items, i, kept, done, before, seen, encoded);
      j := JObject(encoded);
    }

    method EncodeElems(elems: seq<Id>) returns (j: Json)
      requires WellFormed(graph) && forall k :: 0 <= k < |elems| ==> elems[k] in graph
      modifies this
      ensures var r := old(EncodeAll(opts, graph, elems, seen));
        j == JArray(PlainAll(r.0)) && seen == r.1
      decreases graph.Keys - seen, 2
    {
      var encoded := [];
      ghost var done := [];
      ghost var before := seen;
      var i := 0;
      while i < |elems|
        invariant 0 <= i <= |elems| && before <= seen
        invariant (done, seen) == EncodeAll(opts, graph, elems[..i], before)
        invariant encoded == PlainAll(done)
      {
        ghost var t := Encode(opts, graph, elems[i], seen).0;
        var item := JsonableEncoder(elems[i]);
        EncodeAllSnoc(opts, graph, elems[..i], elems[i], before);
        assert elems[..i + 1] == elems[..i] + [elems[i]];
        PlainAllSnoc(done, t);
        done, encoded := done + [t], encoded + [item];
        i := i + 1;
      }
      assert elems[..i] == elems;
      j := JArray(encoded);
    }
  }

  /** Loop invariant of the mapping branch: the entries kept so far have been encoded. */
  ghost predicate EncodedSoFar(o: Options, g: Graph, kept: seq<(string, Id)>, done: seq<Tree>,
                               before: set<Id>, seen: set<Id>, encoded: seq<(string, Json)>)
    requires WellFormed(g)
  {
    && (forall k :: 0 <= k < |kept| ==> kept[k].1 in g)
    && (done, seen) == EncodeAll(o, g, Seconds(kept), before)
    && encoded == Zip(Firsts(kept), PlainAll(done))
  }

  lemma NothingEncoded(o: Options, g: Graph, seen: set<Id>)
    requires WellFormed(g)
    ensures EncodedSoFar(o, g, [], [], seen, seen, [])
  {
  }

  lemma OneMoreItem(o: Options, g: Graph, items: seq<(string, Id)>, i: nat)
    requires i < |items|
    ensures KeptItems(o, g, items[i..])
         == (if Kept(o, g, items[i]) then [items[i]] else []) + KeptItems(o, g, items[i + 1..])
    ensures Kept(o, g, items[i])
       <==> && !(o.sqlalchemySafe && |items[i].0| >= 3 && items[i].0[..3] == "_sa")
            && !(o.excludeNone && items[i].1 in g && g[items[i].1] == Primitive(Null))
  {
    assert items[i..][1..] == items[i + 1..];
  }

  lemma AllEncoded(o: Options, g: Graph, items: seq<(string, Id)>, i: nat, kept: seq<(string, Id)>, done: seq<Tree>,
                   before: set<Id>, seen: set<Id>, encoded: seq<(string, Json)>)
    requires WellFormed(g) && EncodedSoFar(o, g, kept, done, before, seen, encoded) && i == |items|
    requires kept + KeptItems(o, g, items[i..]) == KeptItems(o, g, items)
    ensures kept == KeptItems(o, g, items) && (done, seen) == EncodeAll(o, g, Seconds(kept), before)
    ensures encoded == Zip(Firsts(kept), PlainAll(done))
  {
    assert items[i..] == [] && kept + [] == kept;
  }

  lemma ItemEncoded(o: Options, g: Graph, kept: seq<(string, Id)>, done: seq<Tree>,
                    before: set<Id>, seen: set<Id>, encoded: seq<(string, Json)>, item: (string, Id))
    requires WellFormed(g) && EncodedSoFar(o, g, kept, done, before, seen, encoded) && item.1 in g
    ensures var (t, seen') := Encode(o, g, item.1, seen);
      EncodedSoFar(o, g, kept + [item], done + [t], before, seen', encoded + [(item.0, Plain(t))])
  {
    hide Encode;
    var t := Encode(o, g, item.1, seen).0;
    EncodeAllSnoc(o, g, Seconds(kept), item.1, before);
    assert Seconds(kept + [item]) == Seconds(kept) + [item.1];
    PlainAllSnoc(done, t);
    assert Zip(Firsts(kept + [item]), PlainAll(done) + [Plain(t)])
        == Zip(Firsts(kept), PlainAll(done)) + [(item.0, Plain(t))];
  }

  lemma {:induction false} EncodeAllSnoc(o: Options, g: Graph, ids: seq<Id>, id: Id, seen: set<Id>)
    requires WellFormed(g) && (forall k :: 0 <= k < |ids| ==> ids[k] in g) && id in g
    ensures var (ts, seen1) := EncodeAll(o, g, ids, seen);
      var (t, seen2) := Encode(o, g, id, seen1);
      EncodeAll(o, g, ids + [id], seen) == (ts + [t], seen2)
    decreases |ids|
  {
    if ids == [] {
      var t := Encode(o, g, id, seen).0;
      assert ids + [id] == [id] && [id][1..] == [] && [t] + [] == [] + [t];
    } else {
      assert (ids + [id])[1..] == ids[1..] + [id];
      var (t0, seen0) := Encode(o, g, ids[0], seen);
      EncodeAllSnoc(o, g, ids[1..], id, seen0);
      var (ts, seen1) := EncodeAll(o, g, ids[1..], seen0);
      var t := Encode(o, g, id, seen1).0;
      assert [t0] + (ts + [t]) == ([t0] + ts) + [t];
    }
  }

  lemma {:induction false} PlainAllSnoc(ts: seq<Tree>, t: Tree)
    ensures PlainAll(ts + [t]) == PlainAll(ts) + [Plain(t)]
  {
    forall k | 0 <= k < |ts + [t]| ensures PlainAll(ts + [t])[k] == (PlainAll(ts) + [Plain(t)])[k] {}
  }
}
