/**
 What repeated fields and repeated map keys are read as: the last one counts.
 */
module ThriftRepeats {
  import opened Wrappers
  import opened ThriftWire
  import opened ThriftStruct

  // ---------------------------------------------------------------- repeated fields

  lemma {:induction false} NotSetKeeps(spec: seq<Field>, attrs: seq<Option<Val>>, fs: seq<WField>, i: nat)
    requires |attrs| == |spec| && FieldsConform(spec, fs) && i < |spec|
    requires forall k :: 0 <= k < |fs| ==> !Sets(spec, fs[k], i)
    ensures MeaningOfFields(spec, attrs, fs)[i] == attrs[i]
    decreases |fs|
  {
    hide Conforms, Meaning, TypeOf, TagOf, Find;
    if fs != [] {
      var rest := fs[1..];
      assert ConformsField(spec, fs[0]) && FieldsConform(spec, rest);
      var next := if Read(spec, fs[0]) then
                    var k := Find(spec, fs[0].id).value;
                    attrs[k := Some(Meaning(spec[k].ty, fs[0].value))]
                  else attrs;
      assert !Sets(spec, fs[0], i) && next[i] == attrs[i];
      NotSetKeeps(spec, next, rest, i);
    }
  }

  lemma {:induction false} LastSets(spec: seq<Field>, attrs: seq<Option<Val>>, fs: seq<WField>, i: nat, k: nat)
    requires |attrs| == |spec| && FieldsConform(spec, fs) && i < |spec| && k < |fs| && Sets(spec, fs[k], i)
    requires forall j :: k < j < |fs| ==> !Sets(spec, fs[j], i)
    ensures Conforms(spec[i].ty, fs[k].value)
    ensures MeaningOfFields(spec, attrs, fs)[i] == Some(Meaning(spec[i].ty, fs[k].value))
    decreases |fs|
  {
    hide Conforms, Meaning, TypeOf, TagOf, Find;
    var rest := fs[1..];
    assert ConformsField(spec, fs[0]) && FieldsConform(spec, rest);
    var next := if Read(spec, fs[0]) then
                  var k := Find(spec, fs[0].id).value;
                  attrs[k := Some(Meaning(spec[k].ty, fs[0].value))]
                else attrs;
    assert forall j :: 0 <= j < |rest| ==> rest[j] == fs[j + 1];
    if k == 0 { NotSetKeeps(spec, next, rest, i); } else { LastSets(spec, next, rest, i, k - 1); }
  }

  /** Of several fields for one attribute the last one is read. */
  lemma LastFieldWins(spec: seq<Field>, fs: seq<WField>, rest: seq<Token>, i: nat, k: nat)
    requires WellTyped(WStruct(fs)) && FieldsConform(spec, fs) && i < |spec|
    requires k < |fs| && Sets(spec, fs[k], i) && forall j :: k < j < |fs| ==> !Sets(spec, fs[j], i)
    ensures var r := ReadVal(TyStruct(spec), TokensOf(WStruct(fs)) + rest);
      && r.Done? && r.value.VObject? && i < |r.value.attrs| && Conforms(spec[i].ty, fs[k].value)
      && r.value.attrs[i] == Some(Meaning(spec[i].ty, fs[k].value))
  {
    ReadIsExact(TyStruct(spec), WStruct(fs), rest);
    LastSets(spec, Blank(|spec|), fs, i, k);
    hide ReadVal, TokensOf, FieldsConform, Sets, MeaningOfFields;
  }

  // ---------------------------------------------------------------- what a map is read as

  /** Where a key first occurs, or the end. */
  function FirstAt(ps: seq<Item>, key: string): (r: nat)
    ensures r <= |ps| && (r < |ps| ==> ps[r].key == key) && forall j :: 0 <= j < r ==> ps[j].key != key
  {
    if ps == [] || ps[0].key == key then 0
    else
      var r := FirstAt(ps[1..], key);
      assert forall j :: 0 < j < |ps| ==> ps[j] == ps[1..][j - 1];
      r + 1
  }

  predicate LastOf(ps: seq<Item>, k: int)
    ensures LastOf(ps, k) ==> 0 <= k < |ps|
  {
    0 <= k < |ps| && forall j :: k < j < |ps| ==> ps[j].key != ps[k].key
  }

  /** The items are the dict of the pairs: their keys in the order in which they first occur, each
      once, with the value of the last pair that has it. */
  ghost predicate DictOf(items: seq<Item>, ps: seq<Item>) { KeysOf(items, ps) && ValuesOf(items, ps) }

  ghost predicate KeysOf(items: seq<Item>, ps: seq<Item>) {
    && (forall a :: 0 <= a < |items| ==> FirstAt(ps, items[a].key) < |ps|)
    && (forall a, b :: 0 <= a < b < |items| ==> FirstAt(ps, items[a].key) < FirstAt(ps, items[b].key))
  }

  ghost predicate ValuesOf(items: seq<Item>, ps: seq<Item>) { forall k :: LastOf(ps, k) ==> ps[k] in items }

  lemma {:induction false} PutIs(items: seq<Item>, key: string, value: Val)
    ensures var p := FirstAt(items, key);
      Put(items, key, value) == if p < |items| then items[p := Item(key, value)] else items + [Item(key, value)]
  {
    if items != [] && items[0].key != key {
      var rest, e := items[1..], Item(key, value);
      PutIs(rest, key, value);
      var p := FirstAt(rest, key);
      assert FirstAt(items, key) == p + 1;
      hide Put, FirstAt;
      if p < |rest| {
        assert [items[0]] + rest[p := e] == items[p + 1 := e];
      } else {
        assert [items[0]] + (rest + [e]) == items + [e];
      }
    }
  }

  lemma FirstIs(ps: seq<Item>, key: string, r: nat)
    requires r < |ps| && ps[r].key == key && forall j :: 0 <= j < r ==> ps[j].key != key
    ensures FirstAt(ps, key) == r
  {
  }

  lemma PutKeepsDict(items: seq<Item>, ps: seq<Item>, e: Item)
    requires DictOf(items, ps)
    ensures DictOf(Put(items, e.key, e.value), ps + [e])
  {
    PutKeepsValues(items, ps, e);
    PutKeepsKeys(items, ps, e);
    hide KeysOf, ValuesOf;
  }

  lemma FirstStays(ps: seq<Item>, e: Item, key: string)
    ensures FirstAt(ps, key) < |ps| ==> FirstAt(ps + [e], key) == FirstAt(ps, key)
    ensures FirstAt(ps, key) == |ps| && e.key == key ==> FirstAt(ps + [e], key) == |ps|
  {
    hide FirstAt;
    var r, qs := FirstAt(ps, key), ps + [e];
    if r < |ps| { FirstIs(qs, key, r); } else if e.key == key { FirstIs(qs, key, |ps|); }
  }

  /** New values leave the keys where they are, and a new key goes behind all others. */
  lemma KeysByName(items: seq<Item>, now: seq<Item>, ps: seq<Item>, e: Item)
    requires KeysOf(items, ps)
    requires forall a :: 0 <= a < |items| ==> a < |now| && now[a].key == items[a].key
    requires |now| == |items| || (now == items + [e] && FirstAt(ps, e.key) == |ps|)
    ensures KeysOf(now, ps + [e])
  {
    hide FirstAt;
    var qs := ps + [e];
    forall a | 0 <= a < |now| ensures FirstAt(qs, now[a].key) == FirstAt(ps, now[a].key) < |qs| {
      FirstStays(ps, e, now[a].key);
      if a == |items| { assert now[a] == e; }
    }
    forall a, b | 0 <= a < b < |now| ensures FirstAt(qs, now[a].key) < FirstAt(qs, now[b].key) {
      if b < |items| { assert FirstAt(ps, items[a].key) < FirstAt(ps, items[b].key); }
    }
  }

  lemma PutKeepsKeys(items: seq<Item>, ps: seq<Item>, e: Item)
    requires KeysOf(items, ps) && ValuesOf(items, ps)
    ensures KeysOf(Put(items, e.key, e.value), ps + [e])
  {
    hide FirstAt, LastOf, ValuesOf, KeysOf, Put;
    PutIs(items, e.key, e.value);
    if FirstAt(items, e.key) == |items| { NewKey(items, ps, e.key); }
    KeysByName(items, Put(items, e.key, e.value), ps, e);
  }

  /** A key that is not in the dict has not occurred. */
  lemma NewKey(items: seq<Item>, ps: seq<Item>, key: string)
    requires ValuesOf(items, ps) && FirstAt(items, key) == |items|
    ensures FirstAt(ps, key) == |ps|
  {
    hide FirstAt, LastOf;
    if FirstAt(ps, key) < |ps| {
      LastExists(ps, FirstAt(ps, key));
    }
  }

  lemma PutKeepsValues(items: seq<Item>, ps: seq<Item>, e: Item)
    requires ValuesOf(items, ps)
    ensures ValuesOf(Put(items, e.key, e.value), ps + [e])
  {
    hide FirstAt;
    var p, now, qs := FirstAt(items, e.key), Put(items, e.key, e.value), ps + [e];
    PutIs(items, e.key, e.value);
    forall k | LastOf(qs, k) ensures qs[k] in now {
      if k < |ps| {
        assert qs[|ps|] == e && ps[k].key != e.key;
        forall j | k < j < |ps| ensures ps[j].key != ps[k].key { assert qs[j] == ps[j]; }
        assert LastOf(ps, k);
        var a :| 0 <= a < |items| && items[a] == ps[k];
        assert now[a] == ps[k];
      } else {
        assert now[p] == e;
      }
    }
  }

  lemma {:induction false} LastExists(ps: seq<Item>, k: nat)
    requires k < |ps|
    ensures exists j :: LastOf(ps, j) && ps[j].key == ps[k].key
    decreases |ps| - k
  {
    if j :| k < j < |ps| && ps[j].key == ps[k].key {
      LastExists(ps, j);
    } else {
      assert LastOf(ps, k);
    }
  }

  /** The pairs of a map on the wire. */
  function Pairs(ty: Ty, es: seq<WEntry>): seq<Item>
    requires EntriesConform(ty, es)
  {
    assert forall j :: 0 <= j < |es| ==> ConformsEntry(ty, es[j]);
    seq(|es|, j requires 0 <= j < |es| => Item(es[j].key.s, Meaning(ty, es[j].value)))
  }

  lemma {:induction false} EntriesMakeDict(ty: Ty, before: seq<Item>, acc: seq<Item>, es: seq<WEntry>)
    requires EntriesConform(ty, es) && DictOf(acc, before)
    ensures DictOf(MeaningOfEntries(ty, acc, es), before + Pairs(ty, es))
    decreases es
  {
    hide Conforms, Meaning, Put, DictOf;
    if es == [] {
      assert before + Pairs(ty, es) == before;
    } else {
      assert ConformsEntry(ty, es[0]) && es[0].value < es[0];
      EntriesConformCons(ty, es);
      var e := Item(es[0].key.s, Meaning(ty, es[0].value));
      PutKeepsDict(acc, before, e);
      EntriesMakeDict(ty, before + [e], Put(acc, e.key, e.value), es[1..]);
      assert before + [e] + Pairs(ty, es[1..]) == before + Pairs(ty, es);
    }
  }

  /** A map is read as the dict of its pairs: a repeated key keeps its place and takes the last value. */
  lemma LastEntryWins(ty: Ty, kt: TType, vt: TType, es: seq<WEntry>, rest: seq<Token>)
    requires WellTyped(WMap(kt, vt, es)) && Conforms(TyMap(ty), WMap(kt, vt, es))
    ensures var r := ReadVal(TyMap(ty), TokensOf(WMap(kt, vt, es)) + rest);
      r.Done? && r.value.VDict? && EntriesConform(ty, es) && DictOf(r.value.items, Pairs(ty, es)) && r.rest == rest
  {
    ReadIsExact(TyMap(ty), WMap(kt, vt, es), rest);
    EntriesMakeDict(ty, [], [], es);
    hide ReadVal, TokensOf, MeaningOfEntries, DictOf;
    assert [] + Pairs(ty, es) == Pairs(ty, es);
  }
}
