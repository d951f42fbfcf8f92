/**
 The generated structs. Each class's `read` and `write` are the same code unrolled over its
 `thrift_spec`; here the spec is a parameter, so the results hold for every generated class
 at once. An object is the list of its attributes in spec order, None where unset.
 */
module ThriftStruct {
  import opened Wrappers
  import opened ThriftWire

  /** The type of a field, as `thrift_spec` gives it. Every map in the schema has string keys. */
  datatype Ty =
    | TyBool
    | TyI32
    | TyI64
    | TyDouble
    | TyString
    | TyStruct(spec: seq<Field>)
    | TyList(elem: Ty)
    | TyMap(value: Ty)

  datatype Field = Field(id: int, ty: Ty)

  datatype Val =
    | VBool(b: bool)
    | VInt(n: int)
    | VDouble(r: real)
    | VString(s: string)
    | VObject(attrs: seq<Option<Val>>)
    | VList(elems: seq<Val>)
    | VDict(items: seq<Item>)

  datatype Item = Item(key: string, value: Val)

  datatype Parsed<T> = Fail | Done(value: T, rest: seq<Token>)

  function TagOf(ty: Ty): TType {
    match ty
    case TyBool => BOOL
    case TyI32 => I32
    case TyI64 => I64
    case TyDouble => DOUBLE
    case TyString => STRING
    case TyStruct(_) => STRUCT
    case TyList(_) => LIST
    case TyMap(_) => MAP
  }

  /** Position of the field with this id: the arm of the if-chain taken. */
  function Find(spec: seq<Field>, id: int): (r: Option<nat>)
    ensures r.Some? ==> r.value < |spec| && spec[r.value].id == id
    ensures r.None? ==> forall k :: 0 <= k < |spec| ==> spec[k].id != id
  {
    if spec == [] then None
    else if spec[0].id == id then Some(0)
    else
      var r := Find(spec[1..], id);
      if r.Some? then Some(r.value + 1) else None
  }

  function Blank(n: nat): seq<Option<Val>> { seq(n, _ => None) }

  /** `d[key] = value` on a dict kept in insertion order. */
  function Put(items: seq<Item>, key: string, value: Val): seq<Item> {
    if items == [] then [Item(key, value)]
    else if items[0].key == key then [Item(key, value)] + items[1..]
    else [items[0]] + Put(items[1..], key, value)
  }

  // ---------------------------------------------------------------- reading

  function ReadVal(ty: Ty, toks: seq<Token>): (r: Parsed<Val>)
    ensures r.Done? ==> |r.rest| < |toks|
    decreases |toks|, 0
  {
    if toks == [] then Fail
    else
      var hd, tl := toks[0], toks[1..];
      match ty
      case TyBool => if hd.BoolToken? then Done(VBool(hd.b), tl) else Fail
      case TyI32 => if hd.IntToken? && hd.itype.I32? then Done(VInt(hd.n), tl) else Fail
      case TyI64 => if hd.IntToken? && hd.itype.I64? then Done(VInt(hd.n), tl) else Fail
      case TyDouble => if hd.DoubleToken? then Done(VDouble(hd.r), tl) else Fail
      case TyString => if hd.StringToken? then Done(VString(hd.s), tl) else Fail
      case TyStruct(spec) =>
        if !hd.StructBegin? then Fail
        else
          var p := ReadFields(spec, Blank(|spec|), tl);
          if p.Done? then Done(VObject(p.value), p.rest) else Fail
      case TyList(elem) =>
        if !hd.ListBegin? then Fail
        else
          var p := ReadElems(elem, hd.size, [], tl);
          if p.Done? then Closing(ListEnd, VList(p.value), p.rest) else Fail
      case TyMap(value) =>
        if !hd.MapBegin? then Fail
        else
          var p := ReadEntries(value, hd.size, [], tl);
          if p.Done? then Closing(MapEnd, VDict(p.value), p.rest) else Fail
  }

  function Closing(tok: Token, v: Val, toks: seq<Token>): (r: Parsed<Val>)
    ensures r.Done? ==> |r.rest| < |toks|
  {
    if toks != [] && toks[0] == tok then Done(v, toks[1..]) else Fail
  }

  /** The field loop. Unknown ids and known ids of another type are skipped. */
  function ReadFields(spec: seq<Field>, attrs: seq<Option<Val>>, toks: seq<Token>): (r: Parsed<seq<Option<Val>>>)
    requires |attrs| == |spec|
    ensures r.Done? ==> |r.rest| < |toks| && |r.value| == |spec|
    decreases |toks|, 1
  {
    if toks == [] then Fail
    else if toks[0].FieldStop? then
      var end := Expect(StructEnd, Some(toks[1..]));
      if end.Some? then Done(attrs, end.value) else Fail
    else if toks[0].FieldBegin? then
      var (attrs', next) := ReadField(spec, attrs, toks[0].ftype, toks[0].id, toks[1..]);
      var end := Expect(FieldEnd, next);
      if end.Some? then ReadFields(spec, attrs', end.value) else Fail
    else Fail
  }

  function ReadField(spec: seq<Field>, attrs: seq<Option<Val>>, ftype: TType, id: int, toks: seq<Token>)
    : (r: (seq<Option<Val>>, Option<seq<Token>>))
    requires |attrs| == |spec|
    ensures |r.0| == |spec| && (r.1.Some? ==> |r.1.value| < |toks|)
    decreases |toks|, 1
  {
    var k := Find(spec, id);
    if k.Some? && TagOf(spec[k.value].ty) == ftype then
      var p := ReadVal(spec[k.value].ty, toks);
      if p.Done? then (attrs[k.value := Some(p.value)], Some(p.rest)) else (attrs, None)
    else (attrs, Skip(ftype, toks))
  }

  function ReadElems(ty: Ty, n: nat, acc: seq<Val>, toks: seq<Token>): (r: Parsed<seq<Val>>)
    ensures r.Done? ==> |r.rest| <= |toks|
    decreases |toks|, 1
  {
    if n == 0 then Done(acc, toks)
    else
      var p := ReadVal(ty, toks);
      if p.Done? then ReadElems(ty, n - 1, acc + [p.value], p.rest) else Fail
  }

  function ReadEntries(ty: Ty, n: nat, acc: seq<Item>, toks: seq<Token>): (r: Parsed<seq<Item>>)
    ensures r.Done? ==> |r.rest| <= |toks|
    decreases |toks|, 1
  {
    if n == 0 then Done(acc, toks)
    else if toks == [] || !toks[0].StringToken? then Fail
    else
      var p := ReadVal(ty, toks[1..]);
      if p.Done? then ReadEntries(ty, n - 1, Put(acc, toks[0].s, p.value), p.rest) else Fail
  }

  // ---------------------------------------------------------------- what a wire value means to a reader

  /** The reader of type `ty` can make sense of `w`. Element, key and value types that the wire
      declares are not looked at: the elements themselves have to fit. */
  predicate Conforms(ty: Ty, w: Wire)
    decreases w
  {
    match w
    case WBool(_) => ty.TyBool?
    case WInt(t, _) => (ty.TyI32? && t.I32?) || (ty.TyI64? && t.I64?)
    case WDouble(_) => ty.TyDouble?
    case WString(_) => ty.TyString?
    case WStruct(fs) => ty.TyStruct? && FieldsConform(ty.spec, fs)
    case WList(_, es) => ty.TyList? && ElemsConform(ty.elem, es)
    case WSet(_, _) => false
    case WMap(_, _, es) => ty.TyMap? && EntriesConform(ty.value, es)
  }

  predicate FieldsConform(spec: seq<Field>, fs: seq<WField>)
    decreases fs
  {
    forall k :: 0 <= k < |fs| ==> ConformsField(spec, fs[k])
  }

  predicate ElemsConform(ty: Ty, es: seq<Wire>)
    decreases es
  {
    forall k :: 0 <= k < |es| ==> Conforms(ty, es[k])
  }

  predicate EntriesConform(ty: Ty, es: seq<WEntry>)
    decreases es
  {
    forall k :: 0 <= k < |es| ==> ConformsEntry(ty, es[k])
  }

  lemma FieldsConformCons(spec: seq<Field>, fs: seq<WField>)
    ensures FieldsConform(spec, fs) <==> fs == [] || (ConformsField(spec, fs[0]) && FieldsConform(spec, fs[1..]))
  {
    hide ConformsField;
    if fs != [] { assert forall k :: 0 < k < |fs| ==> fs[k] == fs[1..][k - 1]; }
  }

  lemma ElemsConformCons(ty: Ty, es: seq<Wire>)
    ensures ElemsConform(ty, es) <==> es == [] || (Conforms(ty, es[0]) && ElemsConform(ty, es[1..]))
  {
    hide Conforms;
    if es != [] { assert forall k :: 0 < k < |es| ==> es[k] == es[1..][k - 1]; }
  }

  lemma EntriesConformCons(ty: Ty, es: seq<WEntry>)
    ensures EntriesConform(ty, es) <==> es == [] || (ConformsEntry(ty, es[0]) && EntriesConform(ty, es[1..]))
  {
    hide ConformsEntry;
    if es != [] { assert forall k :: 0 < k < |es| ==> es[k] == es[1..][k - 1]; }
  }

  /** A field is looked at only when its id is known and its type is the expected one. */
  predicate Read(spec: seq<Field>, f: WField) {
    Find(spec, f.id).Some? && TagOf(spec[Find(spec, f.id).value].ty) == TypeOf(f.value)
  }

  predicate ConformsField(spec: seq<Field>, f: WField)
    decreases f
  {
    Read(spec, f) ==> Conforms(spec[Find(spec, f.id).value].ty, f.value)
  }

  predicate ConformsEntry(ty: Ty, e: WEntry)
    decreases e
  {
    e.key.WString? && Conforms(ty, e.value)
  }

  function Meaning(ty: Ty, w: Wire): Val
    requires Conforms(ty, w)
    decreases w
  {
    match w
    case WBool(b) => VBool(b)
    case WInt(_, n) => VInt(n)
    case WDouble(r) => VDouble(r)
    case WString(s) => VString(s)
    case WStruct(fs) => VObject(MeaningOfFields(ty.spec, Blank(|ty.spec|), fs))
    case WList(_, es) => VList(MeaningOfElems(ty.elem, [], es))
    case WMap(_, _, es) => VDict(MeaningOfEntries(ty.value, [], es))
  }

  function MeaningOfFields(spec: seq<Field>, attrs: seq<Option<Val>>, fs: seq<WField>): (r: seq<Option<Val>>)
    requires |attrs| == |spec| && FieldsConform(spec, fs)
    ensures |r| == |spec|
    decreases fs
  {
    if fs == [] then attrs
    else
      assert fs[0].value < fs[0] && ConformsField(spec, fs[0]);
      var next := if Read(spec, fs[0]) then
                    var k := Find(spec, fs[0].id).value;
                    attrs[k := Some(Meaning(spec[k].ty, fs[0].value))]
                  else attrs;
      MeaningOfFields(spec, next, fs[1..])
  }

  function MeaningOfElems(ty: Ty, acc: seq<Val>, es: seq<Wire>): seq<Val>
    requires ElemsConform(ty, es)
    decreases es
  {
    if es == [] then acc else MeaningOfElems(ty, acc + [Meaning(ty, es[0])], es[1..])
  }

  function MeaningOfEntries(ty: Ty, acc: seq<Item>, es: seq<WEntry>): seq<Item>
    requires EntriesConform(ty, es)
    decreases es
  {
    if es == [] then acc
    else
      assert es[0].value < es[0] && ConformsEntry(ty, es[0]);
      MeaningOfEntries(ty, Put(acc, es[0].key.s, Meaning(ty, es[0].value)), es[1..])
  }

  // ---------------------------------------------------------------- reading is exact

  /** Reading any well-typed wire value, with anything behind it: if it conforms, the reader
      gets its meaning and stops exactly behind it. If not, it fails here, because these tokens
      carry the type of every value; a protocol without value tags may return something else. */
  lemma {:induction false} ReadIsExact(ty: Ty, w: Wire, rest: seq<Token>)
    requires WellTyped(w)
    ensures ReadVal(ty, TokensOf(w) + rest) == if Conforms(ty, w) then Done(Meaning(ty, w), rest) else Fail
    decreases w, 1
  {
    hide FieldTokens, ElemTokens, EntryTokens, ReadFields, ReadElems, ReadEntries, Expect,
         MeaningOfFields, MeaningOfElems, MeaningOfEntries, FieldsConform, ElemsConform, EntriesConform, Closing;
    match w
    case WStruct(fs) =>
      StructShape(fs, rest);
      if ty.TyStruct? { ReadFieldsIsExact(ty.spec, Blank(|ty.spec|), fs, rest); }
    case WList(_, es) =>
      CollectionShape(w, rest);
      if ty.TyList? {
        ReadElemsIsExact(ty.elem, [], es, [ListEnd] + rest);
        ClosingHead(ListEnd, rest);
      }
    case WSet(_, es) =>
      CollectionShape(w, rest);
    case WMap(_, _, es) =>
      CollectionShape(w, rest);
      if ty.TyMap? {
        ReadEntriesIsExact(ty.value, [], es, [MapEnd] + rest);
        ClosingHead(MapEnd, rest);
      }
    case _ =>
  }

  /** What holds over any protocol: a value that conforms is read with its meaning, and the reader
      stops exactly behind it. */
  lemma ReadsConforming(ty: Ty, w: Wire, rest: seq<Token>)
    requires WellTyped(w) && Conforms(ty, w)
    ensures ReadVal(ty, TokensOf(w) + rest) == Done(Meaning(ty, w), rest)
  {
    ReadIsExact(ty, w, rest);
  }

  lemma ClosingHead(tok: Token, rest: seq<Token>)
    ensures forall v :: Closing(tok, v, [tok] + rest) == Done(v, rest)
  {
  }

  lemma {:induction false} ReadFieldsIsExact(spec: seq<Field>, attrs: seq<Option<Val>>, fs: seq<WField>,
                                             rest: seq<Token>)
    requires |attrs| == |spec| && forall k :: 0 <= k < |fs| ==> WellTyped(fs[k].value)
    ensures ReadFields(spec, attrs, FieldTokens(fs) + (STRUCT_END + rest))
         == if FieldsConform(spec, fs)
            then Done(MeaningOfFields(spec, attrs, fs), rest) else Fail
    decreases fs, 1
  {
    hide FieldTokens, TokensOf, ReadVal, Skip, Expect, Conforms, Meaning, FieldsConform;
    FieldShape(fs, rest);
    FieldsConformCons(spec, fs);
    if fs != [] {
      var v := fs[0].value;
      assert v < fs[0];
      var after := FieldTokens(fs[1..]) + (STRUCT_END + rest);
      ExpectHead(FieldEnd, after);
      ExpectNothing(FieldEnd);
      if Read(spec, fs[0]) {
        var k := Find(spec, fs[0].id).value;
        ReadIsExact(spec[k].ty, v, [FieldEnd] + after);
        if Conforms(spec[k].ty, v) {
          ReadFieldsIsExact(spec, attrs[k := Some(Meaning(spec[k].ty, v))], fs[1..], rest);
        }
      } else {
        SkipIsExact(v, [FieldEnd] + after);
        ReadFieldsIsExact(spec, attrs, fs[1..], rest);
      }
    }
  }

  lemma ExpectNothing(tok: Token)
    ensures Expect(tok, None).None?
  {
  }

  lemma {:induction false} ReadElemsIsExact(ty: Ty, acc: seq<Val>, es: seq<Wire>, rest: seq<Token>)
    requires forall k :: 0 <= k < |es| ==> WellTyped(es[k])
    ensures ReadElems(ty, |es|, acc, ElemTokens(es) + rest)
         == if ElemsConform(ty, es)
            then Done(MeaningOfElems(ty, acc, es), rest) else Fail
    decreases es, 1
  {
    hide ElemTokens, TokensOf, ReadVal, Conforms, Meaning, ElemsConform;
    ElemShape(es, rest);
    ElemsConformCons(ty, es);
    if es != [] {
      ReadIsExact(ty, es[0], ElemTokens(es[1..]) + rest);
      if Conforms(ty, es[0]) { ReadElemsIsExact(ty, acc + [Meaning(ty, es[0])], es[1..], rest); }
    }
  }

  lemma {:induction false} ReadEntriesIsExact(ty: Ty, acc: seq<Item>, es: seq<WEntry>, rest: seq<Token>)
    requires forall k :: 0 <= k < |es| ==> WellTyped(es[k].key) && WellTyped(es[k].value)
    ensures ReadEntries(ty, |es|, acc, EntryTokens(es) + rest)
         == if EntriesConform(ty, es)
            then Done(MeaningOfEntries(ty, acc, es), rest) else Fail
    decreases es, 1
  {
    hide EntryTokens, TokensOf, ReadVal, Conforms, Meaning, Put, EntriesConform;
    EntryShape(es, rest);
    EntriesConformCons(ty, es);
    if es != [] {
      var k, v := es[0].key, es[0].value;
      assert v < es[0];
      var after := EntryTokens(es[1..]) + rest;
      KeyHead(k, TokensOf(v) + after);
      if k.WString? {
        ReadIsExact(ty, v, after);
        if Conforms(ty, v) { ReadEntriesIsExact(ty, Put(acc, k.s, Meaning(ty, v)), es[1..], rest); }
      }
    }
  }

  lemma KeyHead(k: Wire, after: seq<Token>)
    ensures TokensOf(k) + after != []
    ensures if k.WString? then (TokensOf(k) + after)[0] == StringToken(k.s) && (TokensOf(k) + after)[1..] == after
            else !(TokensOf(k) + after)[0].StringToken?
  {
  }

  // ---------------------------------------------------------------- writing

  /** A value a class of this type can hold. */
  predicate HasType(ty: Ty, v: Val)
    decreases v
  {
    match v
    case VBool(_) => ty.TyBool?
    case VInt(_) => ty.TyI32? || ty.TyI64?
    case VDouble(_) => ty.TyDouble?
    case VString(_) => ty.TyString?
    case VObject(attrs) => ty.TyStruct? && Fits(ty.spec, attrs)
    case VList(es) => ty.TyList? && forall k :: 0 <= k < |es| ==> HasType(ty.elem, es[k])
    case VDict(items) =>
      ty.TyMap? && (forall k :: 0 <= k < |items| ==> HasTypeItem(ty.value, items[k]))
      && forall j, k :: 0 <= j < k < |items| ==> items[j].key != items[k].key
  }

  predicate Fits(spec: seq<Field>, attrs: seq<Option<Val>>)
    decreases attrs
  {
    |attrs| == |spec| && forall k :: 0 <= k < |attrs| ==> HasTypeOpt(spec[k].ty, attrs[k])
  }

  predicate HasTypeOpt(ty: Ty, v: Option<Val>)
    decreases v
  {
    v.Some? ==> HasType(ty, v.value)
  }

  predicate HasTypeItem(ty: Ty, item: Item)
    decreases item
  {
    HasType(ty, item.value)
  }

  /** No struct in the type uses a field id twice. */
  predicate DistinctIds(ty: Ty) {
    match ty
    case TyStruct(spec) => DistinctSpec(spec)
    case TyList(elem) => DistinctIds(elem)
    case TyMap(value) => DistinctIds(value)
    case _ => true
  }

  predicate DistinctSpec(spec: seq<Field>)
    decreases spec
  {
    && (forall k :: 0 <= k < |spec| ==> DistinctIdsField(spec[k]))
    && forall j, k :: 0 <= j < k < |spec| ==> spec[j].id != spec[k].id
  }

  predicate DistinctIdsField(f: Field)
    decreases f
  {
    DistinctIds(f.ty)
  }

  /** What `write` emits, as a wire value: set attributes in spec order, unset ones left out. */
  function Written(ty: Ty, v: Val): Wire
    requires HasType(ty, v)
    decreases v
  {
    match v
    case VBool(b) => WBool(b)
    case VInt(n) => WInt(TagOf(ty), n)
    case VDouble(r) => WDouble(r)
    case VString(s) => WString(s)
    case VObject(attrs) => WStruct(WrittenFields(ty.spec, attrs))
    case VList(es) => WList(TagOf(ty.elem), WrittenElems(ty.elem, es))
    case VDict(items) => WMap(STRING, TagOf(ty.value), WrittenEntries(ty.value, items))
  }

  function WrittenFields(spec: seq<Field>, attrs: seq<Option<Val>>): seq<WField>
    requires Fits(spec, attrs)
    decreases attrs
  {
    if attrs == [] then []
    else
      assert HasTypeOpt(spec[0].ty, attrs[0]);
      (if attrs[0].None? then []
       else assert attrs[0].value < attrs[0]; [WField(spec[0].id, Written(spec[0].ty, attrs[0].value))])
      + WrittenFields(spec[1..], attrs[1..])
  }

  function WrittenElems(ty: Ty, es: seq<Val>): seq<Wire>
    requires forall k :: 0 <= k < |es| ==> HasType(ty, es[k])
    decreases es
  {
    if es == [] then [] else [Written(ty, es[0])] + WrittenElems(ty, es[1..])
  }

  function WrittenEntries(ty: Ty, items: seq<Item>): seq<WEntry>
    requires forall k :: 0 <= k < |items| ==> HasTypeItem(ty, items[k])
    decreases items
  {
    if items == [] then []
    else
      assert items[0].value < items[0] && HasTypeItem(ty, items[0]);
      [WEntry(WString(items[0].key), Written(ty, items[0].value))] + WrittenEntries(ty, items[1..])
  }

  // ---------------------------------------------------------------- round trip

  lemma {:induction false} FindOwn(spec: seq<Field>, i: nat)
    requires i < |spec| && DistinctSpec(spec)
    ensures Find(spec, spec[i].id) == Some(i) && DistinctIds(spec[i].ty)
  {
    assert DistinctIdsField(spec[i]);
    var r := Find(spec, spec[i].id);
  }

  lemma {:induction false} PutNew(items: seq<Item>, key: string, value: Val)
    requires forall k :: 0 <= k < |items| ==> items[k].key != key
    ensures Put(items, key, value) == items + [Item(key, value)]
  {
    if items != [] { PutNew(items[1..], key, value); }
  }

  /** What was written is well typed, conforms, and means the value it came from. */
  lemma {:induction false} MeaningOfWritten(ty: Ty, v: Val)
    requires HasType(ty, v) && DistinctIds(ty)
    ensures var w := Written(ty, v);
      WellTyped(w) && TypeOf(w) == TagOf(ty) && Conforms(ty, w) && Meaning(ty, w) == v
    decreases v, 1
  {
    hide WrittenFields, WrittenElems, WrittenEntries, MeaningOfFields, MeaningOfElems, MeaningOfEntries,
         Fits, HasTypeItem, DistinctSpec, FieldsConform, EntriesConform, ConformsField, ConformsEntry;
    match v
    case VObject(attrs) =>
      assert Upto(attrs, 0) == Blank(|attrs|) && attrs[0..] == attrs && ty.spec[0..] == ty.spec;
      FieldsOfWritten(ty.spec, attrs, 0);
    case VList(es) =>
      ElemsOfWritten(ty.elem, es, []);
      assert [] + es == es;
    case VDict(items) =>
      EntriesOfWritten(ty.value, items, 0);
      assert items[..0] == [] && items[0..] == items;
    case _ =>
  }

  ghost predicate Readable(spec: seq<Field>, fs: seq<WField>) {
    forall k :: 0 <= k < |fs| ==> WellTyped(fs[k].value) && ConformsField(spec, fs[k])
  }

  lemma ReadableCons(spec: seq<Field>, f: WField, fs: seq<WField>)
    requires Readable(spec, fs) && WellTyped(f.value) && ConformsField(spec, f)
    ensures Readable(spec, [f] + fs)
  {
  }

  lemma ReadableConforms(spec: seq<Field>, fs: seq<WField>)
    requires Readable(spec, fs)
    ensures FieldsConform(spec, fs)
  {
  }

  lemma FitsFrom(spec: seq<Field>, attrs: seq<Option<Val>>, i: nat)
    requires Fits(spec, attrs) && i <= |attrs|
    ensures Fits(spec[i..], attrs[i..])
    ensures i < |attrs| && attrs[i].Some? ==> HasType(spec[i].ty, attrs[i].value)
  {
    assert i < |attrs| ==> HasTypeOpt(spec[i].ty, attrs[i]);
  }

  /** Unfolding of WrittenFields at position `i`. */
  lemma WrittenFieldsAt(spec: seq<Field>, attrs: seq<Option<Val>>, i: nat)
    requires Fits(spec, attrs) && i < |attrs|
    requires Fits(spec[i..], attrs[i..]) && Fits(spec[i + 1..], attrs[i + 1..])
    requires attrs[i].Some? ==> HasType(spec[i].ty, attrs[i].value)
    ensures var fs, rest := WrittenFields(spec[i..], attrs[i..]), WrittenFields(spec[i + 1..], attrs[i + 1..]);
      fs == if attrs[i].None? then rest else [WField(spec[i].id, Written(spec[i].ty, attrs[i].value))] + rest
  {
    hide Written, HasType;
    assert spec[i..][1..] == spec[i + 1..] && attrs[i..][1..] == attrs[i + 1..];
    assert HasTypeOpt(spec[i..][0].ty, attrs[i..][0]);
  }

  /** Attributes up to `i`, the rest still unset. */
  function Upto(attrs: seq<Option<Val>>, i: nat): seq<Option<Val>>
    requires i <= |attrs|
  {
    attrs[..i] + Blank(|attrs| - i)
  }

  lemma UptoNext(attrs: seq<Option<Val>>, i: nat)
    requires i < |attrs|
    ensures Upto(attrs, i + 1) == Upto(attrs, i)[i := attrs[i]]
    ensures attrs[i].None? ==> Upto(attrs, i + 1) == Upto(attrs, i)
  {
  }

  lemma {:induction false} FieldsOfWritten(spec: seq<Field>, attrs: seq<Option<Val>>, i: nat)
    requires Fits(spec, attrs) && DistinctSpec(spec) && i <= |attrs|
    ensures Fits(spec[i..], attrs[i..])
    ensures var fs := WrittenFields(spec[i..], attrs[i..]);
      && Readable(spec, fs) && FieldsConform(spec, fs)
      && MeaningOfFields(spec, Upto(attrs, i), fs) == attrs
    decreases attrs, |attrs| - i
  {
    FitsFrom(spec, attrs, i);
    if i == |attrs| {
      assert Upto(attrs, i) == attrs;
    } else {
      FieldsOfWritten(spec, attrs, i + 1);
      OneFieldOfWritten(spec, attrs, i);
    }
  }

  lemma {:induction false} OneFieldOfWritten(spec: seq<Field>, attrs: seq<Option<Val>>, i: nat)
    requires Fits(spec, attrs) && DistinctSpec(spec) && i < |attrs| == |spec|
    requires Fits(spec[i..], attrs[i..]) && Fits(spec[i + 1..], attrs[i + 1..])
    requires attrs[i].Some? ==> HasType(spec[i].ty, attrs[i].value)
    requires var fs := WrittenFields(spec[i + 1..], attrs[i + 1..]);
      && Readable(spec, fs) && FieldsConform(spec, fs)
      && MeaningOfFields(spec, Upto(attrs, i + 1), fs) == attrs
    ensures var fs := WrittenFields(spec[i..], attrs[i..]);
      && Readable(spec, fs) && FieldsConform(spec, fs)
      && MeaningOfFields(spec, Upto(attrs, i), fs) == attrs
    decreases attrs, |attrs| - i, 0
  {
    hide Written, WrittenFields, Meaning, HasType, Fits, WellTyped, DistinctIds, DistinctSpec, Conforms, Readable, Upto;
    WrittenFieldsAt(spec, attrs, i);
    UptoNext(attrs, i);
    FindOwn(spec, i);
    if attrs[i].Some? {
      var v, rest := attrs[i].value, WrittenFields(spec[i + 1..], attrs[i + 1..]);
      assert v < attrs[i];
      MeaningOfWritten(spec[i].ty, v);
      var f := WField(spec[i].id, Written(spec[i].ty, v));
      assert ConformsField(spec, f);
      ReadableCons(spec, f, rest);
      ReadableConforms(spec, [f] + rest);
      assert ([f] + rest)[1..] == rest && ([f] + rest)[0] == f;
    }
  }

  lemma {:induction false} ElemsOfWritten(ty: Ty, es: seq<Val>, acc: seq<Val>)
    requires DistinctIds(ty) && forall k :: 0 <= k < |es| ==> HasType(ty, es[k])
    ensures var ws := WrittenElems(ty, es);
      && (forall k :: 0 <= k < |ws| ==> WellTyped(ws[k]) && TypeOf(ws[k]) == TagOf(ty))
      && ElemsConform(ty, ws)
      && MeaningOfElems(ty, acc, ws) == acc + es
    decreases es, 0
  {
    hide Written, Meaning, HasType, WellTyped, DistinctIds, Conforms;
    if es != [] {
      MeaningOfWritten(ty, es[0]);
      ElemsOfWritten(ty, es[1..], acc + [es[0]]);
      var ws := WrittenElems(ty, es);
      assert ws[1..] == WrittenElems(ty, es[1..]);
      assert (acc + [es[0]]) + es[1..] == acc + es;
    }
  }

  lemma {:induction false} EntriesOfWritten(ty: Ty, items: seq<Item>, i: nat)
    requires i <= |items| && DistinctIds(ty) && forall k :: 0 <= k < |items| ==> HasTypeItem(ty, items[k])
    requires forall j, k :: 0 <= j < k < |items| ==> items[j].key != items[k].key
    ensures var ws := WrittenEntries(ty, items[i..]);
      && (forall k :: 0 <= k < |ws| ==>
            ws[k].key.WString? && WellTyped(ws[k].value) && TypeOf(ws[k].value) == TagOf(ty))
      && EntriesConform(ty, ws)
      && MeaningOfEntries(ty, items[..i], ws) == items
    decreases items, |items| - i
  {
    hide Written, Meaning, HasType, DistinctIds, Conforms, WellTyped, Put;
    if i < |items| {
      EntriesOfWritten(ty, items, i + 1);
      assert items[i..][1..] == items[i + 1..] && HasTypeItem(ty, items[i]);
      assert items[i].value < items[i];
      MeaningOfWritten(ty, items[i].value);
      PutNew(items[..i], items[i].key, items[i].value);
      assert items[..i] + [Item(items[i].key, items[i].value)] == items[..i + 1];
      var ws := WrittenEntries(ty, items[i..]);
      var e := WEntry(WString(items[i].key), Written(ty, items[i].value));
      assert ws == [e] + WrittenEntries(ty, items[i + 1..]);
      assert ws[1..] == WrittenEntries(ty, items[i + 1..]) && ConformsEntry(ty, ws[0]);
    }
  }

  /** `read` after `write` restores every object of every generated class, nested objects,
      lists and dicts included: unset attributes stay unset, empty lists and dicts stay empty. */
  lemma RoundTrip(ty: Ty, v: Val, rest: seq<Token>)
    requires HasType(ty, v) && DistinctIds(ty)
    ensures ReadVal(ty, TokensOf(Written(ty, v)) + rest) == Done(v, rest)
  {
    MeaningOfWritten(ty, v);
    ReadIsExact(ty, Written(ty, v), rest);
  }

  // ---------------------------------------------------------------- which attributes are set

  /** The field is read into attribute `i`. Element, key and value types play no part in it. */
  predicate Sets(spec: seq<Field>, f: WField, i: nat) {
    Find(spec, f.id) == Some(i) && TagOf(spec[i].ty) == TypeOf(f.value)
  }

  lemma {:induction false} SetByField(spec: seq<Field>, attrs: seq<Option<Val>>, fs: seq<WField>, i: nat)
    requires |attrs| == |spec| && FieldsConform(spec, fs) && i < |spec|
    ensures MeaningOfFields(spec, attrs, fs)[i].Some?
       <==> attrs[i].Some? || exists k :: 0 <= k < |fs| && Sets(spec, fs[k], i)
    decreases |fs|
  {
    hide Conforms, Meaning, TypeOf, TagOf, Find;
    if fs != [] {
      var rest := fs[1..];
      assert ConformsField(spec, fs[0]) && FieldsConform(spec, rest);
      var next := if Read(spec, fs[0]) then
                    var k := Find(spec, fs[0].id).value;
                    attrs[k := Some(Meaning(spec[k].ty, fs[0].value))]
                  else attrs;
      SetByField(spec, next, rest, i);
      assert next[i].Some? <==> attrs[i].Some? || Sets(spec, fs[0], i);
      assert forall k :: 0 <= k < |rest| ==> rest[k] == fs[k + 1];
      if k :| 0 <= k < |fs| && Sets(spec, fs[k], i) { assert k > 0 ==> Sets(spec, rest[k - 1], i); }
    }
  }

  /** What a struct is read as: if its fields conform, an object in which an attribute is set exactly
      when some field has its id and its type. */
  lemma SetExactly(spec: seq<Field>, fs: seq<WField>, rest: seq<Token>, i: nat)
    requires WellTyped(WStruct(fs)) && i < |spec|
    ensures match ReadVal(TyStruct(spec), TokensOf(WStruct(fs)) + rest)
            case Fail => !FieldsConform(spec, fs)
            case Done(v, left) =>
              && FieldsConform(spec, fs) && left == rest && v.VObject? && |v.attrs| == |spec|
              && (v.attrs[i].Some? <==> exists k :: 0 <= k < |fs| && Sets(spec, fs[k], i))
  {
    ReadIsExact(TyStruct(spec), WStruct(fs), rest);
    if FieldsConform(spec, fs) { SetByField(spec, Blank(|spec|), fs, i); }
  }

  // ---------------------------------------------------------------- fields a reader does not know

  /** The wire value without the fields that `ty`'s reader skips, at every depth it reads. */
  function Known(ty: Ty, w: Wire): Wire
    decreases w
  {
    match w
    case WStruct(fs) => if ty.TyStruct? then WStruct(KnownFields(ty.spec, fs)) else w
    case WList(t, es) => if ty.TyList? then WList(t, KnownElems(ty.elem, es)) else w
    case WMap(kt, vt, es) => if ty.TyMap? then WMap(kt, vt, KnownEntries(ty.value, es)) else w
    case _ => w
  }

  function KnownFields(spec: seq<Field>, fs: seq<WField>): seq<WField>
    decreases fs
  {
    if fs == [] then []
    else
      assert fs[0].value < fs[0];
      (if Read(spec, fs[0]) then [WField(fs[0].id, Known(spec[Find(spec, fs[0].id).value].ty, fs[0].value))] else [])
      + KnownFields(spec, fs[1..])
  }

  function KnownElems(ty: Ty, es: seq<Wire>): seq<Wire>
    decreases es
  {
    if es == [] then [] else [Known(ty, es[0])] + KnownElems(ty, es[1..])
  }

  function KnownEntries(ty: Ty, es: seq<WEntry>): seq<WEntry>
    decreases es
  {
    if es == [] then []
    else
      assert es[0].value < es[0];
      [WEntry(es[0].key, Known(ty, es[0].value))] + KnownEntries(ty, es[1..])
  }

  /** Dropping what is skipped changes neither whether the value can be read nor the result. */
  lemma {:induction false} KnownMeansTheSame(ty: Ty, w: Wire)
    ensures TypeOf(Known(ty, w)) == TypeOf(w)
    ensures Conforms(ty, Known(ty, w)) <==> Conforms(ty, w)
    ensures Conforms(ty, w) ==> Meaning(ty, Known(ty, w)) == Meaning(ty, w)
    decreases w, 1
  {
    hide KnownFields, KnownElems, KnownEntries, MeaningOfFields, MeaningOfElems, MeaningOfEntries,
         FieldsConform, ElemsConform, EntriesConform;
    match w
    case WStruct(fs) => if ty.TyStruct? { KnownFieldsSame(ty.spec, Blank(|ty.spec|), fs); }
    case WList(_, es) => if ty.TyList? { KnownElemsSame(ty.elem, [], es); }
    case WMap(_, _, es) => if ty.TyMap? { KnownEntriesSame(ty.value, [], es); }
    case _ =>
  }

  lemma {:induction false} KnownFieldsSame(spec: seq<Field>, attrs: seq<Option<Val>>, fs: seq<WField>)
    requires |attrs| == |spec|
    ensures var ks := KnownFields(spec, fs);
      && (FieldsConform(spec, ks) <==> FieldsConform(spec, fs))
      && (FieldsConform(spec, fs) ==> MeaningOfFields(spec, attrs, ks) == MeaningOfFields(spec, attrs, fs))
    decreases fs, 0
  {
    hide Known, Meaning, Conforms, TypeOf, FieldsConform;
    if fs != [] {
      var v, rest, ks := fs[0].value, KnownFields(spec, fs[1..]), KnownFields(spec, fs);
      assert v < fs[0];
      FieldsConformCons(spec, fs);
      if Read(spec, fs[0]) {
        var k := Find(spec, fs[0].id).value;
        KnownMeansTheSame(spec[k].ty, v);
        assert ks[1..] == rest && Read(spec, ks[0]);
        FieldsConformCons(spec, ks);
        var next := if Conforms(spec[k].ty, v) then attrs[k := Some(Meaning(spec[k].ty, v))] else attrs;
        KnownFieldsSame(spec, next, fs[1..]);
      } else {
        assert ks == rest;
        KnownFieldsSame(spec, attrs, fs[1..]);
      }
    }
  }

  lemma {:induction false} KnownElemsSame(ty: Ty, acc: seq<Val>, es: seq<Wire>)
    ensures var ks := KnownElems(ty, es);
      && (ElemsConform(ty, ks) <==> ElemsConform(ty, es))
      && (ElemsConform(ty, es) ==> MeaningOfElems(ty, acc, ks) == MeaningOfElems(ty, acc, es))
    decreases es, 0
  {
    hide Known, Meaning, Conforms, ElemsConform;
    if es != [] {
      var rest, ks := KnownElems(ty, es[1..]), KnownElems(ty, es);
      KnownMeansTheSame(ty, es[0]);
      KnownElemsSame(ty, if Conforms(ty, es[0]) then acc + [Meaning(ty, es[0])] else acc, es[1..]);
      assert ks[1..] == rest;
      ElemsConformCons(ty, es);
      ElemsConformCons(ty, ks);
    }
  }

  lemma {:induction false} KnownEntriesSame(ty: Ty, acc: seq<Item>, es: seq<WEntry>)
    ensures var ks := KnownEntries(ty, es);
      && (EntriesConform(ty, ks) <==> EntriesConform(ty, es))
      && (EntriesConform(ty, es) ==> MeaningOfEntries(ty, acc, ks) == MeaningOfEntries(ty, acc, es))
    decreases es, 0
  {
    hide Known, Meaning, Conforms, Put, EntriesConform;
    if es != [] {
      var rest, ks, v := KnownEntries(ty, es[1..]), KnownEntries(ty, es), es[0].value;
      assert v < es[0];
      KnownMeansTheSame(ty, v);
      var next := if ConformsEntry(ty, es[0]) then Put(acc, es[0].key.s, Meaning(ty, v)) else acc;
      KnownEntriesSame(ty, next, es[1..]);
      assert ks[1..] == rest;
      EntriesConformCons(ty, es);
      EntriesConformCons(ty, ks);
    }
  }

  /** Inserting fields with unknown ids, or known ids of another type, anywhere in what was
      written and at any depth the reader reads, changes nothing: if what is left without them is
      what `write` emits, the object is restored. */
  lemma ReadsBackWithExtraFields(ty: Ty, v: Val, w: Wire, rest: seq<Token>)
    requires HasType(ty, v) && DistinctIds(ty) && WellTyped(w) && Known(ty, w) == Written(ty, v)
    ensures ReadVal(ty, TokensOf(w) + rest) == Done(v, rest)
  {
    MeaningOfWritten(ty, v);
    KnownMeansTheSame(ty, w);
    ReadIsExact(ty, w, rest);
  }

  // ---------------------------------------------------------------- exactly what is skipped

  function KnownField(spec: seq<Field>, f: WField): seq<WField> {
    if Read(spec, f) then [WField(f.id, Known(spec[Find(spec, f.id).value].ty, f.value))] else []
  }

  lemma KnownFieldsCons(spec: seq<Field>, fs: seq<WField>)
    ensures KnownFields(spec, fs) == if fs == [] then [] else KnownField(spec, fs[0]) + KnownFields(spec, fs[1..])
  {
  }

  lemma {:induction false} KnownFieldsConcat(spec: seq<Field>, a: seq<WField>, b: seq<WField>)
    ensures KnownFields(spec, a + b) == KnownFields(spec, a) + KnownFields(spec, b)
    decreases |a|
  {
    hide *;
    KnownFieldsCons(spec, a);
    KnownFieldsCons(spec, a + b);
    if a == [] {
      assert a + b == b;
      assert [] + KnownFields(spec, b) == KnownFields(spec, b);
    } else {
      assert (a + b)[0] == a[0] && (a + b)[1..] == a[1..] + b;
      KnownFieldsConcat(spec, a[1..], b);
      assert KnownField(spec, a[0]) + (KnownFields(spec, a[1..]) + KnownFields(spec, b))
          == (KnownField(spec, a[0]) + KnownFields(spec, a[1..])) + KnownFields(spec, b);
    }
  }

  /** Fields with one more among them. */
  function With(fs: seq<WField>, k: nat, f: WField): seq<WField>
    requires k <= |fs|
  {
    fs[..k] + [f] + fs[k..]
  }

  lemma WithHolds(fs: seq<WField>, k: nat, f: WField)
    requires k <= |fs|
    ensures |With(fs, k, f)| == |fs| + 1 && With(fs, k, f)[k] == f
    ensures forall j :: 0 <= j < |With(fs, k, f)| ==>
              With(fs, k, f)[j] == if j < k then fs[j] else if j == k then f else fs[j - 1]
    ensures forall j :: 0 <= j < |fs| ==> fs[j] == With(fs, k, f)[if j < k then j else j + 1]
  {
  }

  lemma WithWellTyped(fs: seq<WField>, k: nat, f: WField)
    requires k <= |fs| && WellTyped(WStruct(fs)) && WellTyped(f.value)
    ensures WellTyped(WStruct(With(fs, k, f)))
  {
    WithHolds(fs, k, f);
    hide With, TypeOf;
  }

  lemma KnownNothing(spec: seq<Field>, f: WField)
    requires !Read(spec, f)
    ensures KnownFields(spec, [f]) == []
  {
  }

  lemma SplitAt(fs: seq<WField>, k: nat, f: WField)
    requires k <= |fs|
    ensures fs == fs[..k] + fs[k..] && With(fs, k, f) == fs[..k] + ([f] + fs[k..])
  {
  }

  lemma KnownWithout(spec: seq<Field>, fs: seq<WField>, k: nat, f: WField)
    requires k <= |fs| && !Read(spec, f)
    ensures KnownFields(spec, With(fs, k, f)) == KnownFields(spec, fs)
  {
    hide *;
    SplitAt(fs, k, f);
    KnownFieldsConcat(spec, fs[..k], [f] + fs[k..]);
    KnownFieldsConcat(spec, [f], fs[k..]);
    KnownFieldsConcat(spec, fs[..k], fs[k..]);
    KnownNothing(spec, f);
    assert [] + KnownFields(spec, fs[k..]) == KnownFields(spec, fs[k..]);
  }

  /** Exactly which fields are skipped. Among fields that conform and do not set its attribute, one
      more field makes no difference to what is read if and only if its id is unknown or its own
      type is not the expected one; what it contains plays no part in it. */
  lemma SkippedExactly(spec: seq<Field>, fs: seq<WField>, k: nat, f: WField, rest: seq<Token>)
    requires WellTyped(WStruct(fs)) && FieldsConform(spec, fs) && k <= |fs| && WellTyped(f.value)
    requires Read(spec, f) ==> forall j :: 0 <= j < |fs| ==> !Sets(spec, fs[j], Find(spec, f.id).value)
    ensures ReadVal(TyStruct(spec), TokensOf(WStruct(With(fs, k, f))) + rest)
         == ReadVal(TyStruct(spec), TokensOf(WStruct(fs)) + rest)
       <==> !Read(spec, f)
  {
    hide *;
    var gs := With(fs, k, f);
    WithHolds(fs, k, f);
    WithWellTyped(fs, k, f);
    if Read(spec, f) {
      SetsIfRead(spec, f);
      var i := Find(spec, f.id).value;
      SetExactly(spec, fs, rest, i);
      SetExactly(spec, gs, rest, i);
      assert Sets(spec, gs[k], i);
    } else {
      KnownWithout(spec, fs, k, f);
      ReadsAsKnown(spec, fs, rest);
      ReadsAsKnown(spec, gs, rest);
    }
  }

  lemma SetsIfRead(spec: seq<Field>, f: WField)
    ensures Read(spec, f) <==> Find(spec, f.id).Some? && Sets(spec, f, Find(spec, f.id).value)
  {
  }

  /** What is read depends on the known fields only. */
  lemma ReadsAsKnown(spec: seq<Field>, fs: seq<WField>, rest: seq<Token>)
    requires WellTyped(WStruct(fs))
    ensures var ks := KnownFields(spec, fs);
      ReadVal(TyStruct(spec), TokensOf(WStruct(fs)) + rest)
      == if FieldsConform(spec, ks) then Done(VObject(MeaningOfFields(spec, Blank(|spec|), ks)), rest) else Fail
  {
    hide ReadVal, TokensOf, KnownFields, MeaningOfFields, FieldsConform;
    KnownFieldsSame(spec, Blank(|spec|), fs);
    ReadIsExact(TyStruct(spec), WStruct(fs), rest);
  }
}
