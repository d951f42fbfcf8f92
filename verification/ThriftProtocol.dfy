/**
 `read` and `write` as the generated classes perform them: loops over a protocol object whose
 token buffer they consume or extend. Proved against the functions of ThriftStruct. A stream
 the protocol rejects makes `read` fail (None), as the protocol's exception would; the protocol
 modelled here rejects every value that is not of the type asked for.
 Then the schemas of the nested structs and the round trip of RpcError and TaskRecord.
 */
module ThriftProtocol {
  import opened Wrappers
  import opened ThriftWire
  import opened ThriftStruct

  class Protocol {
    var buffer: seq<Token>

    constructor ()
      ensures buffer == []
    {
      buffer := [];
    }

    method Skip(t: TType) returns (ok: bool)
      modifies this
      ensures match old(ThriftWire.Skip(t, buffer)) case None => !ok case Some(rest) => ok && buffer == rest
    {
      var r := ThriftWire.Skip(t, buffer);
      ok := r.Some?;
      if ok { buffer := r.value; }
    }

    /** Consumes one closing token. */
    method Close(tok: Token) returns (ok: bool)
      modifies this
      ensures match Expect(tok, Some(old(buffer))) case None => !ok case Some(rest) => ok && buffer == rest
    {
      ok := buffer != [] && buffer[0] == tok;
      if ok { buffer := buffer[1..]; }
    }

    method ReadValue(ty: Ty) returns (r: Option<Val>)
      modifies this
      ensures match old(ReadVal(ty, buffer))
              case Fail => r.None?
              case Done(v, rest) => r == Some(v) && buffer == rest
      decreases |buffer|, 0
    {
      if buffer == [] { return None; }
      var hd := buffer[0];
      match ty {
        case TyStruct(spec) =>
          if !hd.StructBegin? { return None; }
          buffer := buffer[1..];
          var attrs := ReadStruct(spec);
          if attrs.None? { return None; }
          return Some(VObject(attrs.value));
        case TyList(elem) =>
          if !hd.ListBegin? { return None; }
          buffer := buffer[1..];
          var elems := ReadList(elem, hd.size);
          if elems.None? { return None; }
          var ok := Close(ListEnd);
          return if ok then Some(VList(elems.value)) else None;
        case TyMap(value) =>
          if !hd.MapBegin? { return None; }
          buffer := buffer[1..];
          var items := ReadMap(value, hd.size);
          if items.None? { return None; }
          var ok := Close(MapEnd);
          return if ok then Some(VDict(items.value)) else None;
        case TyBool => r := if hd.BoolToken? then Some(VBool(hd.b)) else None;
        case TyI32 => r := if hd.IntToken? && hd.itype.I32? then Some(VInt(hd.n)) else None;
        case TyI64 => r := if hd.IntToken? && hd.itype.I64? then Some(VInt(hd.n)) else None;
        case TyDouble => r := if hd.DoubleToken? then Some(VDouble(hd.r)) else None;
        case TyString => r := if hd.StringToken? then Some(VString(hd.s)) else None;
      }
      if r.Some? { buffer := buffer[1..]; }
    }

    /** The field loop of a class's `read`, starting from an object with nothing set. */
    method ReadStruct(spec: seq<Field>) returns (r: Option<seq<Option<Val>>>)
      modifies this
      ensures match old(ReadFields(spec, Blank(|spec|), buffer))
              case Fail => r.None?
              case Done(attrs, rest) => r == Some(attrs) && buffer == rest
      decreases |buffer|, 1
    {
      var attrs := Blank(|spec|);
      ghost var all := ReadFields(spec, attrs, buffer);
      while true
        invariant |attrs| == |spec| && |buffer| <= |old(buffer)|
        invariant ReadFields(spec, attrs, buffer) == all
        decreases |buffer|
      {
        if buffer == [] { return None; }
        var hd := buffer[0];
        if hd.FieldStop? {
          buffer := buffer[1..];
          var ok := Close(StructEnd);
          return if ok then Some(attrs) else None;
        }
        if !hd.FieldBegin? { return None; }
        buffer := buffer[1..];
        var k := Find(spec, hd.id);
        if k.Some? && TagOf(spec[k.value].ty) == hd.ftype {
          var v := ReadValue(spec[k.value].ty);
          if v.None? { return None; }
          attrs := attrs[k.value := v];
        } else {
          var skipped := Skip(hd.ftype);
          if !skipped { return None; }
        }
        var ok := Close(FieldEnd);
        if !ok { return None; }
      }
    }

    method ReadList(elem: Ty, size: nat) returns (r: Option<seq<Val>>)
      modifies this
      ensures match old(ReadElems(elem, size, [], buffer))
              case Fail => r.None?
              case Done(vs, rest) => r == Some(vs) && buffer == rest
      decreases |buffer|, 1
    {
      var vs, n := [], size;
      ghost var all := ReadElems(elem, size, [], buffer);
      while n > 0
        invariant 0 <= n && |buffer| <= |old(buffer)|
        invariant ReadElems(elem, n, vs, buffer) == all
      {
        var v := ReadValue(elem);
        if v.None? { return None; }
        vs, n := vs + [v.value], n - 1;
      }
      return Some(vs);
    }

    method ReadMap(value: Ty, size: nat) returns (r: Option<seq<Item>>)
      modifies this
      ensures match old(ReadEntries(value, size, [], buffer))
              case Fail => r.None?
              case Done(items, rest) => r == Some(items) && buffer == rest
      decreases |buffer|, 1
    {
      var items, n := [], size;
      ghost var all := ReadEntries(value, size, [], buffer);
      while n > 0
        invariant 0 <= n && |buffer| <= |old(buffer)|
        invariant ReadEntries(value, n, items, buffer) == all
      {
        if buffer == [] || !buffer[0].StringToken? { return None; }
        var key := buffer[0].s;
        buffer := buffer[1..];
        var v := ReadValue(value);
        if v.None? { return None; }
        items, n := Put(items, key, v.value), n - 1;
      }
      return Some(items);
    }

    /** `write`: the tokens are appended, one call at a time. */
    method WriteValue(ty: Ty, v: Val)
      requires HasType(ty, v)
      modifies this
      ensures buffer == old(buffer) + TokensOf(Written(ty, v))
      decreases v, 1
    {
      match v
      case VBool(b) => buffer := buffer + [BoolToken(b)];
      case VInt(n) => buffer := buffer + [IntToken(TagOf(ty), n)];
      case VDouble(r) => buffer := buffer + [DoubleToken(r)];
      case VString(s) => buffer := buffer + [StringToken(s)];
      case VObject(attrs) => WriteStruct(ty.spec, attrs);
      case VList(es) => WriteList(ty.elem, es);
      case VDict(items) => WriteMap(ty.value, items);
    }

    method WriteStruct(spec: seq<Field>, attrs: seq<Option<Val>>)
      requires Fits(spec, attrs)
      modifies this
      ensures buffer == old(buffer) + TokensOf(WStruct(WrittenFields(spec, attrs)))
      decreases attrs, 0
    {
      hide *;
      FitsLength(spec, attrs);
      StructTokens(buffer, spec, attrs);
      ghost var start := buffer + [StructBegin];
      buffer := buffer + [StructBegin];
      for i := 0 to |attrs|
        invariant buffer + RestTokens(spec, attrs, i) == start + RestTokens(spec, attrs, 0)
      {
        WriteAttribute(spec, attrs, i);
      }
      NothingLeft(buffer, spec, attrs);
      buffer := buffer + [FieldStop];
      buffer := buffer + [StructEnd];
    }

    /** One turn of the field loop: unset attributes are left out. */
    method WriteAttribute(spec: seq<Field>, attrs: seq<Option<Val>>, i: nat)
      requires Fits(spec, attrs) && i < |attrs|
      modifies this
      ensures buffer + RestTokens(spec, attrs, i + 1) == old(buffer) + RestTokens(spec, attrs, i)
      decreases attrs[i], 3
    {
      hide Written, WrittenFields, HasType, TokensOf, FieldTokens, Fits;
      FitsLength(spec, attrs);
      FitsFrom(spec, attrs, i);
      FitsFrom(spec, attrs, i + 1);
      WrittenFieldsAt(spec, attrs, i);
      if attrs[i].Some? {
        ghost var rest, before := WrittenFields(spec[i + 1..], attrs[i + 1..]), buffer;
        var v := attrs[i].value;
        assert v < attrs[i];
        WriteField(spec[i], v);
        WrittenTag(spec[i].ty, v);
        OneMoreField(before, WField(spec[i].id, Written(spec[i].ty, v)), rest);
      }
    }

    method WriteField(f: Field, v: Val)
      requires HasType(f.ty, v)
      modifies this
      ensures buffer == old(buffer) + [FieldBegin(TagOf(f.ty), f.id)] + TokensOf(Written(f.ty, v)) + [FieldEnd]
      decreases v, 2
    {
      buffer := buffer + [FieldBegin(TagOf(f.ty), f.id)];
      WriteValue(f.ty, v);
      buffer := buffer + [FieldEnd];
    }

    method WriteList(ty: Ty, es: seq<Val>)
      requires forall k :: 0 <= k < |es| ==> HasType(ty, es[k])
      modifies this
      ensures buffer == old(buffer) + TokensOf(WList(TagOf(ty), WrittenElems(ty, es)))
      decreases es, 0
    {
      hide Written, HasType;
      WrittenElemsLength(ty, es);
      ghost var start := buffer + [ListBegin(TagOf(ty), |es|)];
      buffer := buffer + [ListBegin(TagOf(ty), |es|)];
      var i := 0;
      assert es[0..] == es;
      while i < |es|
        invariant 0 <= i <= |es|
        invariant buffer + ElemTokens(WrittenElems(ty, es[i..])) == start + ElemTokens(WrittenElems(ty, es))
      {
        ghost var before, rest := buffer, WrittenElems(ty, es[i + 1..]);
        assert es[i..][1..] == es[i + 1..];
        WriteValue(ty, es[i]);
        OneMoreElem(before, Written(ty, es[i]), rest);
        i := i + 1;
      }
      assert buffer == start + ElemTokens(WrittenElems(ty, es));
      buffer := buffer + [ListEnd];
    }

    method WriteMap(ty: Ty, items: seq<Item>)
      requires forall k :: 0 <= k < |items| ==> HasTypeItem(ty, items[k])
      modifies this
      ensures buffer == old(buffer) + TokensOf(WMap(STRING, TagOf(ty), WrittenEntries(ty, items)))
      decreases items, 0
    {
      hide *;
      ghost var ws := WrittenEntries(ty, items);
      WrittenEntriesLength(ty, items);
      MapTokens(buffer, TagOf(ty), ws);
      ghost var start := buffer + [MapBegin(STRING, TagOf(ty), |items|)];
      buffer := buffer + [MapBegin(STRING, TagOf(ty), |items|)];
      assert items[0..] == items;
      for i := 0 to |items|
        invariant buffer + EntryTokens(WrittenEntries(ty, items[i..])) == start + EntryTokens(ws)
      {
        ghost var before, rest := buffer, WrittenEntries(ty, items[i + 1..]);
        NextEntry(ty, items, i);
        var v := items[i].value;
        assert v < items[i];
        buffer := buffer + [StringToken(items[i].key)];
        WriteValue(ty, v);
        OneMoreEntry(before, WEntry(WString(items[i].key), Written(ty, v)), rest);
      }
      NoMoreEntries(buffer, ty);
      assert items[|items|..] == [];
      buffer := buffer + [MapEnd];
    }
  }

  // ---------------------------------------------------------------- writer bookkeeping

  lemma WrittenTag(ty: Ty, v: Val)
    requires HasType(ty, v)
    ensures TypeOf(Written(ty, v)) == TagOf(ty)
  {
  }

  lemma FitsLength(spec: seq<Field>, attrs: seq<Option<Val>>)
    requires Fits(spec, attrs)
    ensures |spec| == |attrs|
  {
  }

  /** What is still to be written from attribute `i` on. */
  function RestTokens(spec: seq<Field>, attrs: seq<Option<Val>>, i: nat): seq<Token>
    requires Fits(spec, attrs) && i <= |attrs|
  {
    FitsLength(spec, attrs);
    FitsFrom(spec, attrs, i);
    FieldTokens(WrittenFields(spec[i..], attrs[i..]))
  }

  lemma NothingLeft(buffer: seq<Token>, spec: seq<Field>, attrs: seq<Option<Val>>)
    requires Fits(spec, attrs)
    ensures buffer + RestTokens(spec, attrs, |attrs|) == buffer
  {
    FitsLength(spec, attrs);
  }

  lemma StructTokens(before: seq<Token>, spec: seq<Field>, attrs: seq<Option<Val>>)
    requires Fits(spec, attrs)
    ensures before + TokensOf(WStruct(WrittenFields(spec, attrs)))
         == before + [StructBegin] + RestTokens(spec, attrs, 0) + [FieldStop] + [StructEnd]
  {
    hide WrittenFields, FieldTokens;
    FitsLength(spec, attrs);
    assert spec[0..] == spec && attrs[0..] == attrs;
  }

  lemma OneMoreField(before: seq<Token>, f: WField, rest: seq<WField>)
    ensures before + FieldTokens([f] + rest)
         == (before + [FieldBegin(TypeOf(f.value), f.id)] + TokensOf(f.value) + [FieldEnd]) + FieldTokens(rest)
  {
    hide TokensOf;
    assert ([f] + rest)[1..] == rest;
  }

  lemma OneMoreElem(before: seq<Token>, w: Wire, rest: seq<Wire>)
    ensures before + ElemTokens([w] + rest) == (before + TokensOf(w)) + ElemTokens(rest)
  {
    hide TokensOf;
    assert ([w] + rest)[1..] == rest;
  }

  lemma MapTokens(before: seq<Token>, t: TType, ws: seq<WEntry>)
    ensures before + TokensOf(WMap(STRING, t, ws))
         == before + [MapBegin(STRING, t, |ws|)] + EntryTokens(ws) + [MapEnd]
  {
    hide EntryTokens;
  }

  lemma NextEntry(ty: Ty, items: seq<Item>, i: nat)
    requires i < |items| && forall k :: 0 <= k < |items| ==> HasTypeItem(ty, items[k])
    ensures HasType(ty, items[i].value)
    ensures forall k :: 0 <= k < |items| - i ==> HasTypeItem(ty, items[i..][k])
    ensures WrittenEntries(ty, items[i..])
         == [WEntry(WString(items[i].key), Written(ty, items[i].value))] + WrittenEntries(ty, items[i + 1..])
  {
    hide Written, HasType;
    assert HasTypeItem(ty, items[i]) && items[i..][1..] == items[i + 1..];
  }

  lemma NoMoreEntries(before: seq<Token>, ty: Ty)
    ensures before + EntryTokens(WrittenEntries(ty, [])) == before
  {
  }

  lemma OneMoreEntry(before: seq<Token>, e: WEntry, rest: seq<WEntry>)
    requires e.key.WString?
    ensures before + EntryTokens([e] + rest)
         == (before + [StringToken(e.key.s)] + TokensOf(e.value)) + EntryTokens(rest)
  {
    assert ([e] + rest)[1..] == rest;
    assert TokensOf(e.key) == [StringToken(e.key.s)];
  }

  lemma {:induction false} WrittenElemsLength(ty: Ty, es: seq<Val>)
    requires forall k :: 0 <= k < |es| ==> HasType(ty, es[k])
    ensures |WrittenElems(ty, es)| == |es|
  {
    if es != [] { WrittenElemsLength(ty, es[1..]); }
  }

  lemma {:induction false} WrittenEntriesLength(ty: Ty, items: seq<Item>)
    requires forall k :: 0 <= k < |items| ==> HasTypeItem(ty, items[k])
    ensures |WrittenEntries(ty, items)| == |items|
  {
    if items != [] { WrittenEntriesLength(ty, items[1..]); }
  }

  /** An object written by one protocol object and read by another: the buffer is used up to
      exactly its end and the object comes back. */
  method WriteThenRead(ty: Ty, v: Val, rest: seq<Token>) returns (r: Option<Val>, left: seq<Token>)
    requires HasType(ty, v) && DistinctIds(ty)
    ensures r == Some(v) && left == rest
  {
    var p := new Protocol();
    p.WriteValue(ty, v);
    RoundTrip(ty, v, rest);
    assert [] + TokensOf(Written(ty, v)) == TokensOf(Written(ty, v));
    p.buffer := p.buffer + rest;
    r := p.ReadValue(ty);
    left := p.buffer;
  }

  // ---------------------------------------------------------------- the schemas

  const STRING_MAP := TyMap(TyString)

  const ERROR_DETAIL := TyStruct([Field(1, TyString), Field(2, TyString), Field(3, TyString), Field(4, STRING_MAP)])

  const DEBUG_INFO := TyStruct([Field(1, TyString), Field(2, TyString), Field(3, TyI64)])

  const RPC_ERROR := TyStruct([Field(1, TyI32), Field(2, TyString), Field(3, TyString),
                               Field(4, TyList(ERROR_DETAIL)), Field(5, DEBUG_INFO)])

  const TASK_PROGRESS := TyStruct([Field(1, TyI64), Field(2, TyI64), Field(3, TyString), Field(4, TyDouble)])

  const TASK_RECORD := TyStruct([Field(1, TyString), Field(2, TyString), Field(3, TyI32), Field(4, TyI32),
                                 Field(5, TyI64), Field(6, TyI64), Field(7, TyI64), Field(8, TyI64),
                                 Field(9, TyI32), Field(10, TyI32), Field(11, TyI64), Field(12, TyString),
                                 Field(13, RPC_ERROR), Field(14, TASK_PROGRESS), Field(15, STRING_MAP),
                                 Field(16, TyList(TyString))])

  lemma SchemasDistinct()
    ensures DistinctIds(RPC_ERROR) && DistinctIds(TASK_RECORD)
  {
    DistinctNested();
    hide DistinctIds;
    assert DistinctSpec(RPC_ERROR.spec);
    assert DistinctIds(RPC_ERROR) by { DistinctStruct(RPC_ERROR.spec); }
    assert DistinctSpec(TASK_RECORD.spec);
    assert DistinctIds(TASK_RECORD) by { DistinctStruct(TASK_RECORD.spec); }
  }

  lemma DistinctStruct(spec: seq<Field>)
    requires DistinctSpec(spec)
    ensures DistinctIds(TyStruct(spec))
  {
  }

  lemma DistinctNested()
    ensures DistinctIds(STRING_MAP) && DistinctIds(ERROR_DETAIL)
    ensures DistinctIds(DEBUG_INFO) && DistinctIds(TASK_PROGRESS)
    ensures DistinctIds(TyList(ERROR_DETAIL)) && DistinctIds(TyList(TyString))
    ensures DistinctIds(TyString) && DistinctIds(TyI32) && DistinctIds(TyI64)
  {
    assert DistinctIds(STRING_MAP);
    assert DistinctSpec(ERROR_DETAIL.spec) && DistinctSpec(DEBUG_INFO.spec) && DistinctSpec(TASK_PROGRESS.spec);
  }

  datatype ErrorDetail = ErrorDetail(kind: Option<string>, field: Option<string>, reason: Option<string>,
                                     metadata: Option<seq<(string, string)>>)

  datatype DebugInfo = DebugInfo(stackTrace: Option<string>, internalMessage: Option<string>, timestampMs: Option<int>)

  datatype RpcError = RpcError(code: Option<int>, name: Option<string>, message: Option<string>,
                               details: Option<seq<ErrorDetail>>, debug: Option<DebugInfo>)

  function OptString(s: Option<string>): Option<Val> { if s.None? then None else Some(VString(s.value)) }

  function OptInt(n: Option<int>): Option<Val> { if n.None? then None else Some(VInt(n.value)) }

  function DetailObject(d: ErrorDetail): Val {
    VObject([OptString(d.kind), OptString(d.field), OptString(d.reason),
             if d.metadata.None? then None
             else Some(VDict(seq(|d.metadata.value|, k requires 0 <= k < |d.metadata.value| =>
                                                       Item(d.metadata.value[k].0, VString(d.metadata.value[k].1)))))])
  }

  function DebugObject(d: DebugInfo): Val {
    VObject([OptString(d.stackTrace), OptString(d.internalMessage), OptInt(d.timestampMs)])
  }

  function ErrorObject(e: RpcError): Val {
    VObject([OptInt(e.code), OptString(e.name), OptString(e.message),
             if e.details.None? then None
             else
               var ds := e.details.value;
               Some(VList(seq(|ds|, k requires 0 <= k < |ds| => DetailObject(ds[k])))),
             if e.debug.None? then None else Some(DebugObject(e.debug.value))])
  }

  /** Metadata dicts have distinct keys. */
  predicate ProperDict(d: ErrorDetail) {
    d.metadata.Some? ==>
      forall j, k :: 0 <= j < k < |d.metadata.value| ==> d.metadata.value[j].0 != d.metadata.value[k].0
  }

  predicate Proper(e: RpcError) {
    e.details.Some? ==> forall k :: 0 <= k < |e.details.value| ==> ProperDict(e.details.value[k])
  }

  /** What `RpcError.write` puts on the wire. */
  function WrittenError(e: RpcError): Wire
    requires Proper(e)
  {
    ErrorHasType(e);
    Written(RPC_ERROR, ErrorObject(e))
  }

  // ---------------------------------------------------------------- the error on the wire

  function StringField(id: int, s: Option<string>): seq<WField> {
    if s.None? then [] else [WField(id, WString(s.value))]
  }

  function IntField(id: int, t: TType, n: Option<int>): seq<WField> {
    if n.None? then [] else [WField(id, WInt(t, n.value))]
  }

  function WireOfMetadata(m: seq<(string, string)>): Wire {
    WMap(STRING, STRING, seq(|m|, k requires 0 <= k < |m| => WEntry(WString(m[k].0), WString(m[k].1))))
  }

  function WireOfDetail(d: ErrorDetail): Wire {
    WStruct(StringField(1, d.kind) + StringField(2, d.field) + StringField(3, d.reason)
            + if d.metadata.None? then [] else [WField(4, WireOfMetadata(d.metadata.value))])
  }

  function WireOfDebug(d: DebugInfo): Wire {
    WStruct(StringField(1, d.stackTrace) + StringField(2, d.internalMessage) + IntField(3, I64, d.timestampMs))
  }

  function WireOfDetails(ds: seq<ErrorDetail>): Wire {
    WList(STRUCT, seq(|ds|, k requires 0 <= k < |ds| => WireOfDetail(ds[k])))
  }

  /** An error attribute by attribute: the id and the type each goes under. */
  function WireOfError(e: RpcError): Wire {
    WStruct(IntField(1, I32, e.code) + StringField(2, e.name) + StringField(3, e.message)
            + (if e.details.None? then [] else [WField(4, WireOfDetails(e.details.value))])
            + if e.debug.None? then [] else [WField(5, WireOfDebug(e.debug.value))])
  }

  function OneField(f: Field, a: Option<Val>): seq<WField>
    requires a.Some? ==> HasType(f.ty, a.value)
  {
    if a.None? then [] else [WField(f.id, Written(f.ty, a.value))]
  }

  lemma FirstField(spec: seq<Field>, attrs: seq<Option<Val>>)
    requires Fits(spec, attrs) && attrs != []
    ensures |spec| == |attrs| && Fits(spec[1..], attrs[1..])
    ensures attrs[0].Some? ==> HasType(spec[0].ty, attrs[0].value)
    ensures WrittenFields(spec, attrs) == OneField(spec[0], attrs[0]) + WrittenFields(spec[1..], attrs[1..])
  {
    FitsLength(spec, attrs);
    FitsFrom(spec, attrs, 0);
    FitsFrom(spec, attrs, 1);
    assert spec[0..] == spec && attrs[0..] == attrs;
    WrittenFieldsAt(spec, attrs, 0);
    hide Written, WrittenFields, HasType;
  }

  lemma DetailHasType(d: ErrorDetail)
    requires ProperDict(d)
    ensures HasType(ERROR_DETAIL, DetailObject(d))
  {
    var attrs := DetailObject(d).attrs;
    assert HasTypeOpt(TyString, attrs[0]) && HasTypeOpt(TyString, attrs[1]) && HasTypeOpt(TyString, attrs[2]);
    if d.metadata.Some? {
      var items := attrs[3].value.items;
      assert forall k :: 0 <= k < |items| ==> HasTypeItem(TyString, items[k]);
      assert HasType(STRING_MAP, attrs[3].value);
    }
    assert HasTypeOpt(STRING_MAP, attrs[3]);
  }

  lemma ErrorHasType(e: RpcError)
    requires Proper(e)
    ensures HasType(RPC_ERROR, ErrorObject(e))
  {
    var attrs := ErrorObject(e).attrs;
    assert HasTypeOpt(TyI32, attrs[0]) && HasTypeOpt(TyString, attrs[1]) && HasTypeOpt(TyString, attrs[2]);
    if e.details.Some? {
      forall k | 0 <= k < |e.details.value| ensures HasType(ERROR_DETAIL, attrs[3].value.elems[k]) {
        DetailHasType(e.details.value[k]);
      }
    }
    assert HasTypeOpt(TyList(ERROR_DETAIL), attrs[3]);
    if e.debug.Some? {
      var d := DebugObject(e.debug.value).attrs;
      assert HasTypeOpt(TyString, d[0]) && HasTypeOpt(TyString, d[1]) && HasTypeOpt(TyI64, d[2]);
    }
    assert HasTypeOpt(DEBUG_INFO, attrs[4]);
  }

  /** No two errors have the same attributes. */
  lemma ErrorObjectIsFaithful(a: RpcError, b: RpcError)
    requires ErrorObject(a) == ErrorObject(b)
    ensures a == b
  {
    var x, y := ErrorObject(a).attrs, ErrorObject(b).attrs;
    assert x[0] == OptInt(a.code) && x[1] == OptString(a.name) && x[2] == OptString(a.message);
    assert y[0] == OptInt(b.code) && y[1] == OptString(b.name) && y[2] == OptString(b.message);
    assert a.code == b.code && a.name == b.name && a.message == b.message;
    assert a.details.Some? == x[3].Some? && b.details.Some? == y[3].Some?;
    assert a.debug.Some? == x[4].Some? && b.debug.Some? == y[4].Some?;
    if a.details.Some? {
      var p, q := a.details.value, b.details.value;
      assert |p| == |x[3].value.elems| == |q|;
      forall k | 0 <= k < |p| ensures p[k] == q[k] {
        assert x[3].value.elems[k] == DetailObject(p[k]) && y[3].value.elems[k] == DetailObject(q[k]);
        DetailObjectIsFaithful(p[k], q[k]);
      }
      assert p == q;
    }
    if a.debug.Some? {
      var p, q := DebugObject(a.debug.value).attrs, DebugObject(b.debug.value).attrs;
      assert p[0] == q[0] && p[1] == q[1] && p[2] == q[2];
    }
  }

  lemma DetailObjectIsFaithful(a: ErrorDetail, b: ErrorDetail)
    requires DetailObject(a) == DetailObject(b)
    ensures a == b
  {
    var x, y := DetailObject(a).attrs, DetailObject(b).attrs;
    assert x[0] == y[0] && x[1] == y[1] && x[2] == y[2] && x[3] == y[3];
    if a.metadata.Some? {
      var p, q := a.metadata.value, b.metadata.value;
      assert |p| == |x[3].value.items| == |q|;
      forall k | 0 <= k < |p| ensures p[k] == q[k] {
        assert x[3].value.items[k] == Item(p[k].0, VString(p[k].1));
        assert y[3].value.items[k] == Item(q[k].0, VString(q[k].1));
      }
      assert p == q;
    }
  }

  lemma {:induction false} ElemsWritten(ty: Ty, es: seq<Val>)
    requires forall k :: 0 <= k < |es| ==> HasType(ty, es[k])
    ensures |WrittenElems(ty, es)| == |es|
    ensures forall k :: 0 <= k < |es| ==> WrittenElems(ty, es)[k] == Written(ty, es[k])
  {
    hide Written, HasType;
    if es != [] { ElemsWritten(ty, es[1..]); }
  }

  lemma {:induction false} EntriesWritten(ty: Ty, items: seq<Item>)
    requires forall k :: 0 <= k < |items| ==> HasTypeItem(ty, items[k])
    ensures |WrittenEntries(ty, items)| == |items|
    ensures forall k :: 0 <= k < |items| ==>
              && HasType(ty, items[k].value)
              && WrittenEntries(ty, items)[k] == WEntry(WString(items[k].key), Written(ty, items[k].value))
  {
    hide Written, HasType;
    forall k | 0 <= k < |items| ensures HasType(ty, items[k].value) { assert HasTypeItem(ty, items[k]); }
    if items != [] { EntriesWritten(ty, items[1..]); }
  }

  /** No field is left when no attribute is. */
  lemma NoField(spec: seq<Field>, attrs: seq<Option<Val>>)
    requires Fits(spec, attrs) && attrs == []
    ensures WrittenFields(spec, attrs) == []
  {
  }

  lemma MetadataWritten(d: ErrorDetail)
    requires ProperDict(d) && d.metadata.Some?
    ensures var v := DetailObject(d).attrs[3].value;
      HasType(STRING_MAP, v) && Written(STRING_MAP, v) == WireOfMetadata(d.metadata.value)
  {
    DetailHasType(d);
    var attrs := DetailObject(d).attrs;
    assert HasTypeOpt(STRING_MAP, attrs[3]);
    var items := attrs[3].value.items;
    EntriesWritten(TyString, items);
    var ws := WrittenEntries(TyString, items);
    forall k | 0 <= k < |items|
      ensures ws[k] == WEntry(WString(d.metadata.value[k].0), WString(d.metadata.value[k].1)) {}
    assert WMap(STRING, STRING, ws) == WireOfMetadata(d.metadata.value);
  }

  lemma DetailWritten(d: ErrorDetail)
    requires ProperDict(d)
    ensures HasType(ERROR_DETAIL, DetailObject(d)) && Written(ERROR_DETAIL, DetailObject(d)) == WireOfDetail(d)
  {
    DetailHasType(d);
    if d.metadata.Some? { MetadataWritten(d); }
    var spec, attrs := ERROR_DETAIL.spec, DetailObject(d).attrs;
    StringWritten(1, d.kind);
    StringWritten(2, d.field);
    StringWritten(3, d.reason);
    hide WrittenFields, HasType, Fits, Written, HasTypeOpt, OptString, StringField;
    StructIs(spec, attrs);
    FourFields(spec, attrs);
  }

  lemma ThreeFields(spec: seq<Field>, attrs: seq<Option<Val>>)
    requires Fits(spec, attrs) && |attrs| == 3 == |spec|
    ensures forall k :: 0 <= k < 3 && attrs[k].Some? ==> HasType(spec[k].ty, attrs[k].value)
    ensures WrittenFields(spec, attrs)
         == OneField(spec[0], attrs[0]) + OneField(spec[1], attrs[1]) + OneField(spec[2], attrs[2])
  {
    hide WrittenFields, HasType, Fits, OneField;
    FirstField(spec, attrs);
    FirstField(spec[1..], attrs[1..]);
    FirstField(spec[1..][1..], attrs[1..][1..]);
    NoField(spec[1..][1..][1..], attrs[1..][1..][1..]);
  }

  lemma FourFields(spec: seq<Field>, attrs: seq<Option<Val>>)
    requires Fits(spec, attrs) && |attrs| == 4 == |spec|
    ensures forall k :: 0 <= k < 4 && attrs[k].Some? ==> HasType(spec[k].ty, attrs[k].value)
    ensures WrittenFields(spec, attrs)
         == OneField(spec[0], attrs[0]) + OneField(spec[1], attrs[1]) + OneField(spec[2], attrs[2])
            + OneField(spec[3], attrs[3])
  {
    hide WrittenFields, HasType, Fits, OneField;
    FirstField(spec, attrs);
    ThreeFields(spec[1..], attrs[1..]);
  }

  lemma FiveFields(spec: seq<Field>, attrs: seq<Option<Val>>)
    requires Fits(spec, attrs) && |attrs| == 5 == |spec|
    ensures forall k :: 0 <= k < 5 && attrs[k].Some? ==> HasType(spec[k].ty, attrs[k].value)
    ensures WrittenFields(spec, attrs)
         == OneField(spec[0], attrs[0]) + OneField(spec[1], attrs[1]) + OneField(spec[2], attrs[2])
            + OneField(spec[3], attrs[3]) + OneField(spec[4], attrs[4])
  {
    hide WrittenFields, HasType, Fits, OneField;
    FirstField(spec, attrs);
    FourFields(spec[1..], attrs[1..]);
  }

  lemma StringWritten(id: int, s: Option<string>)
    ensures HasTypeOpt(TyString, OptString(s))
    ensures OneField(Field(id, TyString), OptString(s)) == StringField(id, s)
  {
  }

  lemma IntWritten(id: int, ty: Ty, n: Option<int>)
    requires ty == TyI32 || ty == TyI64
    ensures HasTypeOpt(ty, OptInt(n))
    ensures OneField(Field(id, ty), OptInt(n)) == IntField(id, TagOf(ty), n)
  {
  }

  lemma DebugHasType(d: DebugInfo)
    ensures HasType(DEBUG_INFO, DebugObject(d))
  {
    var attrs := DebugObject(d).attrs;
    assert HasTypeOpt(TyString, attrs[0]) && HasTypeOpt(TyString, attrs[1]) && HasTypeOpt(TyI64, attrs[2]);
  }

  lemma StructIs(spec: seq<Field>, attrs: seq<Option<Val>>)
    requires HasType(TyStruct(spec), VObject(attrs))
    ensures Fits(spec, attrs) && Written(TyStruct(spec), VObject(attrs)) == WStruct(WrittenFields(spec, attrs))
  {
  }

  lemma DebugWritten(d: DebugInfo)
    ensures HasType(DEBUG_INFO, DebugObject(d)) && Written(DEBUG_INFO, DebugObject(d)) == WireOfDebug(d)
  {
    DebugHasType(d);
    var spec, attrs := DEBUG_INFO.spec, DebugObject(d).attrs;
    StringWritten(1, d.stackTrace);
    StringWritten(2, d.internalMessage);
    IntWritten(3, TyI64, d.timestampMs);
    hide WrittenFields, HasType, Fits, Written, OneField, HasTypeOpt, OptString, OptInt, StringField, IntField;
    StructIs(spec, attrs);
    ThreeFields(spec, attrs);
  }

  lemma DetailsWritten(e: RpcError)
    requires Proper(e) && e.details.Some?
    ensures var v := ErrorObject(e).attrs[3].value;
      HasType(TyList(ERROR_DETAIL), v) && Written(TyList(ERROR_DETAIL), v) == WireOfDetails(e.details.value)
  {
    var ds, v := e.details.value, ErrorObject(e).attrs[3].value;
    forall k | 0 <= k < |ds|
      ensures HasType(ERROR_DETAIL, v.elems[k]) && Written(ERROR_DETAIL, v.elems[k]) == WireOfDetail(ds[k])
    {
      DetailWritten(ds[k]);
    }
    hide WireOfDetail, DetailObject, ERROR_DETAIL;
    ElemsWritten(ERROR_DETAIL, v.elems);
    DetailTag();
    assert WrittenElems(ERROR_DETAIL, v.elems)
        == seq(|ds|, k requires 0 <= k < |ds| => WireOfDetail(ds[k]));
  }

  lemma DetailTag()
    ensures TagOf(ERROR_DETAIL) == STRUCT
  {
  }

  /** What an error is on the wire, attribute by attribute: `code` goes as an I32 under 1, `name` and
      `message` as strings under 2 and 3, `details` as a list of structs under 4 and `debug` as a
      struct under 5, with their own attributes alike; an attribute that is not set does not go. */
  lemma WrittenErrorIs(e: RpcError)
    requires Proper(e)
    ensures WrittenError(e) == WireOfError(e)
  {
    ErrorHasType(e);
    if e.details.Some? { DetailsWritten(e); }
    if e.debug.Some? { DebugWritten(e.debug.value); }
    var spec, attrs := RPC_ERROR.spec, ErrorObject(e).attrs;
    IntWritten(1, TyI32, e.code);
    StringWritten(2, e.name);
    StringWritten(3, e.message);
    hide WrittenFields, HasType, Fits, Written, HasTypeOpt, OptString, OptInt, StringField, IntField;
    hide WireOfDetails, WireOfDebug, DebugObject, DetailObject, Proper, TagOf;
    TagOfInt();
    StructIs(spec, attrs);
    FiveFields(spec, attrs);
  }

  lemma TagOfInt()
    ensures TagOf(TyI32) == I32
  {
  }

  /** RpcError, with nested details, metadata dicts and debug info: read after write restores
      it, also when fields the reader does not know were inserted at any depth. */
  lemma RpcErrorReadsBack(e: RpcError, w: Wire, rest: seq<Token>)
    requires Proper(e) && WellTyped(w) && Known(RPC_ERROR, w) == WrittenError(e)
    ensures ReadVal(RPC_ERROR, TokensOf(WrittenError(e)) + rest) == Done(ErrorObject(e), rest)
    ensures ReadVal(RPC_ERROR, TokensOf(w) + rest) == Done(ErrorObject(e), rest)
  {
    ErrorHasType(e);
    SchemasDistinct();
    RoundTrip(RPC_ERROR, ErrorObject(e), rest);
    ReadsBackWithExtraFields(RPC_ERROR, ErrorObject(e), w, rest);
  }

  /** The limit of what is skipped. To an error without details, add a list under their id, of any
      elements: it is never skipped, for the error is not read as it would be without it. Over these
      tokens it makes the reader fail exactly when some element is not a detail. */
  lemma WrongElementTypeIsNotSkipped(fs: seq<WField>, k: nat, l: Wire, rest: seq<Token>)
    requires WellTyped(WStruct(fs)) && FieldsConform(RPC_ERROR.spec, fs) && k <= |fs|
    requires forall j :: 0 <= j < |fs| ==> !(fs[j].id == 4 && fs[j].value.WList?)
    requires l.WList? && WellTyped(l)
    ensures var gs := With(fs, k, WField(4, l));
      && ReadVal(RPC_ERROR, TokensOf(WStruct(gs)) + rest) != ReadVal(RPC_ERROR, TokensOf(WStruct(fs)) + rest)
      && (ReadVal(RPC_ERROR, TokensOf(WStruct(gs)) + rest) == Fail <==> !ElemsConform(ERROR_DETAIL, l.elems))
  {
    var spec, f := RPC_ERROR.spec, WField(4, l);
    FindOwnFourth(spec);
    DetailsExpected();
    hide ReadVal, TokensOf, FieldsConform, ElemsConform, RPC_ERROR, With;
    forall j | 0 <= j < |fs| ensures !Sets(spec, fs[j], 3) {
      if fs[j].id != 4 { OtherId(spec, fs[j].id, 3); }
    }
    SkippedExactly(spec, fs, k, f, rest);
    SetExactly(spec, With(fs, k, f), rest, 3);
    OneMoreConforms(spec, fs, k, f);
  }

  lemma DetailsExpected()
    ensures |RPC_ERROR.spec| == 5 && RPC_ERROR.spec[3] == Field(4, TyList(ERROR_DETAIL)) && RPC_ERROR.TyStruct?
  {
  }

  lemma OtherId(spec: seq<Field>, id: int, i: nat)
    requires i < |spec| && spec[i].id != id
    ensures Find(spec, id) != Some(i)
  {
  }

  lemma OneMoreConforms(spec: seq<Field>, fs: seq<WField>, k: nat, f: WField)
    requires k <= |fs| && FieldsConform(spec, fs)
    ensures FieldsConform(spec, With(fs, k, f)) <==> ConformsField(spec, f)
  {
    hide ConformsField;
    WithHolds(fs, k, f);
  }

  lemma FindOwnFourth(spec: seq<Field>)
    requires |spec| > 3 && spec[3].id == 4 && spec[0].id != 4 && spec[1].id != 4 && spec[2].id != 4
    ensures Find(spec, 4) == Some(3)
  {
    assert spec[1..][1..][1..][0] == spec[3] && spec[1..][0] == spec[1] && spec[1..][1..][0] == spec[2];
    assert Find(spec[1..][1..][1..], 4) == Some(0);
    assert Find(spec[1..][1..], 4) == Some(1);
    assert Find(spec[1..], 4) == Some(2);
  }
}
