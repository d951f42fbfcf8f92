/**
 Thrift values on the wire, as the tokens a protocol object produces and consumes, and the
 generic `skip`. A wire value describes itself; a reader may know more or less about it.
 */
module ThriftWire {
  import opened Wrappers

  datatype TType = BOOL | BYTE | I16 | I32 | I64 | DOUBLE | STRING | STRUCT | MAP | SET | LIST

  datatype Token =
    | StructBegin
    | StructEnd
    | FieldBegin(ftype: TType, id: int)
    | FieldEnd
    | FieldStop
    | ListBegin(etype: TType, size: nat)
    | ListEnd
    | SetBegin(etype: TType, size: nat)
    | SetEnd
    | MapBegin(ktype: TType, vtype: TType, size: nat)
    | MapEnd
    | BoolToken(b: bool)
    | IntToken(itype: TType, n: int)
    | DoubleToken(r: real)
    | StringToken(s: string)

  datatype Wire =
    | WBool(b: bool)
    | WInt(itype: TType, n: int)
    | WDouble(r: real)
    | WString(s: string)
    | WStruct(fields: seq<WField>)
    | WList(etype: TType, elems: seq<Wire>)
    | WSet(etype: TType, elems: seq<Wire>)
    | WMap(ktype: TType, vtype: TType, entries: seq<WEntry>)

  datatype WField = WField(id: int, value: Wire)

  datatype WEntry = WEntry(key: Wire, value: Wire)

  function TypeOf(w: Wire): TType {
    match w
    case WBool(_) => BOOL
    case WInt(t, _) => t
    case WDouble(_) => DOUBLE
    case WString(_) => STRING
    case WStruct(_) => STRUCT
    case WList(_, _) => LIST
    case WSet(_, _) => SET
    case WMap(_, _, _) => MAP
  }

  predicate IntType(t: TType) { t.BYTE? || t.I16? || t.I32? || t.I64? }

  /** Declared element, key and value types are the real ones. */
  predicate WellTyped(w: Wire) {
    match w
    case WInt(t, _) => IntType(t)
    case WStruct(fs) => forall k :: 0 <= k < |fs| ==> WellTyped(fs[k].value)
    case WList(t, es) => forall k :: 0 <= k < |es| ==> TypeOf(es[k]) == t && WellTyped(es[k])
    case WSet(t, es) => forall k :: 0 <= k < |es| ==> TypeOf(es[k]) == t && WellTyped(es[k])
    case WMap(kt, vt, es) =>
      forall k :: 0 <= k < |es| ==>
        TypeOf(es[k].key) == kt && WellTyped(es[k].key) && TypeOf(es[k].value) == vt && WellTyped(es[k].value)
    case _ => true
  }

  function TokensOf(w: Wire): seq<Token> {
    match w
    case WBool(b) => [BoolToken(b)]
    case WInt(t, n) => [IntToken(t, n)]
    case WDouble(r) => [DoubleToken(r)]
    case WString(s) => [StringToken(s)]
    case WStruct(fs) => [StructBegin] + FieldTokens(fs) + [FieldStop, StructEnd]
    case WList(t, es) => [ListBegin(t, |es|)] + ElemTokens(es) + [ListEnd]
    case WSet(t, es) => [SetBegin(t, |es|)] + ElemTokens(es) + [SetEnd]
    case WMap(kt, vt, es) => [MapBegin(kt, vt, |es|)] + EntryTokens(es) + [MapEnd]
  }

  function FieldTokens(fs: seq<WField>): seq<Token> {
    if fs == [] then []
    else
      assert fs[0].value < fs[0];
      [FieldBegin(TypeOf(fs[0].value), fs[0].id)] + TokensOf(fs[0].value) + [FieldEnd] + FieldTokens(fs[1..])
  }

  function ElemTokens(es: seq<Wire>): seq<Token> {
    if es == [] then [] else TokensOf(es[0]) + ElemTokens(es[1..])
  }

  function EntryTokens(es: seq<WEntry>): seq<Token> {
    if es == [] then []
    else
      assert es[0].key < es[0] && es[0].value < es[0];
      TokensOf(es[0].key) + TokensOf(es[0].value) + EntryTokens(es[1..])
  }

  // ---------------------------------------------------------------- skipping

  /** `iprot.skip`: what is left of the stream, or None if the stream does not fit the type. */
  function Skip(t: TType, toks: seq<Token>): (r: Option<seq<Token>>)
    ensures r.Some? ==> |r.value| < |toks|
    decreases |toks|, 0
  {
    if toks == [] then None
    else
      var hd, tl := toks[0], toks[1..];
      match t
      case BOOL => if hd.BoolToken? then Some(tl) else None
      case DOUBLE => if hd.DoubleToken? then Some(tl) else None
      case STRING => if hd.StringToken? then Some(tl) else None
      case STRUCT => if hd.StructBegin? then SkipFields(tl) else None
      case LIST => if hd.ListBegin? then Expect(ListEnd, SkipElems(hd.etype, hd.size, tl)) else None
      case SET => if hd.SetBegin? then Expect(SetEnd, SkipElems(hd.etype, hd.size, tl)) else None
      case MAP => if hd.MapBegin? then Expect(MapEnd, SkipEntries(hd.ktype, hd.vtype, hd.size, tl)) else None
      case _ => if hd.IntToken? && hd.itype == t then Some(tl) else None
  }

  function Expect(tok: Token, toks: Option<seq<Token>>): (r: Option<seq<Token>>)
    ensures r.Some? ==> toks.Some? && |r.value| < |toks.value|
  {
    if toks.Some? && toks.value != [] && toks.value[0] == tok then Some(toks.value[1..]) else None
  }

  function SkipFields(toks: seq<Token>): (r: Option<seq<Token>>)
    ensures r.Some? ==> |r.value| < |toks|
    decreases |toks|, 1
  {
    if toks == [] then None
    else if toks[0].FieldStop? then Expect(StructEnd, Some(toks[1..]))
    else if toks[0].FieldBegin? then
      var next := Expect(FieldEnd, Skip(toks[0].ftype, toks[1..]));
      if next.Some? then SkipFields(next.value) else None
    else None
  }

  function SkipElems(t: TType, n: nat, toks: seq<Token>): (r: Option<seq<Token>>)
    ensures r.Some? ==> |r.value| <= |toks|
    decreases |toks|, 1
  {
    if n == 0 then Some(toks)
    else
      var next := Skip(t, toks);
      if next.Some? then SkipElems(t, n - 1, next.value) else None
  }

  function SkipEntries(kt: TType, vt: TType, n: nat, toks: seq<Token>): (r: Option<seq<Token>>)
    ensures r.Some? ==> |r.value| <= |toks|
    decreases |toks|, 1
  {
    if n == 0 then Some(toks)
    else
      var k := Skip(kt, toks);
      if k.None? then None
      else
        var v := Skip(vt, k.value);
        if v.Some? then SkipEntries(kt, vt, n - 1, v.value) else None
  }

  // ---------------------------------------------------------------- heads and tails

  const STRUCT_END := [FieldStop, StructEnd]

  lemma StructShape(fs: seq<WField>, rest: seq<Token>)
    ensures var toks := TokensOf(WStruct(fs)) + rest;
      toks != [] && toks[0] == StructBegin && toks[1..] == FieldTokens(fs) + (STRUCT_END + rest)
  {
  }

  lemma CollectionShape(w: Wire, rest: seq<Token>)
    requires w.WList? || w.WSet? || w.WMap?
    ensures var toks := TokensOf(w) + rest;
      toks != [] && toks[0] == TokensOf(w)[0]
      && toks[1..] == match w
                      case WList(_, es) => ElemTokens(es) + ([ListEnd] + rest)
                      case WSet(_, es) => ElemTokens(es) + ([SetEnd] + rest)
                      case WMap(_, _, es) => EntryTokens(es) + ([MapEnd] + rest)
  {
  }

  lemma FieldShape(fs: seq<WField>, rest: seq<Token>)
    ensures var toks := FieldTokens(fs) + (STRUCT_END + rest);
      && toks != []
      && if fs == [] then toks[0] == FieldStop && Expect(StructEnd, Some(toks[1..])) == Some(rest)
         else
           && toks[0] == FieldBegin(TypeOf(fs[0].value), fs[0].id)
           && toks[1..] == TokensOf(fs[0].value) + ([FieldEnd] + (FieldTokens(fs[1..]) + (STRUCT_END + rest)))
  {
    if fs == [] {
      assert FieldTokens(fs) + (STRUCT_END + rest) == [FieldStop] + ([StructEnd] + rest);
    } else {
      var v := fs[0].value;
      Regroup(FieldBegin(TypeOf(v), fs[0].id), TokensOf(v), FieldEnd, FieldTokens(fs[1..]), STRUCT_END + rest);
    }
  }

  lemma Regroup(head: Token, a: seq<Token>, m: Token, b: seq<Token>, c: seq<Token>)
    ensures var all := ([head] + a + [m] + b) + c;
      all[0] == head && all[1..] == a + ([m] + (b + c))
  {
  }

  lemma ElemShape(es: seq<Wire>, rest: seq<Token>)
    ensures if es == [] then ElemTokens(es) + rest == rest
            else ElemTokens(es) + rest == TokensOf(es[0]) + (ElemTokens(es[1..]) + rest)
  {
  }

  lemma EntryShape(es: seq<WEntry>, rest: seq<Token>)
    ensures if es == [] then EntryTokens(es) + rest == rest
            else EntryTokens(es) + rest == TokensOf(es[0].key) + (TokensOf(es[0].value) + (EntryTokens(es[1..]) + rest))
  {
  }

  lemma ExpectHead(tok: Token, rest: seq<Token>)
    ensures Expect(tok, Some([tok] + rest)) == Some(rest)
  {
  }

  // ---------------------------------------------------------------- skipping is exact

  /** Skipping consumes exactly one value, of any type and depth. */
  lemma {:induction false} SkipIsExact(w: Wire, rest: seq<Token>)
    requires WellTyped(w)
    ensures Skip(TypeOf(w), TokensOf(w) + rest) == Some(rest)
    decreases w
  {
    hide FieldTokens, ElemTokens, EntryTokens, SkipFields, SkipElems, SkipEntries, Expect;
    match w
    case WStruct(fs) =>
      StructShape(fs, rest);
      SkipFieldsIsExact(fs, rest);
    case WList(t, es) =>
      CollectionShape(w, rest);
      SkipElemsIsExact(t, es, [ListEnd] + rest);
      ExpectHead(ListEnd, rest);
    case WSet(t, es) =>
      CollectionShape(w, rest);
      SkipElemsIsExact(t, es, [SetEnd] + rest);
      ExpectHead(SetEnd, rest);
    case WMap(kt, vt, es) =>
      CollectionShape(w, rest);
      SkipEntriesIsExact(kt, vt, es, [MapEnd] + rest);
      ExpectHead(MapEnd, rest);
    case _ =>
  }

  lemma {:induction false} SkipFieldsIsExact(fs: seq<WField>, rest: seq<Token>)
    requires forall k :: 0 <= k < |fs| ==> WellTyped(fs[k].value)
    ensures SkipFields(FieldTokens(fs) + (STRUCT_END + rest)) == Some(rest)
    decreases fs
  {
    hide FieldTokens, TokensOf, Skip, Expect;
    FieldShape(fs, rest);
    if fs != [] {
      var v := fs[0].value;
      assert v < fs[0];
      var after := FieldTokens(fs[1..]) + (STRUCT_END + rest);
      SkipIsExact(v, [FieldEnd] + after);
      ExpectHead(FieldEnd, after);
      SkipFieldsIsExact(fs[1..], rest);
    }
  }

  lemma {:induction false} SkipElemsIsExact(t: TType, es: seq<Wire>, rest: seq<Token>)
    requires forall k :: 0 <= k < |es| ==> TypeOf(es[k]) == t && WellTyped(es[k])
    ensures SkipElems(t, |es|, ElemTokens(es) + rest) == Some(rest)
    decreases es
  {
    hide ElemTokens, TokensOf, Skip;
    ElemShape(es, rest);
    if es != [] {
      SkipIsExact(es[0], ElemTokens(es[1..]) + rest);
      SkipElemsIsExact(t, es[1..], rest);
    }
  }

  lemma {:induction false} SkipEntriesIsExact(kt: TType, vt: TType, es: seq<WEntry>, rest: seq<Token>)
    requires forall k :: 0 <= k < |es| ==>
               TypeOf(es[k].key) == kt && WellTyped(es[k].key) && TypeOf(es[k].value) == vt && WellTyped(es[k].value)
    ensures SkipEntries(kt, vt, |es|, EntryTokens(es) + rest) == Some(rest)
    decreases es
  {
    hide EntryTokens, TokensOf, Skip;
    EntryShape(es, rest);
    if es != [] {
      var k, v := es[0].key, es[0].value;
      assert k < es[0] && v < es[0];
      var after := EntryTokens(es[1..]) + rest;
      SkipIsExact(k, TokensOf(v) + after);
      SkipIsExact(v, after);
      SkipEntriesIsExact(kt, vt, es[1..], rest);
    }
  }
}
