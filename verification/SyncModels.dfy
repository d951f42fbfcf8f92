/**
 Synchronising a model class with its proto message: finding the class block and the start
 of its body, dropping and re-emitting field lines, and when a second run finds nothing left to
 do. A source line is abstracted to what the script looks at in it.
 */
module SyncModels {
  import opened Wrappers

  datatype Quote = Triple | TripleSingle

  datatype Kind =
    | Header(name: string)     // starts with "class "
    | Blank
    | FieldLine(name: string)  // four blanks, an identifier, a colon
    | Plain

  /** `opens`: the stripped line starts with a docstring quote; the counts are of each quote. */
  datatype Line = Line(kind: Kind, opens: Option<Quote>, triples: nat, singles: nat, text: string)

  function Count(l: Line, q: Quote): nat { if q.Triple? then l.triples else l.singles }

  /** What holds of any line of text. */
  predicate Proper(l: Line) {
    && (l.kind.Blank? ==> l.triples == 0 && l.singles == 0)
    && (!l.kind.Plain? ==> l.opens.None?)
    && (l.opens.Some? ==> Count(l, l.opens.value) >= 1)
    && (l.kind.FieldLine? ==> Identifier(l.kind.name))
  }

  /** A proto field as the renderer needs it. */
  datatype ProtoField = ProtoField(name: string, hint: string, optional: bool)

  predicate LetterOrUnderscore(c: char) { 'a' <= c <= 'z' || 'A' <= c <= 'Z' || c == '_' }

  predicate NameChar(c: char) { LetterOrUnderscore(c) || '0' <= c <= '9' }

  /** The proto parser accepts any of these as a name; the field pattern only identifiers. */
  predicate ProtoName(name: string) { name != "" && forall k :: 0 <= k < |name| ==> NameChar(name[k]) }

  predicate Identifier(name: string) { ProtoName(name) && LetterOrUnderscore(name[0]) }

  const EMPTY := Line(Blank, None, 0, 0, "")

  /** The type of an optional field gets `| None` unless "None" is already somewhere in it. */
  predicate SaysNone(hint: string) { exists i :: 0 <= i < |hint| && StandsAt("None", hint, i) }

  predicate StandsAt(word: string, text: string, i: int) {
    0 <= i <= |text| - |word| && text[i..i + |word|] == word
  }

  function Render(f: ProtoField): (l: Line)
    ensures Proper(l) && !l.kind.Blank? && !l.kind.Header? && l.opens.None?
  {
    var hint := if f.optional && !SaysNone(f.hint) then f.hint + " | None" else f.hint;
    Line(if Identifier(f.name) then FieldLine(f.name) else Plain, None, 0, 0,
         "    " + f.name + ": " + hint + if f.optional then " = None" else "")
  }

  // ---------------------------------------------------------------- finding the class

  /** The first line from `i` on that satisfies a test, or the end. */
  function FirstHeader(lines: seq<Line>, i: nat): (r: nat)
    requires i <= |lines|
    ensures i <= r <= |lines| && (r < |lines| ==> lines[r].kind.Header?)
    ensures forall k :: i <= k < r ==> !lines[k].kind.Header?
    decreases |lines| - i
  {
    if i == |lines| || lines[i].kind.Header? then i else FirstHeader(lines, i + 1)
  }

  function ClassStart(lines: seq<Line>, cls: string): (r: nat)
    ensures r <= |lines| && (r < |lines| ==> lines[r].kind == Header(cls))
    ensures forall k :: 0 <= k < r ==> lines[k].kind != Header(cls)
    decreases |lines|
  {
    if lines == [] || lines[0].kind == Header(cls) then 0
    else
      var r := ClassStart(lines[1..], cls);
      assert forall k :: 0 < k < |lines| ==> lines[k] == lines[1..][k - 1];
      r + 1
  }

  method FindClassBlock(lines: seq<Line>, cls: string) returns (r: Option<(nat, nat)>)
    ensures r.None? <==> ClassStart(lines, cls) == |lines|
    ensures r.Some? ==> r.value.0 == ClassStart(lines, cls) && r.value.1 == FirstHeader(lines, r.value.0 + 1)
  {
    var start := 0;
    while start < |lines| && lines[start].kind != Header(cls)
      invariant start <= |lines| && forall k :: 0 <= k < start ==> lines[k].kind != Header(cls)
    {
      start := start + 1;
    }
    if start == |lines| { return None; }
    var end := start + 1;
    while end < |lines| && !lines[end].kind.Header?
      invariant start < end <= |lines|
      invariant FirstHeader(lines, end) == FirstHeader(lines, start + 1)
    {
      end := end + 1;
    }
    return Some((start, end));
  }

  function SkipBlanks(lines: seq<Line>, i: nat, end: nat): (r: nat)
    requires i <= end <= |lines|
    ensures i <= r <= end && (r < end ==> !lines[r].kind.Blank?)
    ensures forall k :: i <= k < r ==> lines[k].kind.Blank?
    decreases end - i
  {
    if i < end && lines[i].kind.Blank? then SkipBlanks(lines, i + 1, end) else i
  }

  /** One past the first line with the quote in it, or the end. */
  function PastQuote(lines: seq<Line>, i: nat, end: nat, q: Quote): (r: nat)
    requires i <= end <= |lines|
    ensures i <= r <= end
    decreases end - i
  {
    if i == end then end
    else if Count(lines[i], q) > 0 then i + 1
    else PastQuote(lines, i + 1, end, q)
  }

  function QuoteOf(l: Line): Quote { if l.triples > 0 then Triple else TripleSingle }

  function BodyStart(lines: seq<Line>, start: nat, end: nat): (r: nat)
    requires start < end <= |lines|
    ensures start < r <= end
  {
    var i := SkipBlanks(lines, start + 1, end);
    if i < end && lines[i].opens.Some? then
      if Count(lines[i], QuoteOf(lines[i])) >= 2 then i + 1
      else PastQuote(lines, i + 1, end, QuoteOf(lines[i]))
    else i
  }

  /** The body starts at the first line `i` behind the header that is not blank, unless that is a
      docstring: then behind it if it ends on its first line, else behind the next line with its quote,
      else at the end of the block. The quote is the double one if the line has any. */
  lemma BodyStartIs(lines: seq<Line>, start: nat, end: nat, i: nat, k: nat)
    requires start < i <= k <= end <= |lines| && start < end
    requires (forall j :: start < j < i ==> lines[j].kind.Blank?) && (i < end ==> !lines[i].kind.Blank?)
    ensures i == end || lines[i].opens.None? ==> BodyStart(lines, start, end) == i
    ensures i < end && lines[i].opens.Some?
            && (if lines[i].triples > 0 then lines[i].triples else lines[i].singles) >= 2 ==>
              BodyStart(lines, start, end) == i + 1
    ensures i < end && lines[i].opens.Some? && i < k
            && (if lines[i].triples > 0 then lines[i].triples else lines[i].singles) < 2
            && (forall j :: i < j < k ==>
                  (if lines[i].triples > 0 then lines[j].triples else lines[j].singles) == 0)
            && (k < end ==> (if lines[i].triples > 0 then lines[k].triples else lines[k].singles) > 0) ==>
              BodyStart(lines, start, end) == if k < end then k + 1 else end
  {
    hide SkipBlanks, PastQuote;
    SkipBlanksIs(lines, start + 1, end, i);
    if i < end && i < k {
      var q := QuoteOf(lines[i]);
      if forall j :: i < j < k ==> Count(lines[j], q) == 0 {
        if k < end && Count(lines[k], q) > 0 { PastQuoteIs(lines, i + 1, end, q, k + 1); }
        if k == end { PastQuoteNone(lines, i + 1, end, q); }
      }
    }
  }

  method FindClassBodyStart(lines: seq<Line>, start: nat, end: nat) returns (r: nat)
    requires start < end <= |lines|
    ensures r == BodyStart(lines, start, end)
  {
    r := start + 1;
    while r < end && lines[r].kind.Blank?
      invariant start < r <= end && SkipBlanks(lines, r, end) == SkipBlanks(lines, start + 1, end)
    {
      r := r + 1;
    }
    if r < end && lines[r].opens.Some? {
      var quote := if lines[r].triples > 0 then Triple else TripleSingle;
      if Count(lines[r], quote) >= 2 { return r + 1; }
      r := r + 1;
      ghost var from := r;
      while r < end
        invariant from <= r <= end && PastQuote(lines, r, end, quote) == PastQuote(lines, from, end, quote)
      {
        if Count(lines[r], quote) > 0 { return r + 1; }
        r := r + 1;
      }
    }
  }

  // ---------------------------------------------------------------- rebuilding the body

  function NonFields(body: seq<Line>): seq<Line> {
    if body == [] then []
    else (if body[0].kind.FieldLine? then [] else [body[0]]) + NonFields(body[1..])
  }

  /** The last line for a field name: later definitions overwrite earlier ones. */
  function Existing(body: seq<Line>, name: string): Option<Line> {
    if body == [] then None
    else if body[|body| - 1].kind == FieldLine(name) then Some(body[|body| - 1])
    else Existing(body[..|body| - 1], name)
  }

  /** The proto field of a name, the last one if the message repeats it. */
  function ByName(fields: seq<ProtoField>, name: string): (r: ProtoField)
    requires exists k :: 0 <= k < |fields| && fields[k].name == name
    ensures r.name == name
  {
    if fields[|fields| - 1].name == name then fields[|fields| - 1]
    else ByName(fields[..|fields| - 1], name)
  }

  function Managed(fields: seq<ProtoField>, body: seq<Line>, updateTypes: bool, k: nat): Line
    requires k < |fields|
  {
    var e := Existing(body, fields[k].name);
    if !updateTypes && e.Some? then e.value else Render(ByName(fields, fields[k].name))
  }

  function AllManaged(fields: seq<ProtoField>, body: seq<Line>, updateTypes: bool): seq<Line> {
    seq(|fields|, k requires 0 <= k < |fields| => Managed(fields, body, updateTypes, k))
  }

  function Separator(rest: seq<Line>): seq<Line> {
    if rest != [] && !rest[0].kind.Blank? then [EMPTY] else []
  }

  function NewBody(fields: seq<ProtoField>, body: seq<Line>, updateTypes: bool): seq<Line> {
    var managed, rest := AllManaged(fields, body, updateTypes), NonFields(body);
    if managed == [] then rest else managed + Separator(rest) + rest
  }

  /** The three parts of a file: up to the body of the class, its body, and the rest. */
  function Glue(prefix: seq<Line>, body: seq<Line>, suffix: seq<Line>): seq<Line> {
    prefix + body + suffix
  }

  lemma GlueParts(p: seq<Line>, x: seq<Line>, s: seq<Line>)
    ensures var l := Glue(p, x, s);
      && |l| == |p| + |x| + |s|
      && l[..|p|] == p && l[|p|..|p| + |x|] == x && l[|p| + |x|..] == s
      && (forall k :: 0 <= k < |p| ==> l[k] == p[k])
      && (forall k :: 0 <= k < |x| ==> l[|p| + k] == x[k])
      && (forall k :: 0 <= k < |s| ==> l[|p| + |x| + k] == s[k])
  {
  }

  lemma GlueOf(l: seq<Line>, b: nat, e: nat)
    requires b <= e <= |l|
    ensures Glue(l[..b], l[b..e], l[e..]) == l
  {
  }

  predicate HasClass(lines: seq<Line>, cls: string) { ClassStart(lines, cls) < |lines| }

  /** Where the class block ends, and where its body starts. */
  function BlockEnd(lines: seq<Line>, cls: string): (r: nat)
    requires HasClass(lines, cls)
    ensures ClassStart(lines, cls) < r <= |lines|
  {
    FirstHeader(lines, ClassStart(lines, cls) + 1)
  }

  function BodyAt(lines: seq<Line>, cls: string): (r: nat)
    requires HasClass(lines, cls)
    ensures ClassStart(lines, cls) < r <= BlockEnd(lines, cls)
  {
    BodyStart(lines, ClassStart(lines, cls), BlockEnd(lines, cls))
  }

  function OldBody(lines: seq<Line>, cls: string): seq<Line>
    requires HasClass(lines, cls)
  {
    lines[BodyAt(lines, cls)..BlockEnd(lines, cls)]
  }

  function Sync(lines: seq<Line>, fields: seq<ProtoField>, cls: string, updateTypes: bool): seq<Line> {
    if !HasClass(lines, cls) then lines
    else
      var newBody := NewBody(fields, OldBody(lines, cls), updateTypes);
      Glue(lines[..BodyAt(lines, cls)], newBody, lines[BlockEnd(lines, cls)..])
  }

  method SyncModelClass(lines: seq<Line>, fields: seq<ProtoField>, cls: string, updateTypes: bool)
    returns (updated: seq<Line>, changed: bool)
    ensures updated == Sync(lines, fields, cls, updateTypes)
    ensures changed <==> updated != lines
  {
    hide NewBody, BodyStart;
    var block := FindClassBlock(lines, cls);
    if block.None? { return lines, false; }
    var (start, end) := block.value;
    var b := FindClassBodyStart(lines, start, end);
    var newBody := RebuildBody(fields, lines[b..end], updateTypes);
    updated := lines[..b] + newBody + lines[end..];
    changed := updated != lines;
  }

  method RebuildBody(fields: seq<ProtoField>, body: seq<Line>, updateTypes: bool) returns (newBody: seq<Line>)
    ensures newBody == NewBody(fields, body, updateTypes)
  {
    hide NonFields, AllManaged, Collected;
    var rest, existing := ScanBody(fields, body);
    var managed := EmitManaged(fields, existing, body, updateTypes);
    newBody := rest;
    if managed != [] {
      if rest != [] && !rest[0].kind.Blank? { managed := managed + [EMPTY]; }
      newBody := managed + rest;
    }
  }

  /** The dict of field lines that are kept agrees with the body. */
  ghost predicate Collected(fields: seq<ProtoField>, existing: map<string, Line>, body: seq<Line>) {
    forall name :: (name in existing <==> Mentioned(fields, name) && Existing(body, name).Some?)
                && (name in existing ==> Existing(body, name) == Some(existing[name]))
  }

  lemma CollectedNext(fields: seq<ProtoField>, existing: map<string, Line>, body: seq<Line>, line: Line)
    requires Collected(fields, existing, body)
    ensures !line.kind.FieldLine? || !Mentioned(fields, line.kind.name) ==> Collected(fields, existing, body + [line])
    ensures line.kind.FieldLine? && Mentioned(fields, line.kind.name)
        ==> Collected(fields, existing[line.kind.name := line], body + [line])
  {
    hide Mentioned;
    var b := body + [line];
    assert b[..|b| - 1] == body && b[|b| - 1] == line;
  }

  lemma ScanNext(body: seq<Line>, i: nat)
    requires i < |body|
    ensures body[..i + 1] == body[..i] + [body[i]]
    ensures NonFields(body[..i + 1]) == NonFields(body[..i]) + if body[i].kind.FieldLine? then [] else [body[i]]
  {
    assert body[..i + 1] == body[..i] + [body[i]];
    NonFieldsConcat(body[..i], [body[i]]);
  }

  lemma ScanEnds(body: seq<Line>)
    ensures body[..0] == [] && body[..|body|] == body && NonFields([]) == []
  {
  }

  method ScanBody(fields: seq<ProtoField>, body: seq<Line>) returns (rest: seq<Line>, existing: map<string, Line>)
    ensures rest == NonFields(body) && Collected(fields, existing, body)
  {
    hide *;
    rest, existing := [], map[];
    CollectedNothing(fields);
    ScanEnds(body);
    for i := 0 to |body|
      invariant rest == NonFields(body[..i]) && Collected(fields, existing, body[..i])
    {
      var line := body[i];
      ScanNext(body, i);
      CollectedNext(fields, existing, body[..i], line);
      if !line.kind.FieldLine? {
        rest := rest + [line];
      } else {
        var known := IsMentioned(fields, line.kind.name);
        if known { existing := existing[line.kind.name := line]; }
      }
    }
  }

  lemma CollectedNothing(fields: seq<ProtoField>)
    ensures Collected(fields, map[], [])
  {
  }

  method EmitManaged(fields: seq<ProtoField>, existing: map<string, Line>, ghost body: seq<Line>, updateTypes: bool)
    returns (managed: seq<Line>)
    requires Collected(fields, existing, body)
    ensures managed == AllManaged(fields, body, updateTypes)
  {
    hide Existing;
    managed := [];
    var i := 0;
    while i < |fields|
      invariant 0 <= i <= |fields| && managed == AllManaged(fields, body, updateTypes)[..i]
    {
      var name := fields[i].name;
      assert Mentioned(fields, name);
      var line;
      if !updateTypes && name in existing {
        line := existing[name];
      } else {
        line := Render(ByName(fields, name));
      }
      assert line == Managed(fields, body, updateTypes, i);
      managed := managed + [line];
      i := i + 1;
    }
  }

  predicate Mentioned(fields: seq<ProtoField>, name: string) {
    exists k :: 0 <= k < |fields| && fields[k].name == name
  }

  method IsMentioned(fields: seq<ProtoField>, name: string) returns (r: bool)
    ensures r == Mentioned(fields, name)
  {
    for k := 0 to |fields|
      invariant forall j :: 0 <= j < k ==> fields[j].name != name
    {
      if fields[k].name == name { return true; }
    }
    return false;
  }

  // ---------------------------------------------------------------- when a second run is idle

  /** The class docstring, if there is one, ends inside the class block: there is none, or its
      first line closes it, or some later line of the block has the quote. */
  predicate DocstringCloses(lines: seq<Line>, start: nat, end: nat)
    requires start < end <= |lines|
  {
    var i := SkipBlanks(lines, start + 1, end);
    i < end && lines[i].opens.Some? ==>
      || Count(lines[i], QuoteOf(lines[i])) >= 2
      || exists k :: i < k < end && Count(lines[k], QuoteOf(lines[i])) > 0
  }

  predicate AllIdentifiers(fields: seq<ProtoField>) {
    forall k :: 0 <= k < |fields| ==> Identifier(fields[k].name)
  }

  predicate AllProper(lines: seq<Line>) {
    forall k :: 0 <= k < |lines| ==> Proper(lines[k])
  }

  // ----- the block and the body start of the rewritten file

  lemma {:induction false} ClassStartOfPrefix(a: seq<Line>, x: seq<Line>, y: seq<Line>, cls: string)
    requires ClassStart(a + x, cls) < |a|
    ensures ClassStart(a + y, cls) == ClassStart(a + x, cls)
    decreases |a|
  {
    assert (a + x)[0] == a[0] && (a + y)[0] == a[0];
    if a[0].kind != Header(cls) {
      assert (a + x)[1..] == a[1..] + x && (a + y)[1..] == a[1..] + y;
      ClassStartOfPrefix(a[1..], x, y, cls);
    }
  }

  lemma {:induction false} FirstHeaderIs(lines: seq<Line>, i: nat, e: nat)
    requires i <= e <= |lines| && (forall k :: i <= k < e ==> !lines[k].kind.Header?)
    requires e < |lines| ==> lines[e].kind.Header?
    ensures FirstHeader(lines, i) == e
  {
  }

  lemma {:induction false} SkipBlanksIs(lines: seq<Line>, i: nat, end: nat, r: nat)
    requires i <= r <= end <= |lines| && (forall k :: i <= k < r ==> lines[k].kind.Blank?)
    requires r < end ==> !lines[r].kind.Blank?
    ensures SkipBlanks(lines, i, end) == r
    decreases r - i
  {
    if i < r { SkipBlanksIs(lines, i + 1, end, r); }
  }

  lemma {:induction false} PastQuoteFound(lines: seq<Line>, i: nat, end: nat, q: Quote, k: nat)
    requires i <= k < end <= |lines| && Count(lines[k], q) > 0
    ensures i < PastQuote(lines, i, end, q) <= k + 1
    ensures Count(lines[PastQuote(lines, i, end, q) - 1], q) > 0
    ensures forall j :: i <= j < PastQuote(lines, i, end, q) - 1 ==> Count(lines[j], q) == 0
    decreases k - i
  {
    if Count(lines[i], q) == 0 { PastQuoteFound(lines, i + 1, end, q, k); }
  }

  lemma {:induction false} PastQuoteIs(lines: seq<Line>, i: nat, end: nat, q: Quote, r: nat)
    requires i < r <= end <= |lines| && Count(lines[r - 1], q) > 0
    requires forall j :: i <= j < r - 1 ==> Count(lines[j], q) == 0
    ensures PastQuote(lines, i, end, q) == r
    decreases r - i
  {
    if i < r - 1 { PastQuoteIs(lines, i + 1, end, q, r); }
  }

  lemma {:induction false} PastQuoteNone(lines: seq<Line>, i: nat, end: nat, q: Quote)
    requires i <= end <= |lines| && forall j :: i <= j < end ==> Count(lines[j], q) == 0
    ensures PastQuote(lines, i, end, q) == end
    decreases end - i
  {
    if i < end { PastQuoteNone(lines, i + 1, end, q); }
  }

  /** Two files that agree before the body start, where the second goes on with a line that is
      neither blank nor a docstring, have the same body start. */
  lemma SameBodyStart(a: seq<Line>, b: seq<Line>, start: nat, end: nat, end': nat)
    requires start < end <= |a| && start < end' <= |b| && DocstringCloses(a, start, end)
    requires var s := BodyStart(a, start, end);
      s < end' && a[..s] == b[..s] && !b[s].kind.Blank? && b[s].opens.None?
    ensures BodyStart(b, start, end') == BodyStart(a, start, end)
  {
    hide SkipBlanks, PastQuote, QuoteOf, Count;
    var s, i := BodyStart(a, start, end), SkipBlanks(a, start + 1, end);
    SamePrefix(a, b, s);
    if i < end && a[i].opens.Some? {
      SkipBlanksIs(b, start + 1, end', i);
      if Count(a[i], QuoteOf(a[i])) < 2 { SamePastQuote(a, b, i + 1, end, end', QuoteOf(a[i])); }
    } else {
      SkipBlanksIs(b, start + 1, end', s);
    }
  }

  lemma SamePrefix(a: seq<Line>, b: seq<Line>, s: nat)
    requires s <= |a| && s <= |b| && a[..s] == b[..s]
    ensures forall k :: 0 <= k < s ==> a[k] == b[k]
  {
    forall k | 0 <= k < s ensures a[k] == b[k] { assert a[..s][k] == b[..s][k]; }
  }

  lemma SamePastQuote(a: seq<Line>, b: seq<Line>, i: nat, end: nat, end': nat, q: Quote)
    requires i <= end <= |a| && end' <= |b| && exists k :: i <= k < end && Count(a[k], q) > 0
    requires var s := PastQuote(a, i, end, q); s < end' && forall k :: 0 <= k < s ==> a[k] == b[k]
    ensures i < end' && PastQuote(b, i, end', q) == PastQuote(a, i, end, q)
  {
    hide PastQuote, Count;
    var k :| i <= k < end && Count(a[k], q) > 0;
    PastQuoteFound(a, i, end, q, k);
    PastQuoteIs(b, i, end', q, PastQuote(a, i, end, q));
  }

  /** The rewritten file has the same class block, with the new body in it. */
  lemma SameBlock(lines: seq<Line>, fields: seq<ProtoField>, cls: string, updateTypes: bool)
    requires HasClass(lines, cls)
    ensures var b, new_ := BodyAt(lines, cls), NewBody(fields, OldBody(lines, cls), updateTypes);
      var out := Sync(lines, fields, cls, updateTypes);
      && HasClass(out, cls) && ClassStart(out, cls) == ClassStart(lines, cls)
      && BlockEnd(out, cls) == b + |new_| && |out| == b + |new_| + |lines[BlockEnd(lines, cls)..]|
      && out[..b] == lines[..b] && out[b..b + |new_|] == new_ && out[b + |new_|..] == lines[BlockEnd(lines, cls)..]
  {
    hide BodyAt, NewBody, Glue;
    var b, end := BodyAt(lines, cls), BlockEnd(lines, cls);
    BodyHasNoHeader(lines, cls);
    NewBodyHasNoHeader(fields, OldBody(lines, cls), updateTypes);
    GlueKeepsBlock(lines, cls, b, NewBody(fields, OldBody(lines, cls), updateTypes));
  }

  lemma BodyHasNoHeader(lines: seq<Line>, cls: string)
    requires HasClass(lines, cls)
    ensures forall k :: 0 <= k < |OldBody(lines, cls)| ==> !OldBody(lines, cls)[k].kind.Header?
  {
    hide BodyStart;
    var b := BodyAt(lines, cls);
    assert forall k :: 0 <= k < |OldBody(lines, cls)| ==> OldBody(lines, cls)[k] == lines[b + k];
  }

  lemma GlueKeepsBlock(lines: seq<Line>, cls: string, b: nat, body: seq<Line>)
    requires HasClass(lines, cls) && ClassStart(lines, cls) < b <= BlockEnd(lines, cls)
    requires forall k :: 0 <= k < |body| ==> !body[k].kind.Header?
    ensures var out := Glue(lines[..b], body, lines[BlockEnd(lines, cls)..]);
      && HasClass(out, cls) && ClassStart(out, cls) == ClassStart(lines, cls) && BlockEnd(out, cls) == b + |body|
      && out[..b] == lines[..b] && out[b..b + |body|] == body && out[b + |body|..] == lines[BlockEnd(lines, cls)..]
      && |out| == b + |body| + |lines[BlockEnd(lines, cls)..]|
  {
    hide Glue, ClassStart;
    var start, end := ClassStart(lines, cls), BlockEnd(lines, cls);
    var out := Glue(lines[..b], body, lines[end..]);
    GlueParts(lines[..b], body, lines[end..]);
    GlueKeepsStart(lines, cls, b, body, lines[end..]);
    forall k | start + 1 <= k < b + |body| ensures !out[k].kind.Header? {
      if k < b { assert out[k] == lines[k]; } else { assert out[b + (k - b)] == body[k - b]; }
    }
    if end < |lines| { assert out[b + |body| + 0] == lines[end]; }
    FirstHeaderIs(out, start + 1, b + |body|);
  }

  lemma GlueKeepsStart(lines: seq<Line>, cls: string, b: nat, body: seq<Line>, suffix: seq<Line>)
    requires ClassStart(lines, cls) < b <= |lines|
    ensures ClassStart(Glue(lines[..b], body, suffix), cls) == ClassStart(lines, cls)
  {
    hide ClassStart;
    assert lines == lines[..b] + lines[b..];
    assert Glue(lines[..b], body, suffix) == lines[..b] + (body + suffix);
    ClassStartOfPrefix(lines[..b], lines[b..], body + suffix, cls);
  }

  // ----- what the new body consists of

  lemma {:induction false} ExistingIsFieldLine(body: seq<Line>, name: string)
    requires Existing(body, name).Some?
    ensures Existing(body, name).value.kind == FieldLine(name) && Existing(body, name).value in body
  {
    if body[|body| - 1].kind != FieldLine(name) { ExistingIsFieldLine(body[..|body| - 1], name); }
  }

  lemma {:induction false} NonFieldsFacts(body: seq<Line>)
    ensures forall k :: 0 <= k < |NonFields(body)| ==> NonFields(body)[k] in body && !NonFields(body)[k].kind.FieldLine?
  {
    if body != [] { NonFieldsFacts(body[1..]); }
  }

  /** A managed line is a field line of its name, or the rendering of a name that is no identifier. */
  lemma ManagedFacts(fields: seq<ProtoField>, body: seq<Line>, updateTypes: bool, k: nat)
    requires k < |fields| && AllProper(body)
    ensures var l := Managed(fields, body, updateTypes, k);
      && !l.kind.Blank? && !l.kind.Header? && l.opens.None?
      && (if Identifier(fields[k].name) then l.kind == FieldLine(fields[k].name) else l.kind.Plain?)
  {
    if Existing(body, fields[k].name).Some? { ExistingIsFieldLine(body, fields[k].name); }
  }

  lemma NewBodyHasNoHeader(fields: seq<ProtoField>, body: seq<Line>, updateTypes: bool)
    requires forall k :: 0 <= k < |body| ==> !body[k].kind.Header?
    ensures var new_ := NewBody(fields, body, updateTypes);
      forall k :: 0 <= k < |new_| ==> !new_[k].kind.Header?
  {
    NonFieldsFacts(body);
    forall k | 0 <= k < |fields| ensures !AllManaged(fields, body, updateTypes)[k].kind.Header? {
      if Existing(body, fields[k].name).Some? { ExistingIsFieldLine(body, fields[k].name); }
    }
  }

  lemma {:induction false} NonFieldsConcat(a: seq<Line>, b: seq<Line>)
    ensures NonFields(a + b) == NonFields(a) + NonFields(b)
  {
    if a == [] {
      assert a + b == b;
    } else {
      assert (a + b)[1..] == a[1..] + b;
      NonFieldsConcat(a[1..], b);
    }
  }

  lemma {:induction false} NonFieldsOfNonFields(a: seq<Line>)
    requires forall k :: 0 <= k < |a| ==> !a[k].kind.FieldLine?
    ensures NonFields(a) == a
  {
    if a != [] { NonFieldsOfNonFields(a[1..]); }
  }

  lemma {:induction false} NonFieldsOfFields(a: seq<Line>)
    requires forall k :: 0 <= k < |a| ==> a[k].kind.FieldLine?
    ensures NonFields(a) == []
  {
    if a != [] { NonFieldsOfFields(a[1..]); }
  }

  lemma {:induction false} SomeNonField(a: seq<Line>, k: nat)
    requires k < |a| && !a[k].kind.FieldLine?
    ensures |NonFields(a)| >= 1
  {
    if k > 0 { SomeNonField(a[1..], k - 1); }
  }

  /** If all lines of a name are the same line, that line is what is found for it. */
  lemma {:induction false} ExistingUnique(body: seq<Line>, name: string, l: Line, k: nat)
    requires k < |body| && body[k] == l && l.kind == FieldLine(name)
    requires forall j :: 0 <= j < |body| && body[j].kind == FieldLine(name) ==> body[j] == l
    ensures Existing(body, name) == Some(l)
    decreases |body|
  {
    var init := body[..|body| - 1];
    if body[|body| - 1].kind != FieldLine(name) { ExistingUnique(init, name, l, k); }
  }

  lemma {:induction false} ExistingNone(body: seq<Line>, name: string)
    requires forall j :: 0 <= j < |body| ==> body[j].kind != FieldLine(name)
    ensures Existing(body, name) == None
  {
    if body != [] { ExistingNone(body[..|body| - 1], name); }
  }

  lemma NoFieldsBehind(managed: seq<Line>, rest: seq<Line>, j: nat)
    requires forall k :: 0 <= k < |rest| ==> !rest[k].kind.FieldLine?
    requires j < |managed + Separator(rest) + rest| && (managed + Separator(rest) + rest)[j].kind.FieldLine?
    ensures j < |managed|
  {
  }

  /** The managed lines computed from the new body are the ones already in it. */
  lemma ManagedStable(fields: seq<ProtoField>, body: seq<Line>, updateTypes: bool, k: nat)
    requires AllProper(body) && k < |fields|
    ensures Managed(fields, NewBody(fields, body, updateTypes), updateTypes, k) == Managed(fields, body, updateTypes, k)
  {
    var new_, name := NewBody(fields, body, updateTypes), fields[k].name;
    var managed, rest := AllManaged(fields, body, updateTypes), NonFields(body);
    var l := Managed(fields, body, updateTypes, k);
    NonFieldsFacts(body);
    ManagedFacts(fields, body, updateTypes, k);
    assert new_ == managed + Separator(rest) + rest && new_[k] == l;
    forall j | 0 <= j < |new_| && new_[j].kind == FieldLine(name) ensures new_[j] == l {
      assert j < |managed| by { NoFieldsBehind(managed, rest, j); }
      ManagedFacts(fields, body, updateTypes, j);
      assert new_[j] == managed[j] && fields[j].name == name;
    }
    if l.kind == FieldLine(name) {
      ExistingUnique(new_, name, l, k);
    } else {
      ExistingNone(new_, name);
      if Existing(body, name).Some? { ExistingIsFieldLine(body, name); }
    }
  }

  lemma AllManagedStable(fields: seq<ProtoField>, body: seq<Line>, updateTypes: bool)
    requires AllProper(body)
    ensures AllManaged(fields, NewBody(fields, body, updateTypes), updateTypes) == AllManaged(fields, body, updateTypes)
  {
    forall k | 0 <= k < |fields|
      ensures AllManaged(fields, NewBody(fields, body, updateTypes), updateTypes)[k]
           == AllManaged(fields, body, updateTypes)[k]
    {
      ManagedStable(fields, body, updateTypes, k);
    }
  }

  /** Non-field lines of the new body: those of the managed part, the separator, and the old ones
      in their old order. */
  lemma NonFieldsOfNewBody(fields: seq<ProtoField>, body: seq<Line>, updateTypes: bool)
    requires AllProper(body) && fields != []
    ensures var managed, rest := AllManaged(fields, body, updateTypes), NonFields(body);
      && NonFields(NewBody(fields, body, updateTypes)) == NonFields(managed) + Separator(rest) + rest
      && (NonFields(managed) == [] <==> AllIdentifiers(fields))
  {
    var managed, rest := AllManaged(fields, body, updateTypes), NonFields(body);
    NonFieldsConcat(managed + Separator(rest), rest);
    NonFieldsConcat(managed, Separator(rest));
    NonFieldsFacts(body);
    NonFieldsOfNonFields(rest);
    NonFieldsOfNonFields(Separator(rest));
    forall k | 0 <= k < |fields| ensures managed[k].kind.FieldLine? <==> Identifier(fields[k].name) {
      ManagedFacts(fields, body, updateTypes, k);
    }
    if AllIdentifiers(fields) {
      NonFieldsOfFields(managed);
    } else {
      var k :| 0 <= k < |fields| && !Identifier(fields[k].name);
      SomeNonField(managed, k);
    }
  }

  /** The second run's body, when its start has not moved. */
  lemma SecondBody(fields: seq<ProtoField>, body: seq<Line>, updateTypes: bool)
    requires AllProper(body) && fields != []
    ensures var new_ := NewBody(fields, body, updateTypes);
      NewBody(fields, new_, updateTypes) == new_ <==> AllIdentifiers(fields)
  {
    hide NonFields, AllIdentifiers, AllManaged, NewBody;
    var new_ := NewBody(fields, body, updateTypes);
    var managed, rest := AllManaged(fields, body, updateTypes), NonFields(body);
    NonFieldsOfNewBody(fields, body, updateTypes);
    AllManagedStable(fields, body, updateTypes);
    NewBodyIs(fields, body, updateTypes);
    NewBodyIs(fields, new_, updateTypes);
    var rest2 := NonFields(new_);
    assert NewBody(fields, new_, updateTypes) == managed + Separator(rest2) + rest2;
    if AllIdentifiers(fields) {
      assert [] + Separator(rest) + rest == Separator(rest) + rest;
      assert managed + Separator(rest2) + rest2 == managed + Separator(rest) + rest;
    } else {
      assert |rest2| > |Separator(rest)| + |rest|;
    }
  }

  lemma NewBodyIs(fields: seq<ProtoField>, body: seq<Line>, updateTypes: bool)
    requires fields != []
    ensures var rest := NonFields(body);
      NewBody(fields, body, updateTypes) == AllManaged(fields, body, updateTypes) + Separator(rest) + rest
    ensures |AllManaged(fields, body, updateTypes)| == |fields|
  {
  }

  /** Without fields the body only loses its field lines, and a second run has none to lose. */
  lemma SecondBodyNoFields(lines: seq<Line>, cls: string, updateTypes: bool)
    requires HasClass(lines, cls)
    ensures var out := Sync(lines, [], cls, updateTypes); Sync(out, [], cls, updateTypes) == out
  {
    hide Glue, BodyStart, NonFields, ClassStart, FirstHeader;
    var b, end, rest := BodyAt(lines, cls), BlockEnd(lines, cls), NonFields(OldBody(lines, cls));
    NoFieldsNewBody(OldBody(lines, cls), updateTypes);
    var out := Sync(lines, [], cls, updateTypes);
    SameBlock(lines, [], cls, updateTypes);
    var b', end' := BodyAt(out, cls), BlockEnd(out, cls);
    BodyStartNotEarlier(lines, out, ClassStart(lines, cls), end, end');
    NonFieldsFacts(OldBody(lines, cls));
    assert out[b'..end'] == out[b..end'][b' - b..] == rest[b' - b..];
    NonFieldsOfNonFields(out[b'..end']);
    NoFieldsNewBody(OldBody(out, cls), updateTypes);
    GlueOf(out, b', end');
  }

  lemma NoFieldsNewBody(body: seq<Line>, updateTypes: bool)
    ensures NewBody([], body, updateTypes) == NonFields(body)
  {
  }

  /** Dropping field lines after the body start cannot move it forward into the kept part. */
  lemma BodyStartNotEarlier(a: seq<Line>, b: seq<Line>, start: nat, end: nat, end': nat)
    requires start < end <= |a| && start < end' <= |b|
    requires var s := BodyStart(a, start, end); s <= end' && a[..s] == b[..s]
    ensures BodyStart(a, start, end) <= BodyStart(b, start, end')
  {
    var s := BodyStart(a, start, end);
    var i := SkipBlanks(a, start + 1, end);
    assert forall k :: 0 <= k < s ==> a[k] == b[k] by {
      forall k | 0 <= k < s ensures a[k] == b[k] { assert a[..s][k] == b[..s][k]; }
    }
    if i < end && a[i].opens.Some? {
      SkipBlanksIs(b, start + 1, end', i);
      var q := QuoteOf(a[i]);
      if Count(a[i], q) < 2 { PastQuoteNotEarlier(a, b, i + 1, end, end', q); }
    } else {
      assert forall k :: start + 1 <= k < s ==> b[k].kind.Blank?;
    }
  }

  lemma {:induction false} PastQuoteNotEarlier(a: seq<Line>, b: seq<Line>, i: nat, end: nat, end': nat, q: Quote)
    requires i <= end <= |a| && i <= end' <= |b|
    requires var s := PastQuote(a, i, end, q); s <= end' && forall k :: 0 <= k < s ==> a[k] == b[k]
    ensures PastQuote(a, i, end, q) <= PastQuote(b, i, end', q)
    decreases end - i
  {
    if i < end && i < end' && Count(a[i], q) == 0 { PastQuoteNotEarlier(a, b, i + 1, end, end', q); }
  }

  /** A class docstring that does not end in the block: the whole block is prefix, the fields are
      appended behind it, and a second run appends them again. */
  lemma UnclosedGrows(lines: seq<Line>, fields: seq<ProtoField>, cls: string, updateTypes: bool)
    requires HasClass(lines, cls) && fields != []
    requires !DocstringCloses(lines, ClassStart(lines, cls), BlockEnd(lines, cls))
    ensures var out := Sync(lines, fields, cls, updateTypes); Sync(out, fields, cls, updateTypes) != out
  {
    hide Sync, NewBody, ClassStart, FirstHeader, BodyStart, DocstringCloses;
    var start, end := ClassStart(lines, cls), BlockEnd(lines, cls);
    var out, new_ := Sync(lines, fields, cls, updateTypes), NewBody(fields, [], updateTypes);
    UnclosedBodyStart(lines, start, end);
    assert OldBody(lines, cls) == [];
    SameBlock(lines, fields, cls, updateTypes);
    RenderedOnly(fields, updateTypes);
    UnclosedStays(lines, out, start, end, new_);
    assert OldBody(out, cls) == [];
    SyncLength(out, fields, cls, updateTypes);
  }

  lemma SyncLength(lines: seq<Line>, fields: seq<ProtoField>, cls: string, updateTypes: bool)
    requires HasClass(lines, cls)
    ensures |Sync(lines, fields, cls, updateTypes)|
         == |lines| - |OldBody(lines, cls)| + |NewBody(fields, OldBody(lines, cls), updateTypes)|
  {
    hide NewBody, ClassStart, BodyStart, FirstHeader;
  }

  lemma UnclosedBodyStart(lines: seq<Line>, start: nat, end: nat)
    requires start < end <= |lines| && !DocstringCloses(lines, start, end)
    ensures BodyStart(lines, start, end) == end
  {
    var i := SkipBlanks(lines, start + 1, end);
    PastQuoteNone(lines, i + 1, end, QuoteOf(lines[i]));
  }

  /** With nothing there before, the new body is the rendered fields: no quotes, and not empty. */
  lemma RenderedOnly(fields: seq<ProtoField>, updateTypes: bool)
    requires fields != []
    ensures var new_ := NewBody(fields, [], updateTypes);
      |new_| >= 1 && forall k :: 0 <= k < |new_| ==> new_[k].triples == 0 && new_[k].singles == 0
  {
    var managed := AllManaged(fields, [], updateTypes);
    assert NewBody(fields, [], updateTypes) == managed + [] + [];
    forall k | 0 <= k < |fields| ensures managed[k].triples == 0 && managed[k].singles == 0 {
      assert managed[k] == Render(ByName(fields, fields[k].name));
    }
  }

  lemma UnclosedStays(a: seq<Line>, b: seq<Line>, start: nat, end: nat, new_: seq<Line>)
    requires start < end <= |a| && !DocstringCloses(a, start, end)
    requires end + |new_| <= |b| && b[..end] == a[..end] && b[end..end + |new_|] == new_
    requires forall k :: 0 <= k < |new_| ==> new_[k].triples == 0 && new_[k].singles == 0
    ensures BodyStart(b, start, end + |new_|) == end + |new_|
  {
    hide SkipBlanks, PastQuote;
    var i, end' := SkipBlanks(a, start + 1, end), end + |new_|;
    SamePrefix(a, b, end);
    forall k | end <= k < end' ensures b[k].triples == 0 && b[k].singles == 0 {
      assert b[k] == b[end..end'][k - end];
    }
    SkipBlanksIs(b, start + 1, end', i);
    PastQuoteNone(b, i + 1, end', QuoteOf(b[i]));
  }

  lemma FirstLine(fields: seq<ProtoField>, body: seq<Line>, updateTypes: bool)
    requires AllProper(body) && fields != []
    ensures var new_ := NewBody(fields, body, updateTypes);
      |new_| > 0 && !new_[0].kind.Blank? && new_[0].opens.None?
  {
    ManagedFacts(fields, body, updateTypes, 0);
  }

  /** A docstring that ends in the block: the second run starts at the same place, and is idle
      exactly when every name is an identifier. */
  lemma ClosedExactly(lines: seq<Line>, fields: seq<ProtoField>, cls: string, updateTypes: bool)
    requires AllProper(lines) && HasClass(lines, cls) && fields != []
    requires DocstringCloses(lines, ClassStart(lines, cls), BlockEnd(lines, cls))
    ensures var out := Sync(lines, fields, cls, updateTypes);
      Sync(out, fields, cls, updateTypes) == out <==> AllIdentifiers(fields)
  {
    hide Glue, NewBody, NonFields, BodyStart, DocstringCloses, AllIdentifiers, ClassStart, FirstHeader, Managed,
         AllManaged, AllProper, Render;
    var b, body := BodyAt(lines, cls), OldBody(lines, cls);
    var new_, out := NewBody(fields, body, updateTypes), Sync(lines, fields, cls, updateTypes);
    ProperBody(lines, cls);
    SameBlock(lines, fields, cls, updateTypes);
    var end' := b + |new_|;
    FirstLine(fields, body, updateTypes);
    assert out[b] == out[b..end'][0] == new_[0];
    SameBodyStart(lines, out, ClassStart(lines, cls), BlockEnd(lines, cls), end');
    assert OldBody(out, cls) == new_;
    SecondBody(fields, body, updateTypes);
    GlueOf(out, b, end');
    if Sync(out, fields, cls, updateTypes) == out {
      GlueCancels(out[..b], NewBody(fields, new_, updateTypes), new_, out[end'..]);
    }
  }

  /** Exactly when synchronising is idempotent, for every file, class and message and in both
      update modes: a second run on its own output changes nothing if and only if the message
      has no fields, or the class docstring (if any) ends inside the class block and every
      proto field name is an identifier. */
  lemma IdempotentExactly(lines: seq<Line>, fields: seq<ProtoField>, cls: string, updateTypes: bool)
    requires AllProper(lines) && HasClass(lines, cls)
    ensures var out := Sync(lines, fields, cls, updateTypes);
      var closes := DocstringCloses(lines, ClassStart(lines, cls), BlockEnd(lines, cls));
      Sync(out, fields, cls, updateTypes) == out <==> fields == [] || (closes && AllIdentifiers(fields))
  {
    hide Sync, DocstringCloses, AllIdentifiers;
    if fields == [] {
      SecondBodyNoFields(lines, cls, updateTypes);
    } else if DocstringCloses(lines, ClassStart(lines, cls), BlockEnd(lines, cls)) {
      ClosedExactly(lines, fields, cls, updateTypes);
    } else {
      UnclosedGrows(lines, fields, cls, updateTypes);
    }
  }

  lemma GlueCancels(p: seq<Line>, x: seq<Line>, y: seq<Line>, s: seq<Line>)
    requires Glue(p, x, s) == Glue(p, y, s)
    ensures x == y
  {
    GlueParts(p, x, s);
    GlueParts(p, y, s);
  }

  /** What follows the fields in the new body: a blank line, if there are fields and the first
      non-field line is there and not blank, and the non-field lines. */
  function AfterFields(fields: seq<ProtoField>, body: seq<Line>): seq<Line> {
    var rest := NonFields(body);
    (if fields != [] && rest != [] && !rest[0].kind.Blank? then [Line(Blank, None, 0, 0, "")] else []) + rest
  }

  /** The lines that are no fields, in their order. */
  lemma NonFieldsAre(a: seq<Line>, b: seq<Line>, l: Line)
    ensures NonFields(a + b) == NonFields(a) + NonFields(b)
    ensures NonFields([l]) == if l.kind.FieldLine? then [] else [l]
    ensures NonFields([]) == []
  {
    NonFieldsConcat(a, b);
  }

  lemma BodyEnds(fields: seq<ProtoField>, body: seq<Line>, updateTypes: bool)
    ensures var new_ := NewBody(fields, body, updateTypes);
      |fields| <= |new_| && new_[|fields|..] == AfterFields(fields, body)
  {
    hide NonFields, Existing, Render, ByName;
    if fields != [] {
      var managed, rest := AllManaged(fields, body, updateTypes), NonFields(body);
      TailOf(managed, Separator(rest) + rest);
      NewBodyIs(fields, body, updateTypes);
      assert managed + Separator(rest) + rest == managed + (Separator(rest) + rest);
    }
  }

  predicate LastLineOf(body: seq<Line>, name: string, j: int) {
    && 0 <= j < |body| && body[j].kind == FieldLine(name)
    && forall i :: j < i < |body| ==> body[i].kind != FieldLine(name)
  }

  predicate LastFieldOf(fields: seq<ProtoField>, name: string, m: int) {
    && 0 <= m < |fields| && fields[m].name == name
    && forall i :: m < i < |fields| ==> fields[i].name != name
  }

  lemma {:induction false} ExistingIsLast(body: seq<Line>, name: string, j: int)
    ensures LastLineOf(body, name, j) ==> Existing(body, name) == Some(body[j])
    ensures Existing(body, name).Some? ==> exists i :: LastLineOf(body, name, i)
    decreases |body|
  {
    if body != [] {
      var n := |body| - 1;
      if body[n].kind == FieldLine(name) {
        assert LastLineOf(body, name, n);
      } else {
        ExistingIsLast(body[..n], name, j);
        forall i | LastLineOf(body[..n], name, i) ensures LastLineOf(body, name, i) {}
      }
    }
  }

  lemma {:induction false} ByNameIsLast(fields: seq<ProtoField>, name: string, m: int)
    requires LastFieldOf(fields, name, m)
    ensures ByName(fields, name) == fields[m]
    decreases |fields|
  {
    var n := |fields| - 1;
    if fields[n].name != name { ByNameIsLast(fields[..n], name, m); }
  }

  /** The line of the k-th field: the last line with its name, unless there is none or types are
      updated; else a new one, from the last proto field of this name. */
  ghost predicate IsFieldLine(fields: seq<ProtoField>, body: seq<Line>, updateTypes: bool, k: nat, l: Line)
    requires k < |fields|
  {
    var name := fields[k].name;
    && (if Identifier(name) then l.kind == FieldLine(name) else l.kind.Plain?)
    && (forall j :: LastLineOf(body, name, j) && !updateTypes ==> l == body[j])
    && (updateTypes || (forall j :: !LastLineOf(body, name, j)) ==>
          forall m :: LastFieldOf(fields, name, m) ==> l.text == NewText(name, fields[m].hint, fields[m].optional))
  }

  function NewText(name: string, hint: string, optional: bool): string {
    "    " + name + ": " + hint +
    if !optional then "" else if exists i :: 0 <= i < |hint| && StandsAt("None", hint, i) then " = None"
    else " | None = None"
  }

  lemma ManagedIs(fields: seq<ProtoField>, body: seq<Line>, updateTypes: bool, k: nat)
    requires AllProper(body) && k < |fields|
    ensures IsFieldLine(fields, body, updateTypes, k, Managed(fields, body, updateTypes, k))
  {
    hide Existing, ByName, Identifier, AllProper;
    var name, l := fields[k].name, Managed(fields, body, updateTypes, k);
    ManagedFacts(fields, body, updateTypes, k);
    ExistingIsLast(body, name, -1);
    forall j | LastLineOf(body, name, j) && !updateTypes ensures l == body[j] { ExistingIsLast(body, name, j); }
    if updateTypes || forall j :: !LastLineOf(body, name, j) {
      forall m | LastFieldOf(fields, name, m) ensures l.text == NewText(name, fields[m].hint, fields[m].optional) {
        ByNameIsLast(fields, name, m);
        RenderText(fields[m]);
      }
    }
  }

  lemma RenderText(f: ProtoField)
    ensures Render(f).text == NewText(f.name, f.hint, f.optional)
  {
    hide Identifier;
    var start := "    " + f.name + ": ";
    assert start + (f.hint + " | None") + " = None" == start + f.hint + " | None = None";
    assert start + f.hint + "" == start + f.hint;
  }

  /** The new body: one line per field, then the non-field lines. */
  lemma BodyKeeps(fields: seq<ProtoField>, body: seq<Line>, updateTypes: bool, k: nat)
    requires AllProper(body) && k < |fields|
    ensures var new_ := NewBody(fields, body, updateTypes);
      |fields| <= |new_| && IsFieldLine(fields, body, updateTypes, k, new_[k])
  {
    hide NonFields, Existing, Render, ByName, Separator, IsFieldLine;
    ManagedIs(fields, body, updateTypes, k);
    var managed, rest := AllManaged(fields, body, updateTypes), NonFields(body);
    assert managed[k] == Managed(fields, body, updateTypes, k);
    TailOf(managed, Separator(rest) + rest);
    NewBodyIs(fields, body, updateTypes);
    assert managed + Separator(rest) + rest == managed + (Separator(rest) + rest);
  }

  lemma TailOf(a: seq<Line>, b: seq<Line>)
    ensures (a + b)[|a|..] == b && forall k :: 0 <= k < |a| ==> (a + b)[k] == a[k]
  {
  }

  lemma PartOf(l: seq<Line>, x: seq<Line>, b: nat, k: nat, n: nat)
    requires b + |x| <= |l| && l[b..b + |x|] == x && n <= |x|
    ensures (k < n ==> l[b + k] == x[k]) && l[b + n..b + |x|] == x[n..]
  {
    assert k < n ==> l[b..b + |x|][k] == l[b + k];
    assert l[b..b + |x|][n..] == l[b + n..b + |x|];
  }

  lemma ProperBody(lines: seq<Line>, cls: string)
    requires AllProper(lines) && HasClass(lines, cls)
    ensures AllProper(OldBody(lines, cls))
  {
  }

  /** What a run leaves alone: everything outside the class body, and inside it the non-field lines
      in their order (behind fields, at most one blank line is put before them). Before them stand
      the fields in proto order, one line each, existing lines being kept unless types are updated;
      without fields the body becomes the non-field lines. */
  lemma SyncKeeps(lines: seq<Line>, fields: seq<ProtoField>, cls: string, updateTypes: bool, k: nat)
    requires AllProper(lines) && HasClass(lines, cls)
    ensures var b, out, body := BodyAt(lines, cls), Sync(lines, fields, cls, updateTypes), OldBody(lines, cls);
      && HasClass(out, cls) && b + |fields| <= BlockEnd(out, cls)
      && out[..b] == lines[..b] && out[BlockEnd(out, cls)..] == lines[BlockEnd(lines, cls)..]
      && out[b + |fields|..BlockEnd(out, cls)] == AfterFields(fields, body)
      && (k < |fields| ==> IsFieldLine(fields, body, updateTypes, k, out[b + k]))
  {
    hide *;
    var b, body := BodyAt(lines, cls), OldBody(lines, cls);
    SameBlock(lines, fields, cls, updateTypes);
    ProperBody(lines, cls);
    BodyEnds(fields, body, updateTypes);
    if k < |fields| { BodyKeeps(fields, body, updateTypes, k); }
    PartOf(Sync(lines, fields, cls, updateTypes), NewBody(fields, body, updateTypes), b, k, |fields|);
  }
}
