// Printing a response and parsing it back: sections 3.1.2, 3.2 and 3.3.2 of RFC 7230.

module RoundTrip {
  import opened Bytes
  import opened Fragmentation
  import opened HttpEvents
  import opened HttpGrammar
  import opened Options
  import opened Utils

  /** A header field; pad is the number of spaces between the colon and the value. */
  datatype Field = Field(key: bytes, pad: nat, val: bytes)

  datatype Response = Response(
    major: bytes, minor: bytes, code: bytes, reason: bytes, fields: seq<Field>, body: bytes)

  ghost predicate CrlfFree(s: bytes) {
    forall i :: 0 <= i < |s| ==> !CrlfAt(s, i)
  }

  /** A header line that can be told apart: key, colon, spaces and value. */
  ghost predicate FieldFormed(f: Field) {
    f.key != [] && f.val != [] && CrlfFree(f.key) && CrlfFree(f.val) && COLON !in f.key && f.val[0] != SP
  }

  /** And key and value are short enough for their 16-bit sizes. */
  ghost predicate ValidField(f: Field) {
    FieldFormed(f) && |f.key| < TWO_16 && |f.val| < TWO_16
  }

  /** A field as the parser reports it, sizes cut to 16 bits. */
  function Cut16(f: Field): Field {
    f.(key := f.key[..|f.key| % TWO_16], val := f.val[..|f.val| % TWO_16])
  }

  function AllCut(fields: seq<Field>): seq<Field> {
    if fields == [] then [] else [Cut16(fields[0])] + AllCut(fields[1..])
  }

  lemma {:induction false} ValidCut(fields: seq<Field>)
    requires forall f :: f in fields ==> ValidField(f)
    ensures AllCut(fields) == fields
  {
    hide CrlfFree;
    if fields != [] {
      ValidCut(fields[1..]);
      assert fields[0] in fields && Cut16(fields[0]) == fields[0];
    }
  }

  lemma ValidOne(f: Field)
    requires ValidField(f)
    ensures FieldFormed(f) && Cut16(f) == f
  {
  }

  /** Digits and dots: what a major version is read from. */
  ghost predicate Dotted(s: bytes) {
    forall i :: 0 <= i < |s| ==> IsDigit(s[i]) || s[i] == DOT
  }

  /** A reason phrase: its first CRLF behind the first byte is the one that ends it. */
  ghost predicate ReasonText(s: bytes) {
    s != [] && forall i :: 1 <= i < |s| ==> !CrlfAt(s, i)
  }

  function Code(r: Response): nat {
    AtouValue(r.code) % TWO_16
  }

  /** The body size the fields announce, the last Content-Length deciding, or `size` if there
      is none. */
  function Announced(fields: seq<Field>, size: int32): int32 {
    if fields == [] then size
    else Announced(fields[1..], if IsContentLength(fields[0].key) then AsInt32(AtouValue(fields[0].val)) else size)
  }

  /** Status line and header section in the form the parser is promised to understand. */
  ghost predicate HeadFormed(r: Response) {
    r.major != [] && Dotted(r.major) && r.minor != [] && AllDigits(r.minor) &&
    |r.code| == 3 && AllDigits(r.code) &&
    ReasonText(r.reason) && (forall f :: f in r.fields ==> ValidField(f)) &&
    SizeOf(r) != CONTENT_LENGTH_UNKNOWN
  }

  /** The size the parser expects of the body. */
  function SizeOf(r: Response): int32 {
    Announced(r.fields, if Code(r) == NO_CONTENT then 0 else CONTENT_LENGTH_UNKNOWN)
  }

  /** And the announced size is that of the body. */
  ghost predicate WellFormed(r: Response) {
    HeadFormed(r) && SizeOf(r) == |r.body|
  }

  function Spaces(n: nat): (s: bytes)
    ensures |s| == n && forall i :: 0 <= i < n ==> s[i] == SP
  {
    seq(n, _ => SP)
  }

  function VersionText(r: Response): bytes {
    HTTP_PROTO + r.major + [DOT] + r.minor + [SP]
  }

  function FieldLine(f: Field): bytes {
    f.key + [COLON] + Spaces(f.pad) + f.val
  }

  function FieldLines(fields: seq<Field>): bytes {
    if fields == [] then CRLF else (FieldLine(fields[0]) + CRLF) + FieldLines(fields[1..])
  }

  function Head(r: Response): bytes {
    VersionText(r) + ((r.code + [SP]) + ((r.reason + CRLF) + FieldLines(r.fields)))
  }

  function Print(r: Response): bytes {
    Head(r) + r.body
  }

  function StatusEvents(code: nat): seq<Event> {
    if code == NO_CONTENT then [StatusCode(code), BodySize(0)] else [StatusCode(code)]
  }

  function FieldEvents(fields: seq<Field>): seq<Event> {
    if fields == [] then []
    else
      (if IsContentLength(fields[0].key) then
         [Header(fields[0].key, fields[0].val), BodySize(AtouValue(fields[0].val))]
       else [Header(fields[0].key, fields[0].val)])
      + FieldEvents(fields[1..])
  }

  function HeadEvents(r: Response): seq<Event> {
    [Version(AtouValue(r.major) % TWO_16, AtouValue(r.minor) % TWO_16)]
    + (StatusEvents(Code(r)) + ([Reason(r.reason)] + FieldEvents(r.fields)))
  }

  function BodyEvents(body: bytes): seq<Event> {
    if body == [] then [] else [Body(body, true)]
  }

  // ----- one element -----

  /** A run that starts with these events and this many bytes and goes on as t. */
  function Prefixed(events: seq<Event>, size: nat, t: Trace): Trace {
    Trace(events + t.events, t.end, size + t.used, t.last)
  }

  lemma PrefixedTwice(a: seq<Event>, n: nat, b: seq<Event>, m: nat, t: Trace)
    ensures Prefixed(a, n, Prefixed(b, m, t)) == Prefixed(a + b, n + m, t)
  {
    Assoc(a, b, t.events);
  }

  /** An element that decides exactly at the end of d is parsed off the front of d + rest. */
  lemma Step(p: ParserState, d: bytes, rest: bytes)
    requires d != [] && ParseElement(p, d).verdict == Pass && ParseElement(p, d).size == |d|
    ensures var e := ParseElement(p, d);
      Run(p, d + rest) == Prefixed(e.events, e.size, Run(e.next, rest))
  {
    hide ParseElement;
    ElementStable(p, d, rest);
    assert (d + rest)[|d|..] == rest;
  }

  lemma VersionLayout(major: bytes, minor: bytes)
    requires Dotted(major) && AllDigits(minor)
    ensures var d := HTTP_PROTO + major + [DOT] + minor + [SP];
      var dot := 5 + |major|;
      var end := dot + 1 + |minor|;
      |d| == end + 1 && d[..5] == HTTP_PROTO && d[5..dot] == major && d[dot] == DOT &&
      d[dot + 1..end] == minor && d[end] == SP &&
      (forall i :: 5 <= i < dot ==> IsDigit(d[i]) || d[i] == DOT) && (forall i :: dot < i < end ==> IsDigit(d[i]))
  {
    var d := HTTP_PROTO + major + [DOT] + minor + [SP];
    var dot := 5 + |major|;
    var end := dot + 1 + |minor|;
    assert forall i :: 5 <= i < dot ==> d[i] == major[i - 5];
    assert forall i :: dot < i < end ==> d[i] == minor[i - dot - 1];
  }

  lemma VersionEnds(d: bytes, dot: nat, end: nat)
    requires 5 <= dot < end < |d| && d[dot] == DOT && d[end] == SP
    requires forall i :: 5 <= i < dot ==> IsDigit(d[i]) || d[i] == DOT
    requires forall i :: dot < i < end ==> IsDigit(d[i])
    ensures EndOfVersion(d, 5) == end && AfterLastDot(d, 5, end) == dot + 1
  {
  }

  lemma ParseVersionText(p: ParserState, r: Response)
    requires p.evtState == AtVersion && r.major != [] && Dotted(r.major) && r.minor != [] && AllDigits(r.minor)
    ensures ParseElement(p, VersionText(r)) ==
      Element(Pass, |VersionText(r)|,
              [Version(AtouValue(r.major) % TWO_16, AtouValue(r.minor) % TWO_16)],
              p.(evtState := AtStatusCode))
  {
    hide AtouValue;
    VersionLayout(r.major, r.minor);
    var dot := 5 + |r.major|;
    VersionEnds(VersionText(r), dot, dot + 1 + |r.minor|);
  }

  lemma ParseStatusText(p: ParserState, r: Response)
    requires p.evtState == AtStatusCode && |r.code| == 3 && AllDigits(r.code)
    ensures ParseElement(p, r.code + [SP]) ==
      Element(Pass, |r.code + [SP]|, StatusEvents(Code(r)),
              ParserState(AtReason, if Code(r) == NO_CONTENT then 0 else p.contentSize))
  {
    var d := r.code + [SP];
    assert d[..3] == r.code;
    assert forall i :: 0 <= i < 3 ==> d[i] == r.code[i];
  }

  lemma FirstCrlf(s: bytes)
    requires s != [] && CrlfFree(s)
    ensures FindCrlf(s + CRLF, 1) == |s| && !CrlfAt(s + CRLF, 0)
  {
    var d := s + CRLF;
    assert CrlfAt(d, |s|);
    forall i | 0 <= i < |s| ensures !CrlfAt(d, i) {
      assert !CrlfAt(s, i);
    }
  }

  lemma FirstLineEnd(s: bytes)
    requires ReasonText(s)
    ensures FindCrlf(s + CRLF, 1) == |s|
  {
    var d := s + CRLF;
    assert CrlfAt(d, |s|);
    forall i | 1 <= i < |s| ensures !CrlfAt(d, i) {
      assert !CrlfAt(s, i);
    }
  }

  lemma ParseReasonText(p: ParserState, r: Response)
    requires p.evtState == AtReason && ReasonText(r.reason)
    ensures ParseElement(p, r.reason + CRLF) ==
      Element(Pass, |r.reason + CRLF|, [Reason(r.reason)], p.(evtState := AtHeader))
  {
    FirstLineEnd(r.reason);
    assert (r.reason + CRLF)[..|r.reason|] == r.reason;
  }

  lemma FieldLayout(f: Field)
    requires FieldFormed(f)
    ensures var line := FieldLine(f);
      var colon := |f.key|;
      var v := colon + 1 + f.pad;
      |line| == v + |f.val| && line[colon] == COLON && line[..colon] == f.key &&
      line[v..v + |f.val|] == f.val && line[v] != SP &&
      (forall i :: 0 <= i < colon ==> line[i] == f.key[i]) &&
      (forall i :: colon < i < v ==> line[i] == SP) &&
      (forall i :: v <= i < |line| ==> line[i] == f.val[i - v])
  {
  }

  lemma FieldCrlfFree(f: Field)
    requires FieldFormed(f)
    ensures CrlfFree(FieldLine(f))
  {
    hide FieldLine;
    FieldLayout(f);
    var line, colon, v := FieldLine(f), |f.key|, |f.key| + 1 + f.pad;
    forall i | 0 <= i < |line| ensures !CrlfAt(line, i) {
      assert i < colon ==> !CrlfAt(f.key, i);
      assert i >= v ==> !CrlfAt(f.val, i - v);
    }
  }

  lemma FieldLineSplits(f: Field)
    requires FieldFormed(f)
    ensures HeaderLine(FieldLine(f)) == Some((Cut16(f).key, Cut16(f).val))
  {
    hide FieldLine, IndexOf, SkipSpaces;
    FieldLayout(f);
    var line, colon, v := FieldLine(f), |f.key|, |f.key| + 1 + f.pad;
    ColonAt(line, f.key);
    SpacesTo(line, colon + 1, v);
    assert line[..colon % TWO_16] == f.key[..colon % TWO_16];
    assert line[v..v + |f.val| % TWO_16] == f.val[..|f.val| % TWO_16];
  }

  lemma ColonAt(line: bytes, key: bytes)
    requires |key| < |line| && line[|key|] == COLON && COLON !in key
    requires forall i :: 0 <= i < |key| ==> line[i] == key[i]
    ensures IndexOf(line, COLON) == |key|
  {
    hide IndexOf;
    assert forall i :: 0 <= i < |key| ==> key[i] in key;
    var k := IndexOf(line, COLON);
  }

  lemma SpacesTo(line: bytes, from: nat, to: nat)
    requires from <= to < |line| && line[to] != SP && forall i :: from <= i < to ==> line[i] == SP
    ensures SkipSpaces(line, from) == to
  {
    hide SkipSpaces;
    var k := SkipSpaces(line, from);
  }

  lemma ParseFieldText(p: ParserState, f: Field)
    requires p.evtState == AtHeader && FieldFormed(f)
    ensures ParseElement(p, FieldLine(f) + CRLF) ==
      Element(Pass, |FieldLine(f) + CRLF|, FieldEvents([Cut16(f)]),
              p.(contentSize := Announced([Cut16(f)], p.contentSize)))
  {
    hide FieldLine, HeaderLine, AtouValue, Cut16;
    FieldLineSplits(f);
    FieldCrlfFree(f);
    FieldLayout(f);
    FirstCrlf(FieldLine(f));
    assert (FieldLine(f) + CRLF)[..|FieldLine(f)|] == FieldLine(f);
    assert [Cut16(f)][1..] == [];
  }

  // ----- the whole response -----

  lemma RunField(p: ParserState, f: Field, rest: bytes)
    requires p.evtState == AtHeader && FieldFormed(f)
    ensures var q := p.(contentSize := Announced([Cut16(f)], p.contentSize));
      Run(p, (FieldLine(f) + CRLF) + rest) ==
      Prefixed(FieldEvents([Cut16(f)]), |FieldLine(f) + CRLF|, Run(q, rest))
  {
    hide ParseElement, Run, FieldLine;
    ParseFieldText(p, f);
    Step(p, FieldLine(f) + CRLF, rest);
  }

  lemma FieldsCons(fields: seq<Field>, size: int32, rest: bytes)
    requires fields != []
    ensures var f, more := fields[0], fields[1..];
      FieldLines(fields) + rest == (FieldLine(f) + CRLF) + (FieldLines(more) + rest) &&
      |FieldLines(fields)| == |FieldLine(f) + CRLF| + |FieldLines(more)| &&
      FieldEvents(fields) == FieldEvents([f]) + FieldEvents(more) &&
      Announced(fields, size) == Announced(more, Announced([f], size))
  {
    hide FieldLine, AtouValue;
    assert [fields[0]][1..] == [];
    Assoc(FieldLine(fields[0]) + CRLF, FieldLines(fields[1..]), rest);
  }

  lemma {:induction false} RunFields(p: ParserState, fields: seq<Field>, rest: bytes)
    requires p.evtState == AtHeader && forall f :: f in fields ==> FieldFormed(f)
    requires Announced(AllCut(fields), p.contentSize) != CONTENT_LENGTH_UNKNOWN
    ensures Run(p, FieldLines(fields) + rest) ==
            Prefixed(FieldEvents(AllCut(fields)), |FieldLines(fields)|,
                     Run(ParserState(AtBody, Announced(AllCut(fields), p.contentSize)), rest))
    decreases |fields|
  {
    hide *;
    if fields == [] {
      RunNoFields(p, fields, rest);
    } else {
      var f, more := fields[0], fields[1..];
      LinesCons(fields, rest);
      CutCons(fields, p.contentSize);
      RunField(p, f, FieldLines(more) + rest);
      var q := p.(contentSize := Announced([Cut16(f)], p.contentSize));
      assert forall g :: g in more ==> g in fields;
      RunFields(q, more, rest);
      PrefixedTwice(FieldEvents([Cut16(f)]), |FieldLine(f) + CRLF|, FieldEvents(AllCut(more)),
                    |FieldLines(more)|,
                    Run(ParserState(AtBody, Announced(AllCut(more), q.contentSize)), rest));
    }
  }

  lemma LinesCons(fields: seq<Field>, rest: bytes)
    requires fields != []
    ensures FieldLines(fields) + rest ==
            (FieldLine(fields[0]) + CRLF) + (FieldLines(fields[1..]) + rest)
    ensures |FieldLines(fields)| == |FieldLine(fields[0]) + CRLF| + |FieldLines(fields[1..])|
  {
    hide FieldLine;
    Assoc(FieldLine(fields[0]) + CRLF, FieldLines(fields[1..]), rest);
  }

  lemma CutCons(fields: seq<Field>, size: int32)
    requires fields != []
    ensures var f, more := Cut16(fields[0]), AllCut(fields[1..]);
      FieldEvents(AllCut(fields)) == FieldEvents([f]) + FieldEvents(more) &&
      Announced(AllCut(fields), size) == Announced(more, Announced([f], size))
  {
    hide Cut16, AtouValue;
    var all := AllCut(fields);
    assert all[0] == Cut16(fields[0]) && all[1..] == AllCut(fields[1..]);
    assert [all[0]][1..] == [];
  }

  lemma RunNoFields(p: ParserState, fields: seq<Field>, rest: bytes)
    requires p.evtState == AtHeader && fields == []
    requires Announced(AllCut(fields), p.contentSize) != CONTENT_LENGTH_UNKNOWN
    ensures Run(p, FieldLines(fields) + rest) ==
            Prefixed(FieldEvents(AllCut(fields)), |FieldLines(fields)|,
                     Run(ParserState(AtBody, Announced(AllCut(fields), p.contentSize)), rest))
  {
    assert CrlfAt(CRLF, 0);
    var e := ParseElement(p, CRLF);
    hide ParseElement, Run;
    Step(p, CRLF, rest);
  }

  /** The header section in the form the parser takes, fields of any length: HeadFormed, but for
      the sizes. */
  ghost predicate Readable(r: Response) {
    r.major != [] && Dotted(r.major) && r.minor != [] && AllDigits(r.minor) &&
    |r.code| == 3 && AllDigits(r.code) && ReasonText(r.reason) &&
    (forall f :: f in r.fields ==> FieldFormed(f)) && SizeOf(Reported(r)) != CONTENT_LENGTH_UNKNOWN
  }

  /** A response as the parser reports it. */
  function Reported(r: Response): Response {
    r.(fields := AllCut(r.fields))
  }

  lemma RunReadable(r: Response, rest: bytes)
    requires Readable(r)
    ensures Run(INITIAL, Head(r) + rest) ==
            Prefixed(HeadEvents(Reported(r)), |Head(r)|, Run(ParserState(AtBody, SizeOf(Reported(r))), rest))
  {
    hide ParseElement, Run, FieldLines, FieldEvents, AtouValue, AllCut;
    var a, b, c, d := VersionText(r), r.code + [SP], r.reason + CRLF, FieldLines(r.fields);
    assert Head(r) + rest == a + (b + (c + (d + rest))) by {
      Assoc(a, b + (c + d), rest);
      Assoc(b, c + d, rest);
      Assoc(c, d, rest);
    }
    ParseVersionText(INITIAL, r);
    assert a != [] by {
      assert VersionText(r) != [];
    }
    Step(INITIAL, a, b + (c + (d + rest)));
    var p1 := INITIAL.(evtState := AtStatusCode);
    ParseStatusText(p1, r);
    Step(p1, b, c + (d + rest));
    var p2 := ParseElement(p1, b).next;
    ParseReasonText(p2, r);
    Step(p2, c, d + rest);
    RunFields(p2.(evtState := AtHeader), r.fields, rest);
    var t := Run(ParserState(AtBody, SizeOf(Reported(r))), rest);
    var e1, e2, e3, e4 := ParseElement(INITIAL, a).events, StatusEvents(Code(r)),
      [Reason(r.reason)], FieldEvents(AllCut(r.fields));
    PrefixedTwice(e3, |c|, e4, |d|, t);
    PrefixedTwice(e2, |b|, e3 + e4, |c| + |d|, t);
    PrefixedTwice(e1, |a|, e2 + (e3 + e4), |b| + (|c| + |d|), t);
  }

  lemma RunHead(r: Response, rest: bytes)
    requires HeadFormed(r)
    ensures Run(INITIAL, Head(r) + rest) ==
            Prefixed(HeadEvents(r), |Head(r)|, Run(ParserState(AtBody, SizeOf(r)), rest))
  {
    hide Run, Head, HeadEvents, SizeOf, HeadFormed, Readable;
    FormedReadable(r);
    RunReadable(r, rest);
  }

  lemma FormedReadable(r: Response)
    requires HeadFormed(r)
    ensures Readable(r) && Reported(r) == r
  {
    hide ReasonText, SizeOf;
    ValidCut(r.fields);
  }

  lemma RunBody(body: bytes)
    requires |body| < TWO_31
    ensures Run(ParserState(AtBody, |body|), body) ==
            Trace(BodyEvents(body), Done, |body|, ParserState(AtBody, 0))
  {
    if body != [] {
      ParseWholeBody(body);
      hide ParseElement;
      Step(ParserState(AtBody, |body|), body, []);
      assert body + [] == body;
    }
  }

  lemma ParseWholeBody(body: bytes)
    requires body != [] && |body| < TWO_31
    ensures ParseElement(ParserState(AtBody, |body|), body) ==
            Element(Pass, |body|, [Body(body, true)], ParserState(AtBody, 0))
  {
    assert body[..|body|] == body;
  }

  /** Parsing a printed response reports exactly its fields, in order, and consumes it all. */
  lemma PrintParse(r: Response)
    requires WellFormed(r)
    ensures Run(INITIAL, Print(r)) ==
            Trace(HeadEvents(r) + BodyEvents(r.body), Done, |Print(r)|, ParserState(AtBody, 0))
    ensures Clean(INITIAL, Print(r))
  {
    RunHead(r, r.body);
    RunBody(r.body);
    PrintClean(r);
  }

  lemma PrintClean(r: Response)
    requires WellFormed(r)
    ensures Clean(INITIAL, Print(r))
  {
    HeadClean(r, r.body);
  }

  /** The exact condition for what may come behind a printed header section. */
  lemma HeadClean(r: Response, rest: bytes)
    requires HeadFormed(r)
    ensures Clean(INITIAL, Head(r) + rest) <==> rest == [] || (0 < SizeOf(r) && |rest| <= SizeOf(r))
  {
    hide HeadFormed, Head, HeadEvents, Clean, SizeOf, ParseElement;
    RunHead(r, []);
    assert Head(r) + [] == Head(r);
    assert HeadEvents(r) + [] == HeadEvents(r);
    NoBodyInHead(r);
    CleanMeaning(Head(r), rest);
  }

  /** Behind a printed header section the parse loop gets stuck if and only if more bytes follow
      than the announced size, read without its sign, has room for. */
  lemma StuckExactly(r: Response, rest: bytes)
    requires HeadFormed(r)
    ensures Run(INITIAL, Head(r) + rest).end == Stuck <==> |rest| > AsUint32(SizeOf(r))
  {
    hide HeadFormed, Head, HeadEvents, SizeOf, ParseElement;
    RunHead(r, rest);
    BodySticks(SizeOf(r), rest);
  }

  lemma BodySticks(size: int32, rest: bytes)
    ensures Run(ParserState(AtBody, size), rest).end == Stuck <==> |rest| > AsUint32(size)
  {
    hide ParseElement, AsUint32, AsInt32;
    if rest != [] {
      BodyOnce(ParserState(AtBody, size), rest);
      var k := AsUint32(size);
      if 0 < k < |rest| {
        BodyOnce(ParserState(AtBody, 0), rest[k..]);
      }
    }
  }

  lemma BodyOnce(p: ParserState, rest: bytes)
    requires p.evtState == AtBody && rest != []
    ensures var e := ParseElement(p, rest);
      if AsUint32(p.contentSize) <= |rest| then
        e.verdict == Pass && e.size == AsUint32(p.contentSize) && e.next == ParserState(AtBody, 0)
      else e.verdict == More
    ensures AsUint32(0) == 0
  {
  }

  lemma NoBodyInHead(r: Response)
    ensures forall e :: e in HeadEvents(r) ==> !e.Body?
  {
    hide FieldEvents, AtouValue;
    NoBodyInFields(r.fields);
  }

  lemma {:induction false} NoBodyInFields(fields: seq<Field>)
    ensures forall e :: e in FieldEvents(fields) ==> !e.Body?
  {
    if fields != [] {
      NoBodyInFields(fields[1..]);
    }
  }

  /** The size announced by a Content-Length printed with the library's own digits. */
  lemma AnnouncedDigits(f: Field, size: int32, n: uint32)
    requires IsContentLength(f.key) && f.val == Digits(n, 10) && n < TWO_31
    ensures Announced([f], size) == n
  {
    AtouOfDigits(n);
    assert [f][1..] == [];
  }
}
