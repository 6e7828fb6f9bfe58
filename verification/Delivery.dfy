// Printed responses through the receive window: section 3 of RFC 7230 end to end.

module Delivery {
  import opened Bytes
  import opened Fragmentation
  import opened HttpEvents
  import opened HttpGrammar
  import opened Receiver
  import opened RoundTrip

  /** Every part of the status line and every header line fits into the window. */
  ghost predicate HeadFits(w: nat, r: Response) {
    |VersionText(r)| <= w && |r.code + [SP]| <= w && |r.reason + CRLF| <= w && FieldsFit(w, r.fields)
  }

  ghost predicate FieldsFit(w: nat, fields: seq<Field>) {
    if fields == [] then |CRLF| <= w
    else |FieldLine(fields[0]) + CRLF| <= w && FieldsFit(w, fields[1..])
  }

  lemma StepFits(w: nat, p: ParserState, d: bytes, rest: bytes)
    requires d != [] && ParseElement(p, d).verdict == Pass && ParseElement(p, d).size == |d|
    requires p.evtState != AtBody
    ensures AllFit(w, p, d + rest) <==> |d| <= w && AllFit(w, ParseElement(p, d).next, rest)
  {
    hide ParseElement;
    ElementStable(p, d, rest);
    assert (d + rest)[|d|..] == rest;
  }

  lemma BodyFits(w: nat, body: bytes)
    requires |body| < TWO_31
    ensures AllFit(w, ParserState(AtBody, |body|), body)
  {
    if body != [] {
      ParseWholeBody(body);
      assert body[|body|..] == [];
    }
  }

  lemma {:induction false} FieldsFitExact(w: nat, p: ParserState, fields: seq<Field>, rest: bytes)
    requires p.evtState == AtHeader && forall f :: f in fields ==> FieldFormed(f)
    requires Announced(AllCut(fields), p.contentSize) != CONTENT_LENGTH_UNKNOWN
    ensures AllFit(w, p, FieldLines(fields) + rest) <==>
            FieldsFit(w, fields) &&
            AllFit(w, ParserState(AtBody, Announced(AllCut(fields), p.contentSize)), rest)
    decreases |fields|
  {
    hide ParseElement, AllFit, FieldFormed, FieldLine, Cut16;
    if fields == [] {
      EmptyLine(p);
      StepFits(w, p, CRLF, rest);
    } else {
      var f, more := fields[0], fields[1..];
      LinesCons(fields, rest);
      CutCons(fields, p.contentSize);
      ParseFieldText(p, f);
      StepFits(w, p, FieldLine(f) + CRLF, FieldLines(more) + rest);
      FieldsFitExact(w, p.(contentSize := Announced([Cut16(f)], p.contentSize)), more, rest);
    }
  }

  lemma EmptyLine(p: ParserState)
    requires p.evtState == AtHeader && p.contentSize != CONTENT_LENGTH_UNKNOWN
    ensures ParseElement(p, CRLF) == Element(Pass, 2, [], p.(evtState := AtBody))
  {
    assert CrlfAt(CRLF, 0);
  }

  /** The window holds every element of a stream that starts with a printed header section if
      and only if it holds the lines and what follows. */
  lemma ReadableFitsExact(w: nat, r: Response, rest: bytes)
    requires Readable(r)
    ensures AllFit(w, INITIAL, Head(r) + rest) <==>
            HeadFits(w, r) && AllFit(w, ParserState(AtBody, SizeOf(Reported(r))), rest)
  {
    hide ParseElement, AllFit, FieldLines, FieldsFit, FieldEvents, FieldFormed, AllCut;
    var a, b, c, d := VersionText(r), r.code + [SP], r.reason + CRLF, FieldLines(r.fields);
    assert Head(r) + rest == a + (b + (c + (d + rest))) by {
      Assoc(a, b + (c + d), rest);
      Assoc(b, c + d, rest);
      Assoc(c, d, rest);
    }
    ParseVersionText(INITIAL, r);
    StepFits(w, INITIAL, a, b + (c + (d + rest)));
    var p1 := INITIAL.(evtState := AtStatusCode);
    ParseStatusText(p1, r);
    StepFits(w, p1, b, c + (d + rest));
    var p2 := ParseElement(p1, b).next;
    ParseReasonText(p2, r);
    StepFits(w, p2, c, d + rest);
    FieldsFitExact(w, p2.(evtState := AtHeader), r.fields, rest);
  }

  lemma HeadFitsExact(w: nat, r: Response, rest: bytes)
    requires HeadFormed(r)
    ensures AllFit(w, INITIAL, Head(r) + rest) <==>
            HeadFits(w, r) && AllFit(w, ParserState(AtBody, SizeOf(r)), rest)
  {
    hide AllFit, HeadFits, HeadFormed, Readable, Head, SizeOf;
    FormedReadable(r);
    ReadableFitsExact(w, r, rest);
  }

  /** A printed response fits the window if and only if its lines do. */
  lemma PrintFits(w: nat, r: Response)
    requires WellFormed(r)
    ensures AllFit(w, INITIAL, Print(r)) <==> HeadFits(w, r)
  {
    hide HeadFits, AllFit, HeadFormed, Head;
    HeadFitsExact(w, r, r.body);
    BodyFits(w, r.body);
  }

  /** A response that breaks off inside its body is reported as far as it goes, and fails. */
  lemma BrokenDelivered(w: nat, r: Response, part: bytes)
    requires 0 < w && WellFormed(r) && HeadFits(w, r) && 0 < |part| < |r.body|
    ensures Clean(INITIAL, Head(r) + part)
    ensures Windowed(w, INITIAL, Head(r) + part) == Outcome(HeadEvents(r) + [Body(part, false)], Broken)
  {
    hide HeadFits, HeadFormed, Head, HeadEvents;
    var p := ParserState(AtBody, |r.body|);
    PartialBody(w, |r.body|, part);
    RunHead(r, part);
    HeadClean(r, part);
    HeadFitsExact(w, r, part);
    WindowedExact(w, INITIAL, Head(r) + part);
  }

  lemma PartialBody(w: nat, n: int32, part: bytes)
    requires 0 < |part| < n
    ensures var p := ParserState(AtBody, n);
      AllFit(w, p, part) &&
      Run(p, part) == Trace([Body(part, false)], Starved, |part|, p.(contentSize := n - |part|))
  {
  }

  /** A response that announces no body, or one of 2^31 bytes or more, and stops behind its
      header section is taken for complete. */
  lemma HeadDelivered(w: nat, r: Response)
    requires 0 < w && HeadFormed(r) && HeadFits(w, r) && SizeOf(r) <= 0
    ensures Clean(INITIAL, Head(r))
    ensures Windowed(w, INITIAL, Head(r)) == Outcome(HeadEvents(r), Done)
  {
    hide HeadFits, HeadFormed, Head, HeadEvents;
    RunHead(r, []);
    HeadClean(r, []);
    HeadFitsExact(w, r, []);
    assert Head(r) + [] == Head(r);
    assert HeadEvents(r) + [] == HeadEvents(r);
    WindowedExact(w, INITIAL, Head(r));
  }

  function ResponseEvents(r: Response): seq<Event> {
    HeadEvents(r) + BodyEvents(r.body)
  }

  /** A printed response comes out of the window loop as exactly its fields, in order, and its
      body, if and only if its lines fit the window; if one does not, the session fails. */
  lemma PrintDelivered(w: nat, r: Response)
    requires 0 < w && WellFormed(r)
    ensures Clean(INITIAL, Print(r))
    ensures HeadFits(w, r) ==> Windowed(w, INITIAL, Print(r)) == Outcome(ResponseEvents(r), Done)
    ensures !HeadFits(w, r) ==> Windowed(w, INITIAL, Print(r)).end == Broken
  {
    hide HeadFits, WellFormed, Print, HeadEvents, BodyEvents;
    PrintFits(w, r);
    PrintParse(r);
    WindowedExact(w, INITIAL, Print(r));
  }
}
