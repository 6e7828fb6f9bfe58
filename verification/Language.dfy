// Which streams the parser reads: the header sections it takes are exactly the printed ones.

module Language {
  import opened Bytes
  import opened Delivery
  import opened Fragmentation
  import opened HttpGrammar
  import opened Receiver
  import opened RoundTrip

  // ----- what each sub-parser accepts -----

  lemma VersionOnly(p: ParserState, data: bytes) returns (major: bytes, minor: bytes, rest: bytes)
    requires p.evtState == AtVersion && data != [] && ParseElement(p, data).verdict == Pass
    ensures major != [] && Dotted(major) && minor != [] && AllDigits(minor)
    ensures data == (HTTP_PROTO + major + [DOT] + minor + [SP]) + rest
  {
    var end := EndOfVersion(data, 5);
    var m := AfterLastDot(data, 5, end);
    major, minor, rest := data[5..m - 1], data[m..end], data[end + 1..];
    assert data[..5] == HTTP_PROTO;
    CutFour(data, m - 1, m, end);
    forall i | 0 <= i < |minor| ensures IsDigit(minor[i]) {
      assert minor[i] == data[m + i];
    }
  }

  lemma CutFour(data: bytes, dot: nat, m: nat, end: nat)
    requires 5 <= dot && m == dot + 1 && m <= end < |data| && data[dot] == DOT && data[end] == SP
    ensures data == (data[..5] + data[5..dot] + [DOT] + data[m..end] + [SP]) + data[end + 1..]
  {
  }

  lemma StatusOnly(p: ParserState, data: bytes) returns (code: bytes, rest: bytes)
    requires p.evtState == AtStatusCode && data != [] && ParseElement(p, data).verdict == Pass
    ensures |code| == 3 && AllDigits(code) && data == (code + [SP]) + rest
  {
    code, rest := data[..3], data[4..];
  }

  lemma ReasonOnly(p: ParserState, data: bytes) returns (reason: bytes, rest: bytes)
    requires p.evtState == AtReason && data != [] && ParseElement(p, data).verdict == Pass
    ensures ReasonText(reason) && data == (reason + CRLF) + rest
  {
    var end := FindCrlf(data, 1);
    reason, rest := data[..end], data[end + 2..];
    LineCut(data, end);
    forall i | 1 <= i < |reason| ensures !CrlfAt(reason, i) {
      assert !CrlfAt(data, i);
    }
  }

  lemma LineCut(data: bytes, end: nat)
    requires CrlfAt(data, end)
    ensures data == (data[..end] + CRLF) + data[end + 2..]
  {
  }

  /** A line that splits into key and value is the printed form of a field. */
  lemma LineOnly(line: bytes) returns (f: Field)
    requires CrlfFree(line) && HeaderLine(line).Some?
    ensures FieldFormed(f) && FieldLine(f) == line
  {
    var colon := IndexOf(line, COLON);
    var v := SkipSpaces(line, colon + 1);
    f := Field(line[..colon], v - (colon + 1), line[v..]);
    assert line == line[..colon] + [COLON] + Spaces(f.pad) + line[v..];
    forall i | 0 <= i < |f.key| ensures !CrlfAt(f.key, i) {
      assert !CrlfAt(line, i);
    }
    forall i | 0 <= i < |f.val| ensures !CrlfAt(f.val, i) {
      assert !CrlfAt(line, v + i);
    }
  }

  lemma HeaderOnly(p: ParserState, data: bytes) returns (blank: bool, f: Field, rest: bytes)
    requires p.evtState == AtHeader && data != [] && ParseElement(p, data).verdict == Pass
    ensures blank ==> data == CRLF + rest && p.contentSize != CONTENT_LENGTH_UNKNOWN
    ensures !blank ==> FieldFormed(f) && data == (FieldLine(f) + CRLF) + rest
  {
    hide FieldLine, HeaderLine;
    f, blank := Field([], 0, []), CrlfAt(data, 0);
    if blank {
      rest := data[2..];
    } else {
      var end := FindCrlf(data, 1);
      LineCut(data, end);
      rest := data[end + 2..];
      forall i | 0 <= i < end ensures !CrlfAt(data[..end], i) {
        assert !CrlfAt(data, i);
      }
      f := LineOnly(data[..end]);
    }
  }

  // ----- whole header sections -----

  /** The run is past the header section. */
  ghost predicate InBody(p: ParserState, data: bytes) {
    Run(p, data).last.evtState == AtBody
  }

  /** A run that gets anywhere takes an element first. */
  lemma TakesElement(p: ParserState, data: bytes)
    requires p.evtState != AtBody && InBody(p, data)
    ensures data != [] && ParseElement(p, data).verdict == Pass && ParseElement(p, data).size > 0
    ensures InBody(ParseElement(p, data).next, data[ParseElement(p, data).size..])
  {
    hide ParseElement;
    if data != [] {
      OnlyCompleteSticks(p, data);
    }
  }

  lemma TakenOff(p: ParserState, d: bytes, rest: bytes)
    requires d != [] && ParseElement(p, d).verdict == Pass && ParseElement(p, d).size == |d|
    ensures ParseElement(p, d + rest) == ParseElement(p, d) && (d + rest)[|d|..] == rest
  {
    ElementStable(p, d, rest);
  }

  lemma {:induction false} FieldsOnly(p: ParserState, data: bytes) returns (fields: seq<Field>, rest: bytes)
    requires p.evtState == AtHeader && InBody(p, data)
    ensures (forall f :: f in fields ==> FieldFormed(f)) && data == FieldLines(fields) + rest
    ensures Announced(AllCut(fields), p.contentSize) != CONTENT_LENGTH_UNKNOWN
    decreases |data|
  {
    hide ParseElement, FieldFormed, FieldLine, Cut16, Run;
    TakesElement(p, data);
    var blank, f, more := HeaderOnly(p, data);
    fields, rest := [], more;
    if !blank {
      ParseFieldText(p, f);
      TakenOff(p, FieldLine(f) + CRLF, more);
      var later;
      later, rest := FieldsOnly(ParseElement(p, data).next, more);
      fields := [f] + later;
      assert fields[1..] == later;
      LinesCons(fields, rest);
      CutCons(fields, p.contentSize);
    }
  }

  /** Whatever the parser takes for a header section is the printed form of one. */
  lemma ReadsOnly(data: bytes) returns (r: Response, rest: bytes)
    requires InBody(INITIAL, data)
    ensures Readable(r) && data == Head(r) + rest
  {
    hide ParseElement, Run, FieldLines, AllCut, FieldFormed, ReasonText, Dotted, Announced;
    TakesElement(INITIAL, data);
    var major, minor, d1 := VersionOnly(INITIAL, data);
    r := Response(major, minor, [], [], [], []);
    ParseVersionText(INITIAL, r);
    TakenOff(INITIAL, VersionText(r), d1);
    var p1 := ParseElement(INITIAL, data).next;
    TakesElement(p1, d1);
    var code, d2 := StatusOnly(p1, d1);
    r := r.(code := code);
    ParseStatusText(p1, r);
    TakenOff(p1, code + [SP], d2);
    var p2 := ParseElement(p1, d1).next;
    TakesElement(p2, d2);
    var reason, d3 := ReasonOnly(p2, d2);
    r := r.(reason := reason);
    ParseReasonText(p2, r);
    TakenOff(p2, reason + CRLF, d3);
    var p3 := ParseElement(p2, d2).next;
    var fields;
    fields, rest := FieldsOnly(p3, d3);
    r := r.(fields := fields);
    HeadJoins(VersionText(r), code + [SP], reason + CRLF, FieldLines(fields), rest);
  }

  lemma HeadJoins(a: bytes, b: bytes, c: bytes, d: bytes, rest: bytes)
    ensures (a + (b + (c + d))) + rest == a + (b + (c + (d + rest)))
  {
    Assoc(a, b + (c + d), rest);
    Assoc(b, c + d, rest);
    Assoc(c, d, rest);
  }

  /** The stream begins with a header section. */
  ghost predicate Headed(data: bytes, r: Response, rest: bytes) {
    Readable(r) && data == Head(r) + rest
  }

  lemma {:induction false} StaysInBody(p: ParserState, data: bytes)
    requires p.evtState == AtBody
    ensures InBody(p, data)
    decreases |data|
  {
    if data != [] {
      var e := ParseElement(p, data);
      if e.verdict == Pass && e.size > 0 {
        StaysInBody(e.next, data[e.size..]);
      }
    }
  }

  /** The parser gets past the header section of exactly the streams that begin with a printed
      one. */
  lemma HeadExactly(data: bytes)
    ensures InBody(INITIAL, data) <==> exists r, rest :: Headed(data, r, rest)
  {
    hide ParseElement, Run, Readable, Head, HeadEvents, SizeOf;
    if InBody(INITIAL, data) {
      var r, rest := ReadsOnly(data);
      assert Headed(data, r, rest);
    }
    if r, rest :| Headed(data, r, rest) {
      RunReadable(r, rest);
      StaysInBody(ParserState(AtBody, SizeOf(Reported(r))), rest);
    }
  }

  // ----- sessions that succeed -----

  /** What is behind the header section is what it announces; the test of an empty rest is the
      signed one. */
  ghost predicate Complies(size: int32, rest: bytes) {
    if rest == [] then size <= 0 else |rest| == AsUint32(size)
  }

  lemma BodyEnds(size: int32, rest: bytes)
    ensures Run(ParserState(AtBody, size), rest).end == Done <==> Complies(size, rest)
  {
    hide ParseElement, AsUint32, AsInt32;
    if rest != [] {
      BodyOnce(ParserState(AtBody, size), rest);
      var k := AsUint32(size);
      if 0 < k < |rest| {
        BodyOnce(ParserState(AtBody, 0), rest[k..]);
      }
    }
  }

  lemma {:induction false} BodyHasNoLines(w: nat, p: ParserState, rest: bytes)
    requires p.evtState == AtBody
    ensures AllFit(w, p, rest)
    decreases |rest|
  {
    if rest != [] {
      var e := ParseElement(p, rest);
      if e.verdict == Pass && e.size > 0 {
        BodyHasNoLines(w, e.next, rest[e.size..]);
      }
    }
  }

  lemma DoneInBody(data: bytes)
    requires Run(INITIAL, data).end == Done
    ensures InBody(INITIAL, data)
  {
    DoneAnywhere(INITIAL, data);
  }

  lemma {:induction false} DoneAnywhere(p: ParserState, data: bytes)
    requires Run(p, data).end == Done
    ensures InBody(p, data)
    decreases |data|
  {
    hide ParseElement;
    if data != [] {
      var e := ParseElement(p, data);
      if e.verdict == Pass && e.size > 0 {
        DoneAnywhere(e.next, data[e.size..]);
      }
    }
  }

  ghost predicate Answers(w: nat, data: bytes, r: Response, rest: bytes) {
    Headed(data, r, rest) && HeadFits(w, r) && Complies(SizeOf(Reported(r)), rest)
  }

  /** A session without interruption succeeds on exactly the streams that are one printed
      response, whose lines fit the window, with the body it announces. */
  lemma SuccessExactly(w: nat, data: bytes)
    requires 0 < w
    ensures Windowed(w, INITIAL, data).end == Done <==> exists r, rest :: Answers(w, data, r, rest)
  {
    hide ParseElement, Run, Readable, Head, HeadEvents, SizeOf, Windowed, AllFit, HeadFits, Complies;
    WindowedExact(w, INITIAL, data);
    if Windowed(w, INITIAL, data).end == Done {
      DoneInBody(data);
      var r, rest := ReadsOnly(data);
      HeadedEnds(w, data, r, rest);
      assert Answers(w, data, r, rest);
    }
    if r, rest :| Answers(w, data, r, rest) {
      HeadedEnds(w, data, r, rest);
    }
  }

  lemma HeadedEnds(w: nat, data: bytes, r: Response, rest: bytes)
    requires 0 < w && Headed(data, r, rest)
    ensures Run(INITIAL, data).end == Done <==> Complies(SizeOf(Reported(r)), rest)
    ensures AllFit(w, INITIAL, data) <==> HeadFits(w, r)
  {
    hide ParseElement, Run, Readable, Head, HeadEvents, SizeOf, AllFit, HeadFits, Complies;
    RunReadable(r, rest);
    BodyEnds(SizeOf(Reported(r)), rest);
    ReadableFitsExact(w, r, rest);
    BodyHasNoLines(w, ParserState(AtBody, SizeOf(Reported(r))), rest);
  }
}
