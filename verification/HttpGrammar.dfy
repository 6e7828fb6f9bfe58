// What each sub-parser of src/here_tracking_http_parser.c accepts, and the run of its main loop.

module HttpGrammar {
  import opened Bytes
  import opened HttpEvents
  import opened Options
  import opened Utils

  const HTTP_PROTO: bytes := Ascii("HTTP/")
  const CONTENT_LENGTH: bytes := Ascii("Content-Length")
  const CONTENT_LENGTH_UNKNOWN: int32 := -1
  const TWO_16: int := 0x1_0000

  datatype EvtState = AtVersion | AtStatusCode | AtReason | AtHeader | AtBody

  /** parser->evt_state and parser->content_size, an int32. */
  datatype ParserState = ParserState(evtState: EvtState, contentSize: int32)

  const INITIAL: ParserState := ParserState(AtVersion, CONTENT_LENGTH_UNKNOWN)

  function AsInt32(u: uint32): int32 {
    if u < TWO_31 then u else u - TWO_32
  }

  function AsUint32(i: int32): uint32 {
    i % TWO_32
  }

  /** The test made when all bytes are used up: the response counts as complete. It is signed,
      so a content size with its top bit set passes as "nothing left". */
  predicate Complete(p: ParserState) {
    p.evtState == AtBody && p.contentSize <= 0
  }

  // ----- elements -----

  datatype Verdict = Pass | More | Fail

  /** What one sub-parser call decides: how much it consumes, what it reports, what follows. */
  datatype Element = Element(verdict: Verdict, size: nat, events: seq<Event>, next: ParserState)

  function NeedMore(p: ParserState): Element {
    Element(More, 0, [], p)
  }

  function Malformed(p: ParserState): Element {
    Element(Fail, 0, [], p)
  }

  /** The first index from `from` on that is neither a digit nor a dot. */
  function EndOfVersion(data: bytes, from: nat): (r: nat)
    requires from <= |data|
    ensures from <= r <= |data|
    ensures forall i :: from <= i < r ==> IsDigit(data[i]) || data[i] == DOT
    ensures r < |data| ==> !IsDigit(data[r]) && data[r] != DOT
    decreases |data| - from
  {
    if from == |data| || (!IsDigit(data[from]) && data[from] != DOT) then from
    else EndOfVersion(data, from + 1)
  }

  /** The index behind the last dot in data[from..to], or `from` when there is none. */
  function AfterLastDot(data: bytes, from: nat, to: nat): (m: nat)
    requires from <= to <= |data|
    ensures from <= m <= to
    ensures m > from ==> data[m - 1] == DOT
    ensures forall i :: m <= i < to ==> data[i] != DOT
  {
    if to == from || data[to - 1] == DOT then to else AfterLastDot(data, from, to - 1)
  }

  function VersionElement(p: ParserState, data: bytes): Element {
    if |data| < 9 then NeedMore(p)
    else if data[..5] != HTTP_PROTO then Malformed(p)
    else
      var end := EndOfVersion(data, 5);
      if end == |data| then NeedMore(p)
      else
        var minor := AfterLastDot(data, 5, end);
        if data[end] != SP || minor - 5 < 2 || end - minor < 1 then Malformed(p)
        else
          Element(Pass, end + 1,
                  [Version(AtouValue(data[5..minor - 1]) % TWO_16, AtouValue(data[minor..end]) % TWO_16)],
                  p.(evtState := AtStatusCode))
  }

  function StatusElement(p: ParserState, data: bytes): Element {
    if |data| < 4 then NeedMore(p)
    else if !(IsDigit(data[0]) && IsDigit(data[1]) && IsDigit(data[2]) && data[3] == SP) then
      Malformed(p)
    else
      var code := AtouValue(data[..3]) % TWO_16;
      if code == NO_CONTENT then
        Element(Pass, 4, [StatusCode(code), BodySize(0)], ParserState(AtReason, 0))
      else
        Element(Pass, 4, [StatusCode(code)], p.(evtState := AtReason))
  }

  predicate CrlfAt(data: bytes, i: int) {
    0 <= i && i + 1 < |data| && data[i] == CR && data[i + 1] == LF
  }

  lemma CrlfSlice(data: bytes, i: nat)
    requires i + 2 <= |data|
    ensures data[i..i + 2] == CRLF <==> CrlfAt(data, i)
  {
    assert data[i..i + 2] == [data[i], data[i + 1]];
  }

  /** The first CRLF at or behind `from`, or |data| when there is none. */
  function FindCrlf(data: bytes, from: nat): (r: nat)
    requires from <= |data|
    ensures from <= r <= |data|
    ensures r < |data| ==> CrlfAt(data, r)
    ensures forall i :: from <= i < r ==> !CrlfAt(data, i)
    decreases |data| - from
  {
    if from == |data| || CrlfAt(data, from) then from else FindCrlf(data, from + 1)
  }

  function ReasonElement(p: ParserState, data: bytes): Element {
    if |data| < 3 then NeedMore(p)
    else
      var end := FindCrlf(data, 1);
      if end == |data| then NeedMore(p)
      else Element(Pass, end + 2, [Reason(data[..end])], p.(evtState := AtHeader))
  }

  function IndexOf(s: bytes, c: byte): (k: nat)
    ensures k <= |s|
    ensures k < |s| ==> s[k] == c
    ensures forall i :: 0 <= i < k ==> s[i] != c
  {
    if s == [] || s[0] == c then 0 else 1 + IndexOf(s[1..], c)
  }

  /** The first index from `from` on that is not a space. */
  function SkipSpaces(s: bytes, from: nat): (k: nat)
    requires from <= |s|
    ensures from <= k <= |s|
    ensures k < |s| ==> s[k] != SP
    ensures forall i :: from <= i < k ==> s[i] == SP
    decreases |s| - from
  {
    if from == |s| || s[from] != SP then from else SkipSpaces(s, from + 1)
  }

  /** A header line without its CRLF, split at the first colon; sizes are 16-bit. */
  function HeaderLine(line: bytes): Option<(bytes, bytes)> {
    var colon := IndexOf(line, COLON);
    if colon == 0 || colon >= |line| - 1 then None
    else
      var v := SkipSpaces(line, colon + 1);
      if v == |line| then None
      else Some((line[..colon % TWO_16], line[v..v + (|line| - v) % TWO_16]))
  }

  predicate IsContentLength(key: bytes) {
    SameIgnoringCase(key, CONTENT_LENGTH)
  }

  function HeaderElement(p: ParserState, data: bytes): Element {
    if |data| < 2 then NeedMore(p)
    else if CrlfAt(data, 0) then
      if p.contentSize == CONTENT_LENGTH_UNKNOWN then Malformed(p)
      else Element(Pass, 2, [], p.(evtState := AtBody))
    else
      var end := FindCrlf(data, 1);
      if end == |data| then NeedMore(p)
      else
        match HeaderLine(data[..end])
        case None => Malformed(p)
        case Some((key, val)) =>
          if IsContentLength(key) then
            var u := AtouValue(val);
            Element(Pass, end + 2, [Header(key, val), BodySize(u)], p.(contentSize := AsInt32(u)))
          else
            Element(Pass, end + 2, [Header(key, val)], p)
  }

  function BodyElement(p: ParserState, data: bytes): Element {
    var left := AsUint32(p.contentSize);
    if left <= |data| then
      Element(Pass, left, [Body(data[..left], true)], p.(contentSize := 0))
    else
      Element(More, |data|, [Body(data, false)], p.(contentSize := AsInt32(left - |data|)))
  }

  /** One iteration of the parse loop on the bytes that are left. */
  function ParseElement(p: ParserState, data: bytes): (e: Element)
    requires data != []
    ensures e.size <= |data|
    ensures e.verdict == Fail ==> e == Malformed(p)
    ensures e.verdict == More && p.evtState != AtBody ==> e == NeedMore(p)
  {
    match p.evtState
    case AtVersion => VersionElement(p, data)
    case AtStatusCode => StatusElement(p, data)
    case AtReason => ReasonElement(p, data)
    case AtHeader => HeaderElement(p, data)
    case AtBody => BodyElement(p, data)
  }

  // ----- the run of the parse loop -----

  /** How a call of parse ends if the callback does not interrupt it. Stuck: an iteration
      succeeded without consuming anything, so the next one does the same again. */
  datatype End = Done | Starved | Broken | Stuck

  /** The call used up its input as far as it could, and another call may follow. */
  predicate Paused(end: End) {
    end == Done || end == Starved
  }

  datatype Trace = Trace(events: seq<Event>, end: End, used: nat, last: ParserState)

  function After(e: Element, t: Trace): Trace {
    Trace(e.events + t.events, t.end, e.size + t.used, t.last)
  }

  function Run(p: ParserState, data: bytes): (t: Trace)
    ensures t.used <= |data|
    decreases |data|
  {
    if data == [] then Trace([], if Complete(p) then Done else Starved, 0, p)
    else
      var e := ParseElement(p, data);
      match e.verdict
      case Fail => Trace([], Broken, 0, p)
      case More => Trace(e.events, Starved, e.size, e.next)
      case Pass =>
        if e.size == 0 then Trace(e.events, Stuck, 0, e.next)
        else After(e, Run(e.next, data[e.size..]))
  }
}
