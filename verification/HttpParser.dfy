// The resumable response parser of src/here_tracking_http_parser.c, step by step.

module HttpParsers {
  import opened Bytes
  import opened Errors
  import opened HttpEvents
  import opened HttpGrammar
  import opened Utils

  function VerdictErr(v: Verdict): Err {
    match v
    case Pass => Ok
    case More => NeedMoreData
    case Fail => Error
  }

  function EndErr(end: End): Err {
    match end
    case Done => Ok
    case Starved => NeedMoreData
    case Broken => Error
    case Stuck => Ok
  }

  /** What a stuck loop goes on reporting: empty last fragments. */
  function Repeated(n: nat): (events: seq<Event>)
    ensures |events| == n && forall i :: 0 <= i < n ==> events[i] == Body([], true)
  {
    seq(n, _ => Body([], true))
  }

  /** Whether parse comes back at all: a stuck loop does if the callback interrupts it in the
      end. */
  ghost predicate Returns<S>(cb: Callback<S>, s: S, t: Trace) {
    t.end != Stuck || exists n :: Fold(cb, s, t.events + Repeated(n)).1
  }

  /** The whole run, as seen after `size` bytes with callback data s: t is what remains of it,
      and of the n empty fragments behind it m. */
  ghost predicate Pending<S>(cb: Callback<S>, s0: S, whole: Trace, n: nat, s: S, t: Trace, m: nat, size: nat) {
    Fold(cb, s0, whole.events + Repeated(n)) == Fold(cb, s, t.events + Repeated(m)) &&
    whole.end == t.end && whole.used == size + t.used && whole.last == t.last
  }

  /** The run has ended with an error code. */
  ghost predicate Settled<S>(cb: Callback<S>, s0: S, whole: Trace, n: nat, s: S, p: ParserState, err: Err,
                             size: nat) {
    var f := Fold(cb, s0, whole.events + Repeated(n));
    s == f.0 &&
    if f.1 then err == ClientInterrupt
    else whole.end in {Starved, Broken} && err == EndErr(whole.end) &&
         whole.used == size && whole.last == p
  }

  lemma RunStep<S>(cb: Callback<S>, s: S, p: ParserState, rest: bytes, more: seq<Event>)
    requires rest != []
    ensures var e := ParseElement(p, rest);
      var t := Run(p, rest);
      var f := Fold(cb, s, e.events);
      if e.verdict == Pass && e.size > 0 then
        var u := Run(e.next, rest[e.size..]);
        Fold(cb, s, t.events + more) == (if f.1 then f else Fold(cb, f.0, u.events + more)) &&
        t.end == u.end && t.used == e.size + u.used && t.last == u.last
      else
        Fold(cb, s, t.events + more) == (if f.1 then f else Fold(cb, f.0, more)) &&
        t.used == e.size && t.last == e.next &&
        t.end == match e.verdict case Pass => Stuck case More => Starved case Fail => Broken
  {
    hide ParseElement;
    var e := ParseElement(p, rest);
    if e.verdict == Pass && e.size > 0 {
      var u := Run(e.next, rest[e.size..]);
      FoldAppend(cb, s, e.events, u.events + more);
      Assoc(e.events, u.events, more);
    } else {
      FoldAppend(cb, s, e.events, more);
    }
  }

  /** A stuck iteration that is not interrupted leaves everything as it was, but for the
      callback data. */
  lemma StuckStep<S>(cb: Callback<S>, s: S, p: ParserState, rest: bytes, m: nat)
    requires rest != [] && Run(p, rest).end == Stuck
    requires ParseElement(p, rest).verdict == Pass && ParseElement(p, rest).size == 0
    requires Fold(cb, s, Run(p, rest).events + Repeated(m)).1
    ensures var e := ParseElement(p, rest);
      var f := Fold(cb, s, e.events);
      e.next == p &&
      (!f.1 ==> m > 0 && Fold(cb, s, Run(p, rest).events + Repeated(m)) ==
                         Fold(cb, f.0, Run(p, rest).events + Repeated(m - 1)))
  {
    var e := ParseElement(p, rest);
    assert e.events == [Body([], true)];
    RunStep(cb, s, p, rest, Repeated(m));
    if m > 0 {
      assert Repeated(m) == e.events + Repeated(m - 1);
    }
  }

  lemma NoneRepeated(events: seq<Event>)
    ensures events + Repeated(0) == events
  {
  }

  /** What one sub-parser call does to the state of the parse loop. */
  lemma Advance<S>(cb: Callback<S>, s0: S, whole: Trace, n: nat, s: S, p: ParserState, data: bytes,
                   m: nat, size: nat, s': S, q: ParserState, err: Err, k: nat)
    requires size < |data| && Pending(cb, s0, whole, n, s, Run(p, data[size..]), m, size)
    requires if whole.end == Stuck then Fold(cb, s0, whole.events + Repeated(n)).1 else m == 0
    requires Step(cb, s, ParseElement(p, data[size..]), s', q, err, k)
    ensures err == Ok ==> size + k <= |data| && (k == 0 ==> m > 0)
    ensures err == Ok ==> Pending(cb, s0, whole, n, s', Run(q, data[size + k..]),
                                  if k == 0 then m - 1 else m, size + k)
    ensures err == Ok && whole.end != Stuck ==> k > 0
    ensures err != Ok ==>
              Settled(cb, s0, whole, n, s', q, err, if err == NeedMoreData then size + k else size)
  {
    hide ParseElement, Fold, Run, Repeated;
    var rest := data[size..];
    var e := ParseElement(p, rest);
    RunStep(cb, s, p, rest, Repeated(m));
    NoEvent(cb, s');
    assert rest[e.size..] == data[size + e.size..];
    if e.verdict == Pass && e.size == 0 {
      StuckStep(cb, s, p, rest, m);
    }
  }

  /** A sub-parser did what element e says: it reported e's events until interrupted, and if it
      was not, moved to e's state with e's verdict and size. */
  ghost predicate Step<S>(cb: Callback<S>, s: S, e: Element, s': S, q: ParserState, err: Err, size: nat) {
    var f := Fold(cb, s, e.events);
    s' == f.0 &&
    if f.1 then err == ClientInterrupt
    else err == VerdictErr(e.verdict) && q == e.next && (err != Error ==> size == e.size)
  }

  lemma NoEvent<S>(cb: Callback<S>, s: S)
    ensures Fold(cb, s, Repeated(0)) == (s, false)
  {
  }

  /** Once the callback has interrupted, further events make no difference. */
  lemma RepeatedMore<S>(cb: Callback<S>, s: S, events: seq<Event>, n: nat, m: nat)
    requires Fold(cb, s, events + Repeated(n)).1 && n <= m
    ensures Fold(cb, s, events + Repeated(m)) == Fold(cb, s, events + Repeated(n))
  {
    assert Repeated(m) == Repeated(n) + Repeated(m - n);
    Assoc(events, Repeated(n), Repeated(m - n));
    FoldAppend(cb, s, events + Repeated(n), Repeated(m - n));
  }

  lemma AllRepeated<S>(cb: Callback<S>, s: S, events: seq<Event>, n: nat)
    requires Fold(cb, s, events + Repeated(n)).1
    ensures forall j: nat :: Fold(cb, s, events + Repeated(j)).1 ==>
              Fold(cb, s, events + Repeated(j)) == Fold(cb, s, events + Repeated(n))
  {
    hide Fold;
    forall j: nat | Fold(cb, s, events + Repeated(j)).1
      ensures Fold(cb, s, events + Repeated(j)) == Fold(cb, s, events + Repeated(n))
    {
      if j <= n {
        RepeatedMore(cb, s, events, j, n);
      } else {
        RepeatedMore(cb, s, events, n, j);
      }
    }
  }

  /** The loop has used up its input without an error. */
  lemma RanOut<S>(cb: Callback<S>, s0: S, whole: Trace, n: nat, s: S, p: ParserState, m: nat, size: nat)
    requires Pending(cb, s0, whole, n, s, Run(p, []), m, size) && (whole.end != Stuck ==> m == 0)
    ensures Fold(cb, s0, whole.events + Repeated(n)) == (s, false) && whole.used == size && whole.last == p
    ensures whole.end == if Complete(p) then Done else Starved
  {
    NoEvent(cb, s);
    NoneRepeated([]);
  }

  class HttpParser<S> {
    var evtState: EvtState
    var contentSize: int32
    const cb: Callback<S>
    var cbData: S

    ghost function State(): ParserState
      reads this
    {
      ParserState(evtState, contentSize)
    }

    /** parser_init with a callback. */
    constructor (cb: Callback<S>, cbData: S)
      ensures State() == INITIAL && this.cb == cb && this.cbData == cbData
    {
      this.evtState := AtVersion;
      this.contentSize := CONTENT_LENGTH_UNKNOWN;
      this.cb := cb;
      this.cbData := cbData;
    }

    ghost predicate Took(s0: S, e: Element, err: Err, size: nat)
      reads this
    {
      Step(cb, s0, e, cbData, State(), err, size)
    }

    method Fire(evt: Event) returns (err: Err)
      modifies this`cbData
      ensures cbData == cb(old(cbData), evt).0
      ensures err == if cb(old(cbData), evt).1 then ClientInterrupt else Ok
    {
      var r := cb(cbData, evt);
      cbData := r.0;
      err := if r.1 then ClientInterrupt else Ok;
    }

    /** The report made when the space behind the version is found. */
    method ReportVersion(data: bytes, majorPos: nat, minorPos: nat, pos: nat) returns (err: Err)
      requires majorPos < minorPos <= pos < |data|
      modifies this`evtState, this`cbData
      ensures evtState == AtStatusCode
      ensures var major := AtouValue(data[majorPos..minorPos - 1]) % TWO_16;
        var minor := AtouValue(data[minorPos..pos]) % TWO_16;
        var f := Fold(cb, old(cbData), [Version(major, minor)]);
        cbData == f.0 && err == if f.1 then ClientInterrupt else Ok
    {
      var major := Atou(data[majorPos..], minorPos - majorPos - 1);
      var minor := Atou(data[minorPos..], pos - minorPos);
      assert data[majorPos..][..minorPos - majorPos - 1] == data[majorPos..minorPos - 1];
      assert data[minorPos..][..pos - minorPos] == data[minorPos..pos];
      FoldOne(cb, cbData, Version(major % TWO_16, minor % TWO_16));
      err := Fire(Version(major % TWO_16, minor % TWO_16));
      evtState := AtStatusCode;
    }

    method ParseVersion(data: bytes) returns (err: Err, size: nat)
      modifies this`evtState, this`cbData
      ensures Took(old(cbData), VersionElement(old(State()), data), err, size)
    {
      err, size := NeedMoreData, |data|;
      if |data| >= |HTTP_PROTO| + 4 {
        if data[..|HTTP_PROTO|] == HTTP_PROTO {
          var pos := |HTTP_PROTO|;
          var majorPos, minorPos := pos, pos;
          while pos < |data|
            invariant majorPos == 5 <= minorPos <= pos <= EndOfVersion(data, 5)
            invariant minorPos == AfterLastDot(data, 5, pos)
            invariant err == NeedMoreData && cbData == old(cbData) && evtState == old(evtState)
          {
            if data[pos] == DOT {
              minorPos := pos + 1;
            } else if data[pos] == SP {
              assert pos == EndOfVersion(data, 5);
              if minorPos - majorPos < 2 || pos - minorPos < 1 {
                err := Error;
              } else {
                size := pos + 1;
                err := ReportVersion(data, majorPos, minorPos, pos);
              }
              break;
            } else if !IsDigit(data[pos]) {
              err := Error;
              break;
            }
            pos := pos + 1;
          }
        } else {
          err := Error;
        }
      }
      if err == NeedMoreData {
        size := 0;
      }
    }

    method ParseStatusCode(data: bytes) returns (err: Err, size: nat)
      modifies this
      ensures Took(old(cbData), StatusElement(old(State()), data), err, size)
    {
      err, size := NeedMoreData, |data|;
      if |data| >= 4 {
        if IsDigit(data[0]) && IsDigit(data[1]) && IsDigit(data[2]) && data[3] == SP {
          var code := Atou(data, 3);
          code := code % TWO_16;
          size := 4;
          FoldOne(cb, cbData, StatusCode(code));
          FoldTwo(cb, cbData, StatusCode(code), BodySize(0));
          err := Fire(StatusCode(code));
          if code == NO_CONTENT {
            contentSize := 0;
            err := Fire(BodySize(AsUint32(contentSize)));
          }
          evtState := AtReason;
        } else {
          err := Error;
        }
      }
      if err == NeedMoreData {
        size := 0;
      }
    }

    method ParseReason(data: bytes) returns (err: Err, size: nat)
      modifies this`evtState, this`cbData
      ensures Took(old(cbData), ReasonElement(old(State()), data), err, size)
    {
      err, size := NeedMoreData, |data|;
      if |data| >= |CRLF| + 1 {
        var pos := 1;
        while pos <= |data| - |CRLF|
          invariant 1 <= pos <= |data| - 1
          invariant FindCrlf(data, pos) == FindCrlf(data, 1)
          invariant err == NeedMoreData && cbData == old(cbData) && evtState == old(evtState)
        {
          CrlfSlice(data, pos);
          if data[pos..pos + |CRLF|] == CRLF {
            size := pos + |CRLF|;
            err := Fire(Reason(data[..pos]));
            evtState := AtHeader;
            break;
          } else {
            pos := pos + 1;
          }
        }
      }
      if err == NeedMoreData {
        size := 0;
      }
    }

    method HdrEnd() returns (err: Err, size: nat)
      modifies this`evtState
      ensures size == 2
      ensures contentSize == CONTENT_LENGTH_UNKNOWN ==> err == Error && evtState == old(evtState)
      ensures contentSize != CONTENT_LENGTH_UNKNOWN ==> err == Ok && evtState == AtBody
    {
      size := |CRLF|;
      if contentSize == CONTENT_LENGTH_UNKNOWN {
        err := Error;
      } else {
        err := Ok;
        evtState := AtBody;
      }
    }

    /** build_hdr_evt. */
    static method BuildHdrEvt(line: bytes) returns (err: Err, key: bytes, val: bytes)
      ensures HeaderLine(line).None? <==> err == Error
      ensures HeaderLine(line).Some? ==> err == Ok && HeaderLine(line).value == (key, val)
    {
      err, key, val := Error, [], [];
      var tmp := IndexOf(line, COLON);
      if 0 < tmp < |line| - 1 {
        key := line[..tmp % TWO_16];
        tmp := tmp + 1;
        ghost var from := tmp;
        while tmp < |line| && line[tmp] == SP
          invariant from <= tmp <= |line|
          invariant SkipSpaces(line, tmp) == SkipSpaces(line, from)
        {
          tmp := tmp + 1;
        }
        if tmp < |line| {
          val := line[tmp..tmp + (|line| - tmp) % TWO_16];
          err := Ok;
        }
      }
    }

    /** The reports of one well-formed header line. */
    method ReportHdr(key: bytes, val: bytes) returns (err: Err)
      modifies this`contentSize, this`cbData
      ensures var events := if IsContentLength(key) then [Header(key, val), BodySize(AtouValue(val))]
                            else [Header(key, val)];
              var f := Fold(cb, old(cbData), events);
              cbData == f.0 &&
              (if f.1 then err == ClientInterrupt
               else err == Ok && contentSize == if IsContentLength(key) then AsInt32(AtouValue(val))
                                                else old(contentSize))
    {
      FoldOne(cb, cbData, Header(key, val));
      FoldTwo(cb, cbData, Header(key, val), BodySize(AtouValue(val)));
      err := Fire(Header(key, val));
      if err == Ok && |key| == |CONTENT_LENGTH| {
        var order := MemCaseCmp(key + [COLON], CONTENT_LENGTH + [NUL], |key|);
        assert (key + [COLON])[..|key|] == key && (CONTENT_LENGTH + [NUL])[..|key|] == CONTENT_LENGTH;
        if order == 0 {
          var u := Atou(val + [CR], |val|);
          assert (val + [CR])[..|val|] == val;
          contentSize := AsInt32(u);
          err := Fire(BodySize(AsUint32(contentSize)));
        }
      }
    }

    method ParseHdr(data: bytes) returns (err: Err, size: nat)
      modifies this
      ensures Took(old(cbData), HeaderElement(old(State()), data), err, size)
    {
      err, size := NeedMoreData, |data|;
      if |data| >= 2 {
        CrlfSlice(data, 0);
        if data[..|CRLF|] == CRLF {
          err, size := HdrEnd();
        } else {
          var pos := 1;
          while pos <= |data| - |CRLF|
            invariant 1 <= pos <= |data| - 1
            invariant FindCrlf(data, pos) == FindCrlf(data, 1)
            invariant err == NeedMoreData && cbData == old(cbData) && State() == old(State())
          {
            CrlfSlice(data, pos);
            if data[pos..pos + |CRLF|] == CRLF {
              var key, val;
              err, key, val := BuildHdrEvt(data[..pos]);
              if err == Ok {
                size := pos + |CRLF|;
                err := ReportHdr(key, val);
              }
              break;
            }
            pos := pos + 1;
          }
        }
      }
      if err == NeedMoreData {
        size := 0;
      }
    }

    method ParseBody(data: bytes) returns (err: Err, size: nat)
      requires |data| < TWO_32
      modifies this`contentSize, this`cbData
      ensures Took(old(cbData), BodyElement(old(State()), data), err, size)
    {
      err, size := NeedMoreData, |data|;
      if AsUint32(contentSize) <= |data| {
        size := AsUint32(contentSize);
        contentSize := 0;
        err := Ok;
      } else {
        contentSize := AsInt32(AsUint32(contentSize) - |data|);
      }
      assert data[..|data|] == data;
      var interrupted := Fire(Body(data[..size], contentSize == 0));
      if interrupted != Ok {
        err := ClientInterrupt;
      }
    }

    method ParseOne(data: bytes) returns (err: Err, size: nat)
      requires 0 < |data| < TWO_32
      modifies this
      ensures Took(old(cbData), ParseElement(old(State()), data), err, size)
    {
      match evtState {
        case AtVersion => err, size := ParseVersion(data);
        case AtStatusCode => err, size := ParseStatusCode(data);
        case AtReason => err, size := ParseReason(data);
        case AtHeader => err, size := ParseHdr(data);
        case AtBody => err, size := ParseBody(data);
      }
    }

    /** parse: consumes whole elements and leaves a partial one for the next call. A stuck loop
        hands empty fragments to the callback until it interrupts. */
    method Parse(data: bytes) returns (err: Err, size: nat)
      requires |data| < TWO_32
      requires Returns(cb, cbData, Run(State(), data))
      modifies this
      ensures data == [] ==> err == InvalidInput && size == 0
      ensures data == [] ==> State() == old(State()) && cbData == old(cbData)
      ensures data != [] && Run(old(State()), data).end != Stuck ==>
        var t := Run(old(State()), data);
        var f := Fold(cb, old(cbData), t.events);
        cbData == f.0 && size <= |data| &&
        (if f.1 then err == ClientInterrupt
         else err == EndErr(t.end) && size == t.used && State() == t.last)
      ensures data != [] && Run(old(State()), data).end == Stuck ==>
        err == ClientInterrupt && size <= |data| &&
        forall n :: Fold(cb, old(cbData), Run(old(State()), data).events + Repeated(n)).1 ==>
          cbData == Fold(cb, old(cbData), Run(old(State()), data).events + Repeated(n)).0
    {
      hide ParseElement, Fold, Run, Repeated;
      err, size := Ok, 0;
      if |data| > 0 {
        ghost var s0, whole := cbData, Run(State(), data);
        ghost var n: nat := 0;
        if whole.end == Stuck {
          n :| n >= 0 && Fold(cb, s0, whole.events + Repeated(n)).1;
        }
        ghost var m: nat := n;
        NoneRepeated(whole.events);
        assert data[0..] == data;
        while err == Ok && size < |data|
          invariant 0 <= size <= |data|
          invariant if whole.end == Stuck then Fold(cb, s0, whole.events + Repeated(n)).1 else m == 0
          invariant err == Ok ==> Pending(cb, s0, whole, n, cbData, Run(State(), data[size..]), m, size)
          invariant err != Ok ==> Settled(cb, s0, whole, n, cbData, State(), err, size)
          decreases |data| - size, if err == Ok then 1 else 0, m
        {
          ghost var s, p := cbData, State();
          var k;
          err, k := ParseOne(data[size..]);
          Advance(cb, s0, whole, n, s, p, data, m, size, cbData, State(), err, k);
          if err == Ok || err == NeedMoreData {
            size := size + k;
          }
          if err == Ok && k == 0 {
            m := m - 1;
          }
        }
        if err == Ok {
          RanOut(cb, s0, whole, n, cbData, State(), m, size);
          if evtState == AtBody {
            if contentSize > 0 {
              err := NeedMoreData;
            }
          } else {
            err := NeedMoreData;
          }
        }
        if whole.end == Stuck {
          AllRepeated(cb, s0, whole.events, n);
        }
      } else {
        err := InvalidInput;
      }
    }
  }
}
