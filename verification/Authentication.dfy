// The response half of http_auth in src/here_tracking_http.c: parser, window and token scanner
// put together.

module Authentication {
  import opened AuthScanner
  import opened AuthTheory
  import opened BodyTheory
  import opened Bytes
  import opened Delivery
  import opened Errors
  import opened Fragmentation
  import opened HttpEvents
  import opened HttpGrammar
  import opened KeyMatcher
  import opened Options
  import opened Receiver
  import opened RoundTrip
  import opened StatusCodes
  import opened TlsPipe
  import opened Utils

  /** What http_auth returns: the mapped status, unless reading the response failed. */
  function Mapped(r: (Err, Auth)): (Err, Auth) {
    (if r.0 == Ok || r.0 == ClientInterrupt then r.1.status else r.0, r.1)
  }

  function AuthOutcome(clock: Clock, a: Auth, stream: bytes): (Err, Auth) {
    Mapped(Result(AuthCb(clock), a, Windowed(TLS_BUFFER_SIZE, INITIAL, stream)))
  }

  /** What http_auth makes of a session with these pieces, once reading has come back. */
  ghost predicate AuthReceived(clock: Clock, a0: Auth, arrivals: seq<bytes>, err: Err, a: Auth) {
    exists e ::
      Returned(AuthCb(clock), a0, Ended(Feed(TLS_BUFFER_SIZE, INITIAL, [], arrivals)), e, a) &&
      (err, a) == Mapped((e, a))
  }

  /** Reads the response with the token scanner behind the parser. If no bytes are left over
      behind the body, and unless the connection fails first, the outcome depends on the stream
      only, not on how it is cut into reads. */
  method ReceiveAuth(tls: Tls, buf: array<byte>, clock: Clock, a0: Auth)
    returns (err: Err, a: Auth, ghost arrivals: seq<bytes>)
    requires buf.Length == TLS_BUFFER_SIZE
    requires ComesBack(TLS_BUFFER_SIZE, AuthCb(clock), a0, INITIAL, [], tls.behaviour, tls.calls, tls.incoming)
    modifies tls`calls, tls`incoming, buf
    ensures old(tls.incoming) == Concat(arrivals) + tls.incoming
    ensures Deliverable(TLS_BUFFER_SIZE, INITIAL, [], arrivals)
    ensures AuthReceived(clock, a0, arrivals, err, a)
    ensures Clean(INITIAL, old(tls.incoming)) ==>
      (err, a) == Mapped(Result(AuthCb(clock), a0, Ended(Feed(TLS_BUFFER_SIZE, INITIAL, [], arrivals))))
    ensures Clean(INITIAL, old(tls.incoming)) && (err != Error || tls.behaviour.Reliable()) ==>
              (err, a) == AuthOutcome(clock, a0, old(tls.incoming))
  {
    hide Feed, Windowed, Deliverable, Clean, Concat, Fold, ComesBack, Returned;
    AuthSplittable(clock);
    err, a, arrivals := RecvResp(tls, buf, AuthCb(clock), a0);
    ghost var e := err;
    if err == Ok || err == ClientInterrupt {
      if Clean(INITIAL, old(tls.incoming)) {
        SessionResult(TLS_BUFFER_SIZE, AuthCb(clock), a0, arrivals, tls.incoming);
      }
      err := a.status;
    }
    assert (err, a) == Mapped((e, a));
  }

  // ----- what a printed response does to the client -----

  /** The value of the first field that carries the server's time. */
  function ServerTime(fields: seq<Field>): Option<bytes> {
    if fields == [] then None
    else if SameIgnoringCase(fields[0].key, X_HERE_TIMESTAMP) then Some(fields[0].val)
    else ServerTime(fields[1..])
  }

  /** The head of a response: only the status code counts, and with 401 the server's time. */
  function AfterHead(clock: Clock, a: Auth, r: Response): (Auth, bool) {
    var b := a.(status := ToErr(Code(r)));
    if b.status == Unauthorized && clock.ok && ServerTime(r.fields).Some? then
      (b.(timeDiff := Difference(AtouValue(ServerTime(r.fields).value), clock.ts),
          status := TimeMismatch), true)
    else (b, false)
  }

  /** The whole response: its body is scanned exactly when the status maps to OK. */
  function AuthAnswer(clock: Clock, a: Auth, r: Response): Auth {
    var h := AfterHead(clock, a, r);
    if h.0.status == Ok && r.body != [] then Scan(clock, h.0, r.body).0 else h.0
  }

  lemma {:induction false} FoldFields(clock: Clock, a: Auth, fields: seq<Field>)
    ensures Fold(AuthCb(clock), a, FieldEvents(fields)) ==
      if a.status == Unauthorized && clock.ok && ServerTime(fields).Some? then
        (a.(timeDiff := Difference(AtouValue(ServerTime(fields).value), clock.ts),
            status := TimeMismatch), true)
      else (a, false)
    decreases |fields|
  {
    hide AtouValue, SameIgnoringCase, FieldEvents, Fold;
    if fields == [] {
      NoFields(clock, a);
    } else {
      var f := fields[0];
      FieldsCons(fields, 0, []);
      FoldAppend(AuthCb(clock), a, FieldEvents([f]), FieldEvents(fields[1..]));
      FoldField(clock, a, f);
      FoldFields(clock, a, fields[1..]);
    }
  }

  lemma NoFields(clock: Clock, a: Auth)
    ensures Fold(AuthCb(clock), a, FieldEvents([])) == (a, false)
  {
  }

  lemma FoldField(clock: Clock, a: Auth, f: Field)
    ensures Fold(AuthCb(clock), a, FieldEvents([f])) == OnEvent(clock, a, Header(f.key, f.val))
  {
    hide AtouValue, SameIgnoringCase;
    var e := Header(f.key, f.val);
    assert [f][1..] == [];
    FoldOne(AuthCb(clock), a, e);
    if IsContentLength(f.key) {
      FoldTwo(AuthCb(clock), a, e, BodySize(AtouValue(f.val)));
      assert FieldEvents([f]) == [e, BodySize(AtouValue(f.val))];
    } else {
      assert FieldEvents([f]) == [e];
    }
  }

  lemma FoldStatus(clock: Clock, a: Auth, code: nat)
    ensures Fold(AuthCb(clock), a, StatusEvents(code)) == (a.(status := ToErr(code)), false)
  {
    FoldOne(AuthCb(clock), a, StatusCode(code));
    FoldTwo(AuthCb(clock), a, StatusCode(code), BodySize(0));
  }

  lemma FoldHead(clock: Clock, a: Auth, r: Response)
    ensures Fold(AuthCb(clock), a, HeadEvents(r)) == AfterHead(clock, a, r)
  {
    hide AtouValue, FieldEvents, ServerTime, StatusEvents;
    var version := Version(AtouValue(r.major) % TWO_16, AtouValue(r.minor) % TWO_16);
    var x, y, z, u := [version], StatusEvents(Code(r)), [Reason(r.reason)], FieldEvents(r.fields);
    var b := a.(status := ToErr(Code(r)));
    FoldAppend(AuthCb(clock), a, x, y + (z + u));
    FoldOne(AuthCb(clock), a, version);
    FoldAppend(AuthCb(clock), a, y, z + u);
    FoldStatus(clock, a, Code(r));
    FoldAppend(AuthCb(clock), b, z, u);
    FoldOne(AuthCb(clock), b, Reason(r.reason));
    FoldFields(clock, b, r.fields);
  }

  /** The callback ends the session itself: at a refused clock, or by stopping the scan. */
  predicate AuthStops(clock: Clock, a: Auth, r: Response) {
    var h := AfterHead(clock, a, r);
    h.1 || (h.0.status == Ok && Scan(clock, h.0, r.body).1)
  }

  lemma FoldResponse(clock: Clock, a: Auth, r: Response)
    ensures Fold(AuthCb(clock), a, ResponseEvents(r)) == (AuthAnswer(clock, a, r), AuthStops(clock, a, r))
  {
    hide AfterHead, HeadEvents, ScanByte;
    var h := AfterHead(clock, a, r);
    FoldHead(clock, a, r);
    FoldAppend(AuthCb(clock), a, HeadEvents(r), BodyEvents(r.body));
    HeadStops(clock, a, r);
    if r.body != [] {
      FoldOne(AuthCb(clock), h.0, Body(r.body, true));
    }
  }

  lemma HeadStops(clock: Clock, a: Auth, r: Response)
    ensures AfterHead(clock, a, r).1 ==> AfterHead(clock, a, r).0.status != Ok
  {
  }

  /** End to end: the outcome of an authentication that gets this response, printed and cut in
      any way, is its mapped status with the client as the response leaves it; a line that does
      not fit the window makes it fail. */
  lemma AuthPrinted(clock: Clock, a: Auth, r: Response)
    requires WellFormed(r)
    ensures HeadFits(TLS_BUFFER_SIZE, r) ==>
      AuthOutcome(clock, a, Print(r)) == (AuthAnswer(clock, a, r).status, AuthAnswer(clock, a, r))
    ensures !HeadFits(TLS_BUFFER_SIZE, r) ==>
      var whole := Windowed(TLS_BUFFER_SIZE, INITIAL, Print(r));
      var f := Fold(AuthCb(clock), a, whole.events);
      AuthOutcome(clock, a, Print(r)) == (if f.1 then f.0.status else Error, f.0)
  {
    hide Windowed, Fold, AuthAnswer, HeadFits, WellFormed, Print, HeadEvents, BodyEvents, OnEvent;
    PrintDelivered(TLS_BUFFER_SIZE, r);
    FoldResponse(clock, a, r);
  }

  // ----- the answers of the token server -----

  /** What authentication starts from: an empty token and expiry zero. */
  ghost predicate Fresh(a: Auth) {
    a == Start(a.token, 0, a.timeDiff) && |a.token| == ACCESS_TOKEN_SIZE
  }

  /** A token response: the token, terminated, and the expiry relative to the clock. */
  ghost predicate TokenStored(clock: Clock, a: Auth, r: (Err, Auth), token: bytes, digits: bytes) {
    |token| < ACCESS_TOKEN_SIZE && |a.token| == ACCESS_TOKEN_SIZE && r.0 == Ok &&
    r.1.token == Stored(a.token, token + [NUL]) &&
    r.1.expiry == (Value(digits, 10) + clock.ts) % TWO_32 && r.1.timeDiff == a.timeDiff
  }

  /** A stream that grants this token to whatever client it is sent to. */
  ghost predicate Grants(clock: Clock, stream: bytes, token: bytes, digits: bytes) {
    forall a :: Fresh(a) ==> TokenStored(clock, a, AuthOutcome(clock, a, stream), token, digits)
  }

  lemma FreshStarts(a: Auth)
    requires Fresh(a)
    ensures AtStart(a.(status := Ok))
  {
  }

  /** A success response whose body holds a token and an expiry, in either order, grants that
      token, however it is cut. */
  lemma HoldsGrants(clock: Clock, r: Response, token: bytes, digits: bytes)
    requires WellFormed(r) && HeadFits(TLS_BUFFER_SIZE, r) && (Code(r) == 200 || Code(r) == 204)
    requires Holds(r.body, token, digits)
    ensures Grants(clock, Print(r), token, digits)
  {
    hide Scan, Holds, AuthOutcome, WellFormed, HeadFits, Value, Print, Code;
    HoldsSomething(r.body, token, digits);
    forall a | Fresh(a)
      ensures TokenStored(clock, a, AuthOutcome(clock, a, Print(r)), token, digits)
    {
      AuthPrinted(clock, a, r);
      FreshStarts(a);
      HoldsGranted(clock, a.(status := Ok), r.body, token, digits);
    }
  }

  lemma HoldsSomething(t: bytes, token: bytes, digits: bytes)
    requires Holds(t, token, digits)
    ensures t != []
  {
    if x, gap, y, gap2, end, rest :| TokenFirstAs(t, x, gap, token, y, gap2, digits, end, rest) {
      assert |t| >= 1;
    }
  }

  /** A stream that grants this token whatever the client's clock is. */
  ghost predicate GrantsAlways(stream: bytes, token: bytes, digits: bytes) {
    forall clock :: Grants(clock, stream, token, digits)
  }

  /** A response grants a token, whatever the client and its clock, if and only if it is a
      success and its body carries that token and that expiry. */
  lemma GrantsExactly(r: Response, token: bytes, digits: bytes)
    requires WellFormed(r) && HeadFits(TLS_BUFFER_SIZE, r)
    ensures GrantsAlways(Print(r), token, digits) <==> (Code(r) == 200 || Code(r) == 204) && Carries(r.body, token, digits)
  {
    hide Scan, Carries, AuthOutcome, WellFormed, HeadFits, Value, Print, Code, Stored;
    if GrantsAlways(Print(r), token, digits) {
      GrantedBlank(Clock(false, 0), 0, r, token, digits);
      forall clock, c
        ensures Given(clock, Blank(c), Scan(clock, Blank(c), r.body).0, token, digits)
      {
        GrantedBlank(clock, c, r, token, digits);
      }
      GivenCarried(r.body, token, digits);
    }
    if (Code(r) == 200 || Code(r) == 204) && Carries(r.body, token, digits) {
      forall clock, a | Fresh(a)
        ensures TokenStored(clock, a, AuthOutcome(clock, a, Print(r)), token, digits)
      {
        CarriedStored(clock, a, r, token, digits);
      }
    }
  }

  lemma GrantedBlank(clock: Clock, c: byte, r: Response, token: bytes, digits: bytes)
    requires WellFormed(r) && HeadFits(TLS_BUFFER_SIZE, r) && Grants(clock, Print(r), token, digits)
    ensures (Code(r) == 200 || Code(r) == 204) && Given(clock, Blank(c), Scan(clock, Blank(c), r.body).0, token, digits)
  {
    hide Scan, AuthOutcome, WellFormed, HeadFits, Value, Print, Code, Stored;
    var a := Start(Filled(c), 0, 0);
    assert Fresh(a) && TokenStored(clock, a, AuthOutcome(clock, a, Print(r)), token, digits);
    AuthPrinted(clock, a, r);
    ScanNothing(clock, Blank(c));
  }

  lemma CarriedStored(clock: Clock, a: Auth, r: Response, token: bytes, digits: bytes)
    requires Fresh(a) && WellFormed(r) && HeadFits(TLS_BUFFER_SIZE, r)
    requires (Code(r) == 200 || Code(r) == 204) && Carries(r.body, token, digits)
    ensures TokenStored(clock, a, AuthOutcome(clock, a, Print(r)), token, digits)
  {
    hide Scan, Carries, AuthOutcome, WellFormed, HeadFits, Value, Print, Code, Stored;
    AuthPrinted(clock, a, r);
    FreshStarts(a);
    var b := a.(status := Ok);
    CarriedGiven(clock, b, r.body, token, digits);
    ScanNothing(clock, b);
  }

  /** A body without a NUL grants some token if and only if it holds a token and an expiry. */
  lemma GrantsHeld(r: Response)
    requires WellFormed(r) && HeadFits(TLS_BUFFER_SIZE, r) && NUL !in r.body
    ensures (exists token, digits :: GrantsAlways(Print(r), token, digits)) <==>
            (Code(r) == 200 || Code(r) == 204) && HoldsBoth(r.body)
  {
    hide GrantsAlways, WellFormed, HeadFits, Print, Code, Carries, Holds;
    if token, digits :| GrantsAlways(Print(r), token, digits) {
      GrantsExactly(r, token, digits);
      CarriedHeld(r.body, token, digits);
    }
    if (Code(r) == 200 || Code(r) == 204) && HoldsBoth(r.body) {
      var token, digits :| Holds(r.body, token, digits);
      CarriesHeld(r.body, token, digits);
      GrantsExactly(r, token, digits);
    }
  }

  /** The session is ended by the scan, with status OK, if and only if the response is a success
      and its body holds a token and an expiry; and they are then what is stored. */
  lemma StopsItself(clock: Clock, a: Auth, r: Response)
    requires Fresh(a) && WellFormed(r) && HeadFits(TLS_BUFFER_SIZE, r)
    ensures var s := Result(AuthCb(clock), a, Windowed(TLS_BUFFER_SIZE, INITIAL, Print(r)));
      s.0 == ClientInterrupt && s.1.status == Ok <==> (Code(r) == 200 || Code(r) == 204) && HoldsBoth(r.body)
    ensures (Code(r) == 200 || Code(r) == 204) && HoldsBoth(r.body) ==>
      exists token, digits ::
        Holds(r.body, token, digits) && TokenStored(clock, a, AuthOutcome(clock, a, Print(r)), token, digits)
  {
    hide Scan, Holds, WellFormed, HeadFits, Value, Print, Code, AtouValue, HeadEvents, BodyEvents, Fold,
      TokenStored;
    var b := a.(status := Ok);
    PrintDelivered(TLS_BUFFER_SIZE, r);
    FoldResponse(clock, a, r);
    FreshStarts(a);
    StopsExactly(clock, b, r.body);
    ScanNothing(clock, b);
    if (Code(r) == 200 || Code(r) == 204) && HoldsBoth(r.body) {
      var token, digits := HeldStored(clock, a, r);
    }
  }

  lemma HeldStored(clock: Clock, a: Auth, r: Response) returns (token: bytes, digits: bytes)
    requires Fresh(a) && WellFormed(r) && HeadFits(TLS_BUFFER_SIZE, r)
    requires (Code(r) == 200 || Code(r) == 204) && HoldsBoth(r.body)
    ensures Holds(r.body, token, digits) && TokenStored(clock, a, AuthOutcome(clock, a, Print(r)), token, digits)
  {
    hide Holds, WellFormed, HeadFits, Print, Code, AuthOutcome, TokenStored;
    token, digits :| Holds(r.body, token, digits);
    HoldsGrants(clock, r, token, digits);
  }

  lemma ScanNothing(clock: Clock, a: Auth)
    ensures Scan(clock, a, []) == (a, false)
  {
  }

  /** A client without a token reads one after authentication if and only if the response is a
      success and its body puts one; and then authentication has returned OK. */
  lemma ReadableExactly(clock: Clock, a: Auth, r: Response)
    requires Fresh(a) && WellFormed(r) && HeadFits(TLS_BUFFER_SIZE, r) && a.token[0] == NUL
    ensures var o := AuthOutcome(clock, a, Print(r));
      |o.1.token| == ACCESS_TOKEN_SIZE &&
      (o.1.token[0] != NUL <==> (Code(r) == 200 || Code(r) == 204) && Puts(r.body)) && (o.1.token[0] != NUL ==> o.0 == Ok)
  {
    hide Scan, AuthOutcome, WellFormed, HeadFits, Print, Code, AtouValue, Puts;
    AuthPrinted(clock, a, r);
    FreshStarts(a);
    var b := a.(status := Ok);
    ReadsExactly(clock, b, r.body);
    ScanStatus(clock, b, r.body);
    ScanNothing(clock, b);
  }

  lemma {:induction false} ScanStatus(clock: Clock, a: Auth, data: bytes)
    requires a.status == Ok && a.token != []
    ensures var b := Scan(clock, a, data).0;
      b.token != [] && (b.status == Ok || (b.status == BufferTooSmall && b.token[0] == NUL))
    decreases |data|
  {
    if data != [] && !ScanByte(clock, a, data[0]).1 {
      ScanStatus(clock, ScanByte(clock, a, data[0]).0, data[1..]);
    }
  }

  /** A success status does not mean a token: a body that holds neither key is accepted, and
      the client is left as it was. */
  lemma OkWithoutToken(clock: Clock, a: Auth, r: Response)
    requires Fresh(a) && WellFormed(r) && HeadFits(TLS_BUFFER_SIZE, r) && (Code(r) == 200 || Code(r) == 204)
    requires Absent(TOKEN_KEY, r.body) && Absent(EXPIRY_KEY, r.body)
    ensures var o := AuthOutcome(clock, a, Print(r));
      o.0 == Ok && o.1.token == a.token && o.1.expiry == a.expiry && o.1.timeDiff == a.timeDiff
  {
    hide Scan, Absent, AuthOutcome, WellFormed, HeadFits, Code, AtouValue;
    AuthPrinted(clock, a, r);
    FreshStarts(a);
    KeysQuoted();
    AbsentNotFound(TOKEN_KEY, r.body);
    AbsentNotFound(EXPIRY_KEY, r.body);
    SearchOn(clock, a.(status := Ok), r.body);
  }

  /** A token that does not fit the client ends authentication with an error and no token,
      wherever the expiry is. */
  lemma TooLongRefused(clock: Clock, a: Auth, r: Response, pre: bytes, w: bytes)
    requires Fresh(a) && WellFormed(r) && HeadFits(TLS_BUFFER_SIZE, r) && (Code(r) == 200 || Code(r) == 204)
    requires r.body == pre + w && OpensToken(pre) && |w| >= 1024 && 34 !in w[..1024]
    ensures var o := AuthOutcome(clock, a, Print(r));
      o.0 == BufferTooSmall && |o.1.token| == 1024 && o.1.token[0] == 0
  {
    hide Scan, AuthOutcome, WellFormed, HeadFits, Print, Code, AtouValue, OpensToken;
    AuthPrinted(clock, a, r);
    FreshStarts(a);
    var b := a.(status := Ok);
    var c := OpenedScan(clock, b, pre);
    ScanAppend(clock, b, pre, w);
    Overlength(clock, c, w);
  }

  /** A response that refuses the device's clock: authentication ends with TIME_MISMATCH if and
      only if the status is 401, the server told its time and the device knows its own. */
  lemma MismatchExactly(clock: Clock, a: Auth, r: Response)
    requires Fresh(a) && WellFormed(r) && HeadFits(TLS_BUFFER_SIZE, r)
    ensures AuthOutcome(clock, a, Print(r)).0 == TimeMismatch <==>
            Code(r) == 401 && clock.ok && ServerTime(r.fields).Some?
    ensures AuthOutcome(clock, a, Print(r)).0 == TimeMismatch ==>
      AuthOutcome(clock, a, Print(r)).1 ==
        a.(status := TimeMismatch,
           timeDiff := Difference(AtouValue(ServerTime(r.fields).value), clock.ts))
    ensures AuthOutcome(clock, a, Print(r)).0 == TimeMismatch ==>
      var d := AuthOutcome(clock, a, Print(r)).1.timeDiff;
      (clock.ts + d) % 0x1_0000_0000 == AtouValue(ServerTime(r.fields).value)
  {
    hide Scan, AuthOutcome, WellFormed, HeadFits, AtouValue, Code;
    AuthPrinted(clock, a, r);
    if r.body != [] && ToErr(Code(r)) == Ok {
      ScanStatus(clock, a.(status := ToErr(Code(r))), r.body);
    }
  }

  /** Any other error status is passed on and leaves token, expiry and time difference alone. */
  lemma RefusedUntouched(clock: Clock, a: Auth, r: Response)
    requires Fresh(a) && WellFormed(r) && HeadFits(TLS_BUFFER_SIZE, r) && Code(r) != 200 && Code(r) != 204
    requires !(Code(r) == 401 && clock.ok && ServerTime(r.fields).Some?)
    ensures var o := AuthOutcome(clock, a, Print(r));
      o.1 == a.(status := o.0) &&
      o.0 ==
        match Code(r)
        case 400 => BadRequest
        case 401 => Unauthorized
        case 403 => Forbidden
        case 404 => NotFound
        case 412 => DeviceUnclaimed
        case 429 => TooManyRequests
        case _ => Error
  {
    hide AuthOutcome, WellFormed, HeadFits, AtouValue, Code;
    AuthPrinted(clock, a, r);
  }

  // ----- a response that breaks off -----

  /** A response that breaks off inside the token, behind a complete expiry, in its parts. */
  datatype Break = Break(r: Response, y: bytes, gap: bytes, digits: bytes, end: byte,
                         x: bytes, gap2: bytes, part: bytes)
  {
    function Body(): bytes {
      BrokenBody(y, gap, digits, end, x, gap2, part)
    }

    function Stream(): bytes {
      Head(r) + Body()
    }

    ghost predicate Valid() {
      WellFormed(r) && HeadFits(TLS_BUFFER_SIZE, r) && (Code(r) == 200 || Code(r) == 204) && Body() < r.body &&
      ExpiryPart(y, gap, digits, end) && !MatchRun(TOKEN_KEY, y).found &&
      TokenPart(x, gap2, part) && |part| < ACCESS_TOKEN_SIZE
    }
  }

  /** Authentication fails on such a response and leaves both in the client, the part of the token
      without a terminator. */
  lemma BrokenTokenKept(clock: Clock, a: Auth, b: Break)
    requires Fresh(a) && b.Valid()
    ensures var o := AuthOutcome(clock, a, b.Stream());
      o.0 == Error && o.1.token == Stored(a.token, b.part) && o.1.timeDiff == a.timeDiff &&
      o.1.expiry == (Value(b.digits, 10) + clock.ts) % TWO_32
  {
    hide Scan, Finds, MatchRun, WellFormed, HeadFits, Head, HeadEvents, Windowed, Value, Code, AtouValue,
      TokenPart, ExpiryPart, BrokenBody, Fold;
    BrokenNotEmpty(b);
    BrokenDelivered(TLS_BUFFER_SIZE, b.r, b.Body());
    FreshStarts(a);
    var heard := a.(status := Ok);
    BrokenScan(clock, heard, b.y, b.gap, b.digits, b.end, b.x, b.gap2, b.part);
    FoldHead(clock, a, b.r);
    FoldAppend(AuthCb(clock), a, HeadEvents(b.r), [Body(b.Body(), false)]);
    FoldOne(AuthCb(clock), heard, Body(b.Body(), false));
  }

  lemma BrokenNotEmpty(b: Break)
    ensures b.Body() != []
  {
  }
}
