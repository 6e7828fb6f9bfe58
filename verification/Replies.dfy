// What a printed response, delivered in any pieces, makes of the client and its callers.

module Replies {
  import opened AuthScanner
  import opened AuthTheory
  import opened Authentication
  import opened BodyTheory
  import opened Bytes
  import opened Chunked
  import opened Delivery
  import opened Errors
  import opened EventProtocol
  import opened Fragmentation
  import opened HttpEvents
  import opened HttpGrammar
  import opened KeyMatcher
  import opened LegacySend
  import opened Network
  import opened OAuth
  import opened Options
  import opened Receiver
  import opened Requests
  import opened RoundTrip
  import opened Runs
  import opened SendResponse
  import opened StatusCodes
  import opened Tracking
  import opened Utils

  // ----- status and retry time -----

  function RetryAt(clock: Clock, t: uint32, e: Event): uint32 {
    match e
    case Header(key, val) =>
      if SameIgnoringCase(key, RETRY_AFTER) && clock.ok then RetryTime(clock.ts, AtouValue(val)) else t
    case _ => t
  }

  /** The retry time after these events: the last Retry-After field counts from the clock. */
  function RetryOf(clock: Clock, t: uint32, events: seq<Event>): uint32
    decreases |events|
  {
    if events == [] then t else RetryOf(clock, RetryAt(clock, t, events[0]), events[1..])
  }

  lemma {:induction false} RetryAppend(clock: Clock, t: uint32, a: seq<Event>, b: seq<Event>)
    ensures RetryOf(clock, t, a + b) == RetryOf(clock, RetryOf(clock, t, a), b)
    decreases |a|
  {
    hide RetryAt;
    if a == [] {
      assert a + b == b;
    } else {
      assert (a + b)[1..] == a[1..] + b;
      RetryAppend(clock, RetryAt(clock, t, a[0]), a[1..], b);
    }
  }

  lemma {:induction false} RetrySingles(clock: Clock, t: uint32, d: bytes, last: bool)
    ensures RetryOf(clock, t, Singles(d, last)) == t
    decreases |d|
  {
    hide AtouValue, SameIgnoringCase;
    if |d| <= 1 {
      assert [Body(d, last)][1..] == [];
    } else {
      RetrySingles(clock, t, d[1..], last);
      assert Singles(d, last)[1..] == Singles(d[1..], last);
    }
  }

  lemma {:induction false} RetryAtoms(clock: Clock, t: uint32, events: seq<Event>)
    ensures RetryOf(clock, t, Atoms(events)) == RetryOf(clock, t, events)
    decreases |events|
  {
    hide AtouValue, SameIgnoringCase;
    if events != [] {
      var head := match events[0] case Body(d, last) => Singles(d, last) case other => [other];
      RetryAtoms(clock, RetryAt(clock, t, events[0]), events[1..]);
      RetryAppend(clock, t, head, Atoms(events[1..]));
      if events[0].Body? {
        RetrySingles(clock, t, events[0].data, events[0].last);
      } else {
        assert head[1..] == [];
      }
    }
  }

  /** Inside the body neither changes any more. */
  lemma {:induction false} BodyKeeps(left: int, clock: Clock, t: uint32, status: Err, events: seq<Event>)
    requires Replay(left, true, events).0
    ensures StatusOf(status, events) == status && RetryOf(clock, t, events) == t
    ensures Replay(left, true, events).2
    decreases |events|
  {
    if events != [] {
      BodyKeeps(left - |events[0].data|, clock, t, status, events[1..]);
    }
  }

  /** Whatever the receive callback does, and even if it refuses the body. */
  lemma {:induction false} FoldReply<U>(clock: Clock, recv: RecvCb<U>, s: RecvCtx<U>, left: int,
                                        inBody: bool, events: seq<Event>)
    requires Replay(left, inBody, events).0
    ensures var f := Fold(SendCb(clock, recv), s, events);
      f.0.status == StatusOf(s.status, events) && f.0.retryAfter == RetryOf(clock, s.retryAfter, events) &&
      (f.1 ==> Replay(left, inBody, events).2)
    decreases |events|
  {
    hide AtouValue, SameIgnoringCase, AsInt32;
    if events != [] {
      var r := OnSendEvent(clock, recv, s, events[0]);
      match events[0] {
        case Body(d, last) =>
          BodyKeeps(left - |d|, clock, s.retryAfter, s.status, events[1..]);
          FoldReply(clock, recv, r.0, left - |d|, true, events[1..]);
        case BodySize(n) => FoldReply(clock, recv, r.0, AsInt32(n), false, events[1..]);
        case StatusCode(_) => FoldReply(clock, recv, r.0, left, false, events[1..]);
        case _ => FoldReply(clock, recv, r.0, left, false, events[1..]);
      }
    }
  }

  lemma SameReply(clock: Clock, t: uint32, whole: seq<Event>, first: seq<Event>, rest: seq<Event>)
    requires Atoms(whole) == Atoms(first) + Atoms(rest)
    ensures StatusOf(Error, whole) == StatusOf(StatusOf(Error, first), rest)
    ensures RetryOf(clock, t, whole) == RetryOf(clock, RetryOf(clock, t, first), rest)
  {
    hide StatusOf, RetryOf;
    SameParts(whole, first, rest);
    AtomsAppend(first, rest);
    RetryAtoms(clock, t, whole);
    RetryAtoms(clock, t, first + rest);
    RetryAppend(clock, t, first, rest);
  }

  /** For every stream, every delivery and every callback: a send that succeeds leaves behind
      the status and the retry time of the response, also when the callback refused its body. */
  lemma ReplyDecides<U>(recv: RecvCb<U>, x: Exchange, t: uint32, user: U, after: RecvCtx<U>)
    requires HandedOver(recv, x, RecvCtx(Error, t, user), Ok, after)
    requires Clean(INITIAL, x.link.stream)
    ensures var events := Windowed(TLS_BUFFER_SIZE, INITIAL, x.link.stream).events;
      after.status == StatusOf(Error, events) && after.retryAfter == RetryOf(x.clock, t, events)
  {
    hide ParseElement, Run, Clean, Feed, Windowed, Deliverable, Fold, StatusOf, RetryOf;
    var w, stream := TLS_BUFFER_SIZE, x.link.stream;
    var unread := stream[|Concat(x.arrivals)|..];
    assert stream == Concat(x.arrivals) + unread == [] + (Concat(x.arrivals) + unread);
    var s, whole := Feed(w, INITIAL, [], x.arrivals), Windowed(w, INITIAL, stream);
    ReplayFeed(w, INITIAL, false, [], x.arrivals, unread);
    FeedIsWindowed(w, INITIAL, [], x.arrivals, unread);
    FoldReply(x.clock, recv, RecvCtx(Error, t, user), CONTENT_LENGTH_UNKNOWN, false, s.events);
    var rest := if s.end == Starved then Windowed(w, s.p, s.window + unread).events else [];
    SameReply(x.clock, t, whole.events, s.events, rest);
    if s.end == Starved {
      var q := ReplayWindowed(w, s.p, true, s.window + unread);
      BodyKeeps(s.p.contentSize, x.clock, RetryOf(x.clock, t, s.events), StatusOf(Error, s.events), rest);
    } else {
      NoEvents(x.clock, RetryOf(x.clock, t, s.events), StatusOf(Error, s.events));
    }
  }

  lemma NoEvents(clock: Clock, t: uint32, status: Err)
    ensures StatusOf(status, []) == status && RetryOf(clock, t, []) == t
  {
  }

  // ----- printed responses -----

  function Lengths(fields: seq<Field>): nat {
    if fields == [] then 0 else (if IsContentLength(fields[0].key) then 1 else 0) + Lengths(fields[1..])
  }

  /** The body size is announced once: by one Content-Length field or by status 204. */
  ghost predicate OneLength(r: Response) {
    Lengths(r.fields) + (if Code(r) == NO_CONTENT then 1 else 0) == 1
  }

  /** The value of the last Retry-After field. */
  function RetryField(fields: seq<Field>): Option<bytes> {
    if fields == [] then None
    else
      match RetryField(fields[1..])
      case Some(v) => Some(v)
      case None => if SameIgnoringCase(fields[0].key, RETRY_AFTER) then Some(fields[0].val) else None
  }

  lemma {:induction false} FieldParts(status: Err, fields: seq<Field>, size: int32)
    ensures StatusOf(status, FieldEvents(fields)) == status && BodyBytes(FieldEvents(fields)) == []
    ensures Lengths(fields) == |Sizes(FieldEvents(fields))|
    ensures Lengths(fields) == 0 ==> Announced(fields, size) == size
    ensures Lengths(fields) == 1 ==> AsInt32(Sizes(FieldEvents(fields))[0]) == Announced(fields, size)
    decreases |fields|
  {
    hide AtouValue, SameIgnoringCase, AsInt32, IsContentLength;
    if fields != [] {
      var f := fields[0];
      var h, u := Header(f.key, f.val), AtouValue(f.val);
      var first := if IsContentLength(f.key) then [h, BodySize(u)] else [h];
      var more := FieldEvents(fields[1..]);
      assert FieldEvents(fields) == first + more;
      assert first[1..] == if IsContentLength(f.key) then [BodySize(u)] else [];
      assert [BodySize(u)][1..] == [];
      FieldParts(status, fields[1..], if IsContentLength(f.key) then AsInt32(u) else size);
      StatusAppend(status, first, more);
      BodyBytesAppend(first, more);
      SizesAppend(first, more);
    }
  }

  /** The last Retry-After field of a header section decides. */
  lemma {:induction false} FieldRetry(clock: Clock, t: uint32, fields: seq<Field>)
    ensures RetryOf(clock, t, FieldEvents(fields)) == RetryFrom(clock, t, RetryField(fields))
    decreases |fields|
  {
    hide AtouValue, SameIgnoringCase, IsContentLength;
    if fields != [] {
      var f := fields[0];
      var h, u := Header(f.key, f.val), AtouValue(f.val);
      var first := if IsContentLength(f.key) then [h, BodySize(u)] else [h];
      assert FieldEvents(fields) == first + FieldEvents(fields[1..]);
      assert first[1..] == if IsContentLength(f.key) then [BodySize(u)] else [];
      assert [BodySize(u)][1..] == [];
      FieldRetry(clock, RetryAt(clock, t, h), fields[1..]);
      RetryAppend(clock, t, first, FieldEvents(fields[1..]));
    }
  }

  /** What the consumers read off a sequence of events. */
  datatype Digest = Digest(sizes: seq<uint32>, body: bytes, status: Err, retryAfter: uint32)

  function DigestOf(clock: Clock, t: uint32, status: Err, events: seq<Event>): Digest {
    Digest(Sizes(events), BodyBytes(events), StatusOf(status, events), RetryOf(clock, t, events))
  }

  lemma DigestAppend(clock: Clock, t: uint32, status: Err, a: seq<Event>, b: seq<Event>)
    ensures var d := DigestOf(clock, t, status, a);
      var e := DigestOf(clock, d.retryAfter, d.status, b);
      DigestOf(clock, t, status, a + b) == e.(sizes := d.sizes + e.sizes, body := d.body + e.body)
  {
    hide RetryAt;
    SizesAppend(a, b);
    BodyBytesAppend(a, b);
    StatusAppend(status, a, b);
    RetryAppend(clock, t, a, b);
  }

  lemma DigestOne(clock: Clock, t: uint32, status: Err, e: Event)
    ensures DigestOf(clock, t, status, [e]) ==
      Digest(if e.BodySize? then [e.size] else [], if e.Body? then e.data else [],
             if e.StatusCode? then ToErr(e.code) else status, RetryAt(clock, t, e))
  {
    hide RetryAt, ToErr;
    var one: seq<Event> := [e];
    assert one[1..] == [];
    assert Sizes(one) == (if e.BodySize? then [e.size] else []);
    assert BodyBytes(one) == (if e.Body? then e.data else []);
    assert StatusOf(status, one) == if e.StatusCode? then ToErr(e.code) else status;
    assert RetryOf(clock, t, one) == RetryAt(clock, t, e);
  }

  lemma StatusDigest(clock: Clock, t: uint32, code: nat)
    ensures DigestOf(clock, t, Error, StatusEvents(code)) ==
            Digest(if code == NO_CONTENT then [0] else [], [], ToErr(code), t)
  {
    DigestOne(clock, t, Error, StatusCode(code));
    if code == NO_CONTENT {
      DigestOne(clock, t, ToErr(code), BodySize(0));
      DigestAppend(clock, t, Error, [StatusCode(code)], [BodySize(0)]);
      assert [StatusCode(code)] + [BodySize(0)] == StatusEvents(code);
    }
  }

  /** The retry time after a Retry-After value, if there is one. */
  function RetryFrom(clock: Clock, t: uint32, delay: Option<bytes>): uint32 {
    match delay
    case Some(v) => if clock.ok then RetryTime(clock.ts, AtouValue(v)) else t
    case None => t
  }

  function RetryAfterReply(clock: Clock, t: uint32, r: Response): uint32 {
    RetryFrom(clock, t, RetryField(r.fields))
  }

  lemma HeadDigest(clock: Clock, t: uint32, r: Response)
    requires HeadFormed(r)
    ensures var d := DigestOf(clock, t, Error, HeadEvents(r));
      d == Digest(d.sizes, [], ToErr(Code(r)), RetryAfterReply(clock, t, r)) &&
      (OneLength(r) ==> d.sizes == [AsUint32(SizeOf(r))])
  {
    hide DigestOf, AtouValue, RetryField, FieldEvents, StatusEvents, Announced, Lengths, ToErr, AsInt32,
      RetryAfterReply, HeadFormed;
    var version := Version(AtouValue(r.major) % TWO_16, AtouValue(r.minor) % TWO_16);
    var x, y, z, u := [version], StatusEvents(Code(r)), [Reason(r.reason)], FieldEvents(r.fields);
    var status := ToErr(Code(r));
    DigestOne(clock, t, Error, version);
    StatusDigest(clock, t, Code(r));
    DigestOne(clock, t, status, Reason(r.reason));
    FieldsDigest(clock, t, status, r);
    DigestAppend(clock, t, status, z, u);
    DigestAppend(clock, t, Error, y, z + u);
    DigestAppend(clock, t, Error, x, y + (z + u));
  }

  lemma ResponseDigest(clock: Clock, t: uint32, r: Response)
    requires WellFormed(r)
    ensures var d := DigestOf(clock, t, Error, ResponseEvents(r));
      d.body == r.body && d.status == ToErr(Code(r)) && d.retryAfter == RetryAfterReply(clock, t, r) &&
      (OneLength(r) ==> d.sizes == [|r.body|])
  {
    hide DigestOf, RetryAfterReply, HeadFormed, SizeOf, HeadEvents, BodyEvents, ToErr, OneLength;
    HeadDigest(clock, t, r);
    BodyDigest(clock, RetryAfterReply(clock, t, r), ToErr(Code(r)), r.body);
    DigestAppend(clock, t, Error, HeadEvents(r), BodyEvents(r.body));
  }

  lemma BodyDigest(clock: Clock, t: uint32, status: Err, body: bytes)
    ensures DigestOf(clock, t, status, BodyEvents(body)) == Digest([], body, status, t)
  {
    if body != [] {
      DigestOne(clock, t, status, Body(body, true));
    }
  }

  lemma FieldsDigest(clock: Clock, t: uint32, status: Err, r: Response)
    requires HeadFormed(r)
    ensures var d := DigestOf(clock, t, status, FieldEvents(r.fields));
      d == Digest(d.sizes, [], status, RetryAfterReply(clock, t, r)) &&
      (OneLength(r) ==> d.sizes == if Code(r) == NO_CONTENT then [] else [AsUint32(SizeOf(r))]) &&
      (OneLength(r) && Code(r) == NO_CONTENT ==> SizeOf(r) == 0)
  {
    hide AtouValue, RetryField, RetryFrom, FieldEvents, Announced, Lengths, ValidField;
    FieldRetry(clock, t, r.fields);
    FieldParts(status, r.fields, if Code(r) == NO_CONTENT then 0 else CONTENT_LENGTH_UNKNOWN);
  }

  /** A printed response whose lines fit the window, however it is cut, announces its body. */
  lemma PrintAnnounces(r: Response)
    requires WellFormed(r) && HeadFits(TLS_BUFFER_SIZE, r) && OneLength(r)
    ensures Announces(TLS_BUFFER_SIZE, Print(r), |r.body|)
    ensures BodyOf(TLS_BUFFER_SIZE, Print(r)) == r.body
    ensures StatusIn(TLS_BUFFER_SIZE, Print(r)) ==
        match Code(r)
        case 200 => Ok
        case 204 => Ok
        case 400 => BadRequest
        case 401 => Unauthorized
        case 403 => Forbidden
        case 404 => NotFound
        case 412 => DeviceUnclaimed
        case 429 => TooManyRequests
        case _ => Error
  {
    hide HeadFits, Print, ResponseEvents, Windowed, Clean, OneLength, Announced;
    PrintDelivered(TLS_BUFFER_SIZE, r);
    ResponseDigest(Clock(false, 0), 0, r);
  }

  /** Such a response to a send decides the status and the retry time that the send leaves
      behind, whatever the receive callback does with the body. */
  lemma PrintDecides<U>(recv: RecvCb<U>, x: Exchange, t: uint32, user: U, after: RecvCtx<U>, r: Response)
    requires HandedOver(recv, x, RecvCtx(Error, t, user), Ok, after)
    requires WellFormed(r) && HeadFits(TLS_BUFFER_SIZE, r) && x.link.stream == Print(r)
    ensures after.retryAfter == RetryAfterReply(x.clock, t, r)
    ensures after.status ==
        match Code(r)
        case 200 => Ok
        case 204 => Ok
        case 400 => BadRequest
        case 401 => Unauthorized
        case 403 => Forbidden
        case 404 => NotFound
        case 412 => DeviceUnclaimed
        case 429 => TooManyRequests
        case _ => Error
  {
    hide HeadFits, Print, ResponseEvents, Windowed, Clean, WellFormed, RetryAfterReply, HandedOver;
    PrintDelivered(TLS_BUFFER_SIZE, r);
    ReplyDecides(recv, x, t, user, after);
    ResponseDigest(x.clock, t, r);
  }

  /** In seconds: after such a response the next send of the run is not made before the delay of its
      last Retry-After field has passed since the response, if clock and delay stay below 2^32 when
      added; if not, the retry time has already passed when the response is read. */
  lemma PrintHoldsBack<U>(recv: RecvCb<U>, x: Exchange, t: uint32, user: U, after: RecvCtx<U>, r: Response,
                          delay: bytes, log: seq<Step>, i: nat, j: nat)
    requires HandedOver(recv, x, RecvCtx(Error, t, user), Ok, after)
    requires WellFormed(r) && HeadFits(TLS_BUFFER_SIZE, r) && x.link.stream == Print(r)
    requires RetryField(r.fields) == Some(delay) && x.clock.ok
    requires History(log) && i < j < |log| && log[i].Sent? && log[j].Sent?
    requires log[i].retryAfter == after.retryAfter && forall k :: i < k < j ==> log[k].Authenticated?
    ensures var until := x.clock.ts + AtouValue(delay);
      if until < TWO_32 then until <= log[j].gate.rate else after.retryAfter < x.clock.ts
  {
    hide HeadFits, Print, WellFormed, ToErr, HandedOver, AtouValue, RetryField, History;
    PrintDecides(recv, x, t, user, after, r);
    RetryHonoured(log, i, j);
    RetryTestExact(x.clock.ts, AtouValue(delay));
  }

  /** A send with a good token that is answered with a printed response: 401 and 403 make the client
      forget token and expiry, and no other status does. */
  method SendAnswered<U(!new)>(c: Client, env: Environment, req: ReqType, resp: RespType,
                               answers: seq<SendAnswer>, recv: RecvCb<U>, user: U, ghost r: Response)
    returns (err: Err, after: U, ghost x: Exchange)
    requires c.Valid() && env.Sound() && Scripted(answers)
    requires c.Refusal(env) == Ok && !c.Stale(env)
    requires env.link(env.links).Linked? && env.link(env.links).stream == Print(r)
    requires WellFormed(r) && HeadFits(TLS_BUFFER_SIZE, r)
    modifies c`tokenExpiry, c`retryAfter, c`srvTimeDiff, c`log, c.token, env, env.nonces
    ensures c.Valid() && x.link == env.link(old(env.links))
    ensures x.answered && err == Ok && (Code(r) == 401 || Code(r) == 403) ==>
              c.token[0] == NUL && c.tokenExpiry == 0
    ensures x.answered && err == Ok && Code(r) != 401 && Code(r) != 403 ==>
              c.token[..] == old(c.token[..]) && c.tokenExpiry == old(c.tokenExpiry)
    ensures env.Reaches(old(env.links)) && c.Addressed(env.link(old(env.links))) && Upload(answers).Some? ==>
              x.answered
  {
    hide History, HandedOver, Scripted, Upload, Text, Delivered, LastRetry, JustRejected, AboutToExpire, Print,
      WellFormed, HeadFits, Code, RetryAfterReply;
    ghost var t, sent := c.retryAfter, false;
    TextEmpty(c.token[..]);
    err, after, sent, x := c.SendStream(env, req, resp, answers, recv, user);
    if x.answered && err == Ok {
      PrintDecides(recv, x, t, user, RecvCtx(x.status, c.retryAfter, after), r);
    }
  }

  /** With a callback that never refuses data, a session that succeeds has read the whole
      stream, and nothing has stopped it. */
  lemma WillingEnds<U(!new)>(recv: RecvCb<U>, x: Exchange, s0: RecvCtx<U>, after: RecvCtx<U>)
    requires HandedOver(recv, x, s0, Ok, after) && Willing(recv) && Clean(INITIAL, x.link.stream)
    ensures Feed(TLS_BUFFER_SIZE, INITIAL, [], x.arrivals).end == Done && Concat(x.arrivals) == x.link.stream
  {
    hide Clean, Feed, Deliverable, Fold, LogOf, StatusOf, Hand, Willing, Windowed;
    var unread := x.link.stream[|Concat(x.arrivals)|..];
    assert x.link.stream == Concat(x.arrivals) + unread == [] + (Concat(x.arrivals) + unread);
    var s := Feed(TLS_BUFFER_SIZE, INITIAL, [], x.arrivals);
    FoldHands(x.clock, recv, s0, s.events);
    WillingTakes(recv, s0.user, LogOf(s0.status, s.events));
    FeedIsWindowed(TLS_BUFFER_SIZE, INITIAL, [], x.arrivals, unread);
  }

  /** Such a response to a send hands every callback that never refuses data SIZE, exactly the
      printed body in fragments, one COMPLETE with the mapped status, and nothing else. */
  lemma PrintProtocol<U(!new)>(recv: RecvCb<U>, x: Exchange, t: uint32, user: U, after: RecvCtx<U>,
                               r: Response)
    returns (calls: seq<RecvData>)
    requires HandedOver(recv, x, RecvCtx(Error, t, user), Ok, after) && Willing(recv)
    requires WellFormed(r) && HeadFits(TLS_BUFFER_SIZE, r) && OneLength(r) && x.link.stream == Print(r)
    ensures Gets(x.clock, recv, RecvCtx(Error, t, user),
                 Feed(TLS_BUFFER_SIZE, INITIAL, [], x.arrivals).events, calls)
    ensures after.user == Hand(recv, user, calls).0 && !Hand(recv, user, calls).1
    ensures Protocol(calls, |r.body|, after.status) && DataBytes(calls) == r.body
    ensures after.status ==
        match Code(r)
        case 200 => Ok
        case 204 => Ok
        case 400 => BadRequest
        case 401 => Unauthorized
        case 403 => Forbidden
        case 404 => NotFound
        case 412 => DeviceUnclaimed
        case 429 => TooManyRequests
        case _ => Error
  {
    hide HeadFits, Print, Clean, WellFormed, Feed, Deliverable, OneLength, Protocol, Windowed,
      Willing, Fold, Hand, Seen, RetryOf, RetryAfterReply;
    var w := TLS_BUFFER_SIZE;
    PrintAnnounces(r);
    PrintDelivered(w, r);
    PrintDecides(recv, x, t, user, after, r);
    ReplyDecides(recv, x, t, user, after);
    WillingEnds(recv, x, RecvCtx(Error, t, user), after);
    SameEnd(w, x.arrivals);
    assert Concat(x.arrivals) + [] == x.link.stream;
    calls := SessionProtocol(w, x.arrivals, [], x.clock, recv, RecvCtx(Error, t, user), |r.body|);
    WillingTakes(recv, user, calls);
  }

  /** A header section that announces 2^31 bytes or more and has nothing behind it is taken for a
      complete response: the send succeeds, and all that any callback gets is the size. */
  lemma HugeSizeTaken<U>(recv: RecvCb<U>, x: Exchange, t: uint32, user: U, err: Err, after: RecvCtx<U>,
                         r: Response)
    requires HeadFormed(r) && HeadFits(TLS_BUFFER_SIZE, r) && OneLength(r) && SizeOf(r) < 0
    requires x.link.Linked? && x.link.stream == Head(r) && Concat(x.arrivals) == x.link.stream
    requires HandedOver(recv, x, RecvCtx(Error, t, user), err, after)
    ensures Clean(INITIAL, Head(r)) && Windowed(TLS_BUFFER_SIZE, INITIAL, Head(r)).end == Done
    ensures var n := SizeOf(r) + TWO_32;
      TWO_31 <= n < TWO_32 - 1 && err == Ok && after.user == recv(user, RespSize(n)).0 &&
      Gets(x.clock, recv, RecvCtx(Error, t, user),
           Feed(TLS_BUFFER_SIZE, INITIAL, [], x.arrivals).events, [RespSize(n)])
  {
    hide HeadFits, Head, HeadFormed, Windowed, Clean, Feed, Deliverable, OneLength, Fold, HeadEvents, ToErr,
      Seen;
    var w := TLS_BUFFER_SIZE;
    HeadSize(r);
    HeadDelivered(w, r);
    HeadDigest(x.clock, t, r);
    SameEnd(w, x.arrivals);
    assert Concat(x.arrivals) + [] == x.link.stream;
    var calls := SessionProtocol(w, x.arrivals, [], x.clock, recv, RecvCtx(Error, t, user), SizeOf(r) + TWO_32);
    SizeHanded(recv, user, SizeOf(r) + TWO_32);
  }

  lemma SizeHanded<U>(recv: RecvCb<U>, user: U, n: uint32)
    ensures Hand(recv, user, [RespSize(n)]) == (recv(user, RespSize(n)).0, false)
  {
    assert [RespSize(n)][1..] == [];
  }

  /** A complete stream that is delivered in full ends the session, with the same sizes. */
  lemma SameEnd(w: nat, arrivals: seq<bytes>)
    requires 0 < w && Deliverable(w, INITIAL, [], arrivals) && Clean(INITIAL, Concat(arrivals))
    requires Windowed(w, INITIAL, Concat(arrivals)).end == Done
    ensures var s := Feed(w, INITIAL, [], arrivals);
      s.end == Done && Sizes(s.events) == Sizes(Windowed(w, INITIAL, Concat(arrivals)).events)
  {
    hide Windowed, Clean, Feed, Deliverable;
    var s, stream := Feed(w, INITIAL, [], arrivals), Concat(arrivals);
    assert stream + [] == stream && [] + stream == stream;
    FeedIsWindowed(w, INITIAL, [], arrivals, []);
    StarvedWindow(w, INITIAL, [], arrivals);
    if s.end == Starved {
      assert s.window + [] == s.window;
      CompleteEnds(s, w);
    }
    SameParts(Windowed(w, INITIAL, stream).events, s.events, []);
  }

  lemma HeadSize(r: Response)
    requires HeadFormed(r)
    ensures SizeOf(r) != CONTENT_LENGTH_UNKNOWN
  {
  }

  lemma CompleteEnds(s: Session, w: nat)
    requires 0 < w && |s.window| < w
    ensures Undecided(s.p, s.window) ==> Windowed(w, s.p, s.window).end == Broken
  {
    if Undecided(s.p, s.window) {
      UndecidedFails(w, s.p, s.window);
    }
  }

  // ----- the life of a token -----

  /** What a request carries of a stored token: all of it if and only if it has no NUL in it. */
  lemma {:induction false} TokenRead(memory: bytes, token: bytes)
    requires |token| < |memory|
    ensures Text(Stored(memory, token + [NUL])) == token[..IndexOf(token, NUL)]
    ensures Text(Stored(memory, token + [NUL])) == token <==> NUL !in token
  {
    var s, k := Stored(memory, token + [NUL]), IndexOf(token, NUL);
    assert forall i :: 0 <= i < |token| ==> s[i] == token[i];
    assert s[|token|] == NUL;
    var m := IndexOf(s, NUL);
    assert m == k;
    assert s[..m] == token[..k];
    assert k < |token| ==> NUL in token;
    assert token[..|token|] == token;
  }

  /** A device whose clock is refused: the answer to the first request corrects it, the second
      request is stamped with the server's time, moved on by what the device's clock has counted
      since, all in 32 bits, and the token it is granted is stored. */
  lemma MismatchRecovers(c: Client, env: Environment, n: nat, k: nat, a: Auth, refusal: Response,
                         server: bytes, token: bytes, digits: bytes)
    requires Fresh(a) && c.Supplied(env, n, k, a) && env.link(n).stream == Print(refusal)
    requires WellFormed(refusal) && HeadFits(TLS_BUFFER_SIZE, refusal)
    requires Code(refusal) == 401 && ServerTime(refusal.fields) == Some(server) && env.clock(k + 2).err == Ok
    requires env.link(n + 1).Linked? ==>
               Grants(AsClock(env.clock(k + 5)), env.link(n + 1).stream, token, digits)
    ensures Attempt(env, n, k, a).0 == TimeMismatch
    ensures TokenStored(AsClock(env.clock(k + 5)), Attempt(env, n, k, a).1, c.Attempts(env, n, k, a),
                        token, digits)
    ensures Shifted(env.clock(k + 4).ts, Attempt(env, n, k, a).1.timeDiff) ==
            (AtouValue(server) + (env.clock(k + 4).ts - env.clock(k + 2).ts)) % TWO_32
  {
    hide AuthOutcome, Print, HeadFits, WellFormed, AtouValue, Value, Code, ServerTime, Shifted, Difference,
      Attempt, Grants, TokenStored;
    RefusalCorrects(env, n, k, a, refusal, server);
    var b := Attempt(env, n, k, a).1;
    c.NeedsMet(env, n, k, a);
    GrantStored(env, n + 1, k + 3, b, token, digits);
    Corrected(AtouValue(server), env.clock(k + 2).ts, env.clock(k + 4).ts);
  }

  lemma RefusalCorrects(env: Environment, n: nat, k: nat, a: Auth, refusal: Response, server: bytes)
    requires Fresh(a) && env.link(n).Linked? && env.link(n).stream == Print(refusal)
    requires WellFormed(refusal) && HeadFits(TLS_BUFFER_SIZE, refusal)
    requires Code(refusal) == 401 && ServerTime(refusal.fields) == Some(server) && env.clock(k + 2).err == Ok
    ensures Attempt(env, n, k, a).0 == TimeMismatch && Fresh(Attempt(env, n, k, a).1)
    ensures Attempt(env, n, k, a).1.timeDiff == Difference(AtouValue(server), env.clock(k + 2).ts)
  {
    hide AuthOutcome, Print, HeadFits, WellFormed, AtouValue, Code, ServerTime, Difference;
    MismatchExactly(AsClock(env.clock(k + 2)), a, refusal);
  }

  lemma GrantStored(env: Environment, n: nat, k: nat, a: Auth, token: bytes, digits: bytes)
    requires Fresh(a) && env.link(n).Linked?
    requires Grants(AsClock(env.clock(k + 2)), env.link(n).stream, token, digits)
    ensures TokenStored(AsClock(env.clock(k + 2)), a, Attempt(env, n, k, a), token, digits)
  {
    hide AuthOutcome, Value;
    assert TokenStored(AsClock(env.clock(k + 2)), a,
                       AuthOutcome(AsClock(env.clock(k + 2)), a, env.link(n).stream), token, digits);
  }

  lemma Corrected(server: uint32, heard: uint32, now: uint32)
    ensures Shifted(now, Difference(server, heard)) == (server + (now - heard)) % TWO_32
  {
  }

  /** A token granted at once is the one that is read afterwards. */
  lemma GrantedRead(c: Client, env: Environment, n: nat, k: nat, a: Auth, token: bytes, digits: bytes)
    requires Fresh(a) && c.Supplied(env, n, k, a)
    requires Grants(AsClock(env.clock(k + 2)), env.link(n).stream, token, digits)
    ensures TokenStored(AsClock(env.clock(k + 2)), a, c.Attempts(env, n, k, a), token, digits)
    ensures NUL !in token ==> Text(c.Attempts(env, n, k, a).1.token) == token
    ensures Attempt(env, n, k, a).0 == Ok
  {
    hide AuthOutcome, Value, Attempt, Grants;
    GrantStored(env, n, k, a, token, digits);
    TokenRead(a.token, token);
  }

  /** A send without a usable token, to a server that grants one: the request carries exactly the
      granted token, and behind it the body. */
  method SendRenewed<U(!new)>(c: Client, env: Environment, req: ReqType, resp: RespType,
                              answers: seq<SendAnswer>, recv: RecvCb<U>, user: U,
                              ghost token: bytes, ghost digits: bytes)
    returns (err: Err, after: U, ghost x: Exchange)
    requires c.Valid() && env.Sound() && Scripted(answers) && Upload(answers).Some?
    requires c.Renews(env) && token != [] && NUL !in token
    requires Grants(AsClock(env.clock(env.readings + 4)), env.link(env.links).stream, token, digits)
    requires env.Reaches(env.links + 1) && c.Addressed(env.link(env.links + 1))
    modifies c`tokenExpiry, c`retryAfter, c`srvTimeDiff, c`log, c.token, env, env.nonces
    ensures c.Valid() && x.answered && x.link == env.link(old(env.links) + 1)
    ensures Delivered(token, Concat(Upload(answers).value), x)
  {
    hide AuthOutcome, Value, History, Delivered, HandedOver, Scripted, Upload, Text, Grants, Faithful, Followed,
      Attempt, TokenStored, LastRetry, JustRejected, AboutToExpire;
    ghost var n, k, a := env.links, env.readings + 2, c.Emptied();
    GrantedRead(c, env, n, k, a, token, digits);
    ghost var sent;
    err, after, sent, x := c.SendStream(env, req, resp, answers, recv, user);
  }

  /** Connection and clock for one token request, whose answer breaks off inside the token. */
  ghost predicate BreaksOff(c: Client, env: Environment, n: nat, k: nat, b: Break) {
    b.Valid() && env.Reaches(n) && c.Addressed(env.link(n)) && env.link(n).stream == b.Stream() &&
    env.WorksTwice(k)
  }

  /** The expiry in front of the broken token, counted from reading k. */
  function BrokenExpiry(env: Environment, k: nat, b: Break): uint32 {
    (Value(b.digits, 10) + env.clock(k).ts) % TWO_32
  }

  /** The two tests in front of a send at reading k let this expiry and retry time pass. */
  ghost predicate Lets(env: Environment, k: nat, retryAfter: uint32, expiry: uint32) {
    env.WorksTwice(k) && retryAfter <= env.clock(k).ts && !AboutToExpire(expiry, env.clock(k + 1).ts)
  }

  lemma BrokenSupplies(c: Client, env: Environment, n: nat, k: nat, a: Auth, b: Break)
    requires Fresh(a) && BreaksOff(c, env, n, k, b)
    ensures c.Supplied(env, n, k, a) && Attempt(env, n, k, a).0 == Error && |b.part| < ACCESS_TOKEN_SIZE
    ensures c.Attempts(env, n, k, a) ==
            (Error, Start(Stored(a.token, b.part), BrokenExpiry(env, k + 2, b), a.timeDiff))
  {
    hide AuthOutcome, ExpiryPart, TokenPart, MatchRun, Value, WellFormed, HeadFits;
    BrokenTokenKept(AsClock(env.clock(k + 2)), a, b);
  }

  /** auth, when one request is enough. */
  method AuthenticateOnce(c: Client, env: Environment) returns (err: Err)
    requires c.Valid() && env.Sound() && c.Supplied(env, env.links, env.readings, c.Emptied())
    requires Attempt(env, env.links, env.readings, c.Emptied()).0 != TimeMismatch
    modifies c`tokenExpiry, c`srvTimeDiff, c`log, c.token, env, env.nonces
    ensures c.Valid() && env.readings == old(env.readings) + 3 && env.links == old(env.links) + 1
    ensures (err, c.Scanned()) == old(c.Attempts(env, env.links, env.readings, c.Emptied()))
  {
    hide AuthOutcome, Puts, ToldBy, Concat, History, LastRetry, JustRejected, Attempt;
    ghost var n, k, a, prev := env.links, env.readings, c.Emptied(), env.nonces.prevTs;
    ghost var results, requests, arrivals;
    err, results, requests, arrivals := c.Authenticate(env);
    c.ScriptedResult(env, n, k, a, prev, err, c.Scanned(), requests);
  }

  /** What is read of a part of a token that was written over an older token: the part, and what
      the older token had behind that many bytes. */
  function LeftToken(older: bytes, part: bytes): bytes
    requires |part| <= |older|
  {
    part + Text(older[|part|..])
  }

  /** auth, when its answer breaks off inside the token: it fails, and the part of the token and
      the expiry in front of it stay in the client. */
  method AuthenticateBroken(c: Client, env: Environment, ghost b: Break) returns (err: Err)
    requires c.Valid() && env.Sound() && BreaksOff(c, env, env.links, env.readings, b)
    requires b.part != [] && b.part[0] != NUL
    modifies c`tokenExpiry, c`srvTimeDiff, c`log, c.token, env, env.nonces
    ensures c.Valid() && err == Error
    ensures env.readings == old(env.readings) + 3 && env.links == old(env.links) + 1
    ensures c.tokenExpiry == BrokenExpiry(env, old(env.readings) + 2, b)
    ensures c.token[0] == b.part[0] && Text(c.token[..]) != [] && Text(c.token[..])[0] == b.part[0]
    ensures NUL !in b.part ==> Text(c.token[..]) == LeftToken(old(c.token[..]), b.part)
  {
    hide AuthOutcome, History, LastRetry, JustRejected, Attempt, BreaksOff, Text, BrokenExpiry, Value;
    ghost var a := c.Emptied();
    BrokenSupplies(c, env, env.links, env.readings, a, b);
    assert a.token[|b.part|..] == c.token[..][|b.part|..];
    err := AuthenticateOnce(c, env);
    BrokenLeft(c, a.token, b.part);
  }

  lemma BrokenLeft(c: Client, memory: bytes, part: bytes)
    requires |part| <= |memory| && part != [] && part[0] != NUL && c.Scanned().token == Stored(memory, part)
    ensures c.token.Length > 0 && c.token[0] == part[0]
    ensures var t := Text(c.token[..]);
      t != [] && t[0] == part[0] && (NUL !in part ==> t == part + Text(memory[|part|..]))
  {
    hide Text;
    PartRead(memory, part);
    assert c.token[..][0] == part[0];
  }

  /** A stored part of a token is read together with what the memory holds behind it. */
  lemma PartRead(memory: bytes, part: bytes)
    requires |part| <= |memory| && part != [] && part[0] != NUL
    ensures var s := Stored(memory, part);
      s[0] == part[0] && Text(s) != [] && Text(s)[0] == part[0] &&
      (NUL !in part ==> Text(s) == part + Text(memory[|part|..]))
  {
    var s, tail := Stored(memory, part), memory[|part|..];
    assert forall i :: 0 <= i < |part| ==> s[i] == part[i];
    assert s[|part|..] == tail;
    if NUL !in part {
      TextBehind(part, tail);
    }
  }

  lemma TextBehind(part: bytes, tail: bytes)
    requires NUL !in part
    ensures Text(part + tail) == part + Text(tail)
  {
    var s, k := part + tail, IndexOf(tail, NUL);
    assert forall i :: 0 <= i < |part| ==> s[i] == part[i] && part[i] in part;
    assert forall i :: 0 <= i < |tail| ==> s[|part| + i] == tail[i];
    assert IndexOf(s, NUL) == |part| + k;
  }

  /** After a failed authentication the gate may let a send through: the part of a token that a
      broken response has left, and the expiry in front of it, read as valid. */
  method BrokenTokenPasses(c: Client, env: Environment, ghost b: Break)
    returns (authErr: Err, gateErr: Err, ghost gate: Gate)
    requires c.Valid() && env.Sound() && BreaksOff(c, env, env.links, env.readings, b)
    requires b.part != [] && b.part[0] != NUL
    requires Lets(env, env.readings + 3, c.retryAfter, BrokenExpiry(env, env.readings + 2, b))
    modifies c`tokenExpiry, c`srvTimeDiff, c`log, c.token, env, env.nonces
    ensures c.Valid() && authErr == Error && gateErr == Ok
    ensures !gate.renewed && gate.token != [] && gate.token[0] == b.part[0]
    ensures NUL !in b.part ==> gate.token == LeftToken(old(c.token[..]), b.part)
  {
    hide BreaksOff, BrokenExpiry, History, Admitted, LastRetry, JustRejected, AboutToExpire, Text;
    authErr := AuthenticateBroken(c, env, b);
    gateErr, gate := c.PassGate(env);
  }

  /** And the next send goes out with it: on a connection that does not fail the request carries
      the part of the token, and behind it the body. */
  method BrokenTokenSent<U(!new)>(c: Client, env: Environment, req: ReqType, resp: RespType,
                                  answers: seq<SendAnswer>, recv: RecvCb<U>, user: U, ghost b: Break)
    returns (authErr: Err, err: Err, after: U, ghost token: bytes, ghost x: Exchange)
    requires c.Valid() && env.Sound() && BreaksOff(c, env, env.links, env.readings, b)
    requires b.part != [] && b.part[0] != NUL
    requires Lets(env, env.readings + 3, c.retryAfter, BrokenExpiry(env, env.readings + 2, b))
    requires Scripted(answers) && Upload(answers).Some?
    requires env.Reaches(env.links + 1) && c.Addressed(env.link(env.links + 1))
    modifies c`tokenExpiry, c`retryAfter, c`srvTimeDiff, c`log, c.token, env, env.nonces
    ensures c.Valid() && authErr == Error
    ensures x.answered && x.link == env.link(old(env.links) + 1)
    ensures Delivered(token, Concat(Upload(answers).value), x)
    ensures token[0] == b.part[0] && (NUL !in b.part ==> token == LeftToken(old(c.token[..]), b.part))
  {
    hide BreaksOff, BrokenExpiry, History, LastRetry, JustRejected, AboutToExpire, Text, Delivered, HandedOver,
      Scripted, Upload;
    authErr := AuthenticateBroken(c, env, b);
    ghost var sent;
    err, after, sent, x := c.SendStream(env, req, resp, answers, recv, user);
    token := c.log[|c.log| - 1].gate.token;
  }
}
