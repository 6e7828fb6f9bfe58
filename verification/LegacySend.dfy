// The callbacks of the buffer-based send of src/here_tracking_http.c, send_cb and recv_cb, which
// receive the response into the buffer the request was sent from.

module LegacySend {
  import opened AuthScanner
  import opened Bytes
  import opened Chunked
  import opened DataBuffers
  import opened Errors
  import opened EventProtocol
  import opened Fragmentation
  import opened HttpEvents
  import opened HttpGrammar
  import opened Options
  import opened Receiver
  import opened SendResponse
  import opened StatusCodes

  /** send_recv_ctx: the response buffer's contents and capacity, the announced size, the status. */
  datatype Legacy = Legacy(buffer: bytes, capacity: nat, bodySize: nat, status: Err)

  function Truncated(s: bytes, n: nat): bytes {
    if |s| <= n then s else s[..n]
  }

  /** recv_cb: data that does not fit is truncated, which is then the callback's answer. */
  function LegacyRecv(u: Legacy, d: RecvData): (Legacy, Err) {
    var v := match d
      case RespSize(n) => u.(bodySize := n)
      case RespData(data) =>
        if data != [] && |u.buffer| + |data| <= u.capacity then u.(buffer := u.buffer + data)
        else u.(buffer := Truncated(u.buffer + data, u.capacity), status := BufferTooSmall)
      case RespComplete(err) => u.(status := err);
    (v, v.status)
  }

  /** recv_cb on the context it mutates; the response buffer lies in caller memory. Empty data
      is never delivered by a session. */
  class SendRecvCtx {
    const respBuffer: DataBuffer
    var bodySize: nat
    var status: Err

    ghost predicate Valid()
      reads this, respBuffer
    {
      respBuffer.Valid()
    }

    ghost function Value(): Legacy
      reads this, respBuffer, respBuffer.buffer
      requires Valid()
    {
      Legacy(respBuffer.Contents(), respBuffer.capacity, bodySize, status)
    }

    constructor (data: array<byte>, recvSize: nat)
      requires 0 < recvSize <= data.Length && recvSize < TWO_32
      ensures Valid() && respBuffer.buffer == data && fresh(respBuffer)
      ensures Value() == Legacy([], recvSize, 0, Ok)
    {
      bodySize := 0;
      status := Ok;
      respBuffer := new DataBuffer(data, recvSize);
    }

    method Receive(d: RecvData) returns (err: Err)
      requires Valid() && (d.RespData? ==> d.data != [])
      modifies this, respBuffer`size, respBuffer.buffer
      ensures Valid()
      ensures (Value(), err) == LegacyRecv(old(Value()), d)
      ensures forall i :: respBuffer.capacity <= i < respBuffer.buffer.Length ==>
                respBuffer.buffer[i] == old(respBuffer.buffer[i])
    {
      match d {
        case RespSize(n) =>
          bodySize := n;
        case RespData(data) =>
          ghost var before := respBuffer.Contents();
          err := respBuffer.AddData(data);
          if err != Ok {
            var free := respBuffer.BytesFree();
            err := respBuffer.AddData(data[..free]);
            assert respBuffer.Contents() == Truncated(before + data, respBuffer.capacity);
            status := BufferTooSmall;
          }
        case RespComplete(e) =>
          status := e;
      }
      err := status;
    }
  }

  // ----- what the buffer holds after a session -----

  function LegacyCb(clock: Clock): Callback<RecvCtx<Legacy>> {
    SendCb(clock, LegacyRecv)
  }

  lemma {:induction false} LegacyNothing(clock: Clock, s: RecvCtx<Legacy>, events: seq<Event>)
    requires Sizes(events) == [] && exists b :: Replay(0, b, events).0
    ensures var f := Fold(LegacyCb(clock), s, events);
      !f.1 && f.0.user == s.user && f.0.status == s.status
    decreases |events|
  {
    if events != [] {
      var b :| Replay(0, b, events).0;
      LegacyNothing(clock, OnSendEvent(clock, LegacyRecv, s, events[0]).0, events[1..]);
    }
  }

  /** The user data after `body` has been received into u, and perhaps completed. */
  function Received(u: Legacy, body: bytes, left: int, status: Err): Legacy {
    u.(buffer := Truncated(u.buffer + body, u.capacity),
       status := if |u.buffer| + |body| > u.capacity then BufferTooSmall
                 else if left == 0 then status else Ok)
  }

  lemma ReceivedOver(u: Legacy, d: bytes, more: bytes, left: int, status: Err)
    requires |u.buffer| <= u.capacity < |u.buffer| + |d|
    ensures LegacyRecv(u, RespData(d)) == (Received(u, d + more, left, status), BufferTooSmall)
  {
    assert (u.buffer + d)[..u.capacity] == (u.buffer + (d + more))[..u.capacity];
  }

  lemma ReceivedMore(u: Legacy, d: bytes, more: bytes, left: int, status: Err)
    requires |u.buffer| + |d| <= u.capacity && d != [] && u.status == Ok
    ensures var r := LegacyRecv(u, RespData(d));
      r.1 == Ok && r.0.status == Ok && |r.0.buffer| <= r.0.capacity &&
      |r.0.buffer| == |u.buffer| + |d| && r.0.capacity == u.capacity &&
      Received(r.0, more, left, status) == Received(u, d + more, left, status)
  {
    Assoc(u.buffer, d, more);
  }

  lemma {:induction false} LegacyBody(clock: Clock, s: RecvCtx<Legacy>, left: int, inBody: bool,
                                      events: seq<Event>)
    requires Sizes(events) == [] && Replay(left, inBody, events).0 && left > 0
    requires s.user.status == Ok && |s.user.buffer| <= s.user.capacity
    ensures var f := Fold(LegacyCb(clock), s, events);
      var last := Replay(left, inBody, events).1;
      f.0.status == s.status && last >= 0 &&
      f.0.user == Received(s.user, BodyBytes(events), last, s.status) &&
      (f.1 <==> |s.user.buffer| + |BodyBytes(events)| > s.user.capacity)
    decreases |events|
  {
    hide LegacyRecv, Received;
    ReplayNotNegative(left, inBody, events);
    if events == [] {
      ReceivedNothing(s.user, left, s.status);
    } else {
      var r := OnSendEvent(clock, LegacyRecv, s, events[0]);
      if events[0].Body? {
        var d, more := events[0].data, BodyBytes(events[1..]);
        var last := Replay(left, inBody, events).1;
        if |s.user.buffer| + |d| > s.user.capacity {
          ReceivedOver(s.user, d, more, last, s.status);
        } else {
          ReceivedMore(s.user, d, more, last, s.status);
          if |d| == left {
            LegacyNothing(clock, r.0, events[1..]);
            NothingAfter(s.status, events[1..]);
            StaysZero(true, events[1..]);
            Completed(LegacyRecv(s.user, RespData(d)).0, s.status);
          } else {
            LegacyBody(clock, r.0, left - |d|, true, events[1..]);
          }
        }
      } else {
        LegacyBody(clock, r.0, left, false, events[1..]);
        assert BodyBytes(events) == BodyBytes(events[1..]);
      }
    }
  }

  lemma ReceivedNothing(u: Legacy, left: int, status: Err)
    requires |u.buffer| <= u.capacity && u.status == Ok && left != 0
    ensures Received(u, [], left, status) == u
  {
    assert u.buffer + [] == u.buffer;
  }

  lemma Completed(u: Legacy, status: Err)
    requires |u.buffer| <= u.capacity
    ensures LegacyRecv(u, RespComplete(status)).0 == Received(u, [], 0, status)
  {
    assert u.buffer + [] == u.buffer;
  }

  lemma {:induction false} StaysZero(inBody: bool, events: seq<Event>)
    requires Sizes(events) == [] && Replay(0, inBody, events).0
    ensures Replay(0, inBody, events).1 == 0
    decreases |events|
  {
    if events != [] {
      StaysZero(false, events[1..]);
    }
  }

  // ----- whole sessions -----

  /** From the start of a response: u has received the announced size and then the body. */
  lemma {:induction false} LegacyHead(clock: Clock, s: RecvCtx<Legacy>, events: seq<Event>, n: uint32)
    requires Replay(CONTENT_LENGTH_UNKNOWN, false, events).0 && Sizes(events) == [n] && n < TWO_31
    requires s.user.status == Ok && |s.user.buffer| <= s.user.capacity
    ensures var f := Fold(LegacyCb(clock), s, events);
      var last := Replay(CONTENT_LENGTH_UNKNOWN, false, events).1;
      last >= 0 && f.0.user == Received(s.user.(bodySize := n), BodyBytes(events), last, f.0.status) &&
      (f.1 <==> |s.user.buffer| + |BodyBytes(events)| > s.user.capacity) &&
      f.0.status == StatusOf(s.status, events)
    decreases |events|
  {
    hide Received;
    var r := OnSendEvent(clock, LegacyRecv, s, events[0]);
    assert BodyBytes(events) == BodyBytes(events[1..]);
    if events[0].BodySize? {
      assert Sizes(events)[0] == events[0].size && Sizes(events)[1..] == Sizes(events[1..]);
      if n == 0 {
        LegacyNothing(clock, r.0, events[1..]);
        NothingAfter(s.status, events[1..]);
        StaysZero(false, events[1..]);
        Completed(s.user.(bodySize := n), s.status);
      } else {
        LegacyBody(clock, r.0, n, false, events[1..]);
        StatusStays(n, false, s.status, events[1..]);
      }
    } else {
      LegacyHead(clock, r.0, events[1..], n);
    }
  }

  /** Without an announced size nothing is handed to the callback. */
  lemma {:induction false} LegacyNoSize(clock: Clock, s: RecvCtx<Legacy>, events: seq<Event>)
    requires Replay(CONTENT_LENGTH_UNKNOWN, false, events).0 && Sizes(events) == []
    ensures !Fold(LegacyCb(clock), s, events).1
    decreases |events|
  {
    if events != [] {
      LegacyNoSize(clock, OnSendEvent(clock, LegacyRecv, s, events[0]).0, events[1..]);
    }
  }

  /** The body that a whole stream delivers. */
  function BodyOf(w: nat, stream: bytes): bytes
    requires 0 < w
  {
    BodyBytes(Windowed(w, INITIAL, stream).events)
  }

  /** The mapped status of the response a stream delivers. */
  function StatusIn(w: nat, stream: bytes): Err
    requires 0 < w
  {
    StatusOf(Error, Windowed(w, INITIAL, stream).events)
  }

  /** The stream holds one complete response that announces n body bytes. */
  ghost predicate Announces(w: nat, stream: bytes, n: uint32)
    requires 0 < w
  {
    Clean(INITIAL, stream) && n < TWO_31 &&
    Windowed(w, INITIAL, stream).end == Done && Sizes(Windowed(w, INITIAL, stream).events) == [n]
  }

  /** What http_send finds in the context after a successful session. */
  ghost predicate LegacyOutcome(w: nat, stream: bytes, n: uint32, u: Legacy) {
    0 < w && |BodyOf(w, stream)| == n && u.bodySize == n &&
    u.buffer == Truncated(BodyOf(w, stream), u.capacity) && StatusIn(w, stream) != BufferTooSmall &&
    u.status == if n > u.capacity then BufferTooSmall else StatusIn(w, stream)
  }

  /** For every body, every buffer size and every delivery: the buffer ends up with the body,
      cut to its capacity, and the status says whether it was cut. */
  lemma LegacySession(w: nat, clock: Clock, retryAfter: uint32, capacity: nat,
                      arrivals: seq<bytes>, unread: bytes, n: uint32)
    requires 0 < w && Deliverable(w, INITIAL, [], arrivals)
    requires Announces(w, Concat(arrivals) + unread, n)
    requires var f := Fold(LegacyCb(clock), RecvCtx(Error, retryAfter, Legacy([], capacity, 0, Ok)),
                           Feed(w, INITIAL, [], arrivals).events);
      f.1 || Feed(w, INITIAL, [], arrivals).end == Done
    ensures var f := Fold(LegacyCb(clock), RecvCtx(Error, retryAfter, Legacy([], capacity, 0, Ok)),
                          Feed(w, INITIAL, [], arrivals).events);
      LegacyOutcome(w, Concat(arrivals) + unread, n, f.0.user) &&
      f.0.user.capacity == capacity && (f.1 <==> n > capacity)
  {
    hide ParseElement, Run, Clean, Feed, Windowed, Deliverable, LegacyRecv;
    var ctx := RecvCtx(Error, retryAfter, Legacy([], capacity, 0, Ok));
    var s := Feed(w, INITIAL, [], arrivals);
    var stream := Concat(arrivals) + unread;
    var whole := Windowed(w, INITIAL, stream);
    assert [] + stream == stream;
    ReplayFeed(w, INITIAL, false, [], arrivals, unread);
    FeedIsWindowed(w, INITIAL, [], arrivals, unread);
    var rest := if s.end == Starved then Windowed(w, s.p, s.window + unread).events else [];
    SameParts(whole.events, s.events, rest);
    var q := ReplayWindowed(w, INITIAL, false, stream);
    AnnouncedCounts(whole.events, n);
    if Sizes(s.events) == [] {
      LegacyNoSize(clock, ctx, s.events);
      NegativeStays(CONTENT_LENGTH_UNKNOWN, false, s.events);
      assert false;
    }
    assert Sizes(s.events) == [n];
    LegacyHead(clock, ctx, s.events, n);
    AnnouncedCounts(s.events, n);
    var part, body := BodyBytes(s.events), BodyOf(w, stream);
    assert [] + part == part;
    assert body == part + BodyBytes(rest);
    StatusMapped(Error, whole.events);
    if s.end == Starved {
      var r := Replay(CONTENT_LENGTH_UNKNOWN, false, s.events);
      var q' := ReplayWindowed(w, s.p, r.2, s.window + unread);
      StatusStays(r.1, r.2, StatusOf(Error, s.events), rest);
    }
    if |part| > capacity {
      PrefixSlices(part, BodyBytes(rest), 0, capacity);
    } else {
      assert body == part;
    }
  }

  lemma {:induction false} StatusMapped(status: Err, events: seq<Event>)
    requires status != BufferTooSmall
    ensures StatusOf(status, events) != BufferTooSmall
    decreases |events|
  {
    if events != [] {
      StatusMapped(if events[0].StatusCode? then ToErr(events[0].code) else status, events[1..]);
    }
  }

  lemma SameParts(whole: seq<Event>, first: seq<Event>, rest: seq<Event>)
    requires Atoms(whole) == Atoms(first) + Atoms(rest)
    ensures Sizes(whole) == Sizes(first) + Sizes(rest)
    ensures BodyBytes(whole) == BodyBytes(first) + BodyBytes(rest)
    ensures StatusOf(Error, whole) == StatusOf(StatusOf(Error, first), rest)
  {
    AtomsAppend(first, rest);
    SizesAtoms(whole);
    SizesAtoms(first + rest);
    SizesAppend(first, rest);
    BodyBytesAtoms(whole);
    BodyBytesAtoms(first + rest);
    BodyBytesAppend(first, rest);
    StatusAtoms(Error, whole);
    StatusAtoms(Error, first + rest);
    StatusAppend(Error, first, rest);
  }

  // ----- http_send -----

  lemma {:induction false} CapacityKept(clock: Clock, s: RecvCtx<Legacy>, events: seq<Event>)
    requires |s.user.buffer| <= s.user.capacity
    ensures var u := Fold(LegacyCb(clock), s, events).0.user;
      |u.buffer| <= u.capacity == s.user.capacity
    decreases |events|
  {
    if events != [] {
      CapacityKept(clock, OnSendEvent(clock, LegacyRecv, s, events[0]).0, events[1..]);
    }
  }

  /** What any session with this callback makes of the context, if it does not fail. */
  lemma LegacyResult(stream: bytes, clock: Clock, retryAfter: uint32, capacity: nat,
                     arrivals: seq<bytes>, n: uint32)
    requires Concat(arrivals) <= stream && Deliverable(TLS_BUFFER_SIZE, INITIAL, [], arrivals)
    requires Announces(TLS_BUFFER_SIZE, stream, n)
    ensures var r := Result(LegacyCb(clock), RecvCtx(Error, retryAfter, Legacy([], capacity, 0, Ok)),
                            Ended(Feed(TLS_BUFFER_SIZE, INITIAL, [], arrivals)));
      r.0 == Ok || r.0 == ClientInterrupt ==>
        LegacyOutcome(TLS_BUFFER_SIZE, stream, n, r.1.user) && r.1.user.capacity == capacity
  {
    hide Announces, LegacyOutcome, Clean, Deliverable, LegacyRecv, Feed, Fold, Concat;
    var r := Result(LegacyCb(clock), RecvCtx(Error, retryAfter, Legacy([], capacity, 0, Ok)),
                    Ended(Feed(TLS_BUFFER_SIZE, INITIAL, [], arrivals)));
    if r.0 == Ok || r.0 == ClientInterrupt {
      var unread := stream[|Concat(arrivals)|..];
      assert stream == Concat(arrivals) + unread;
      LegacySession(TLS_BUFFER_SIZE, clock, retryAfter, capacity, arrivals, unread, n);
    }
  }

  /** The call of the client's data callback, if one is made. */
  datatype Report = NoReport | Report(err: Err, size: nat)

  /** What the caller of http_send finds when a response of n body bytes was received into its
      buffer: the body, cut to recvSize, in front of the bytes that were there. */
  ghost predicate SentAndReceived(stream: bytes, n: uint32, recvSize: nat, before: bytes,
                                  after: bytes, report: Report) {
    var body := BodyOf(TLS_BUFFER_SIZE, stream);
    var k := if n <= recvSize then n else recvSize;
    |body| == n && |before| == |after| >= k && after == body[..k] + before[k..] &&
    report == Report(if n <= recvSize then StatusIn(TLS_BUFFER_SIZE, stream) else BufferTooSmall, n)
  }

  lemma Published(stream: bytes, n: uint32, recvSize: nat, ctx: RecvCtx<Legacy>,
                  before: bytes, after: bytes, report: Report)
    requires LegacyOutcome(TLS_BUFFER_SIZE, stream, n, ctx.user)
    requires ctx.user.capacity == recvSize <= |before|
    requires after == ctx.user.buffer + before[|ctx.user.buffer|..]
    requires report == Report(ctx.user.status,
      if ctx.user.status == BufferTooSmall then ctx.user.bodySize else |ctx.user.buffer|)
    ensures SentAndReceived(stream, n, recvSize, before, after, report)
  {
    var body := BodyOf(TLS_BUFFER_SIZE, stream);
    assert body[..|body|] == body;
  }

  lemma OneChunk(request: bytes)
    requires request != []
    ensures Upload([Data(request)]) == Some([request])
    ensures Concat([request]) == request
    ensures Scripted([Data(request)]) <==> |request| < TWO_32
    ensures Decode(ChunkedText([request])) == Some(Decoded(request, []))
  {
    var answers: seq<SendAnswer> := [Data(request)];
    assert answers[1..] == [];
    var one: seq<bytes> := [request];
    assert one[1..] == [] && one + [] == one;
    assert request + [] == request;
    assert answers[0] in answers;
    DecodeChunkedText(one, []);
    assert ChunkedText(one) + [] == ChunkedText(one);
  }
}
