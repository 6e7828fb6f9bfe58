// send_resp_cb of src/here_tracking_http.c: what a user's receive callback gets to see.

module SendResponse {
  import opened AuthScanner
  import opened Bytes
  import opened Errors
  import opened HttpEvents
  import opened StatusCodes
  import opened Utils

  const RETRY_AFTER: bytes := Ascii("Retry-After")

  /** The data passed to a receive callback; only a completion carries an error code. */
  datatype RecvData = RespSize(size: uint32) | RespData(data: bytes) | RespComplete(err: Err)

  /** A receive callback with its user data; anything but Ok refuses the data. */
  type RecvCb<!U> = (U, RecvData) -> (U, Err)

  /** The receive context, with the one client field the callback writes. */
  datatype RecvCtx<U> = RecvCtx(status: Err, retryAfter: uint32, user: U)

  function OnSendEvent<U>(clock: Clock, recv: RecvCb<U>, s: RecvCtx<U>, evt: Event): (RecvCtx<U>, bool) {
    match evt
    case StatusCode(code) => (s.(status := ToErr(code)), false)
    case Header(key, val) =>
      if SameIgnoringCase(key, RETRY_AFTER) && clock.ok then
        (s.(retryAfter := (clock.ts + AtouValue(val)) % TWO_32), false)
      else (s, false)
    case Body(data, last) =>
      var r := recv(s.user, RespData(data));
      if r.1 != Ok then (s.(user := r.0), true)
      else if last then (s.(user := recv(r.0, RespComplete(s.status)).0), false)
      else (s.(user := r.0), false)
    case BodySize(size) =>
      var r := recv(s.user, RespSize(size));
      if size == 0 then (s.(user := recv(r.0, RespComplete(s.status)).0), false)
      else (s.(user := r.0), false)
    case _ => (s, false)
  }

  function SendCb<U>(clock: Clock, recv: RecvCb<U>): Callback<RecvCtx<U>> {
    (s, evt) => OnSendEvent(clock, recv, s, evt)
  }

  /** recv_ctx and the client field it points to, as they change during a session. */
  class ReceiveContext<U> {
    const clock: Clock
    const recv: RecvCb<U>
    var status: Err
    var retryAfter: uint32
    var user: U

    ghost function Value(): RecvCtx<U>
      reads this
    {
      RecvCtx(status, retryAfter, user)
    }

    constructor (clock: Clock, recv: RecvCb<U>, retryAfter: uint32, user: U)
      ensures Value() == RecvCtx(Error, retryAfter, user)
      ensures this.clock == clock && this.recv == recv
    {
      this.clock := clock;
      this.recv := recv;
      this.status := Error;
      this.retryAfter := retryAfter;
      this.user := user;
    }

    method Call(d: RecvData) returns (err: Err)
      modifies this`user
      ensures (user, err) == recv(old(user), d)
    {
      var r := recv(user, d);
      user := r.0;
      err := r.1;
    }

    /** send_resp_cb. */
    method Receive(evt: Event) returns (res: bool)
      modifies this
      ensures (Value(), res) == SendCb(clock, recv)(old(Value()), evt)
    {
      res := false;
      match evt {
        case StatusCode(code) =>
          status := ToErr(code);
        case Header(key, val) =>
          if |key| == |RETRY_AFTER| {
            var order := MemCaseCmp(key + [COLON], RETRY_AFTER + [NUL], |key|);
            assert (key + [COLON])[..|key|] == key && (RETRY_AFTER + [NUL])[..|key|] == RETRY_AFTER;
            if order == 0 && clock.ok {
              var delay := Atou(val + [CR], |val|);
              assert (val + [CR])[..|val|] == val;
              retryAfter := (clock.ts + delay) % TWO_32;
            }
          }
        case Body(data, last) =>
          var err := Call(RespData(data));
          if err != Ok {
            res := true;
          } else if last {
            err := Call(RespComplete(status));
          }
        case BodySize(size) =>
          var err := Call(RespSize(size));
          if size == 0 {
            err := Call(RespComplete(status));
          }
        case _ =>
      }
    }
  }
}

module EventProtocol {
  import opened AuthScanner
  import opened Bytes
  import opened Errors
  import opened Fragmentation
  import opened HttpEvents
  import opened HttpGrammar
  import opened Receiver
  import opened SendResponse
  import opened StatusCodes

  // ----- the order and the sizes of parser events -----

  /** Reads events as a countdown of body bytes: sizes and statuses come in front of the body,
      fragments are not empty, and the one that exhausts the size, and only it, is the last.
      The result is what is left and whether the body has begun. */
  function Replay(left: int, inBody: bool, events: seq<Event>): (r: (bool, int, bool))
    decreases |events|
  {
    if events == [] then (true, left, inBody)
    else
      match events[0]
      case Body(d, last) =>
        if d != [] && |d| <= left && last == (|d| == left) then
          Replay(left - |d|, true, events[1..])
        else (false, left, inBody)
      case BodySize(n) =>
        if inBody then (false, left, inBody) else Replay(AsInt32(n), false, events[1..])
      case StatusCode(_) =>
        if inBody || left != CONTENT_LENGTH_UNKNOWN then (false, left, inBody)
        else Replay(left, false, events[1..])
      case _ =>
        if inBody then (false, left, inBody) else Replay(left, false, events[1..])
  }

  lemma {:induction false} ReplayAppend(left: int, inBody: bool, a: seq<Event>, b: seq<Event>)
    requires Replay(left, inBody, a).0
    ensures var r := Replay(left, inBody, a);
      Replay(left, inBody, a + b) == Replay(r.1, r.2, b)
    decreases |a|
  {
    if a == [] {
      assert a + b == b;
    } else {
      assert (a + b)[1..] == a[1..] + b;
      match a[0] {
        case Body(d, last) => ReplayAppend(left - |d|, true, a[1..], b);
        case BodySize(n) => ReplayAppend(AsInt32(n), false, a[1..], b);
        case StatusCode(_) => ReplayAppend(left, false, a[1..], b);
        case _ => ReplayAppend(left, false, a[1..], b);
      }
    }
  }

  /** The content size is not known before the status code has been read, and known once the
      body begins. */
  ghost predicate Normal(p: ParserState) {
    (p.evtState in {AtVersion, AtStatusCode} ==> p.contentSize == CONTENT_LENGTH_UNKNOWN) &&
    (p.evtState == AtBody ==> p.contentSize != CONTENT_LENGTH_UNKNOWN)
  }

  /** Events that replay from state p to state q. */
  ghost predicate Replays(p: ParserState, b: bool, events: seq<Event>, q: ParserState) {
    var r := Replay(p.contentSize, b, events);
    r.0 && r.1 == q.contentSize && (r.2 ==> q.evtState == AtBody) && Normal(q)
  }

  lemma ReplayElement(p: ParserState, b: bool, data: bytes)
    requires data != [] && Normal(p) && !Complete(p) && (b ==> p.evtState == AtBody)
    ensures var e := ParseElement(p, data);
      Replays(p, b, e.events, e.next)
  {
    var e := ParseElement(p, data);
    if p.evtState == AtBody {
      assert AsUint32(p.contentSize) == p.contentSize;
    }
    if |e.events| == 1 {
      ReplayOne(p.contentSize, b, e.events);
    } else if |e.events| == 2 {
      ReplayTwo(p.contentSize, b, e.events);
    }
  }

  lemma ReplayOne(left: int, b: bool, events: seq<Event>)
    requires |events| == 1
    ensures Replay(left, b, events) ==
      match events[0]
      case Body(d, last) =>
        if d != [] && |d| <= left && last == (|d| == left) then (true, left - |d|, true)
        else (false, left, b)
      case BodySize(n) => if b then (false, left, b) else (true, AsInt32(n), false)
      case StatusCode(_) =>
        if b || left != CONTENT_LENGTH_UNKNOWN then (false, left, b) else (true, left, false)
      case _ => if b then (false, left, b) else (true, left, false)
  {
    assert events[1..] == [];
  }

  lemma ReplayTwo(left: int, b: bool, events: seq<Event>)
    requires |events| == 2 && events[1].BodySize? && !b
    requires events[0].Header? || (events[0].StatusCode? && left == CONTENT_LENGTH_UNKNOWN)
    ensures Replay(left, b, events) == (true, AsInt32(events[1].size), false)
  {
    ReplayOne(left, false, events[1..]);
  }

  lemma {:induction false} ReplayRun(p: ParserState, b: bool, data: bytes)
    requires Normal(p) && Clean(p, data) && (b ==> p.evtState == AtBody)
    ensures Replays(p, b, Run(p, data).events, Run(p, data).last)
    decreases |data|
  {
    hide ParseElement;
    if data != [] {
      var e := ParseElement(p, data);
      ReplayElement(p, b, data);
      if e.verdict == Pass && e.size > 0 {
        var r := Replay(p.contentSize, b, e.events);
        ReplayRun(e.next, r.2, data[e.size..]);
        ReplayAppend(p.contentSize, b, e.events, Run(e.next, data[e.size..]).events);
      }
    }
  }

  lemma {:induction false} ReplayFeed(w: nat, p: ParserState, b: bool, window: bytes,
                                      arrivals: seq<bytes>, unread: bytes)
    requires 0 < w && Deliverable(w, p, window, arrivals) && Normal(p) && (b ==> p.evtState == AtBody)
    requires Clean(p, window + (Concat(arrivals) + unread))
    ensures var s := Feed(w, p, window, arrivals);
      Replays(p, b, s.events, s.p) && (s.end == Done ==> Complete(s.p))
    decreases |arrivals|
  {
    hide ParseElement, Run, Clean;
    if arrivals != [] {
      var d, more := window + arrivals[0], Concat(arrivals[1..]) + unread;
      Assoc(arrivals[0], Concat(arrivals[1..]), unread);
      Assoc(window, arrivals[0], more);
      var t := Run(p, d);
      CleanPrefix(p, d, more);
      ReplayRun(p, b, d);
      if t.end == Done {
        DoneIsComplete(p, d);
      } else if t.end == Starved && !(|d| >= w && t.used == 0) {
        WindowStep(w, p, d, more);
        var r := Replay(p.contentSize, b, t.events);
        ReplayFeed(w, t.last, r.2, d[t.used..], arrivals[1..], unread);
        ReplayAppend(p.contentSize, b, t.events, Feed(w, t.last, d[t.used..], arrivals[1..]).events);
      }
    }
  }

  lemma {:induction false} ReplayWindowed(w: nat, p: ParserState, b: bool, data: bytes)
    returns (q: ParserState)
    requires 0 < w && Normal(p) && Clean(p, data) && (b ==> p.evtState == AtBody)
    ensures Replays(p, b, Windowed(w, p, data).events, q)
    ensures Windowed(w, p, data).end == Done ==> Complete(q)
    decreases |data|
  {
    hide ParseElement;
    q := p;
    if data != [] {
      var shown := Shown(w, p, data);
      var e := ParseElement(p, shown);
      assert data == shown + data[|shown|..];
      ReplayElement(p, b, shown);
      q := e.next;
      if e.verdict != More {
        ElementStable(p, shown, data[|shown|..]);
      }
      if e.verdict == Pass && e.size > 0 {
        var r := Replay(p.contentSize, b, e.events);
        q := ReplayWindowed(w, e.next, r.2, data[e.size..]);
        ReplayAppend(p.contentSize, b, e.events, Windowed(w, e.next, data[e.size..]).events);
      }
    }
  }

  // ----- the calls of a receive callback -----

  /** What send_resp_cb passes on for these events, starting with this status. */
  function LogOf(status: Err, events: seq<Event>): seq<RecvData>
    decreases |events|
  {
    if events == [] then []
    else
      match events[0]
      case StatusCode(code) => LogOf(ToErr(code), events[1..])
      case BodySize(n) =>
        [RespSize(n)] + (if n == 0 then [RespComplete(status)] else []) + LogOf(status, events[1..])
      case Body(d, last) =>
        [RespData(d)] + (if last then [RespComplete(status)] else []) + LogOf(status, events[1..])
      case _ => LogOf(status, events[1..])
  }

  function StatusOf(status: Err, events: seq<Event>): Err
    decreases |events|
  {
    if events == [] then status
    else StatusOf(if events[0].StatusCode? then ToErr(events[0].code) else status, events[1..])
  }

  /** The answers of a receive callback, written down beside its user data. */
  function Logged<U>(recv: RecvCb<U>): RecvCb<(seq<(RecvData, Err)>, U)> {
    (u: (seq<(RecvData, Err)>, U), d: RecvData) =>
      var r := recv(u.1, d);
      ((u.0 + [(d, r.1)], r.0), r.1)
  }

  predicate Refused(e: (RecvData, Err)) {
    e.0.RespData? && e.1 != Ok
  }

  /** What is left of the user data after these calls, and whether the last one made was data
      that was refused; no call is made behind it. */
  function Hand<U>(recv: RecvCb<U>, user: U, calls: seq<RecvData>): (U, bool)
    decreases |calls|
  {
    if calls == [] then (user, false)
    else
      var r := recv(user, calls[0]);
      if Refused((calls[0], r.1)) then (r.0, true) else Hand(recv, r.0, calls[1..])
  }

  lemma {:induction false} HandAppend<U>(recv: RecvCb<U>, user: U, a: seq<RecvData>, b: seq<RecvData>)
    ensures var h := Hand(recv, user, a);
      Hand(recv, user, a + b) == if h.1 then h else Hand(recv, h.0, b)
    decreases |a|
  {
    if a == [] {
      assert a + b == b;
    } else {
      assert (a + b)[1..] == a[1..] + b;
      HandAppend(recv, recv(user, a[0]).0, a[1..], b);
    }
  }

  /** A callback gets the calls that the events call for, up to the first data it refuses. */
  lemma {:induction false} FoldHands<U>(clock: Clock, recv: RecvCb<U>, s: RecvCtx<U>, events: seq<Event>)
    ensures var f := Fold(SendCb(clock, recv), s, events);
      (f.0.user, f.1) == Hand(recv, s.user, LogOf(s.status, events)) &&
      (!f.1 ==> f.0.status == StatusOf(s.status, events))
    decreases |events|
  {
    hide Hand;
    if events == [] {
      NoCalls(recv, s.user);
    } else {
      var e := events[0];
      var r := OnSendEvent(clock, recv, s, e);
      var first, more := LogOf(s.status, [e]), LogOf(r.0.status, events[1..]);
      OneEvent(clock, recv, s, e);
      if !r.1 {
        FoldHands(clock, recv, r.0, events[1..]);
      }
      LogStep(s.status, events);
      HandAppend(recv, s.user, first, more);
    }
  }

  lemma NoCalls<U>(recv: RecvCb<U>, user: U)
    ensures Hand(recv, user, []) == (user, false)
  {
  }

  lemma OneEvent<U>(clock: Clock, recv: RecvCb<U>, s: RecvCtx<U>, e: Event)
    ensures var r := OnSendEvent(clock, recv, s, e);
      (r.0.user, r.1) == Hand(recv, s.user, LogOf(s.status, [e])) &&
      (!r.1 ==> r.0.status == StatusOf(s.status, [e]))
  {
    var r := OnSendEvent(clock, recv, s, e);
    assert [e][1..] == [];
    var done := [RespComplete(s.status)];
    assert done[1..] == [];
    assert Hand(recv, r.0.user, []) == (r.0.user, false);
    assert forall u :: Hand(recv, u, done) == (recv(u, done[0]).0, false);
    match e {
      case BodySize(n) => assert LogOf(s.status, [e])[1..] == if n == 0 then done else [];
      case Body(d, last) => assert LogOf(s.status, [e])[1..] == if last then done else [];
      case _ =>
    }
  }

  lemma Upfront(first: seq<RecvData>, more: seq<RecvData>)
    ensures (first + []) + more == first + more
  {
  }

  lemma LogStep(status: Err, events: seq<Event>)
    requires events != []
    ensures var next := StatusOf(status, [events[0]]);
      LogOf(status, events) == LogOf(status, [events[0]]) + LogOf(next, events[1..]) &&
      StatusOf(status, events) == StatusOf(next, events[1..])
  {
    hide ToErr;
    assert [events[0]][1..] == [];
    var more := LogOf(StatusOf(status, [events[0]]), events[1..]);
    match events[0] {
      case BodySize(n) => Upfront([RespSize(n)] + (if n == 0 then [RespComplete(status)] else []), more);
      case Body(d, last) => Upfront([RespData(d)] + (if last then [RespComplete(status)] else []), more);
      case _ => assert [] + more == more;
    }
  }

  /** What a callback has seen: these calls, all of them unless it has refused some data. */
  ghost predicate Seen(log: seq<(RecvData, Err)>, calls: seq<RecvData>, stopped: bool) {
    |log| <= |calls| && (forall i :: 0 <= i < |log| ==> log[i].0 == calls[i]) &&
    (!stopped ==> |log| == |calls|) && StopsAtRefusal(log, stopped)
  }

  lemma {:induction false} HandLogged<U>(recv: RecvCb<U>, log: seq<(RecvData, Err)>, user: U,
                                         calls: seq<RecvData>)
    returns (news: seq<(RecvData, Err)>)
    ensures Hand(Logged(recv), (log, user), calls) ==
            ((log + news, Hand(recv, user, calls).0), Hand(recv, user, calls).1)
    ensures Seen(news, calls, Hand(recv, user, calls).1)
    decreases |calls|
  {
    if calls == [] {
      news := [];
      assert log + news == log;
    } else {
      var r := recv(user, calls[0]);
      var e := (calls[0], r.1);
      if Refused(e) {
        news := [e];
      } else {
        var more := HandLogged(recv, log + [e], r.0, calls[1..]);
        news := [e] + more;
        Assoc(log, [e], more);
        assert forall i :: 0 < i < |news| ==> news[i] == more[i - 1];
      }
    }
  }

  /** Refused data is the last thing a callback gets, and the only way it stops the parser. */
  ghost predicate StopsAtRefusal(news: seq<(RecvData, Err)>, stopped: bool) {
    (forall i :: 0 <= i < |news| - 1 ==> !Refused(news[i])) &&
    (stopped <==> news != [] && Refused(news[|news| - 1]))
  }

  /** A callback that never refuses data. */
  ghost predicate Willing<U(!new)>(recv: RecvCb<U>) {
    forall u, d :: recv(u, RespData(d)).1 == Ok
  }

  lemma {:induction false} WillingTakes<U(!new)>(recv: RecvCb<U>, user: U, calls: seq<RecvData>)
    requires Willing(recv)
    ensures !Hand(recv, user, calls).1
    decreases |calls|
  {
    if calls != [] {
      WillingTakes(recv, recv(user, calls[0]).0, calls[1..]);
    }
  }

  function Sizes(events: seq<Event>): seq<uint32> {
    if events == [] then []
    else (if events[0].BodySize? then [events[0].size] else []) + Sizes(events[1..])
  }

  function BodyBytes(events: seq<Event>): bytes {
    if events == [] then []
    else (if events[0].Body? then events[0].data else []) + BodyBytes(events[1..])
  }

  function DataBytes(log: seq<RecvData>): bytes {
    if log == [] then []
    else (if log[0].RespData? then log[0].data else []) + DataBytes(log[1..])
  }

  /** Only non-empty data, and then one completion. */
  ghost predicate DataThenComplete(log: seq<RecvData>, status: Err) {
    if |log| <= 1 then log == [RespComplete(status)]
    else log[0].RespData? && log[0].data != [] && DataThenComplete(log[1..], status)
  }

  lemma {:induction false} BodyLog(left: int, inBody: bool, status: Err, events: seq<Event>)
    requires Replay(left, inBody, events).0 && Replay(left, inBody, events).1 == 0
    requires left > 0 && Sizes(events) == []
    ensures DataThenComplete(LogOf(status, events), status)
    ensures DataBytes(LogOf(status, events)) == BodyBytes(events) && |BodyBytes(events)| == left
    ensures StatusOf(status, events) == status
    decreases |events|
  {
    if events[0].Body? {
      var d := events[0].data;
      if |d| == left {
        NothingAfter(status, events[1..]);
        LastData(status, events);
      } else {
        BodyLog(left - |d|, true, status, events[1..]);
        MoreData(status, events);
      }
    } else {
      BodyLog(left, false, status, events[1..]);
    }
  }

  lemma LastData(status: Err, events: seq<Event>)
    requires events != [] && events[0].Body? && events[0].last && events[0].data != []
    requires LogOf(status, events[1..]) == [] && BodyBytes(events[1..]) == []
    ensures DataThenComplete(LogOf(status, events), status)
    ensures DataBytes(LogOf(status, events)) == BodyBytes(events) == events[0].data
  {
    var log := LogOf(status, events);
    assert log == [RespData(events[0].data), RespComplete(status)];
    assert log[1..] == [RespComplete(status)];
    assert log[1..][1..] == [];
    assert DataBytes(log[1..]) == [];
  }

  lemma MoreData(status: Err, events: seq<Event>)
    requires events != [] && events[0].Body? && !events[0].last && events[0].data != []
    requires DataThenComplete(LogOf(status, events[1..]), status)
    requires DataBytes(LogOf(status, events[1..])) == BodyBytes(events[1..])
    ensures DataThenComplete(LogOf(status, events), status)
    ensures DataBytes(LogOf(status, events)) == BodyBytes(events)
    ensures BodyBytes(events) == events[0].data + BodyBytes(events[1..])
  {
    var log := LogOf(status, events);
    assert log == [RespData(events[0].data)] + LogOf(status, events[1..]);
    assert log[1..] == LogOf(status, events[1..]);
    assert log[1..] != [];
  }

  lemma {:induction false} NothingAfter(status: Err, events: seq<Event>)
    requires exists b :: Replay(0, b, events).0
    requires Sizes(events) == []
    ensures LogOf(status, events) == [] && BodyBytes(events) == [] && StatusOf(status, events) == status
    decreases |events|
  {
    if events != [] {
      var b :| Replay(0, b, events).0;
      NothingAfter(status, events[1..]);
    }
  }

  /** With a negative size left there can be no body. */
  lemma {:induction false} NegativeLog(left: int, inBody: bool, status: Err, events: seq<Event>)
    requires Replay(left, inBody, events).0 && left < -1 && Sizes(events) == []
    ensures LogOf(status, events) == [] && Replay(left, inBody, events).1 == left
    ensures StatusOf(status, events) == status
    decreases |events|
  {
    if events != [] {
      NegativeLog(left, false, status, events[1..]);
    }
  }

  /** SIZE(n), the data, one COMPLETE, and nothing else. */
  ghost predicate Protocol(log: seq<RecvData>, n: uint32, status: Err) {
    log != [] && log[0] == RespSize(n) && DataThenComplete(log[1..], status) &&
    |DataBytes(log)| == n
  }

  /** A log in protocol order if the announced size fits in 31 bits, and only the size if not. */
  lemma {:induction false} ProtocolLog(status: Err, events: seq<Event>, n: uint32)
    requires Replay(CONTENT_LENGTH_UNKNOWN, false, events).0
    requires Replay(CONTENT_LENGTH_UNKNOWN, false, events).1 <= 0 && Sizes(events) == [n]
    requires AsInt32(n) != CONTENT_LENGTH_UNKNOWN
    ensures n < TWO_31 ==> Protocol(LogOf(status, events), n, StatusOf(status, events)) &&
                           DataBytes(LogOf(status, events)) == BodyBytes(events)
    ensures n >= TWO_31 ==> LogOf(status, events) == [RespSize(n)]
    decreases |events|
  {
    hide Protocol, AsInt32, ToErr, DataBytes;
    if events[0].BodySize? {
      assert Sizes(events)[0] == events[0].size && Sizes(events)[1..] == Sizes(events[1..]);
      AfterSize(status, events[1..], n);
      assert [BodySize(n)] + events[1..] == events;
    } else if events[0].StatusCode? {
      ProtocolLog(ToErr(events[0].code), events[1..], n);
    } else {
      ProtocolLog(status, events[1..], n);
    }
  }

  lemma AfterSize(status: Err, events: seq<Event>, n: uint32)
    requires Replay(AsInt32(n), false, events).0 && Replay(AsInt32(n), false, events).1 <= 0
    requires AsInt32(n) != CONTENT_LENGTH_UNKNOWN && Sizes(events) == []
    ensures var log := LogOf(status, [BodySize(n)] + events);
      (n < TWO_31 ==> Protocol(log, n, status) && DataBytes(log) == BodyBytes(events)) &&
      (n >= TWO_31 ==> log == [RespSize(n)]) &&
      StatusOf(status, events) == status
  {
    hide Replay, Protocol, LogOf, DataThenComplete, DataBytes;
    SizeLog(status, events, n);
    if n >= TWO_31 {
      NegativeLog(AsInt32(n), false, status, events);
    } else {
      ReplayNotNegative(n, false, events);
      if n == 0 {
        NothingAfter(status, events);
        EmptyProtocol(status);
      } else {
        BodyLog(n, false, status, events);
        SizedProtocol(LogOf(status, events), n, status);
      }
    }
  }

  lemma SizeLog(status: Err, events: seq<Event>, n: uint32)
    ensures LogOf(status, [BodySize(n)] + events) ==
            [RespSize(n)] + (if n == 0 then [RespComplete(status)] else []) + LogOf(status, events)
  {
    assert ([BodySize(n)] + events)[1..] == events;
  }

  lemma EmptyProtocol(status: Err)
    ensures Protocol([RespSize(0)] + [RespComplete(status)] + [], 0, status)
    ensures DataBytes([RespSize(0)] + [RespComplete(status)] + []) == []
  {
    var log: seq<RecvData> := [RespSize(0)] + [RespComplete(status)] + [];
    assert log[1..] == [RespComplete(status)];
    assert log[1..][1..] == [];
    assert DataBytes(log[1..]) == [];
  }

  lemma SizedProtocol(data: seq<RecvData>, n: uint32, status: Err)
    requires DataThenComplete(data, status) && |DataBytes(data)| == n
    ensures Protocol([RespSize(n)] + [] + data, n, status)
    ensures DataBytes([RespSize(n)] + [] + data) == DataBytes(data)
  {
    var log := [RespSize(n)] + [] + data;
    assert log[1..] == data;
  }

  lemma {:induction false} ReplayNotNegative(left: int, inBody: bool, events: seq<Event>)
    requires Replay(left, inBody, events).0 && left >= 0 && Sizes(events) == []
    ensures Replay(left, inBody, events).1 >= 0
    decreases |events|
  {
    if events != [] {
      if events[0].Body? {
        ReplayNotNegative(left - |events[0].data|, true, events[1..]);
      } else {
        ReplayNotNegative(left, false, events[1..]);
      }
    }
  }

  lemma {:induction false} NegativeStays(left: int, inBody: bool, events: seq<Event>)
    requires Replay(left, inBody, events).0 && left < 0 && Sizes(events) == []
    ensures Replay(left, inBody, events).1 == left
    decreases |events|
  {
    if events != [] {
      NegativeStays(left, false, events[1..]);
    }
  }

  /** The one size that reads as "unknown" leaves the countdown there. */
  lemma {:induction false} UnknownStays(events: seq<Event>, n: uint32)
    requires Replay(CONTENT_LENGTH_UNKNOWN, false, events).0 && Sizes(events) == [n]
    requires AsInt32(n) == CONTENT_LENGTH_UNKNOWN
    ensures Replay(CONTENT_LENGTH_UNKNOWN, false, events).1 == CONTENT_LENGTH_UNKNOWN
    decreases |events|
  {
    if events[0].BodySize? {
      assert Sizes(events)[0] == events[0].size && Sizes(events)[1..] == Sizes(events[1..]);
      NegativeStays(CONTENT_LENGTH_UNKNOWN, false, events[1..]);
    } else {
      UnknownStays(events[1..], n);
    }
  }

  lemma {:induction false} BodyBytesSingles(d: bytes, last: bool)
    ensures BodyBytes(Singles(d, last)) == d
    decreases |d|
  {
    if |d| <= 1 {
      assert [Body(d, last)][1..] == [];
    } else {
      BodyBytesSingles(d[1..], last);
      assert Singles(d, last)[1..] == Singles(d[1..], last);
      assert d == d[..1] + d[1..];
    }
  }

  lemma {:induction false} BodyBytesAppend(a: seq<Event>, b: seq<Event>)
    ensures BodyBytes(a + b) == BodyBytes(a) + BodyBytes(b)
    decreases |a|
  {
    if a == [] {
      assert a + b == b;
    } else {
      assert (a + b)[1..] == a[1..] + b;
      BodyBytesAppend(a[1..], b);
      Assoc(if a[0].Body? then a[0].data else [], BodyBytes(a[1..]), BodyBytes(b));
    }
  }

  /** The body is the same however it is cut. */
  lemma {:induction false} BodyBytesAtoms(events: seq<Event>)
    ensures BodyBytes(Atoms(events)) == BodyBytes(events)
    decreases |events|
  {
    if events != [] {
      var head := match events[0] case Body(d, last) => Singles(d, last) case other => [other];
      BodyBytesAtoms(events[1..]);
      BodyBytesAppend(head, Atoms(events[1..]));
      match events[0] {
        case Body(d, last) => BodyBytesSingles(d, last);
        case other => assert head[1..] == [];
      }
    }
  }

  lemma {:induction false} SizesAppend(a: seq<Event>, b: seq<Event>)
    ensures Sizes(a + b) == Sizes(a) + Sizes(b)
    decreases |a|
  {
    if a == [] {
      assert a + b == b;
    } else {
      assert (a + b)[1..] == a[1..] + b;
      SizesAppend(a[1..], b);
      Assoc(if a[0].BodySize? then [a[0].size] else [], Sizes(a[1..]), Sizes(b));
    }
  }

  lemma {:induction false} StatusAppend(status: Err, a: seq<Event>, b: seq<Event>)
    ensures StatusOf(status, a + b) == StatusOf(StatusOf(status, a), b)
    decreases |a|
  {
    if a == [] {
      assert a + b == b;
    } else {
      assert (a + b)[1..] == a[1..] + b;
      StatusAppend(if a[0].StatusCode? then ToErr(a[0].code) else status, a[1..], b);
    }
  }

  lemma {:induction false} StatusSingles(status: Err, d: bytes, last: bool)
    ensures StatusOf(status, Singles(d, last)) == status
    decreases |d|
  {
    if |d| <= 1 {
      assert [Body(d, last)][1..] == [];
    } else {
      StatusSingles(status, d[1..], last);
      assert Singles(d, last)[1..] == Singles(d[1..], last);
    }
  }

  lemma {:induction false} StatusAtoms(status: Err, events: seq<Event>)
    ensures StatusOf(status, Atoms(events)) == StatusOf(status, events)
    decreases |events|
  {
    if events != [] {
      var head := match events[0] case Body(d, last) => Singles(d, last) case other => [other];
      var next := if events[0].StatusCode? then ToErr(events[0].code) else status;
      StatusAtoms(next, events[1..]);
      StatusAppend(status, head, Atoms(events[1..]));
      if events[0].Body? {
        StatusSingles(status, events[0].data, events[0].last);
      } else {
        assert head[1..] == [];
      }
    }
  }

  lemma {:induction false} SizesSingles(d: bytes, last: bool)
    ensures Sizes(Singles(d, last)) == []
    decreases |d|
  {
    if |d| <= 1 {
      assert [Body(d, last)][1..] == [];
    } else {
      SizesSingles(d[1..], last);
      assert Singles(d, last)[1..] == Singles(d[1..], last);
    }
  }

  lemma {:induction false} SizesAtoms(events: seq<Event>)
    ensures Sizes(Atoms(events)) == Sizes(events)
    decreases |events|
  {
    if events != [] {
      var head := match events[0] case Body(d, last) => Singles(d, last) case other => [other];
      SizesAtoms(events[1..]);
      SizesAppend(head, Atoms(events[1..]));
      match events[0] {
        case Body(d, last) => SizesSingles(d, last);
        case other => assert head[1..] == [];
      }
    }
  }

  lemma {:induction false} StatusStays(left: int, inBody: bool, status: Err, events: seq<Event>)
    requires Replay(left, inBody, events).0 && left >= 0 && Sizes(events) == []
    ensures StatusOf(status, events) == status
    decreases |events|
  {
    if events != [] {
      if events[0].Body? {
        StatusStays(left - |events[0].data|, true, status, events[1..]);
      } else {
        StatusStays(left, false, status, events[1..]);
      }
    }
  }

  /** A countdown from the announced size counts the body. */
  lemma {:induction false} ReplayCounts(left: int, inBody: bool, events: seq<Event>)
    requires Replay(left, inBody, events).0 && left >= 0 && Sizes(events) == []
    ensures |BodyBytes(events)| + Replay(left, inBody, events).1 == left
    decreases |events|
  {
    if events != [] {
      if events[0].Body? {
        ReplayCounts(left - |events[0].data|, true, events[1..]);
      } else {
        ReplayCounts(left, false, events[1..]);
      }
    }
  }

  lemma {:induction false} AnnouncedCounts(events: seq<Event>, n: uint32)
    requires Replay(CONTENT_LENGTH_UNKNOWN, false, events).0 && Sizes(events) == [n] && n < TWO_31
    ensures |BodyBytes(events)| + Replay(CONTENT_LENGTH_UNKNOWN, false, events).1 == n
    ensures Replay(CONTENT_LENGTH_UNKNOWN, false, events).1 >= 0
    decreases |events|
  {
    if events[0].BodySize? {
      assert Sizes(events)[0] == events[0].size && Sizes(events)[1..] == Sizes(events[1..]);
      ReplayCounts(n, false, events[1..]);
      ReplayNotNegative(n, false, events[1..]);
    } else {
      AnnouncedCounts(events[1..], n);
    }
  }

  /** What the receive callback gets for these events: it makes of its data what these calls
      make of it, and a log kept beside its data shows them. */
  ghost predicate Gets<U>(clock: Clock, recv: RecvCb<U>, s: RecvCtx<U>, events: seq<Event>,
                          calls: seq<RecvData>) {
    var f := Fold(SendCb(clock, recv), s, events);
    var g := Fold(SendCb(clock, Logged(recv)), RecvCtx(s.status, s.retryAfter, ([], s.user)), events);
    (f.0.user, f.1) == Hand(recv, s.user, calls) && (g.0.user.1, g.1) == (f.0.user, f.1) &&
    Seen(g.0.user.0, calls, f.1)
  }

  lemma CallsGot<U>(clock: Clock, recv: RecvCb<U>, s: RecvCtx<U>, events: seq<Event>)
    ensures Gets(clock, recv, s, events, LogOf(s.status, events))
  {
    hide Fold, LogOf, StatusOf, Hand, Seen;
    FoldHands(clock, recv, s, events);
    FoldHands(clock, Logged(recv), RecvCtx(s.status, s.retryAfter, ([], s.user)), events);
    var news := HandLogged(recv, [], s.user, LogOf(s.status, events));
    assert [] + news == news;
  }

  /** For every callback, every stream that announces its body size once and every way it is
      delivered: a successful session has for the callback SIZE(n), the body in order in
      non-empty fragments, one COMPLETE with the mapped status, and nothing else; it gets all of
      it unless it refuses data. A size of 2^31 or more is the exception: then there is only
      SIZE(n) for it. */
  lemma SessionProtocol<U>(w: nat, arrivals: seq<bytes>, unread: bytes, clock: Clock,
                           recv: RecvCb<U>, s0: RecvCtx<U>, n: uint32)
    returns (calls: seq<RecvData>)
    requires 0 < w && Deliverable(w, INITIAL, [], arrivals)
    requires Clean(INITIAL, Concat(arrivals) + unread)
    requires Feed(w, INITIAL, [], arrivals).end == Done
    requires Sizes(Feed(w, INITIAL, [], arrivals).events) == [n]
    ensures Gets(clock, recv, s0, Feed(w, INITIAL, [], arrivals).events, calls)
    ensures n < TWO_31 ==>
      Protocol(calls, n, StatusOf(s0.status, Windowed(w, INITIAL, Concat(arrivals)).events)) &&
      DataBytes(calls) == BodyBytes(Windowed(w, INITIAL, Concat(arrivals)).events)
    ensures n >= TWO_31 ==> calls == [RespSize(n)]
  {
    hide ParseElement, Run, Clean, Feed, Windowed, Deliverable, Gets;
    var s := Feed(w, INITIAL, [], arrivals);
    var stream := Concat(arrivals) + unread;
    calls := LogOf(s0.status, s.events);
    assert [] + stream == stream;
    ReplayFeed(w, INITIAL, false, [], arrivals, unread);
    FeedIsWindowed(w, INITIAL, [], arrivals, unread);
    assert stream == Concat(arrivals);
    CallsGot(clock, recv, s0, s.events);
    if AsInt32(n) == CONTENT_LENGTH_UNKNOWN {
      UnknownStays(s.events, n);
      assert false;
    }
    ProtocolLog(s0.status, s.events, n);
    BodyBytesAtoms(s.events);
    BodyBytesAtoms(Windowed(w, INITIAL, stream).events);
    StatusAtoms(s0.status, s.events);
    StatusAtoms(s0.status, Windowed(w, INITIAL, stream).events);
    assert Atoms(s.events) + Atoms([]) == Atoms(s.events);
  }

  // ----- a callback that refuses -----

  /** For every callback and all events: it gets the calls they call for, in order, and refused
      data is the last of them. */
  lemma RefusalStops<U>(clock: Clock, recv: RecvCb<U>,
                        s: RecvCtx<(seq<(RecvData, Err)>, U)>, events: seq<Event>)
    returns (news: seq<(RecvData, Err)>)
    ensures var f := Fold(SendCb(clock, Logged(recv)), s, events);
      f.0.user.0 == s.user.0 + news && StopsAtRefusal(news, f.1) &&
      Seen(news, LogOf(s.status, events), f.1)
  {
    hide Fold, LogOf, StatusOf, Hand, StopsAtRefusal;
    FoldHands(clock, Logged(recv), s, events);
    news := HandLogged(recv, s.user.0, s.user.1, LogOf(s.status, events));
  }
}
