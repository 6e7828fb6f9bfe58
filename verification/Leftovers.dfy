// What a session with the token scanner leaves in the client, also when it fails.

module Leftovers {
  import opened AuthScanner
  import opened Authentication
  import opened BodyTheory
  import opened Bytes
  import opened Errors
  import opened EventProtocol
  import opened Fragmentation
  import opened HttpEvents
  import opened HttpGrammar
  import opened Receiver

  // ----- one status, and in front of the header fields -----

  ghost predicate NoStatus(events: seq<Event>) {
    forall e :: e in events ==> !e.StatusCode?
  }

  /** No status code behind a header field. */
  ghost predicate StatusLeads(events: seq<Event>) {
    forall i, j :: 0 <= i < j < |events| && events[i].Header? ==> !events[j].StatusCode?
  }

  /** In this state the status line is behind the parser. */
  ghost predicate PastStatus(p: ParserState) {
    p.evtState != AtVersion && p.evtState != AtStatusCode
  }

  ghost predicate OneStatus(p: ParserState, events: seq<Event>, q: ParserState) {
    StatusLeads(events) && (PastStatus(p) ==> NoStatus(events) && PastStatus(q)) &&
    (!PastStatus(q) ==> forall e :: e in events ==> !e.Header?)
  }

  lemma OneStatusElement(p: ParserState, data: bytes)
    requires data != []
    ensures OneStatus(p, ParseElement(p, data).events, ParseElement(p, data).next)
  {
  }

  lemma OneStatusAppend(p: ParserState, a: seq<Event>, q: ParserState, b: seq<Event>, r: ParserState)
    requires OneStatus(p, a, q) && OneStatus(q, b, r)
    ensures OneStatus(p, a + b, r)
  {
    var c := a + b;
    forall i, j | 0 <= i < j < |c| && c[i].Header? ensures !c[j].StatusCode? {
      if i < |a| <= j {
        assert c[i] in a && c[j] in b;
      }
    }
  }

  lemma {:induction false} OneStatusRun(p: ParserState, data: bytes)
    ensures OneStatus(p, Run(p, data).events, Run(p, data).last)
    decreases |data|
  {
    hide ParseElement, OneStatus;
    if data == [] {
      OneStatusNone(p);
    } else {
      var e := ParseElement(p, data);
      OneStatusElement(p, data);
      if e.verdict == Fail {
        OneStatusNone(p);
      } else if e.verdict == Pass && e.size > 0 {
        OneStatusRun(e.next, data[e.size..]);
        OneStatusAppend(p, e.events, e.next, Run(e.next, data[e.size..]).events, Run(p, data).last);
      }
    }
  }

  lemma OneStatusNone(p: ParserState)
    ensures OneStatus(p, [], p)
  {
  }

  lemma {:induction false} OneStatusFeed(w: nat, p: ParserState, window: bytes, arrivals: seq<bytes>)
    ensures OneStatus(p, Feed(w, p, window, arrivals).events, Feed(w, p, window, arrivals).p)
    decreases |arrivals|
  {
    hide ParseElement, Run, OneStatus;
    if arrivals == [] {
      OneStatusNone(p);
    } else {
      var d := window + arrivals[0];
      var t := Run(p, d);
      OneStatusRun(p, d);
      if t.end == Starved && !(|d| >= w && t.used == 0) {
        OneStatusFeed(w, t.last, d[t.used..], arrivals[1..]);
        var s := Feed(w, t.last, d[t.used..], arrivals[1..]);
        OneStatusAppend(p, t.events, t.last, s.events, s.p);
      }
    }
  }

  // ----- what was told to the scanner -----

  /** The body bytes of a success response that were delivered. */
  function Told(events: seq<Event>): bytes {
    if StatusOf(Error, events) == Ok then BodyBytes(events) else []
  }

  /** The body is scanned as one text, until the scan stops. */
  lemma {:induction false} FoldBody(clock: Clock, s: Auth, left: int, events: seq<Event>)
    requires Replay(left, true, events).0
    ensures Fold(AuthCb(clock), s, events) == if s.status == Ok then Scan(clock, s, BodyBytes(events)) else (s, false)
    decreases |events|
  {
    hide ScanByte;
    if events != [] {
      var d, more := events[0].data, events[1..];
      ScanAppend(clock, s, d, BodyBytes(more));
      ScanKeepsStatus(clock, s, d);
      FoldBody(clock, OnEvent(clock, s, events[0]).0, left - |d|, more);
    } else {
      ScanNothing(clock, s);
    }
  }

  lemma {:induction false} StatusKept(status: Err, events: seq<Event>)
    requires NoStatus(events)
    ensures StatusOf(status, events) == status
    decreases |events|
  {
    if events != [] {
      assert events[0] in events && forall e :: e in events[1..] ==> e in events;
      StatusKept(status, events[1..]);
    }
  }

  /** A fold over the events of a response is the scan of the body bytes in them, if its status
      maps to OK; if not, token and expiry are left alone. */
  lemma {:induction false} FoldTold(clock: Clock, s: Auth, left: int, events: seq<Event>)
    requires Replay(left, false, events).0 && StatusLeads(events)
    ensures var b := Fold(AuthCb(clock), s, events).0;
      if StatusOf(s.status, events) == Ok then
        b == Scan(clock, s.(status := Ok), BodyBytes(events)).0
      else b.token == s.token && b.expiry == s.expiry
    decreases |events|
  {
    hide ScanByte, AsInt32;
    if events == [] {
      ScanNothing(clock, s.(status := Ok));
    } else {
      var e, more := events[0], events[1..];
      var r := OnEvent(clock, s, e);
      LeadsOn(events);
      assert !e.Body? ==> BodyBytes(events) == BodyBytes(more);
      assert forall x :: s.(status := x).(status := Ok) == s.(status := Ok);
      match e {
        case Body(d, last) =>
          FoldBody(clock, s, left, events);
          StatusInBody(left, s.status, events);
        case BodySize(n) => FoldTold(clock, r.0, AsInt32(n), more);
        case StatusCode(_) => FoldTold(clock, r.0, left, more);
        case Header(_, _) =>
          StatusKept(s.status, more);
          if !r.1 {
            FoldTold(clock, r.0, left, more);
          }
        case _ =>
          assert r == (s, false);
          FoldTold(clock, s, left, more);
      }
    }
  }

  lemma LeadsOn(events: seq<Event>)
    requires StatusLeads(events) && events != []
    ensures StatusLeads(events[1..])
    ensures events[0].Header? ==> NoStatus(events[1..])
  {
    if events[0].Header? {
      forall e | e in events[1..] ensures !e.StatusCode? {
        var j :| 0 <= j < |events[1..]| && events[1..][j] == e;
        assert events[j + 1] == e;
      }
    }
  }

  lemma {:induction false} StatusInBody(left: int, status: Err, events: seq<Event>)
    requires events != [] && events[0].Body? && exists b :: Replay(left, b, events).0
    ensures Replay(left, true, events).0
    ensures StatusOf(status, events) == status
    decreases |events|
  {
    var b :| Replay(left, b, events).0;
    if events[1..] != [] {
      BodyFollows(left - |events[0].data|, events[1..]);
      StatusInBody(left - |events[0].data|, status, events[1..]);
    }
  }

  lemma BodyFollows(left: int, events: seq<Event>)
    requires events != [] && Replay(left, true, events).0
    ensures events[0].Body?
  {
  }

  /** For every stream and every delivery, whether the session ends well or fails: a client that
      had no token reads one afterwards if and only if the bytes told to the scanner put one. */
  lemma LeftExactly(clock: Clock, a: Auth, w: nat, arrivals: seq<bytes>, unread: bytes)
    requires 0 < w && Fresh(a) && a.token[0] == NUL
    requires Deliverable(w, INITIAL, [], arrivals) && Clean(INITIAL, Concat(arrivals) + unread)
    ensures var events := Feed(w, INITIAL, [], arrivals).events;
      var b := Fold(AuthCb(clock), a, events).0;
      |b.token| == ACCESS_TOKEN_SIZE && (b.token[0] != NUL <==> Puts(Told(events))) &&
      (b.status == TimeMismatch ==> b.token == a.token && b.expiry == a.expiry)
  {
    hide Feed, Deliverable, Clean, Scan, Fold, StatusLeads, Puts, BodyBytes, StatusOf;
    var stream := Concat(arrivals) + unread;
    assert [] + stream == stream;
    ReplayFeed(w, INITIAL, false, [], arrivals, unread);
    OneStatusFeed(w, INITIAL, [], arrivals);
    var events := Feed(w, INITIAL, [], arrivals).events;
    FoldTold(clock, a, CONTENT_LENGTH_UNKNOWN, events);
    FreshStarts(a);
    ReadsExactly(clock, a.(status := Ok), Told(events));
    ScanStatus(clock, a.(status := Ok), Told(events));
    if StatusOf(Error, events) != Ok {
      PutsNothing(clock, a.(status := Ok));
    }
  }

  lemma PutsNothing(clock: Clock, a: Auth)
    requires AtStart(a) && a.token[0] == NUL
    ensures !Puts([])
  {
    ReadsExactly(clock, a, []);
    ScanNothing(clock, a);
  }
}
