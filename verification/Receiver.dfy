// recv_resp of src/here_tracking_http.c: the parser behind one fixed window.

module Receiver {
  import opened Bytes
  import opened Errors
  import opened Fragmentation
  import opened HttpEvents
  import opened HttpGrammar
  import opened HttpParsers
  import opened TlsPipe

  const TLS_BUFFER_SIZE: nat := 256

  // ----- what the window loop does with given reads -----

  /** How a session ends: Starved when the reads are used up and the parser wants more. */
  datatype Session = Session(events: seq<Event>, end: End, p: ParserState, window: bytes)

  /** Each read is appended to the unparsed bytes in the window, which is parsed again. When
      the window is full and nothing could be consumed the session has failed. */
  function Feed(w: nat, p: ParserState, window: bytes, arrivals: seq<bytes>): Session
    decreases |arrivals|
  {
    if arrivals == [] then Session([], Starved, p, window)
    else
      var d := window + arrivals[0];
      var t := Run(p, d);
      if t.end != Starved then Session(t.events, t.end, t.last, d[t.used..])
      else if |d| >= w && t.used == 0 then Session(t.events, Broken, t.last, d)
      else
        var s := Feed(w, t.last, d[t.used..], arrivals[1..]);
        s.(events := t.events + s.events)
  }

  /** The reads ask for at least one byte and stay inside the window. */
  ghost predicate Deliverable(w: nat, p: ParserState, window: bytes, arrivals: seq<bytes>)
    decreases |arrivals|
  {
    |window| < w &&
    (arrivals == [] ||
     (arrivals[0] != [] && |window| + |arrivals[0]| <= w &&
      var d := window + arrivals[0];
      var t := Run(p, d);
      if t.end == Starved && !(|d| >= w && t.used == 0) then
        Deliverable(w, t.last, d[t.used..], arrivals[1..])
      else arrivals[1..] == []))
  }

  // ----- what the window loop makes of a whole stream -----

  datatype Outcome = Outcome(events: seq<Event>, end: End)

  function Front(w: nat, data: bytes): (d: bytes)
    ensures d <= data && |d| <= w && (|d| < w ==> d == data)
  {
    if |data| <= w then data else data[..w]
  }

  /** What the parser is shown of the rest of a stream: body bytes as they come, anything else
      only as far as the window reaches. */
  function Shown(w: nat, p: ParserState, data: bytes): bytes {
    if p.evtState == AtBody then data else Front(w, data)
  }

  /** The session on a stream that is closed after its last byte. */
  function Windowed(w: nat, p: ParserState, data: bytes): Outcome
    requires w > 0
    decreases |data|
  {
    if data == [] then Outcome([], if Complete(p) then Done else Broken)
    else
      var e := ParseElement(p, Shown(w, p, data));
      match e.verdict
      case Fail => Outcome([], Broken)
      case More => Outcome(e.events, Broken)
      case Pass =>
        if e.size == 0 then Outcome(e.events, Stuck)
        else
          var o := Windowed(w, e.next, data[e.size..]);
          o.(events := e.events + o.events)
  }

  ghost predicate Agrees(whole: Outcome, events: seq<Event>, rest: Outcome) {
    whole.end == rest.end && Atoms(whole.events) == Atoms(events) + Atoms(rest.events)
  }

  /** The parser, left with this window, needs more bytes to make any progress. */
  ghost predicate Undecided(p: ParserState, window: bytes) {
    if window == [] then !Complete(p)
    else p.evtState != AtBody && ParseElement(p, window).verdict == More
  }

  lemma {:induction false} StarvedUndecided(p: ParserState, d: bytes)
    requires Clean(p, d) && Run(p, d).end == Starved
    ensures Undecided(Run(p, d).last, d[Run(p, d).used..])
    decreases |d|
  {
    hide ParseElement;
    if d != [] {
      var e := ParseElement(p, d);
      if e.verdict == Pass {
        StarvedUndecided(e.next, d[e.size..]);
        var used := Run(e.next, d[e.size..]).used;
        assert d[e.size..][used..] == d[e.size + used..];
      } else if p.evtState == AtBody {
        StarvedBody(p, d);
      } else {
        assert d[0..] == d;
      }
    }
  }

  lemma StarvedBody(p: ParserState, d: bytes)
    requires d != [] && p.evtState == AtBody && ParseElement(p, d).verdict == More && !Complete(p)
    ensures var e := ParseElement(p, d);
      e.size == |d| && !Complete(e.next)
  {
  }

  /** A call that consumes nothing and wants more is in front of a partial element. */
  lemma StarvedAtOnce(p: ParserState, d: bytes)
    requires d != [] && Run(p, d).end == Starved && Run(p, d).used == 0
    ensures p.evtState != AtBody && ParseElement(p, d) == NeedMore(p)
    ensures Run(p, d) == Trace([], Starved, 0, p)
  {
  }

  /** One window full of a stream, and what the window loop makes of the rest. */
  lemma {:induction false} WindowStep(w: nat, p: ParserState, d: bytes, rest: bytes)
    requires |d| <= w && 0 < w && Clean(p, d + rest)
    ensures var t := Run(p, d);
      var whole := Windowed(w, p, d + rest);
      t.end != Stuck &&
      (t.end == Starved ==> Agrees(whole, t.events, Windowed(w, t.last, d[t.used..] + rest)) &&
                            Clean(t.last, d[t.used..] + rest)) &&
      (t.end == Done ==> rest == [] && whole == Outcome(t.events, Done)) &&
      (t.end == Broken ==> whole == Outcome(t.events, Broken))
    decreases |d|
  {
    hide ParseElement;
    var t := Run(p, d);
    var c := d + rest;
    if d == [] {
      assert c == rest;
    } else if ParseElement(p, d).verdict == More {
      if p.evtState == AtBody {
        BodyStep(w, p, d, rest);
      } else {
        assert d[t.used..] == d;
      }
    } else {
      var e := ParseElement(p, d);
      assert Shown(w, p, c) == d + Shown(w, p, c)[|d|..];
      ElementStable(p, d, Shown(w, p, c)[|d|..]);
      ElementStable(p, d, rest);
      if e.verdict == Pass {
        OnlyCompleteSticks(p, d);
        var more := d[e.size..];
        assert c[e.size..] == more + rest;
        WindowStep(w, e.next, more, rest);
        var u := Run(e.next, more);
        assert d[t.used..] == more[u.used..];
        if u.end == Starved {
          AgreesAfter(e.events, Windowed(w, e.next, more + rest), u.events,
                      Windowed(w, u.last, more[u.used..] + rest));
        }
      }
    }
  }

  lemma AgreesAfter(events: seq<Event>, whole: Outcome, first: seq<Event>, rest: Outcome)
    requires Agrees(whole, first, rest)
    ensures Agrees(whole.(events := events + whole.events), events + first, rest)
  {
    AtomsAppend(events, whole.events);
    AtomsAppend(events, first);
    Assoc(Atoms(events), Atoms(first), Atoms(rest.events));
  }

  lemma BodyStep(w: nat, p: ParserState, d: bytes, rest: bytes)
    requires 0 < w && d != [] && Clean(p, d + rest)
    requires p.evtState == AtBody && ParseElement(p, d).verdict == More
    ensures var e := ParseElement(p, d);
      e.size == |d| && d[e.size..] + rest == rest && Clean(e.next, rest) &&
      Agrees(Windowed(w, p, d + rest), e.events, Windowed(w, e.next, rest))
  {
    var e := ParseElement(p, d);
    if rest == [] {
      assert d + rest == d;
      assert Atoms(e.events) + Atoms([]) == Atoms(e.events);
    } else {
      hide ParseElement;
      BodySplits(p, d, rest);
      CleanBodySplits(p, d, rest);
      var e1, e2 := ParseElement(p, d + rest), ParseElement(e.next, rest);
      if e2.verdict == Pass {
        assert (d + rest)[e1.size..] == rest[e2.size..];
        var more := Windowed(w, e2.next, rest[e2.size..]);
        AtomsAppend(e1.events, more.events);
        AtomsAppend(e2.events, more.events);
        Assoc(Atoms(e.events), Atoms(e2.events), Atoms(more.events));
      }
    }
  }

  // ----- any delivery of a stream -----

  /** Whatever the sizes of the reads: while the session wants more it has reported what the
      whole stream reports, less what the window and the unread bytes still hold; when it ends
      it has reported exactly that, with the same result. */
  lemma {:induction false} FeedIsWindowed(w: nat, p: ParserState, window: bytes,
                                          arrivals: seq<bytes>, unread: bytes)
    requires 0 < w && Deliverable(w, p, window, arrivals)
    requires Clean(p, window + (Concat(arrivals) + unread))
    ensures var s := Feed(w, p, window, arrivals);
      var whole := Windowed(w, p, window + (Concat(arrivals) + unread));
      s.end != Stuck &&
      (s.end == Starved ==> Agrees(whole, s.events, Windowed(w, s.p, s.window + unread)) &&
                            Clean(s.p, s.window + unread) &&
                            (arrivals != [] || Undecided(p, window) ==> Undecided(s.p, s.window))) &&
      (s.end != Starved ==> Agrees(whole, s.events, Outcome([], s.end))) &&
      (s.end == Done ==> unread == [])
    decreases |arrivals|
  {
    hide ParseElement;
    if arrivals == [] {
      assert Concat(arrivals) + unread == unread;
    } else {
      var d, more := window + arrivals[0], Concat(arrivals[1..]) + unread;
      Assoc(arrivals[0], Concat(arrivals[1..]), unread);
      Assoc(window, arrivals[0], more);
      var t := Run(p, d);
      WindowStep(w, p, d, more);
      if t.end == Starved {
        CleanPrefix(p, d, more);
        StarvedUndecided(p, d);
        if |d| >= w && t.used == 0 {
          StarvedAtOnce(p, d);
          assert Shown(w, p, d + more) == d;
          assert d[t.used..] == d;
        } else {
          FeedIsWindowed(w, t.last, d[t.used..], arrivals[1..], unread);
          var s := Feed(w, t.last, d[t.used..], arrivals[1..]);
          var rest := if s.end == Starved then Windowed(w, s.p, s.window + unread)
                      else Outcome([], s.end);
          AtomsAppend(t.events, s.events);
          Assoc(Atoms(t.events), Atoms(s.events), Atoms(rest.events));
        }
      } else {
        assert Atoms(t.events) + Atoms([]) == Atoms(t.events);
      }
    }
  }

  /** A read that succeeds without a byte leaves the loop where it was: it asks again. */
  lemma EmptyReadRepeats(p: ParserState, window: bytes)
    requires Undecided(p, window) && window != []
    ensures Run(p, window + []) == Trace([], Starved, 0, p)
  {
    hide ParseElement;
    assert window + [] == window;
    assert ParseElement(p, window) == NeedMore(p);
  }

  /** A starved session on an exhausted stream is a failed one. */
  lemma UndecidedFails(w: nat, p: ParserState, window: bytes)
    requires 0 < w && |window| <= w && Undecided(p, window)
    ensures Windowed(w, p, window) == Outcome([], Broken)
  {
    hide ParseElement;
    if window != [] {
      assert ParseElement(p, window) == NeedMore(p);
    }
  }

  // ----- the window against the parser -----

  /** Every element in front of the body fits into the window. */
  ghost predicate AllFit(w: nat, p: ParserState, data: bytes)
    decreases |data|
  {
    data == [] ||
    (var e := ParseElement(p, data);
     (e.verdict == Pass && p.evtState != AtBody ==> e.size <= w) &&
     (e.verdict == Pass && e.size > 0 ==> AllFit(w, e.next, data[e.size..])))
  }

  /** The result of one call on the whole stream, when the stream is then closed. */
  function Closed(t: Trace): Outcome {
    Outcome(t.events, if t.end == Starved then Broken else t.end)
  }

  /** The window makes no difference if everything fits, and the session fails otherwise. */
  lemma {:induction false} WindowedExact(w: nat, p: ParserState, data: bytes)
    requires 0 < w
    ensures AllFit(w, p, data) ==> Windowed(w, p, data) == Closed(Run(p, data))
    ensures !AllFit(w, p, data) ==> Windowed(w, p, data).end == Broken
    decreases |data|
  {
    hide ParseElement;
    if data != [] {
      var e := ParseElement(p, data);
      var shown := Shown(w, p, data);
      assert data == shown + data[|shown|..];
      if ParseElement(p, shown).verdict != More {
        ElementStable(p, shown, data[|shown|..]);
      }
      if e.verdict == Pass {
        if e.size <= |shown| {
          ElementTight(p, shown, data[|shown|..]);
          if e.size > 0 {
            WindowedExact(w, e.next, data[e.size..]);
          }
        }
      }
    }
  }

  // ----- the receive loop -----

  /** What a callback makes of a session: its final data, and the code recv_resp returns. */
  function Result<S>(cb: Callback<S>, s0: S, o: Outcome): (Err, S) {
    var f := Fold(cb, s0, o.events);
    (if f.1 then ClientInterrupt else if o.end == Done then Ok else Error, f.0)
  }

  function Ended(s: Session): Outcome {
    Outcome(s.events, s.end)
  }

  lemma {:induction false} FeedSnoc(w: nat, p: ParserState, window: bytes, arrivals: seq<bytes>,
                                    r: bytes)
    requires Feed(w, p, window, arrivals).end == Starved
    ensures var s := Feed(w, p, window, arrivals);
      var u := Feed(w, s.p, s.window, [r]);
      Feed(w, p, window, arrivals + [r]) == u.(events := s.events + u.events)
    ensures var s := Feed(w, p, window, arrivals);
      Deliverable(w, p, window, arrivals) && Deliverable(w, s.p, s.window, [r]) ==>
        Deliverable(w, p, window, arrivals + [r])
    decreases |arrivals|
  {
    hide ParseElement, Run;
    if arrivals == [] {
      assert arrivals + [r] == [r];
    } else {
      var d := window + arrivals[0];
      var t := Run(p, d);
      assert (arrivals + [r])[1..] == arrivals[1..] + [r];
      FeedSnoc(w, t.last, d[t.used..], arrivals[1..], r);
      var s := Feed(w, t.last, d[t.used..], arrivals[1..]);
      Assoc(t.events, s.events, Feed(w, s.p, s.window, [r]).events);
    }
  }

  lemma {:induction false} StarvedWindow(w: nat, p: ParserState, window: bytes,
                                         arrivals: seq<bytes>)
    requires Deliverable(w, p, window, arrivals)
    ensures Feed(w, p, window, arrivals).end == Starved ==>
              |Feed(w, p, window, arrivals).window| < w
    decreases |arrivals|
  {
    hide ParseElement, Run;
    if arrivals != [] {
      var d := window + arrivals[0];
      var t := Run(p, d);
      if t.end == Starved && !(|d| >= w && t.used == 0) {
        StarvedWindow(w, t.last, d[t.used..], arrivals[1..]);
      }
    }
  }

  /** One read: the session behind it. */
  lemma FeedOnce(w: nat, arrivals: seq<bytes>, r: bytes)
    requires 0 < w && Deliverable(w, INITIAL, [], arrivals)
    requires Feed(w, INITIAL, [], arrivals).end == Starved
    requires var s := Feed(w, INITIAL, [], arrivals); r != [] && |s.window| + |r| <= w
    ensures var s := Feed(w, INITIAL, [], arrivals);
      var d := s.window + r;
      var t := Run(s.p, d);
      var full := |d| >= w && t.used == 0;
      Feed(w, INITIAL, [], arrivals + [r]) ==
        Session(s.events + t.events, if t.end == Starved && full then Broken else t.end, t.last,
                if t.end == Starved && full then d else d[t.used..])
    ensures Deliverable(w, INITIAL, [], arrivals + [r])
    ensures Concat(arrivals + [r]) == Concat(arrivals) + r
  {
    hide ParseElement, Run, Feed, Deliverable;
    var s := Feed(w, INITIAL, [], arrivals);
    StarvedWindow(w, INITIAL, [], arrivals);
    FeedSingle(w, s.p, s.window, r);
    FeedSnoc(w, INITIAL, [], arrivals, r);
    ConcatAppend(arrivals, [r]);
    ConcatSingle(r);
  }

  lemma ConcatSingle(r: bytes)
    ensures Concat([r]) == r
  {
    var one: seq<bytes> := [r];
    assert one[1..] == [];
    assert r + [] == r;
  }

  lemma FeedSingle(w: nat, p: ParserState, window: bytes, r: bytes)
    requires |window| < w && r != [] && |window| + |r| <= w
    ensures var d := window + r;
      var t := Run(p, d);
      var full := |d| >= w && t.used == 0;
      Feed(w, p, window, [r]) ==
        Session(t.events, if t.end == Starved && full then Broken else t.end, t.last,
                if t.end == Starved && full then d else d[t.used..])
    ensures Deliverable(w, p, window, [r])
  {
    hide ParseElement, Run;
    var one: seq<bytes> := [r];
    assert one[1..] == [];
    var d := window + r;
    var t := Run(p, d);
    assert t.events + [] == t.events;
  }

  /** Every delivery of a stream to a callback that cannot see the cuts has the one result
      that the stream determines. */
  lemma SessionResult<S(!new)>(w: nat, cb: Callback<S>, s0: S, arrivals: seq<bytes>, unread: bytes)
    requires 0 < w && Splittable(cb) && Deliverable(w, INITIAL, [], arrivals)
    requires Clean(INITIAL, Concat(arrivals) + unread)
    requires var s := Feed(w, INITIAL, [], arrivals);
      Fold(cb, s0, s.events).1 || s.end != Starved || unread == []
    ensures Result(cb, s0, Ended(Feed(w, INITIAL, [], arrivals))) ==
            Result(cb, s0, Windowed(w, INITIAL, Concat(arrivals) + unread))
  {
    hide ParseElement, Run;
    var s := Feed(w, INITIAL, [], arrivals);
    var stream := Concat(arrivals) + unread;
    var whole := Windowed(w, INITIAL, stream);
    assert [] + stream == stream;
    FeedIsWindowed(w, INITIAL, [], arrivals, unread);
    StarvedWindow(w, INITIAL, [], arrivals);
    var rest := if s.end == Starved then Windowed(w, s.p, s.window + unread) else Outcome([], s.end);
    AtomsAppend(s.events, rest.events);
    FoldSameAtoms(cb, s0, whole.events, s.events + rest.events);
    FoldAppend(cb, s0, s.events, rest.events);
    if s.end == Starved && unread == [] {
      assert s.window + unread == s.window;
      UndecidedFails(w, s.p, s.window);
    }
  }

  /** What the receive loop returns for a session: a stuck parser comes back when the callback
      has interrupted it at one of the empty fragments it goes on reporting. */
  ghost predicate Returned<S>(cb: Callback<S>, s0: S, o: Outcome, err: Err, s: S) {
    if o.end == Stuck then
      err == ClientInterrupt && exists n :: Fold(cb, s0, o.events + Repeated(n)) == (s, true)
    else
      (err, s) == Result(cb, s0, o)
  }

  /** The loop comes back: on this connection no call of parse meets a body that is complete with
      bytes left behind it, unless the callback interrupts there. */
  ghost predicate ComesBack<S>(w: nat, cb: Callback<S>, s: S, p: ParserState, window: bytes,
                               behaviour: Behaviour, calls: nat, stream: bytes)
    decreases |stream|
  {
    |window| >= w || stream == [] || behaviour.fails(calls + 1) ||
    (var room := w - |window|;
     var n := behaviour.Amount(calls + 1, if room <= |stream| then room else |stream|);
     var t := Run(p, window + stream[..n]);
     Returns(cb, s, t) &&
     (t.end == Starved && !Fold(cb, s, t.events).1 ==>
        ComesBack(w, cb, Fold(cb, s, t.events).0, t.last, (window + stream[..n])[t.used..],
                  behaviour, calls + 1, stream[n..])))
  }

  /** It does so on every connection and with every callback if no bytes are left over. */
  lemma {:induction false} CleanComesBack<S>(w: nat, cb: Callback<S>, s: S, p: ParserState, window: bytes,
                                             behaviour: Behaviour, calls: nat, stream: bytes)
    requires Clean(p, window + stream)
    ensures ComesBack(w, cb, s, p, window, behaviour, calls, stream)
    decreases |stream|
  {
    hide ParseElement, Run, Fold;
    if |window| < w && stream != [] && !behaviour.fails(calls + 1) {
      var room := w - |window|;
      var n := behaviour.Amount(calls + 1, if room <= |stream| then room else |stream|);
      var d, rest := window + stream[..n], stream[n..];
      assert stream == stream[..n] + rest;
      Assoc(window, stream[..n], rest);
      var t := Run(p, d);
      CleanPrefix(p, d, rest);
      CleanReturns(p, d);
      if t.end == Starved && !Fold(cb, s, t.events).1 && rest != [] {
        CleanSplits(p, d, rest);
        CleanComesBack(w, cb, Fold(cb, s, t.events).0, t.last, d[t.used..], behaviour, calls + 1, rest);
      }
    }
  }

  /** Where the receive loop stands after a call of parse that returned err: the callback data
      and parser state are those of the session so far, and so are the bytes left in the
      window. */
  ghost predicate Progress<S>(w: nat, cb: Callback<S>, s0: S, arrivals: seq<bytes>, err: Err, s: S,
                              p: ParserState, window: bytes, full: bool) {
    var feed := Feed(w, INITIAL, [], arrivals);
    if feed.end == Stuck then Returned(cb, s0, Ended(feed), err, s)
    else
      Fold(cb, s0, feed.events) == (s, err == ClientInterrupt) &&
      (err != ClientInterrupt ==> feed.p == p) &&
      (err == NeedMoreData ==> feed.end == (if full then Broken else Starved) && feed.window == window) &&
      (err == Ok ==> feed.end == Done) &&
      (err == Error ==> feed.end == Broken) &&
      err in {NeedMoreData, Ok, Error, ClientInterrupt}
  }

  /** What Parse promises for the window's contents d. */
  ghost predicate Parsed<S>(cb: Callback<S>, s: S, p: ParserState, d: bytes, err: Err, s': S,
                            q: ParserState, size: nat) {
    var t := Run(p, d);
    var f := Fold(cb, s, t.events);
    if t.end == Stuck then
      err == ClientInterrupt && Returns(cb, s, t) &&
      forall n :: Fold(cb, s, t.events + Repeated(n)).1 ==> s' == Fold(cb, s, t.events + Repeated(n)).0
    else
      s' == f.0 &&
      if f.1 then err == ClientInterrupt else err == EndErr(t.end) && size == t.used && q == t.last
  }

  lemma ReadStep<S>(w: nat, cb: Callback<S>, s0: S, arrivals: seq<bytes>, s: S, p: ParserState,
                    window: bytes, r: bytes, err: Err, s': S, q: ParserState, size: nat)
    requires 0 < w && Deliverable(w, INITIAL, [], arrivals)
    requires Progress(w, cb, s0, arrivals, NeedMoreData, s, p, window, false)
    requires r != [] && |window| + |r| <= w && size <= |window + r|
    requires Parsed(cb, s, p, window + r, err, s', q, size)
    ensures Deliverable(w, INITIAL, [], arrivals + [r])
    ensures Concat(arrivals + [r]) == Concat(arrivals) + r
    ensures Progress(w, cb, s0, arrivals + [r], err, s', q, (window + r)[size..],
                     |window + r| >= w && size == 0)
  {
    hide ParseElement, Run, Deliverable, Feed, Fold, Repeated;
    var feed, t := Feed(w, INITIAL, [], arrivals), Run(p, window + r);
    FeedOnce(w, arrivals, r);
    FoldAppend(cb, s0, feed.events, t.events);
    if t.end == Stuck {
      var n: nat :| n >= 0 && Fold(cb, s, t.events + Repeated(n)).1;
      FoldAppend(cb, s0, feed.events, t.events + Repeated(n));
      Assoc(feed.events, t.events, Repeated(n));
    }
    assert size == 0 ==> (window + r)[size..] == window + r;
  }

  /** What a read transfers, and whether it fails, is up to the connection. */
  ghost predicate Transferred(behaviour: Behaviour, before: nat, after: nat, stream: bytes, room: nat,
                              err: Err, r: bytes) {
    after == before + 1 && (err == Ok <==> !behaviour.fails(after) && stream != []) &&
    (err == Ok ==> 0 < room && r <= stream) &&
    (err == Ok ==> |r| == behaviour.Amount(after, if room <= |stream| then room else |stream|))
  }

  /** The memmove of the unparsed bytes to the beginning of the buffer, and the read into the
      free space behind them. */
  method Refill(tls: Tls, buf: array<byte>, from: nat, to: nat)
    returns (err: Err, size: nat, ghost r: bytes)
    requires from <= to <= buf.Length && to - from < buf.Length
    modifies tls`calls, tls`incoming, buf
    ensures size <= buf.Length
    ensures err == Ok || (err == Error && tls.incoming == old(tls.incoming))
    ensures err == Ok ==> r != [] && buf[..size] == old(buf[from..to]) + r
    ensures err == Ok ==> old(tls.incoming) == r + tls.incoming
    ensures tls.behaviour.Reliable() && err != Ok ==> tls.incoming == []
    ensures Transferred(tls.behaviour, old(tls.calls), tls.calls, old(tls.incoming),
                        buf.Length - (to - from), err, r)
  {
    hide *;
    ghost var window, stream, before := buf[from..to], tls.incoming, tls.calls;
    forall i | 0 <= i < to - from {
      buf[i] := buf[from + i];
    }
    var pos := to - from;
    assert buf[..pos] == window;
    size := buf.Length - pos;
    err, size := tls.Read(buf, pos, size);
    r := stream[..size];
    Moves(tls.behaviour, before, tls.calls, stream, buf.Length - pos, err, r);
    size := pos + size;
  }

  lemma Moves(behaviour: Behaviour, before: nat, after: nat, stream: bytes, room: nat, err: Err, r: bytes)
    requires after == before + 1 && (err == Ok <==> !behaviour.fails(after) && stream != [])
    requires 0 < room && r <= stream
    requires err == Ok ==> |r| == behaviour.Amount(after, if room <= |stream| then room else |stream|)
    ensures Transferred(behaviour, before, after, stream, room, err, r)
  {
  }

  lemma NextRead<S>(w: nat, cb: Callback<S>, s: S, p: ParserState, window: bytes, behaviour: Behaviour,
                    before: nat, after: nat, stream: bytes, r: bytes, rest: bytes)
    requires |window| < w && ComesBack(w, cb, s, p, window, behaviour, before, stream)
    requires Transferred(behaviour, before, after, stream, w - |window|, Ok, r) && stream == r + rest
    ensures var t := Run(p, window + r);
      Returns(cb, s, t) &&
      (t.end == Starved && !Fold(cb, s, t.events).1 ==>
         ComesBack(w, cb, Fold(cb, s, t.events).0, t.last, (window + r)[t.used..], behaviour, after, rest))
  {
    hide Run, Fold, Returns;
    assert stream[..|r|] == r && stream[|r|..] == rest;
  }

  /** The loop can go on: where it stands, and that it will come back. */
  ghost predicate GoesOn<S>(w: nat, cb: Callback<S>, s0: S, arrivals: seq<bytes>, err: Err, s: S,
                            p: ParserState, window: bytes, full: bool, behaviour: Behaviour, calls: nat,
                            unread: bytes) {
    Deliverable(w, INITIAL, [], arrivals) && Progress(w, cb, s0, arrivals, err, s, p, window, full) &&
    (err == NeedMoreData ==> ComesBack(w, cb, s, p, window, behaviour, calls, unread))
  }

  /** What the loop leaves behind: with NEED_MORE_DATA a failed read or a full window. */
  lemma LoopResult<S>(w: nat, cb: Callback<S>, s0: S, arrivals: seq<bytes>, err: Err, s: S, p: ParserState,
                      window: bytes, full: bool, behaviour: Behaviour, calls: nat, unread: bytes)
    requires GoesOn(w, cb, s0, arrivals, err, s, p, window, full, behaviour, calls, unread)
    ensures Deliverable(w, INITIAL, [], arrivals)
    ensures Returned(cb, s0, Ended(Feed(w, INITIAL, [], arrivals)),
                     if err == NeedMoreData then Error else err, s)
    ensures var feed := Feed(w, INITIAL, [], arrivals);
      feed.end == Starved && !Fold(cb, s0, feed.events).1 ==> err == NeedMoreData && !full
  {
  }

  /** Parses the window after a read r into it. */
  method ParseWindow<S>(parser: HttpParser<S>, data: bytes, ghost w: nat, ghost s0: S,
                        ghost arrivals: seq<bytes>, ghost window: bytes, ghost r: bytes,
                        ghost behaviour: Behaviour, ghost before: nat, ghost after: nat, ghost unread: bytes)
    returns (err: Err, size: nat)
    requires data == window + r && r != [] && |window| < w && |data| <= w < TWO_32
    requires GoesOn(w, parser.cb, s0, arrivals, NeedMoreData, parser.cbData, parser.State(), window, false,
                    behaviour, before, r + unread)
    requires Transferred(behaviour, before, after, r + unread, w - |window|, Ok, r)
    modifies parser
    ensures size <= |data| && Concat(arrivals + [r]) == Concat(arrivals) + r
    ensures GoesOn(w, parser.cb, s0, arrivals + [r], err, parser.cbData, parser.State(), data[size..],
                   |data| >= w && size == 0, behaviour, after, unread)
  {
    hide ParseElement, Run, Feed, Deliverable, Concat, Fold, ComesBack, Repeated, Progress;
    ghost var s, p := parser.cbData, parser.State();
    NextRead(w, parser.cb, s, p, window, behaviour, before, after, r + unread, r, unread);
    err, size := parser.Parse(data);
    ReadStep(w, parser.cb, s0, arrivals, s, p, window, r, err, parser.cbData, parser.State(), size);
    ProgressRest(w, parser.cb, s, p, data, err, parser.cbData, parser.State(), size);
  }

  lemma ProgressRest<S>(w: nat, cb: Callback<S>, s: S, p: ParserState, d: bytes, err: Err, s': S,
                        q: ParserState, size: nat)
    requires Parsed(cb, s, p, d, err, s', q, size)
    ensures err == NeedMoreData ==>
      var t := Run(p, d);
      t.end == Starved && !Fold(cb, s, t.events).1 && s' == Fold(cb, s, t.events).0 && q == t.last &&
      size == t.used
  {
    hide Run, Fold;
  }

  /** One round of the loop: refill and parse, or a read that fails. */
  method Round<S>(tls: Tls, buf: array<byte>, parser: HttpParser<S>, from: nat, to: nat, ghost s0: S,
                  ghost arrivals: seq<bytes>)
    returns (err: Err, parseSize: nat, size: nat, read: bool, ghost more: seq<bytes>)
    requires from <= to <= buf.Length < TWO_32 && to - from < buf.Length
    requires GoesOn(buf.Length, parser.cb, s0, arrivals, NeedMoreData, parser.cbData, parser.State(),
                    buf[from..to], false, tls.behaviour, tls.calls, tls.incoming)
    modifies tls`calls, tls`incoming, buf, parser
    ensures parseSize <= size <= buf.Length
    ensures Concat(more) + tls.incoming == Concat(arrivals) + old(tls.incoming)
    ensures !read ==> err == Error && more == arrivals && parser.cbData == old(parser.cbData)
    ensures !read && tls.behaviour.Reliable() ==> tls.incoming == []
    ensures read ==> |tls.incoming| < |old(tls.incoming)|
    ensures read ==>
      GoesOn(buf.Length, parser.cb, s0, more, err, parser.cbData, parser.State(), buf[parseSize..size],
             size >= buf.Length && parseSize == 0, tls.behaviour, tls.calls, tls.incoming)
  {
    hide *;
    ghost var window, calls, unread, r := buf[from..to], tls.calls, tls.incoming, [];
    parseSize, more := 0, arrivals;
    err, size, r := Refill(tls, buf, from, to);
    read := err == Ok;
    if read {
      Assoc(Concat(arrivals), r, tls.incoming);
      err, parseSize := ParseWindow(parser, buf[..size], buf.Length, s0, arrivals, window, r, tls.behaviour,
                                    calls, tls.calls, tls.incoming);
      more := arrivals + [r];
    }
  }

  /** recv_resp: one window, refilled behind the bytes the parser has left in it. If no bytes are
      left over behind the body the result does not depend on the sizes of the reads. */
  method RecvResp<S(!new)>(tls: Tls, buf: array<byte>, cb: Callback<S>, s0: S)
    returns (err: Err, s: S, ghost arrivals: seq<bytes>)
    requires 0 < buf.Length < TWO_32
    requires ComesBack(buf.Length, cb, s0, INITIAL, [], tls.behaviour, tls.calls, tls.incoming)
    modifies tls`calls, tls`incoming, buf
    ensures old(tls.incoming) == Concat(arrivals) + tls.incoming
    ensures Deliverable(buf.Length, INITIAL, [], arrivals)
    ensures Returned(cb, s0, Ended(Feed(buf.Length, INITIAL, [], arrivals)), err, s)
    ensures Clean(INITIAL, old(tls.incoming)) ==>
              (err, s) == Result(cb, s0, Ended(Feed(buf.Length, INITIAL, [], arrivals)))
    ensures Clean(INITIAL, old(tls.incoming)) && Splittable(cb) && tls.behaviour.Reliable() ==>
              (err, s) == Result(cb, s0, Windowed(buf.Length, INITIAL, old(tls.incoming)))
  {
    hide *;
    ghost var stream := tls.incoming;
    var w := buf.Length;
    var parser := new HttpParser<S>(cb, s0);
    arrivals := [];
    NothingRead(w, cb, s0, tls.behaviour, tls.calls, stream);
    LoopResult(w, cb, s0, [], NeedMoreData, s0, INITIAL, [], false, tls.behaviour, tls.calls, stream);
    ghost var calls := tls.calls;
    var size: nat, parseSize: nat, read := 0, 0, false;
    err, size := tls.Read(buf, 0, w);
    if err == Ok {
      read := true;
      ghost var r := stream[..size];
      assert stream == r + tls.incoming;
      assert buf[..size] == [] + r;
      Moves(tls.behaviour, calls, tls.calls, stream, w, Ok, r);
      err, parseSize := ParseWindow(parser, buf[..size], w, s0, [], [], r, tls.behaviour, calls, tls.calls,
                                    tls.incoming);
      arrivals := [] + [r];
      while read && err == NeedMoreData && (size < w || parseSize > 0)
        invariant parseSize <= size <= w && parser.cb == cb
        invariant stream == Concat(arrivals) + tls.incoming
        invariant read ==>
          GoesOn(w, cb, s0, arrivals, err, parser.cbData, parser.State(), buf[parseSize..size],
                 size >= w && parseSize == 0, tls.behaviour, tls.calls, tls.incoming)
        invariant !read ==> err == Error && (tls.behaviour.Reliable() ==> tls.incoming == [])
        invariant !read ==> Stopped(w, cb, s0, arrivals, parser.cbData)
        decreases |tls.incoming|, if read then 1 else 0
      {
        LoopResult(w, cb, s0, arrivals, err, parser.cbData, parser.State(), buf[parseSize..size],
                   size >= w && parseSize == 0, tls.behaviour, tls.calls, tls.incoming);
        StopsHere(w, cb, s0, arrivals, parser.cbData);
        err, parseSize, size, read, arrivals := Round(tls, buf, parser, parseSize, size, s0, arrivals);
      }
      if read {
        LoopResult(w, cb, s0, arrivals, err, parser.cbData, parser.State(), buf[parseSize..size],
                   size >= w && parseSize == 0, tls.behaviour, tls.calls, tls.incoming);
      } else {
        StoppedResult(w, cb, s0, arrivals, parser.cbData);
      }
      if err == NeedMoreData {
        err := Error;
      }
    }
    s := parser.cbData;
    Conclude(w, cb, s0, arrivals, tls.incoming, err, s);
  }

  /** The session that a failed read has ended. */
  ghost predicate Stopped<S>(w: nat, cb: Callback<S>, s0: S, arrivals: seq<bytes>, s: S) {
    Deliverable(w, INITIAL, [], arrivals) && Returned(cb, s0, Ended(Feed(w, INITIAL, [], arrivals)), Error, s)
  }

  lemma StopsHere<S>(w: nat, cb: Callback<S>, s0: S, arrivals: seq<bytes>, s: S)
    requires Deliverable(w, INITIAL, [], arrivals)
    requires Returned(cb, s0, Ended(Feed(w, INITIAL, [], arrivals)), Error, s)
    ensures Stopped(w, cb, s0, arrivals, s)
  {
  }

  lemma StoppedResult<S>(w: nat, cb: Callback<S>, s0: S, arrivals: seq<bytes>, s: S)
    requires Stopped(w, cb, s0, arrivals, s)
    ensures Deliverable(w, INITIAL, [], arrivals)
    ensures Returned(cb, s0, Ended(Feed(w, INITIAL, [], arrivals)), Error, s)
  {
  }

  lemma Conclude<S(!new)>(w: nat, cb: Callback<S>, s0: S, arrivals: seq<bytes>, unread: bytes, err: Err, s: S)
    requires 0 < w && Deliverable(w, INITIAL, [], arrivals)
    requires Returned(cb, s0, Ended(Feed(w, INITIAL, [], arrivals)), err, s)
    ensures var stream := Concat(arrivals) + unread;
      var feed := Feed(w, INITIAL, [], arrivals);
      Clean(INITIAL, stream) ==>
        (err, s) == Result(cb, s0, Ended(feed)) &&
        (Splittable(cb) && (feed.end == Starved && !Fold(cb, s0, feed.events).1 ==> unread == []) ==>
           (err, s) == Result(cb, s0, Windowed(w, INITIAL, stream)))
  {
    hide ParseElement, Run, Clean, Feed, Deliverable, Windowed, Concat, Result, Fold, Returned;
    if Clean(INITIAL, Concat(arrivals) + unread) {
      CleanResult(w, cb, s0, arrivals, unread, err, s);
      var feed := Feed(w, INITIAL, [], arrivals);
      if Splittable(cb) && (feed.end == Starved && !Fold(cb, s0, feed.events).1 ==> unread == []) {
        SessionResult(w, cb, s0, arrivals, unread);
      }
    }
  }

  /** Without bytes left over no session gets stuck. */
  lemma CleanResult<S>(w: nat, cb: Callback<S>, s0: S, arrivals: seq<bytes>, unread: bytes, err: Err, s: S)
    requires 0 < w && Deliverable(w, INITIAL, [], arrivals) && Clean(INITIAL, Concat(arrivals) + unread)
    requires Returned(cb, s0, Ended(Feed(w, INITIAL, [], arrivals)), err, s)
    ensures (err, s) == Result(cb, s0, Ended(Feed(w, INITIAL, [], arrivals)))
  {
    hide Feed, Deliverable, Clean, Result, Fold;
    assert [] + (Concat(arrivals) + unread) == Concat(arrivals) + unread;
    FeedIsWindowed(w, INITIAL, [], arrivals, unread);
  }

  lemma NothingRead<S>(w: nat, cb: Callback<S>, s0: S, behaviour: Behaviour, calls: nat, stream: bytes)
    requires 0 < w && ComesBack(w, cb, s0, INITIAL, [], behaviour, calls, stream)
    ensures GoesOn(w, cb, s0, [], NeedMoreData, s0, INITIAL, [], false, behaviour, calls, stream)
    ensures Concat([]) + stream == stream
  {
  }
}
