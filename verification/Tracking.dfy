// The tracking client: src/here_tracking.c over http_auth, http_send_stream and http_send of
// src/here_tracking_http.c.

module Tracking {
  import opened AuthScanner
  import opened Authentication
  import opened BodyTheory
  import opened Bytes
  import opened Chunked
  import opened Crypto
  import opened Errors
  import opened Fragmentation
  import opened HttpEvents
  import opened HttpGrammar
  import opened HttpParsers
  import opened Leftovers
  import opened LegacySend
  import opened Network
  import opened OAuth
  import opened OAuthText
  import opened Options
  import opened Receiver
  import opened Requests
  import opened Runs
  import opened Seeds
  import opened SendResponse
  import opened TlsPipe
  import opened TlsWriters

  /** The text of a token request. */
  function AuthRequest(head: bytes, header: bytes): bytes {
    ((head + header) + CRLF) + CRLF
  }

  /** The text of a send request: the token, and the body in chunked coding. */
  function SendRequest(head: bytes, token: bytes, chunks: seq<bytes>): bytes {
    (((head + token) + CRLF) + CRLF) + ChunkedText(chunks)
  }

  /** What http_auth makes of the client on connection n, when the clock is at reading k. */
  ghost function Attempt(env: Environment, n: nat, k: nat, a: Auth): (Err, Auth)
    requires env.link(n).Linked?
  {
    var o := AuthOutcome(AsClock(env.clock(k + 2)), a, env.link(n).stream);
    (o.0, Start(o.1.token, o.1.expiry, o.1.timeDiff))
  }

  /** The body bytes of a success response in these pieces. */
  function ToldBy(arrivals: seq<bytes>): bytes {
    Told(Feed(TLS_BUFFER_SIZE, INITIAL, [], arrivals).events)
  }

  /** What happened on the connection of one send: the header section of the request, whether the
      response was read, with which clock and in which pieces, what was sent, and the mapped
      status received. */
  datatype Exchange = Exchange(link: Link, head: bytes, answered: bool, clock: Clock, arrivals: seq<bytes>,
                               sent: bytes, status: Err)

  function Unanswered(l: Link, head: bytes): Exchange {
    Exchange(l, head, false, Clock(false, 0), [], [], Error)
  }

  class Client {
    const id: bytes
    const secret: bytes
    const baseUrl: bytes
    const token: array<byte>
    var userAgent: bytes
    var tokenExpiry: uint32
    var retryAfter: uint32
    var srvTimeDiff: int32
    ghost var log: seq<Step>

    ghost predicate Shaped()
      reads this`userAgent
    {
      |id| == DEVICE_ID_SIZE && |secret| == DEVICE_SECRET_SIZE && |baseUrl| < BASE_URL_SIZE &&
      token.Length == ACCESS_TOKEN_SIZE && |userAgent| < TWO_32
    }

    ghost predicate Valid()
      reads this, token
    {
      Shaped() && History(log) && retryAfter == LastRetry(log) &&
      (JustRejected(log) ==> token[0] == NUL && tokenExpiry == 0)
    }

    /** init, for a base URL that fits. */
    constructor (id: bytes, secret: bytes, baseUrl: bytes)
      requires |id| == DEVICE_ID_SIZE && |secret| == DEVICE_SECRET_SIZE
      requires |baseUrl| < BASE_URL_SIZE
      ensures Valid() && fresh(token) && log == [] && userAgent == []
      ensures this.id == id && this.secret == secret && this.baseUrl == baseUrl
      ensures token[0] == NUL && tokenExpiry == 0 && retryAfter == 0 && srvTimeDiff == 0
    {
      this.id := id;
      this.secret := secret;
      this.baseUrl := baseUrl;
      this.token := new byte[ACCESS_TOKEN_SIZE](_ => 0);
      this.userAgent := [];
      this.tokenExpiry := 0;
      this.retryAfter := 0;
      this.srvTimeDiff := 0;
      this.log := [];
    }

    /** The client as the token scanner sees it. */
    ghost function Scanned(): Auth
      reads this, token
    {
      Start(token[..], tokenExpiry, srvTimeDiff)
    }

    /** The client when auth has forgotten the token. */
    ghost function Emptied(): Auth
      reads this, token
      requires token.Length > 0
    {
      Start(token[..][0 := NUL], 0, srvTimeDiff)
    }

    /** The header section of a request can be written: neither the host nor the correlation id
        is empty. */
    ghost predicate Addressed(l: Link) {
      l.Linked? && baseUrl != [] && l.requestId != Some([])
    }

    /** The header section of a request on this connection. */
    ghost function HeadOn(h: Section, l: Link): bytes
      reads this`userAgent
      requires l.Linked?
    {
      HeadText(h, baseUrl, l.requestId, userAgent)
    }

    /** The token request on connection n with this timestamp and the nonce of this seed. */
    ghost predicate Asks(env: Environment, n: nat, request: bytes, seed: uint32, ts: uint32)
      reads this`userAgent
    {
      env.link(n).Linked? &&
      var nonce := NonceText(env.rand, seed, NONCE_VAL_SIZE);
      request == AuthRequest(HeadOn(AuthHead(), env.link(n)),
                             HeaderText(env.provider, baseUrl, Pairs(id, nonce, ts), secret))
    }

    // ----- http_auth -----

    /** The OAuth header for the clock readings it takes. */
    method MakeHeader(env: Environment) returns (err: Err, header: bytes)
      requires Shaped() && env.Sound()
      modifies env`readings, env.nonces
      ensures env.readings == old(env.readings) + 2
      ensures err == FirstErr(env.clock(old(env.readings)), env.clock(old(env.readings) + 1))
      ensures err == Ok ==> 0 < |header| < TWO_32
      ensures Continued(old(env.nonces.Now()), env.nonces.Now())
      ensures err == Ok ==> env.Seeded(old(env.nonces.Now()), old(env.readings))
      ensures err == Ok ==>
        header == HeaderText(env.provider, baseUrl,
                             Pairs(id, NonceText(env.rand, env.nonces.prevTs, NONCE_VAL_SIZE),
                                   Shifted(env.clock(old(env.readings) + 1).ts, srvTimeDiff)), secret)
    {
      hide HeaderText, Pairs, NonceText, NextSeed, Shifted;
      var out := new byte[MIN_OUT_SIZE](_ => 0);
      var nonceNow := env.Now();
      var stampNow := env.Now();
      var size;
      err, size := CreateHeader(out, MIN_OUT_SIZE, id, secret, baseUrl, srvTimeDiff, nonceNow, stampNow,
                                env.nonces, env.rand, env.provider);
      header := [];
      if err == Ok {
        header := out[..size];
        HeaderNotEmpty(env.provider, baseUrl, id, secret,
                       NonceText(env.rand, env.nonces.prevTs, NONCE_VAL_SIZE),
                       Shifted(stampNow.ts, srvTimeDiff));
      }
    }

    method WriteAuthRequest(env: Environment, tls: Tls, ghost n: nat, requestId: Option<bytes>)
      returns (err: Err)
      requires Shaped() && env.Sound() && tls.sent == []
      requires env.link(n).Linked? && env.link(n).requestId == requestId
      modifies env`readings, env.nonces, tls`calls, tls`sent
      ensures err == Ok ==> env.readings == old(env.readings) + 2 && env.WorksTwice(old(env.readings))
      ensures err == Ok ==> Addressed(env.link(n))
      ensures tls.behaviour.Reliable() ==>
                (err == Ok <==> env.WorksTwice(old(env.readings)) && Addressed(env.link(n)))
      ensures err == Ok ==>
        Asks(env, n, tls.sent, env.nonces.prevTs,
             Shifted(env.clock(old(env.readings) + 1).ts, srvTimeDiff))
      ensures Continued(old(env.nonces.Now()), env.nonces.Now())
      ensures err == Ok ==> env.Seeded(old(env.nonces.Now()), old(env.readings))
    {
      hide HeaderText, Pairs, NonceText, NextSeed, Shifted, HeadText, Clean, Continued, FirstErr;
      NothingMade(env.nonces.Now());
      var buf := new byte[TLS_BUFFER_SIZE](_ => 0);
      var writer := new TlsWriter(tls, buf, TLS_BUFFER_SIZE);
      ghost var head := HeadText(AuthHead(), baseUrl, requestId, userAgent);
      err := WriteHead(writer, AuthHead(), baseUrl, requestId, userAgent);
      if err != Ok { return; }
      assert writer.Accepted() == [] + head == head;
      var header;
      err, header := MakeHeader(env);
      if err != Ok { return; }
      err := WriteCredentials(writer, header);
      if err != Ok { return; }
      err := writer.Flush();
    }

    /** Reads the answer to a token request. If no bytes are left over behind its body, a client
        that had no token reads one afterwards if and only if the bytes told to the scanner put
        one, however the session ends. */
    method ReadToken(env: Environment, tls: Tls) returns (err: Err, ghost arrivals: seq<bytes>)
      requires Shaped()
      requires ComesBack(TLS_BUFFER_SIZE, AuthCb(AsClock(env.clock(env.readings))), Scanned(), INITIAL, [],
                         tls.behaviour, tls.calls, tls.incoming)
      modifies this`tokenExpiry, this`srvTimeDiff, token, env`readings, tls`calls, tls`incoming
      ensures env.readings == old(env.readings) + 1
      ensures old(tls.incoming) == Concat(arrivals) + tls.incoming
      ensures exists a ::
        AuthReceived(AsClock(env.clock(old(env.readings))), old(Scanned()), arrivals, err, a) &&
        Scanned() == Start(a.token, a.expiry, a.timeDiff)
      ensures Clean(INITIAL, old(tls.incoming)) && (err != Error || tls.behaviour.Reliable()) ==>
        var o := AuthOutcome(AsClock(env.clock(old(env.readings))), old(Scanned()), old(tls.incoming));
        err == o.0 && Scanned() == Start(o.1.token, o.1.expiry, o.1.timeDiff)
      ensures Clean(INITIAL, old(tls.incoming)) && old(NoToken()) ==>
                (token[0] != NUL <==> Puts(ToldBy(arrivals)))
      ensures Clean(INITIAL, old(tls.incoming)) && old(NoToken()) && err == TimeMismatch ==> NoToken()
    {
      hide AuthOutcome, Feed, Clean, Deliverable, Mapped, Result, Ended, Concat, Puts, Told, ComesBack,
        AuthReceived;
      var now := env.Now();
      var buf := new byte[TLS_BUFFER_SIZE](_ => 0);
      var a;
      ghost var a0, stream := Scanned(), tls.incoming;
      err, a, arrivals := ReceiveAuth(tls, buf, AsClock(now), Start(token[..], tokenExpiry, srvTimeDiff));
      ReceivedTokenSize(AsClock(now), a0, arrivals, err, a);
      if NoToken() && Clean(INITIAL, stream) {
        ReceivedToken(AsClock(now), a0, arrivals, tls.incoming);
      }
      forall i | 0 <= i < ACCESS_TOKEN_SIZE {
        token[i] := a.token[i];
      }
      assert token[..] == a.token;
      tokenExpiry := a.expiry;
      srvTimeDiff := a.timeDiff;
    }

    /** No token, and no expiry that could be added to. */
    ghost predicate NoToken()
      reads this, token
    {
      token.Length == ACCESS_TOKEN_SIZE && token[0] == NUL && tokenExpiry == 0
    }

    /** http_auth. On a connection that does not fail and with a clock that works the outcome is
        the one that the response determines; so is every result but ERROR. */
    method HttpAuth(env: Environment)
      returns (err: Err, ghost answered: bool, ghost request: bytes, ghost arrivals: seq<bytes>)
      requires Shaped() && env.Sound()
      modifies this`tokenExpiry, this`srvTimeDiff, token, env, env.nonces
      ensures env.links == old(env.links) + 1
      ensures env.link(old(env.links)).Unreachable? ==> err == env.link(old(env.links)).err
      ensures !answered ==> err != Ok && Scanned() == old(Scanned()) && arrivals == []
      ensures answered ==> Addressed(env.link(old(env.links))) && env.readings == old(env.readings) + 3
      ensures answered ==> Concat(arrivals) <= env.link(old(env.links)).stream
      ensures answered ==>
        Asks(env, old(env.links), request, env.nonces.prevTs,
             Shifted(env.clock(old(env.readings) + 1).ts, old(srvTimeDiff)))
      ensures Continued(old(env.nonces.Now()), env.nonces.Now())
      ensures answered ==> env.Seeded(old(env.nonces.Now()), old(env.readings))
      ensures answered && (err != Error || env.Reaches(old(env.links))) ==>
        var o := Attempt(env, old(env.links), old(env.readings), old(Scanned()));
        err == o.0 && Scanned() == o.1
      ensures env.Reaches(old(env.links)) ==>
                (answered <==> env.WorksTwice(old(env.readings)) && Addressed(env.link(old(env.links))))
      ensures old(NoToken()) ==> (token[0] != NUL <==> Puts(ToldBy(arrivals)))
      ensures old(NoToken()) && err == TimeMismatch ==> NoToken()
    {
      hide AuthOutcome, AuthRequest, Feed, NextSeed, Clean, Concat, Shifted, HeadText, Puts, Told, ComesBack,
        AuthReceived, Continued, FirstErr, HeadOn, Asks, ToldBy;
      answered, request, arrivals := false, [], [];
      NothingTold();
      NothingMade(env.nonces.Now());
      var tls, requestId;
      ghost var n := env.links;
      err, tls, requestId := env.Connect();
      if err == Ok {
        err := WriteAuthRequest(env, tls, n, requestId);
        if err == Ok {
          answered, request := true, tls.sent;
          Returning(AuthCb(AsClock(env.clock(env.readings))), Scanned(), tls);
          err, arrivals := ReadToken(env, tls);
          Grown(Concat(arrivals), tls.incoming);
        }
      }
    }

    // ----- auth -----

    /** From connection n and reading k on, auth finds what it needs: one working connection and
        clock for the first request, and if its answer is a time mismatch, for a second. */
    ghost predicate Supplied(env: Environment, n: nat, k: nat, a: Auth) {
      env.Reaches(n) && env.WorksTwice(k) && Addressed(env.link(n)) &&
      (Attempt(env, n, k, a).0 == TimeMismatch ==>
         env.Reaches(n + 1) && env.WorksTwice(k + 3) && Addressed(env.link(n + 1)))
    }

    /** A second attempt follows a time mismatch. */
    ghost function Attempts(env: Environment, n: nat, k: nat, a: Auth): (Err, Auth)
      requires Supplied(env, n, k, a)
    {
      var o := Attempt(env, n, k, a);
      if o.0 == TimeMismatch then Attempt(env, n + 1, k + 3, o.1) else o
    }

    /** Result and requests of auth, supplied with what it needs, when prev was the last seed of a
        nonce: the second request has a seed of its own, and is stamped with the clock as the first
        answer has corrected it. */
    ghost predicate AsScripted(env: Environment, n: nat, k: nat, a: Auth, prev: uint32, err: Err,
                               after: Auth, requests: seq<bytes>)
      reads this`userAgent
      requires Supplied(env, n, k, a)
    {
      (err, after) == Attempts(env, n, k, a) && 1 <= |requests| <= 2 &&
      Asks(env, n, requests[0], env.SeedAt(prev, k), Shifted(env.clock(k + 1).ts, a.timeDiff)) &&
      (|requests| == 2 <==> Attempt(env, n, k, a).0 == TimeMismatch) &&
      (|requests| == 2 ==> Asks(env, n + 1, requests[1], env.SeedAt(env.SeedAt(prev, k), k + 3),
                                Shifted(env.clock(k + 4).ts, Attempt(env, n, k, a).1.timeDiff)))
    }

    lemma NeedsMet(env: Environment, n: nat, k: nat, a: Auth)
      requires Supplied(env, n, k, a)
      ensures env.Reaches(n) && env.WorksTwice(k) && Addressed(env.link(n))
      ensures Attempt(env, n, k, a).0 == TimeMismatch ==>
                env.Reaches(n + 1) && env.WorksTwice(k + 3) && Addressed(env.link(n + 1))
    {
    }

    lemma Follows(env: Environment, n: nat, k: nat, a: Auth, prev: uint32, err: Err, after: Auth,
                  requests: seq<bytes>)
      requires Supplied(env, n, k, a) && 1 <= |requests| <= 2
      requires |requests| == 2 <==> Attempt(env, n, k, a).0 == TimeMismatch
      requires Asks(env, n, requests[0], env.SeedAt(prev, k), Shifted(env.clock(k + 1).ts, a.timeDiff))
      requires |requests| == 2 ==>
        Asks(env, n + 1, requests[1], env.SeedAt(env.SeedAt(prev, k), k + 3),
             Shifted(env.clock(k + 4).ts, Attempt(env, n, k, a).1.timeDiff))
      requires (err, after) == if |requests| == 2 then Attempt(env, n + 1, k + 3, Attempt(env, n, k, a).1)
                               else Attempt(env, n, k, a)
      ensures AsScripted(env, n, k, a, prev, err, after, requests)
    {
    }

    lemma ScriptedResult(env: Environment, n: nat, k: nat, a: Auth, prev: uint32, err: Err, after: Auth,
                         requests: seq<bytes>)
      requires Supplied(env, n, k, a) && AsScripted(env, n, k, a, prev, err, after, requests)
      ensures (err, after) == Attempts(env, n, k, a)
      ensures |requests| == if Attempt(env, n, k, a).0 == TimeMismatch then 2 else 1
    {
    }

    /** One token request, and a second one if the answer to the first was a time mismatch, which
        has corrected the clock by then. */
    method Ask(env: Environment)
      returns (err: Err, ghost results: seq<Err>, ghost requests: seq<bytes>, ghost arrivals: seq<bytes>)
      requires Shaped() && NoToken() && env.Sound()
      modifies this`tokenExpiry, this`srvTimeDiff, token, env, env.nonces
      ensures Requested(results) && err == results[|results| - 1] && |requests| == |results|
      ensures env.links == old(env.links) + |results|
      ensures env.link(old(env.links)).Unreachable? ==> results[0] == env.link(old(env.links)).err
      ensures env.link(old(env.links)).Unreachable? && |results| == 1 ==> Scanned() == old(Scanned())
      ensures arrivals == [] || (env.link(env.links - 1).Linked? &&
                                 Concat(arrivals) <= env.link(env.links - 1).stream)
      ensures token[0] != NUL <==> Puts(ToldBy(arrivals))
      ensures Supplied(env, old(env.links), old(env.readings), old(Scanned())) ==>
        env.readings == old(env.readings) + 3 * |results| &&
        AsScripted(env, old(env.links), old(env.readings), old(Scanned()), old(env.nonces.prevTs), err,
                   Scanned(), requests)
      ensures Continued(old(env.nonces.Now()), env.nonces.Now())
      ensures Supplied(env, old(env.links), old(env.readings), old(Scanned())) ==>
        |env.nonces.asked| == |old(env.nonces.asked)| + |results|
    {
      hide AuthOutcome, Asks, Shifted, Puts, ToldBy, Concat, Attempt, Supplied, Attempts, AsScripted,
        Continued, NextSeed, FirstErr, Clean, HeadOn;
      ghost var n, k, a, m := env.links, env.readings, Scanned(), env.nonces.Now();
      if Supplied(env, n, k, a) {
        NeedsMet(env, n, k, a);
      }
      ghost var answered, request;
      err, answered, request, arrivals := HttpAuth(env);
      results := [err];
      requests := [request];
      if err == TimeMismatch {
        ghost var m' := env.nonces.Now();
        err, answered, request, arrivals := HttpAuth(env);
        results := results + [err];
        requests := requests + [request];
        ContinuedOn(m, m', env.nonces.Now());
      }
      if Supplied(env, n, k, a) {
        Follows(env, n, k, a, m.prev, err, Scanned(), requests);
      }
    }

    /** here_tracking_auth: forgets the token and asks for a new one. Afterwards a token can be
        read if and only if the last answer has put one. */
    method Authenticate(env: Environment)
      returns (err: Err, ghost results: seq<Err>, ghost requests: seq<bytes>, ghost arrivals: seq<bytes>)
      requires Valid() && env.Sound()
      modifies this`tokenExpiry, this`srvTimeDiff, this`log, token, env, env.nonces
      ensures Valid()
      ensures log == old(log) + [Authenticated(results)] && Requested(results)
      ensures err == results[|results| - 1] && |requests| == |results|
      ensures env.links == old(env.links) + |results|
      ensures env.link(old(env.links)).Unreachable? ==> results[0] == env.link(old(env.links)).err
      ensures env.link(old(env.links)).Unreachable? && |results| == 1 ==> Scanned() == old(Emptied())
      ensures arrivals == [] || (env.link(env.links - 1).Linked? &&
                                 Concat(arrivals) <= env.link(env.links - 1).stream)
      ensures token[0] != NUL <==> Puts(ToldBy(arrivals))
      ensures Supplied(env, old(env.links), old(env.readings), old(Emptied())) ==>
        env.readings == old(env.readings) + 3 * |results| &&
        AsScripted(env, old(env.links), old(env.readings), old(Emptied()), old(env.nonces.prevTs), err,
                   Scanned(), requests)
      ensures Continued(old(env.nonces.Now()), env.nonces.Now())
      ensures Supplied(env, old(env.links), old(env.readings), old(Emptied())) ==>
        |env.nonces.asked| == |old(env.nonces.asked)| + |results|
    {
      hide History, Possible, LastRetry, JustRejected, Puts, ToldBy, Concat, Supplied, AsScripted, Continued;
      ghost var before := token[..];
      token[0] := NUL;
      tokenExpiry := 0;
      assert token[..] == before[0 := NUL];
      err, results, requests, arrivals := Ask(env);
      RequestPossible(log, results);
      HistorySnoc(log, Authenticated(results));
      log := log + [Authenticated(results)];
    }

    // ----- the two tests in front of every send -----

    method CheckRateLimit(env: Environment) returns (err: Err, now: uint32)
      modifies env`readings
      ensures env.readings == old(env.readings) + 1
      ensures now == env.clock(old(env.readings)).ts
      ensures var r := env.clock(old(env.readings));
        err == if r.err != Ok then r.err else if retryAfter > now then TooManyRequests else Ok
    {
      var r := env.Now();
      err, now := r.err, r.ts;
      if err == Ok && retryAfter > now {
        err := TooManyRequests;
      }
    }

    /** Authenticates if and only if there is no token or it is about to expire. */
    method UpdateTokenIfNeeded(env: Environment)
      returns (err: Err, now: uint32, ghost renewed: bool, ghost results: seq<Err>,
               ghost requests: seq<bytes>)
      requires Valid() && env.Sound()
      modifies this`tokenExpiry, this`srvTimeDiff, this`log, token, env, env.nonces
      ensures Valid()
      ensures now == env.clock(old(env.readings)).ts
      ensures renewed <==> env.clock(old(env.readings)).err == Ok &&
                           (old(token[0]) == NUL || AboutToExpire(old(tokenExpiry), now))
      ensures !renewed ==> err == env.clock(old(env.readings)).err && log == old(log)
      ensures !renewed ==> Scanned() == old(Scanned()) && env.links == old(env.links)
      ensures renewed ==> log == old(log) + [Authenticated(results)]
      ensures renewed ==> Requested(results) && err == results[|results| - 1] && |requests| == |results|
      ensures renewed ==> env.links == old(env.links) + |results|
      ensures renewed && Supplied(env, old(env.links), old(env.readings) + 1, old(Emptied())) ==>
        env.readings == old(env.readings) + 1 + 3 * |results| &&
        AsScripted(env, old(env.links), old(env.readings) + 1, old(Emptied()), old(env.nonces.prevTs), err,
                   Scanned(), requests)
      ensures Continued(old(env.nonces.Now()), env.nonces.Now())
      ensures !renewed ==> env.nonces.asked == old(env.nonces.asked)
    {
      hide AuthOutcome, History, Possible, LastRetry, JustRejected, AsScripted, Puts, ToldBy, Supplied;
      var r := env.Now();
      err, now, renewed, results, requests := r.err, r.ts, false, [], [];
      if err == Ok && (token[0] == NUL || AboutToExpire(tokenExpiry, now)) {
        renewed := true;
        ghost var arrivals;
        err, results, requests, arrivals := Authenticate(env);
      }
    }

    /** The error with which the clock or the rate limit stops a call, or Ok. */
    ghost function Refusal(env: Environment): Err
      reads this, env
    {
      var r := env.clock(env.readings);
      if r.err != Ok then r.err
      else if retryAfter > r.ts then TooManyRequests
      else env.clock(env.readings + 1).err
    }

    /** There is no token, or it is about to expire. */
    ghost predicate Stale(env: Environment)
      reads this, token, env
      requires token.Length > 0
    {
      token[0] == NUL || AboutToExpire(tokenExpiry, env.clock(env.readings + 1).ts)
    }

    /** A call that gets past the gate will have to authenticate, and is supplied for that. */
    ghost predicate Renews(env: Environment)
      reads this, token, env
      requires token.Length > 0
    {
      Refusal(env) == Ok && Stale(env) && Supplied(env, env.links, env.readings + 2, Emptied())
    }

    /** The token requests made then. */
    ghost function Renewals(env: Environment): nat
      reads this, token, env
      requires token.Length > 0 && Renews(env)
    {
      if Attempt(env, env.links, env.readings + 2, Emptied()).0 == TimeMismatch then 2 else 1
    }

    /** What the gate leaves in the client then. */
    ghost function Renewed(env: Environment): (Err, Auth)
      reads this, token, env
      requires token.Length > 0 && Renews(env)
    {
      Attempts(env, env.links, env.readings + 2, Emptied())
    }

    /** What a send has to get past. It gets past with a token that is not empty and valid for
        another ten minutes, or just after authentication has returned OK. */
    method PassGate(env: Environment) returns (err: Err, ghost gate: Gate)
      requires Valid() && env.Sound()
      modifies this`tokenExpiry, this`srvTimeDiff, this`log, token, env, env.nonces
      ensures Valid()
      ensures Gated(old(Refusal(env)), old(Stale(env)), old(log), log, err)
      ensures log == old(log) ==> env.links == old(env.links) && Scanned() == old(Scanned())
      ensures old(Renews(env)) ==> (err, Scanned()) == old(Renewed(env))
      ensures old(Renews(env)) ==> env.links == old(env.links) + old(Renewals(env))
      ensures err == Ok ==> Admitted(log, gate)
      ensures err == Ok ==> gate.retryAfter == retryAfter && gate.rate == env.clock(old(env.readings)).ts
      ensures err == Ok ==> gate.now == env.clock(old(env.readings) + 1).ts
      ensures err == Ok ==> gate.token == Text(token[..]) && gate.expiry == tokenExpiry
      ensures err == Ok ==> gate.renewed == (log != old(log)) == old(Stale(env))
      ensures |old(log)| <= |log|
      ensures Continued(old(env.nonces.Now()), env.nonces.Now())
    {
      hide AuthOutcome, History, LastRetry, JustRejected, Admitted, AboutToExpire, Asks, Attempts, Supplied;
      var rate, now;
      gate := Gate(0, 0, 0, [], 0, false);
      err, rate := CheckRateLimit(env);
      if err == Ok {
        ghost var renewed, results, requests;
        err, now, renewed, results, requests := UpdateTokenIfNeeded(env);
        gate := Gate(rate, retryAfter, now, Text(token[..]), tokenExpiry, renewed);
        TextEmpty(token[..]);
        if err == Ok {
          if renewed {
            AdmittedRenewed(old(log), results, gate);
          } else {
            assert token[..] == old(Scanned()).token;
            AdmittedUnchanged(log, gate);
          }
        }
      }
    }

    // ----- http_send_stream -----

    method WriteSendRequest(tls: Tls, h: Section, requestId: Option<bytes>, answers: seq<SendAnswer>)
      returns (err: Err)
      requires Shaped() && h.Writable() && tls.sent == [] && Scripted(answers)
      requires requestId.Some? ==> |requestId.value| < TWO_32
      modifies tls`calls, tls`sent
      ensures err == Ok ==> Upload(answers).Some? && Text(token[..]) != []
      ensures err == Ok ==>
        tls.sent ==
        SendRequest(HeadText(h, baseUrl, requestId, userAgent), Text(token[..]), Upload(answers).value)
      ensures tls.behaviour.Reliable() ==>
        (err == Ok <==> Upload(answers).Some? && token[0] != NUL && baseUrl != [] && requestId != Some([]))
      ensures err == Ok ==> baseUrl != [] && requestId != Some([])
      ensures token[0] == NUL ==> err != Ok && tls.sent <= HeadText(h, baseUrl, requestId, userAgent)
    {
      hide Scripted, Upload, ChunkedText, Decode, OfferedText, HeadText;
      var buf := new byte[TLS_BUFFER_SIZE](_ => 0);
      var writer := new TlsWriter(tls, buf, TLS_BUFFER_SIZE);
      ghost var head := HeadText(h, baseUrl, requestId, userAgent);
      assert writer.Accepted() == [] && [] + head == head;
      TextEmpty(token[..]);
      err := WriteHead(writer, h, baseUrl, requestId, userAgent);
      if err != Ok { return; }
      err := WriteCredentials(writer, Text(token[..]));
      if err != Ok { return; }
      err := SendBody(writer, answers);
    }

    /** Sends the body in chunked coding behind the token, and hands the response to recv. With
        an empty token nothing behind the header section is sent; a 401 or 403 makes the client
        forget its token, and nothing else does. */
    method HttpSendStream<U(!new)>(env: Environment, h: Section, answers: seq<SendAnswer>, recv: RecvCb<U>,
                                   user: U)
      returns (err: Err, after: U, ghost x: Exchange)
      requires Shaped() && env.Sound() && Scripted(answers) && h.Writable()
      modifies this`tokenExpiry, this`retryAfter, token, env`readings, env`links
      ensures env.links == old(env.links) + 1 && x.link == env.link(old(env.links))
      ensures x.link.Linked? ==> x.head == HeadOn(h, x.link)
      ensures x.link.Unreachable? ==> err == x.link.err
      ensures !x.answered ==> err != Ok && after == user && x.status == Error
      ensures !x.answered ==> retryAfter == old(retryAfter)
      ensures x.answered ==> x.link.Linked? && Upload(answers).Some? && Text(old(token[..])) != []
      ensures x.answered ==> x.sent == SendRequest(x.head, Text(old(token[..])), Upload(answers).value)
      ensures x.answered ==>
        HandedOver(recv, x, RecvCtx(Error, old(retryAfter), user), err,
                   RecvCtx(x.status, retryAfter, after))
      ensures env.Reaches(old(env.links)) ==>
                (x.answered <==> Upload(answers).Some? && old(token[0]) != NUL && Addressed(x.link))
      ensures x.link.Linked? && old(token[0]) == NUL ==> !x.answered && x.sent <= x.head
      ensures if x.status == Unauthorized || x.status == Forbidden then
                token[..] == old(token[..])[0 := NUL] && tokenExpiry == 0
              else
                token[..] == old(token[..]) && tokenExpiry == old(tokenExpiry)
    {
      hide Scripted, Upload, SendRequest, Feed, Clean, Deliverable, Windowed, Concat, Fold, HeadText, ComesBack,
        Returned;
      var tls, requestId;
      ghost var l := env.link(env.links);
      after, x := user, Unanswered(l, if l.Linked? then HeadOn(h, l) else []);
      err, tls, requestId := env.Connect();
      if err == Ok {
        err := WriteSendRequest(tls, h, requestId, answers);
        x := x.(sent := tls.sent);
        if err == Ok {
          var now := env.Now();
          ghost var reading := AsClock(now);
          ghost var arrivals, ctx;
          Returning(SendCb(reading, recv), RecvCtx(Error, retryAfter, user), tls);
          err, after, arrivals, ctx := ReceiveReply(tls, now, recv, user);
          x := x.(answered := true, clock := reading, arrivals := arrivals, status := ctx.status);
        }
      }
    }

    /** The response half of http_send_stream. */
    method ReceiveReply<U(!new)>(tls: Tls, now: Reading, recv: RecvCb<U>, user: U)
      returns (err: Err, after: U, ghost arrivals: seq<bytes>, ghost ctx: RecvCtx<U>)
      requires token.Length > 0
      requires ComesBack(TLS_BUFFER_SIZE, SendCb(AsClock(now), recv), RecvCtx(Error, retryAfter, user), INITIAL,
                         [], tls.behaviour, tls.calls, tls.incoming)
      modifies this`tokenExpiry, this`retryAfter, token, tls`calls, tls`incoming
      ensures Concat(arrivals) <= old(tls.incoming)
      ensures Deliverable(TLS_BUFFER_SIZE, INITIAL, [], arrivals)
      ensures ctx == RecvCtx(ctx.status, retryAfter, after)
      ensures exists e ::
        Returned(SendCb(AsClock(now), recv), RecvCtx(Error, old(retryAfter), user),
                 Ended(Feed(TLS_BUFFER_SIZE, INITIAL, [], arrivals)), e, ctx) &&
        err == if e == ClientInterrupt then Ok else e
      ensures Clean(INITIAL, old(tls.incoming)) ==>
        var r := Result(SendCb(AsClock(now), recv), RecvCtx(Error, old(retryAfter), user),
                        Ended(Feed(TLS_BUFFER_SIZE, INITIAL, [], arrivals)));
        ctx == r.1 && err == if r.0 == ClientInterrupt then Ok else r.0
      ensures if ctx.status == Unauthorized || ctx.status == Forbidden then
                token[..] == old(token[..])[0 := NUL] && tokenExpiry == 0
              else
                token[..] == old(token[..]) && tokenExpiry == old(tokenExpiry)
    {
      hide Feed, Clean, Deliverable, Windowed, Concat, Result, Ended, ComesBack, Returned;
      var buf := new byte[TLS_BUFFER_SIZE](_ => 0);
      var c := RecvCtx(Error, retryAfter, user);
      err, c, arrivals := RecvResp(tls, buf, SendCb(AsClock(now), recv), c);
      Grown(Concat(arrivals), tls.incoming);
      ctx := c;
      retryAfter := c.retryAfter;
      after := c.user;
      if err == ClientInterrupt {
        err := Ok;
      }
      if IsRejection(c.status) {
        token[0] := NUL;
        tokenExpiry := 0;
      }
    }

    /** http_send: the request is read out of `data` before the response is written into it. */
    method HttpSend(env: Environment, data: array<byte>, sendSize: nat, recvSize: nat)
      returns (err: Err, report: Report, ghost x: Exchange, ghost u: Legacy)
      requires Shaped() && env.Sound() && data != token
      requires 0 < sendSize <= data.Length && 0 < recvSize <= data.Length
      requires sendSize < TWO_32 && recvSize < TWO_32
      modifies this`tokenExpiry, this`retryAfter, token, env`readings, env`links, data
      ensures env.links == old(env.links) + 1 && x.link == env.link(old(env.links))
      ensures x.link.Linked? ==> x.head == HeadOn(SendHead(DataJson, WithData), x.link)
      ensures err == Ok ==> Delivered(Text(old(token[..])), old(data[..sendSize]), x)
      ensures err == Ok ==> BufferHolds(x.link, recvSize, old(data[..]), data[..], report)
      ensures err != Ok ==> report == NoReport
      ensures !x.answered ==> err != Ok && data[..] == old(data[..]) && x.status == Error
      ensures !x.answered ==> retryAfter == old(retryAfter)
      ensures x.answered ==>
        HandedOver(LegacyRecv, x, RecvCtx(Error, old(retryAfter), Legacy([], recvSize, 0, Ok)), err,
                   RecvCtx(x.status, retryAfter, u))
      ensures env.Reaches(old(env.links)) ==> (x.answered <==> old(token[0]) != NUL && Addressed(x.link))
      ensures if x.status == Unauthorized || x.status == Forbidden then
                token[..] == old(token[..])[0 := NUL] && tokenExpiry == 0
              else
                token[..] == old(token[..]) && tokenExpiry == old(tokenExpiry)
    {
      hide Announces, SentAndReceived, LegacyOutcome, Clean, Decode, Upload, SendRequest, HandedOver, HeadText,
        Concat;
      report := NoReport;
      ghost var request, before := data[..sendSize], data[..];
      var v;
      OneChunk(request);
      ghost var start := RecvCtx(Error, retryAfter, Legacy([], recvSize, 0, Ok));
      err, v, x := HttpSendStream(env, SendHead(DataJson, WithData), [Data(data[..sendSize])], LegacyRecv,
                                  Legacy([], recvSize, 0, Ok));
      u := v;
      if x.answered {
        LegacyHanded(x, start, err, RecvCtx(x.status, retryAfter, u));
        RequestDecodes(x.head, Text(old(token[..])), [request]);
      }
      forall i | 0 <= i < |v.buffer| {
        data[i] := v.buffer[i];
      }
      if err == Ok {
        report := Report(v.status, if v.status == BufferTooSmall then v.bodySize else |v.buffer|);
        assert data[..] == v.buffer + before[|v.buffer|..];
        forall n: uint32 | Announces(TLS_BUFFER_SIZE, x.link.stream, n)
          ensures SentAndReceived(x.link.stream, n, recvSize, before, data[..], report)
        {
          Published(x.link.stream, n, recvSize, RecvCtx(x.status, retryAfter, v), before, data[..], report);
        }
      }
    }

    // ----- send_stream and send -----

    /** here_tracking_send_stream. */
    method SendStream<U(!new)>(env: Environment, req: ReqType, resp: RespType, answers: seq<SendAnswer>,
                               recv: RecvCb<U>, user: U)
      returns (err: Err, after: U, ghost sent: bool, ghost x: Exchange)
      requires Valid() && env.Sound() && Scripted(answers)
      modifies this`tokenExpiry, this`retryAfter, this`srvTimeDiff, this`log, token, env, env.nonces
      ensures Valid() && Followed(old(Refusal(env)), old(Stale(env)), old(log), log, sent, err)
      ensures sent ==> Faithful(log[|log| - 1], old(Met(env)), x.status, retryAfter)
      ensures old(Renews(env)) ==> (sent <==> old(Renewed(env)).0 == Ok)
      ensures sent && x.link.Linked? && x.link.behaviour.Reliable() ==>
        (x.answered <==> Upload(answers).Some? && log[|log| - 1].gate.token != [] && Addressed(x.link))
      ensures sent ==> env.links > 0 && x.link == env.link(env.links - 1)
      ensures sent ==> (log[|log| - 1].gate.renewed <==> old(Stale(env)))
      ensures sent && !old(Stale(env)) ==> env.links == old(env.links) + 1
      ensures sent && (x.status == Unauthorized || x.status == Forbidden) ==> token[0] == NUL && tokenExpiry == 0
      ensures sent && x.status != Unauthorized && x.status != Forbidden ==>
        Text(token[..]) == log[|log| - 1].gate.token && tokenExpiry == log[|log| - 1].gate.expiry &&
        (!old(Stale(env)) ==> token[..] == old(token[..]) && tokenExpiry == old(tokenExpiry))
      ensures sent && old(Renews(env)) ==> env.links == old(env.links) + old(Renewals(env)) + 1
      ensures sent && old(Renews(env)) ==>
        log[|log| - 1].gate.token == Text(old(Renewed(env)).1.token) &&
        log[|log| - 1].gate.expiry == old(Renewed(env)).1.expiry
      ensures sent && x.answered ==> Upload(answers).Some?
      ensures sent && x.answered ==>
        Delivered(log[|log| - 1].gate.token, Concat(Upload(answers).value), x) &&
        HandedOver(recv, x, RecvCtx(Error, old(retryAfter), user), err,
                   RecvCtx(x.status, retryAfter, after))
      ensures !sent ==> after == user && retryAfter == old(retryAfter)
      ensures log == old(log) ==> env.links == old(env.links) && Scanned() == old(Scanned())
      ensures Continued(old(env.nonces.Now()), env.nonces.Now())
    {
      hide Scripted, Upload, SendRequest, HandedOver, Delivered, History, Admitted, LastRetry, Text, HeadText,
        Renews, Renewed, Renewals, Concat, SendHead, Gated, Stale, Refusal, Continued, Clean;
      ghost var gate;
      after, sent, x := user, false, Unanswered(env.link(env.links), []);
      ghost var met := Met(env);
      err, gate := PassGate(env);
      if err == Ok {
        sent := true;
        TextEmpty(token[..]);
        err, after, x := HttpSendStream(env, SendHead(req, resp), answers, recv, user);
        if x.answered {
          RequestDelivered(x, gate.token, answers);
        }
        SendLogged(log, gate, x.status, retryAfter);
        log := log + [Sent(gate, x.status, retryAfter)];
      }
    }

    /** here_tracking_send. */
    method Send(env: Environment, data: array<byte>, sendSize: nat, recvSize: nat)
      returns (err: Err, report: Report, ghost sent: bool, ghost x: Exchange)
      requires Valid() && env.Sound() && data != token
      requires sendSize <= data.Length && recvSize <= data.Length
      requires sendSize < TWO_32 && recvSize < TWO_32
      modifies this`tokenExpiry, this`retryAfter, this`srvTimeDiff, this`log, token, env, env.nonces, data
      ensures Valid()
      ensures sendSize == 0 || recvSize == 0 ==> err == InvalidInput && !sent && log == old(log)
      ensures sendSize > 0 && recvSize > 0 ==>
                Followed(old(Refusal(env)), old(Stale(env)), old(log), log, sent, err)
      ensures sent ==> Faithful(log[|log| - 1], old(Met(env)), x.status, retryAfter)
      ensures sent ==> (log[|log| - 1].gate.renewed <==> old(Stale(env)))
      ensures sent && x.link.Linked? && x.link.behaviour.Reliable() ==>
                (x.answered <==> log[|log| - 1].gate.token != [] && Addressed(x.link))
      ensures err == Ok ==> sent && Delivered(log[|log| - 1].gate.token, old(data[..sendSize]), x)
      ensures err == Ok ==> BufferHolds(x.link, recvSize, old(data[..]), data[..], report)
      ensures !sent ==> err != Ok && data[..] == old(data[..]) && retryAfter == old(retryAfter)
      ensures Continued(old(env.nonces.Now()), env.nonces.Now())
    {
      hide Delivered, BufferHolds, HandedOver, History, Admitted, LastRetry, Renews, Renewed, Text, HeadText,
        SendHead, Gated, Stale, Refusal, Continued, Clean;
      report, sent, x := NoReport, false, Unanswered(env.link(env.links), []);
      err := InvalidInput;
      NothingMade(env.nonces.Now());
      if sendSize > 0 && recvSize > 0 {
        ghost var gate;
        err, gate := PassGate(env);
        if err == Ok {
          sent := true;
          TextEmpty(token[..]);
          ghost var u;
          err, report, x, u := HttpSend(env, data, sendSize, recvSize);
          SendLogged(log, gate, x.status, retryAfter);
          log := log + [Sent(gate, x.status, retryAfter)];
        }
      }
    }

    /** What a call of send finds: two readings of the clock, and the client. */
    ghost function Met(env: Environment): Gate
      reads this, token, env
    {
      Gate(env.clock(env.readings).ts, retryAfter, env.clock(env.readings + 1).ts, Text(token[..]),
           tokenExpiry, false)
    }
  }

  /** The step that a send adds to the history says what the call found, except for the token and
      expiry if they were renewed, and what the send has left behind. */
  ghost predicate Faithful(s: Step, met: Gate, status: Err, retryAfter: uint32) {
    s.Sent? && s.status == status && s.retryAfter == retryAfter &&
    s.gate.rate == met.rate && s.gate.retryAfter == met.retryAfter && s.gate.now == met.now &&
    (!s.gate.renewed ==> s.gate == met)
  }

  /** What the gate does: it stops a call at once, lets it through at once, or authenticates
      for it once and then does what the result says. */
  ghost predicate Gated(refusal: Err, stale: bool, before: seq<Step>, after: seq<Step>, err: Err) {
    if refusal != Ok then err == refusal && after == before
    else if !stale then err == Ok && after == before
    else
      |after| == |before| + 1 && before <= after && after[|before|].Authenticated? &&
      Requested(after[|before|].results) &&
      err == after[|before|].results[|after[|before|].results| - 1]
  }

  /** A call that was let through adds its send to the history, any other only what the gate
      has added. */
  ghost predicate Followed(refusal: Err, stale: bool, before: seq<Step>, after: seq<Step>, sent: bool,
                           err: Err) {
    if sent then
      after != [] && after[|after| - 1].Sent? &&
      Gated(refusal, stale, before, after[..|after| - 1], Ok)
    else
      err != Ok && Gated(refusal, stale, before, after, err)
  }

  /** The token was on the request, and what follows it decodes to the body. */
  ghost predicate Delivered(token: bytes, body: bytes, x: Exchange) {
    x.answered && x.link.Linked? && token != [] && x.head + token <= x.sent &&
    |x.sent| >= |x.head| + |token| + 4 &&
    Decode(x.sent[|x.head| + |token| + 4..]) == Some(Decoded(body, []))
  }

  /** The caller's buffer after a send holds the body of the response. */
  ghost predicate BufferHolds(l: Link, recvSize: nat, before: bytes, after: bytes, report: Report) {
    l.Linked? &&
    forall n: uint32 :: Announces(TLS_BUFFER_SIZE, l.stream, n) ==>
                          SentAndReceived(l.stream, n, recvSize, before, after, report)
  }

  lemma RequestDecodes(head: bytes, token: bytes, chunks: seq<bytes>)
    requires forall d :: d in chunks ==> d != []
    ensures var s := SendRequest(head, token, chunks);
      head + token <= s && |s| >= |head| + |token| + 4 &&
      Decode(s[|head| + |token| + 4..]) == Some(Decoded(Concat(chunks), []))
  {
    hide Decode, ChunkedText;
    DecodeChunkedText(chunks, []);
    var t := ChunkedText(chunks);
    assert t + [] == t;
    assert SendRequest(head, token, chunks)[|head| + |token| + 4..] == t;
  }

  lemma RequestDelivered(x: Exchange, token: bytes, answers: seq<SendAnswer>)
    requires x.answered && x.link.Linked? && token != [] && Upload(answers).Some?
    requires x.sent == SendRequest(x.head, token, Upload(answers).value)
    ensures Delivered(token, Concat(Upload(answers).value), x)
  {
    hide Decode, Concat;
    UploadText(answers);
    RequestDecodes(x.head, token, Upload(answers).value);
  }

  lemma SendLogged(log: seq<Step>, gate: Gate, status: Err, retryAfter: uint32)
    requires History(log) && Admitted(log, gate)
    ensures var after := log + [Sent(gate, status, retryAfter)];
      History(after) && LastRetry(after) == retryAfter && (JustRejected(after) <==> IsRejection(status))
  {
    HistorySnoc(log, Sent(gate, status, retryAfter));
  }

  lemma LegacyHanded(x: Exchange, before: RecvCtx<Legacy>, err: Err, after: RecvCtx<Legacy>)
    requires HandedOver(LegacyRecv, x, before, err, after)
    requires before == RecvCtx(Error, before.retryAfter, Legacy([], before.user.capacity, 0, Ok))
    ensures |after.user.buffer| <= after.user.capacity == before.user.capacity
    ensures err == Ok ==> forall n: uint32 :: Announces(TLS_BUFFER_SIZE, x.link.stream, n) ==>
              LegacyOutcome(TLS_BUFFER_SIZE, x.link.stream, n, after.user)
  {
    hide Announces, LegacyOutcome, Deliverable, LegacyRecv, Feed, Fold, Concat;
    CapacityKept(x.clock, before, Feed(TLS_BUFFER_SIZE, INITIAL, [], x.arrivals).events);
    forall n: uint32 | err == Ok && Announces(TLS_BUFFER_SIZE, x.link.stream, n)
      ensures LegacyOutcome(TLS_BUFFER_SIZE, x.link.stream, n, after.user)
    {
      LegacyResult(x.link.stream, x.clock, before.retryAfter, before.user.capacity, x.arrivals, n);
    }
  }

  /** The response, read in any pieces, has been handed to recv. */
  ghost predicate HandedOver<U>(recv: RecvCb<U>, x: Exchange, before: RecvCtx<U>, err: Err,
                                after: RecvCtx<U>) {
    x.link.Linked? && Concat(x.arrivals) <= x.link.stream && Deliverable(TLS_BUFFER_SIZE, INITIAL, [], x.arrivals) &&
    var r := Result(SendCb(x.clock, recv), before, Ended(Feed(TLS_BUFFER_SIZE, INITIAL, [], x.arrivals)));
    after == r.1 && err == if r.0 == ClientInterrupt then Ok else r.0
  }

  lemma AdmittedRenewed(log: seq<Step>, results: seq<Err>, g: Gate)
    requires g.retryAfter == LastRetry(log) && g.retryAfter <= g.rate && g.renewed
    requires Requested(results) && results[|results| - 1] == Ok
    ensures Admitted(log + [Authenticated(results)], g)
  {
    hide History;
    var after := log + [Authenticated(results)];
    assert after[..|log|] == log && after[|log|] == Authenticated(results);
    assert LastRetry(after) == LastRetry(log);
    assert JustAuthenticated(after);
  }

  lemma AdmittedUnchanged(log: seq<Step>, g: Gate)
    requires g.retryAfter == LastRetry(log) && g.retryAfter <= g.rate && !g.renewed
    requires !JustRejected(log) && g.token != [] && !AboutToExpire(g.expiry, g.now)
    ensures Admitted(log, g)
  {
  }

  lemma RequestPossible(log: seq<Step>, results: seq<Err>)
    requires Requested(results)
    ensures Possible(log, Authenticated(results))
  {
  }

  lemma HeaderNotEmpty(c: Provider, host: bytes, id: bytes, secret: bytes, nonce: bytes, ts: uint32)
    ensures HeaderText(c, host, Pairs(id, nonce, ts), secret) != []
  {
    HeaderParts(c, host, Pairs(id, nonce, ts), secret);
  }

  /** Without bytes left over the calls of parse come back. */
  lemma Returning<S>(cb: Callback<S>, s: S, tls: Tls)
    requires Clean(INITIAL, tls.incoming)
    ensures ComesBack(TLS_BUFFER_SIZE, cb, s, INITIAL, [], tls.behaviour, tls.calls, tls.incoming)
  {
    hide Clean, ComesBack;
    assert [] + tls.incoming == tls.incoming;
    CleanComesBack(TLS_BUFFER_SIZE, cb, s, INITIAL, [], tls.behaviour, tls.calls, tls.incoming);
  }

  lemma ReceivedTokenSize(clock: Clock, a0: Auth, arrivals: seq<bytes>, err: Err, a: Auth)
    requires AuthReceived(clock, a0, arrivals, err, a)
    ensures |a.token| == |a0.token|
  {
    hide Feed, Fold;
    var s := Feed(TLS_BUFFER_SIZE, INITIAL, [], arrivals);
    if s.end == Stuck {
      var n :| Fold(AuthCb(clock), a0, s.events + Repeated(n)) == (a, true);
      TokenSizeKept(clock, a0, s.events + Repeated(n));
    } else {
      TokenSizeKept(clock, a0, s.events);
    }
  }

  lemma NothingTold()
    ensures !Puts(ToldBy([])) && Concat([]) == []
  {
    var t: bytes := ToldBy([]);
    assert t == [];
    forall pre ensures !PutsBehind([], pre) {
    }
  }

  /** The token that a session has left, if there was none before. */
  lemma ReceivedToken(clock: Clock, a: Auth, arrivals: seq<bytes>, unread: bytes)
    requires Fresh(a) && a.token[0] == NUL
    requires Deliverable(TLS_BUFFER_SIZE, INITIAL, [], arrivals) && Clean(INITIAL, Concat(arrivals) + unread)
    ensures var o := Mapped(Result(AuthCb(clock), a, Ended(Feed(TLS_BUFFER_SIZE, INITIAL, [], arrivals))));
      |o.1.token| == ACCESS_TOKEN_SIZE && (o.1.token[0] != NUL <==> Puts(ToldBy(arrivals))) &&
      (o.0 == TimeMismatch ==> o.1.token[0] == NUL && o.1.expiry == 0)
  {
    hide Feed, Deliverable, Clean, Fold, Puts, Told, Concat;
    LeftExactly(clock, a, TLS_BUFFER_SIZE, arrivals, unread);
  }

  lemma {:induction false} TokenSizeKept(clock: Clock, a: Auth, events: seq<Event>)
    ensures |Fold(AuthCb(clock), a, events).0.token| == |a.token|
    decreases |events|
  {
    hide OnEvent;
    if events != [] {
      EventTokenSize(clock, a, events[0]);
      TokenSizeKept(clock, OnEvent(clock, a, events[0]).0, events[1..]);
    }
  }

  lemma EventTokenSize(clock: Clock, a: Auth, evt: Event)
    ensures |OnEvent(clock, a, evt).0.token| == |a.token|
  {
    if evt.Body? {
      ScanTokenSize(clock, a, evt.data);
    }
  }

  lemma {:induction false} ScanTokenSize(clock: Clock, a: Auth, data: bytes)
    ensures |Scan(clock, a, data).0.token| == |a.token|
    decreases |data|
  {
    if data != [] {
      ScanTokenSize(clock, ScanByte(clock, a, data[0]).0, data[1..]);
    }
  }
}
