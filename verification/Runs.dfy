// Client runs: the world around a client, and the histories a client can have
// (src/here_tracking.c).

/** The world a client runs in: clock readings and connections come in any order and may fail. */
module Network {
  import opened AuthScanner
  import opened Bytes
  import opened Crypto
  import opened Errors
  import opened Fragmentation
  import opened HttpGrammar
  import opened OAuth
  import opened Options
  import opened Seeds
  import opened TlsPipe
  import opened Uuid

  /** A connection attempt; requestId is the correlation id found for the request made on it,
      if one was found. */
  datatype Link = Unreachable(err: Err) | Linked(behaviour: Behaviour, stream: bytes, requestId: Option<bytes>)

  class Environment {
    const clock: nat -> Reading
    const link: nat -> Link
    const rand: Rand
    const provider: Provider
    const nonces: SeedSource
    var readings: nat
    var links: nat

    constructor (clock: nat -> Reading, link: nat -> Link, rand: Rand, provider: Provider)
      ensures this.clock == clock && this.link == link && this.rand == rand
      ensures this.provider == provider && fresh(nonces) && nonces.Now() == Moment(0, [])
    {
      this.clock := clock;
      this.link := link;
      this.rand := rand;
      this.provider := provider;
      this.nonces := new SeedSource();
      this.readings := 0;
      this.links := 0;
    }

    /** What is assumed of the world: failures are told, the provider keeps to its sizes, and
        no response is longer than it announces. */
    ghost predicate Sound() {
      provider.Sized() &&
      forall n ::
        match link(n)
        case Unreachable(err) => err != Ok
        case Linked(_, stream, id) => Clean(INITIAL, stream) && (id.Some? ==> |id.value| < UUID_SIZE)
    }

    /** The clock answers the two calls that an OAuth header takes. */
    ghost predicate WorksTwice(reading: nat) {
      FirstErr(clock(reading), clock(reading + 1)) == Ok
    }

    /** The seed of a nonce made at reading k, when prev was the last one. */
    ghost function SeedAt(prev: uint32, k: nat): uint32 {
      NextSeed(prev, clock(k).ts)
    }

    /** Since then one seed has been made, at reading k. */
    ghost predicate Seeded(before: Moment, k: nat)
      reads this, nonces
    {
      nonces.prevTs == SeedAt(before.prev, k) && nonces.asked == before.asked + [clock(k).ts]
    }

    /** Connection n can be made and does not fail. */
    ghost predicate Reaches(n: nat) {
      link(n).Linked? && link(n).behaviour.Reliable()
    }

    /** get_unixtime. */
    method Now() returns (r: Reading)
      modifies this`readings
      ensures r == clock(old(readings)) && readings == old(readings) + 1
    {
      r := clock(readings);
      readings := readings + 1;
    }

    /** http_connect. */
    method Connect() returns (err: Err, tls: Tls?, requestId: Option<bytes>)
      requires Sound()
      modifies this`links
      ensures links == old(links) + 1
      ensures match link(old(links))
        case Unreachable(e) => err == e != Ok && tls == null
        case Linked(behaviour, stream, id) =>
          err == Ok && tls != null && fresh(tls) && tls.behaviour == behaviour &&
          tls.incoming == stream && tls.sent == [] && requestId == id
    {
      var l := link(links);
      links := links + 1;
      match l {
        case Unreachable(e) =>
          err, tls, requestId := e, null, None;
        case Linked(behaviour, stream, id) =>
          err, requestId := Ok, id;
          tls := new Tls(behaviour, stream);
      }
    }
  }

  function AsClock(r: Reading): Clock {
    Clock(r.err == Ok, r.ts)
  }
}

/** What a client has done so far, and which histories are possible. */
module Runs {
  import opened Bytes
  import opened Errors

  const TOKEN_EXPIRY_OFFSET: nat := 600

  /** What a send found when it was let through: the reading of the clock against which
      retryAfter was held, the one against which expiry was held, the stored token, and whether
      authentication was called for it. */
  datatype Gate = Gate(rate: uint32, retryAfter: uint32, now: uint32, token: bytes, expiry: uint32,
                       renewed: bool)

  /** One call of auth with the results of its requests, or one HTTP send with the status it
      received and the retry time it left behind. */
  datatype Step =
    | Authenticated(results: seq<Err>)
    | Sent(gate: Gate, status: Err, retryAfter: uint32)

  /** token_expiry < ts + offset, added in 32 bits. */
  predicate AboutToExpire(expiry: uint32, ts: uint32) {
    expiry < (ts + TOKEN_EXPIRY_OFFSET) % TWO_32
  }

  /** The test says what it is meant to say for every expiry if and only if the sum does not
      leave 32 bits; behind that an expired token passes as valid. */
  lemma ExpiryTestExact(ts: uint32)
    ensures (forall expiry: uint32 ::
               AboutToExpire(expiry, ts) <==> expiry < ts + 600) <==>
            ts + 600 < 0x1_0000_0000
    ensures ts + 600 >= 0x1_0000_0000 ==> 600 < ts && !AboutToExpire(600, ts)
  {
    if ts + TOKEN_EXPIRY_OFFSET >= TWO_32 {
      assert AboutToExpire(TOKEN_EXPIRY_OFFSET, ts) <==> false;
    }
  }

  /** The retry time when this many seconds are to pass from ts on, added in 32 bits. */
  function RetryTime(ts: uint32, delay: uint32): uint32 {
    (ts + delay) % TWO_32
  }

  /** retry_after > ts. */
  predicate RateLimited(retryAfter: uint32, now: uint32) {
    retryAfter > now
  }

  /** The test against the retry time is right for every reading of the clock if and only if the
      sum does not leave 32 bits; behind that a reading at which the delay has only begun passes. */
  lemma RetryTestExact(ts: uint32, delay: uint32)
    ensures (forall now: uint32 :: RateLimited(RetryTime(ts, delay), now) <==> ts + delay > now) <==>
            ts + delay < TWO_32
    ensures ts + delay >= TWO_32 ==> RetryTime(ts, delay) < ts
  {
    if ts + delay >= TWO_32 {
      assert !RateLimited(RetryTime(ts, delay), ts);
    }
  }

  predicate IsRejection(status: Err) {
    status == Unauthorized || status == Forbidden
  }

  predicate JustRejected(log: seq<Step>) {
    log != [] && log[|log| - 1].Sent? && IsRejection(log[|log| - 1].status)
  }

  predicate JustAuthenticated(log: seq<Step>) {
    log != [] && log[|log| - 1].Authenticated? && log[|log| - 1].results != [] &&
    log[|log| - 1].results[|log[|log| - 1].results| - 1] == Ok
  }

  /** The retry time the history has left behind. */
  function LastRetry(log: seq<Step>): uint32 {
    if log == [] then 0
    else if log[|log| - 1].Sent? then log[|log| - 1].retryAfter
    else LastRetry(log[..|log| - 1])
  }

  predicate Admitted(before: seq<Step>, g: Gate) {
    g.retryAfter == LastRetry(before) && g.retryAfter <= g.rate &&
    !JustRejected(before) &&
    if g.renewed then JustAuthenticated(before)
    else g.token != [] && !AboutToExpire(g.expiry, g.now)
  }

  /** One or two token requests, the second only because of a time mismatch. */
  predicate Requested(results: seq<Err>) {
    1 <= |results| <= 2 && (|results| == 2 <==> results[0] == TimeMismatch)
  }

  predicate Possible(before: seq<Step>, s: Step) {
    match s
    case Authenticated(results) => Requested(results)
    case Sent(gate, _, _) => Admitted(before, gate)
  }

  predicate History(log: seq<Step>) {
    log == [] || (History(log[..|log| - 1]) && Possible(log[..|log| - 1], log[|log| - 1]))
  }

  lemma HistorySnoc(log: seq<Step>, s: Step)
    requires History(log) && Possible(log, s)
    ensures History(log + [s])
    ensures LastRetry(log + [s]) == if s.Sent? then s.retryAfter else LastRetry(log)
    ensures JustRejected(log + [s]) <==> s.Sent? && IsRejection(s.status)
  {
    assert (log + [s])[..|log|] == log;
  }

  lemma {:induction false} HistoryAt(log: seq<Step>, i: nat)
    requires History(log) && i < |log|
    ensures History(log[..i]) && Possible(log[..i], log[i])
    decreases |log|
  {
    var before := log[..|log| - 1];
    if i < |before| {
      HistoryAt(before, i);
      assert before[..i] == log[..i];
    }
  }

  /** Every HTTP send of every run was made when the retry time had passed. If authentication was
      called for it, that returned OK just before; if not, the client had a token that was valid
      for ten more minutes. */
  lemma SendsAdmitted(log: seq<Step>, i: nat)
    requires History(log) && i < |log| && log[i].Sent?
    ensures var g := log[i].gate;
      g.retryAfter <= g.rate && g.retryAfter == LastRetry(log[..i])
    ensures var g := log[i].gate;
      if g.renewed then
        i > 0 && log[i - 1].Authenticated? && log[i - 1].results != [] &&
        log[i - 1].results[|log[i - 1].results| - 1] == Ok
      else g.token != [] && (g.now + 600 < 0x1_0000_0000 ==> g.expiry >= g.now + 600)
  {
    hide History, LastRetry, JustRejected;
    HistoryAt(log, i);
  }

  /** After a 401 or 403 the next thing a client does is to authenticate. */
  lemma RejectionRenews(log: seq<Step>, i: nat)
    requires History(log) && i + 1 < |log|
    requires log[i].Sent? && (log[i].status == Unauthorized || log[i].status == Forbidden)
    ensures log[i + 1].Authenticated? && 1 <= |log[i + 1].results| <= 2
    ensures |log[i + 1].results| == 2 <==> log[i + 1].results[0] == TimeMismatch
  {
    HistoryAt(log, i + 1);
    assert log[..i + 1][i] == log[i];
  }

  /** The retry time left behind by one send holds back the next one, however many
      authentications come in between. */
  lemma {:induction false} RetryHonoured(log: seq<Step>, i: nat, j: nat)
    requires History(log) && i < j < |log| && log[i].Sent? && log[j].Sent?
    requires forall k :: i < k < j ==> log[k].Authenticated?
    ensures log[i].retryAfter <= log[j].gate.rate
  {
    HistoryAt(log, j);
    RetryKept(log[..j], i);
  }

  lemma {:induction false} RetryKept(log: seq<Step>, i: nat)
    requires i < |log| && log[i].Sent?
    requires forall k :: i < k < |log| ==> log[k].Authenticated?
    ensures LastRetry(log) == log[i].retryAfter
    decreases |log|
  {
    if i < |log| - 1 {
      RetryKept(log[..|log| - 1], i);
    }
  }

  // ----- token requests over a whole run -----

  function Requests(log: seq<Step>): nat {
    if log == [] then 0
    else Requests(log[..|log| - 1]) +
         match log[|log| - 1] case Authenticated(results) => |results| case _ => 0
  }

  function Authentications(log: seq<Step>): nat {
    if log == [] then 0
    else Authentications(log[..|log| - 1]) + if log[|log| - 1].Authenticated? then 1 else 0
  }

  lemma {:induction false} RequestsBounded(log: seq<Step>)
    requires History(log)
    ensures Authentications(log) <= Requests(log) <= 2 * Authentications(log)
    decreases |log|
  {
    if log != [] {
      RequestsBounded(log[..|log| - 1]);
    }
  }
}
