// What goes over the wire, in bytes and numbers: the responses that are understood, the fields
// that are looked for, the requests that are sent.

module Wire {
  import opened AuthScanner
  import opened Authentication
  import opened BodyTheory
  import opened Bytes
  import opened Chunked
  import opened Delivery
  import opened Errors
  import opened HttpGrammar
  import opened KeyMatcher
  import opened Network
  import opened OAuth
  import opened OAuthText
  import opened Options
  import opened Receiver
  import opened Replies
  import opened Requests
  import opened RoundTrip
  import opened SendResponse
  import opened Tracking
  import opened Utils

  // ----- responses -----

  /** A printed response, byte by byte. */
  lemma ResponseBytes(r: Response)
    ensures Print(r) ==
      ((Ascii("HTTP/") + r.major + [46] + r.minor + [32]) +
       ((r.code + [32]) + ((r.reason + [13, 10]) + FieldLines(r.fields)))) + r.body
    ensures FieldLines([]) == [13, 10]
    ensures r.fields != [] ==>
      var f := r.fields[0];
      FieldLines(r.fields) ==
      ((f.key + [58] + seq(f.pad, _ => 32) + f.val) + [13, 10]) + FieldLines(r.fields[1..])
  {
    hide Ascii;
    if r.fields != [] {
      var f := r.fields[0];
      assert Spaces(f.pad) == seq(f.pad, _ => 32);
    }
  }

  ghost predicate NoLineEnd(s: bytes, from: nat) {
    forall i :: from <= i < |s| - 1 ==> s[i] != 13 || s[i + 1] != 10
  }

  /** The header sections that the parser reads, in numbers. */
  lemma ReadableBytes(r: Response)
    ensures Readable(r) <==>
      r.major != [] && (forall c :: c in r.major ==> 48 <= c <= 57 || c == 46) &&
      r.minor != [] && (forall c :: c in r.minor ==> 48 <= c <= 57) &&
      |r.code| == 3 && (forall c :: c in r.code ==> 48 <= c <= 57) &&
      r.reason != [] && NoLineEnd(r.reason, 1) &&
      (forall f :: f in r.fields ==>
         f.key != [] && 58 !in f.key && NoLineEnd(f.key, 0) &&
         f.val != [] && f.val[0] != 32 && NoLineEnd(f.val, 0)) &&
      SizeOf(Reported(r)) != -1
  {
    hide SizeOf, Reported, CrlfAt;
    LineEnds(r.reason, 1);
    forall f | f in r.fields
      ensures FieldFormed(f) <==> f.key != [] && 58 !in f.key && NoLineEnd(f.key, 0) &&
                                  f.val != [] && f.val[0] != 32 && NoLineEnd(f.val, 0)
    {
      LineEnds(f.key, 0);
      LineEnds(f.val, 0);
    }
    InNumbers(r.major);
    InNumbers(r.minor);
    InNumbers(r.code);
    hide FieldFormed, NoLineEnd, AllDigits, Dotted;
  }

  lemma InNumbers(s: bytes)
    ensures AllDigits(s) <==> forall c :: c in s ==> 48 <= c <= 57
    ensures Dotted(s) <==> forall c :: c in s ==> 48 <= c <= 57 || c == 46
  {
    assert forall i :: 0 <= i < |s| ==> s[i] in s;
  }

  lemma LineEnds(s: bytes, from: nat)
    ensures NoLineEnd(s, from) <==> forall i :: from <= i < |s| ==> !CrlfAt(s, i)
  {
    if !NoLineEnd(s, from) {
      var i :| from <= i < |s| - 1 && !(s[i] != 13 || s[i + 1] != 10);
      assert CrlfAt(s, i);
    }
  }

  /** The status code is the number its three digits denote; 204 announces size 0. */
  lemma CodeBytes(r: Response)
    requires |r.code| == 3 && forall i :: 0 <= i < 3 ==> 48 <= r.code[i] <= 57
    ensures var a: int, b: int, c: int := r.code[0], r.code[1], r.code[2];
      Code(r) == (a - 48) * 100 + (b - 48) * 10 + (c - 48)
    ensures r.fields == [] ==> SizeOf(r) == if r.code == Ascii("204") then 0 else -1
  {
    var s := r.code;
    DigitRunUnique(s, 3);
    assert s == (([] + [s[0]]) + [s[1]]) + [s[2]] && s[..3] == s;
    ValueByNumber([], s[0]);
    ValueByNumber([] + [s[0]], s[1]);
    ValueByNumber(([] + [s[0]]) + [s[1]], s[2]);
    if r.fields == [] {
      TwoHundredFour(s);
    }
  }

  lemma TwoHundredFour(s: bytes)
    requires |s| == 3
    ensures s == Ascii("204") <==> s[0] == 50 && s[1] == 48 && s[2] == 52
  {
    assert s == [s[0], s[1], s[2]];
  }

  /** A number at the beginning of a value is read in 32 bits, whatever follows it. */
  lemma NumberRead(n: nat, more: bytes)
    requires more == [] || !(48 <= more[0] <= 57)
    ensures AtouValue(Digits(n, 10) + more) == n % 0x1_0000_0000
  {
    hide Digits, Value;
    var d := Digits(n, 10);
    DigitsShape(n, 10);
    DigitsValue(n, 10);
    DigitRunUnique(d + more, |d|);
    assert (d + more)[..|d|] == d;
  }

  /** Content-Length, in any case: the last one announces the size, as a signed number. */
  lemma {:induction false} LengthField(fields: seq<Field>, size: int32, i: nat)
    requires i < |fields| && SameLetters(fields[i].key, Ascii("Content-Length"))
    requires forall j :: i < j < |fields| ==> !SameLetters(fields[j].key, Ascii("Content-Length"))
    ensures var u := AtouValue(fields[i].val);
      Announced(fields, size) == if u < 0x8000_0000 then u else u - 0x1_0000_0000
    decreases |fields|
  {
    hide AtouValue, Ascii, SameLetters;
    var f, next := fields[0], fields[1..];
    CaseIgnored(f.key, CONTENT_LENGTH);
    NameBytes();
    var size' := if IsContentLength(f.key) then AsInt32(AtouValue(f.val)) else size;
    if i == 0 {
      OtherFields(next, size');
    } else {
      LengthField(next, size', i - 1);
    }
  }

  lemma {:induction false} OtherFields(fields: seq<Field>, size: int32)
    requires forall j :: 0 <= j < |fields| ==> !SameLetters(fields[j].key, Ascii("Content-Length"))
    ensures Announced(fields, size) == size
    decreases |fields|
  {
    hide AtouValue, Ascii, SameLetters;
    if fields != [] {
      CaseIgnored(fields[0].key, CONTENT_LENGTH);
      NameBytes();
      OtherFields(fields[1..], size);
    }
  }

  lemma NameBytes()
    ensures CONTENT_LENGTH == Ascii("Content-Length") && RETRY_AFTER == Ascii("Retry-After")
    ensures X_HERE_TIMESTAMP == Ascii("x-here-timestamp")
  {
  }

  /** Retry-After, in any case: the last one counts. */
  lemma {:induction false} RetryNamed(fields: seq<Field>, i: nat)
    requires i < |fields| && SameLetters(fields[i].key, Ascii("Retry-After"))
    requires forall j :: i < j < |fields| ==> !SameLetters(fields[j].key, Ascii("Retry-After"))
    ensures RetryField(fields) == Some(fields[i].val)
    decreases |fields|
  {
    hide Ascii, SameLetters, SameIgnoringCase;
    NameBytes();
    if i == 0 {
      NoRetry(fields[1..]);
      CaseIgnored(fields[0].key, RETRY_AFTER);
    } else {
      RetryNamed(fields[1..], i - 1);
    }
  }

  lemma {:induction false} NoRetry(fields: seq<Field>)
    requires forall j :: 0 <= j < |fields| ==> !SameLetters(fields[j].key, Ascii("Retry-After"))
    ensures RetryField(fields) == None
    decreases |fields|
  {
    hide Ascii, SameLetters, SameIgnoringCase;
    NameBytes();
    if fields != [] {
      CaseIgnored(fields[0].key, RETRY_AFTER);
      NoRetry(fields[1..]);
    }
  }

  /** x-here-timestamp, in any case: the first one counts. */
  lemma {:induction false} ServerTimeNamed(fields: seq<Field>, i: nat)
    requires i < |fields| && SameLetters(fields[i].key, Ascii("x-here-timestamp"))
    requires forall j :: 0 <= j < i ==> !SameLetters(fields[j].key, Ascii("x-here-timestamp"))
    ensures ServerTime(fields) == Some(fields[i].val)
    decreases |fields|
  {
    hide Ascii, SameLetters, SameIgnoringCase;
    NameBytes();
    CaseIgnored(fields[0].key, X_HERE_TIMESTAMP);
    if i > 0 {
      ServerTimeNamed(fields[1..], i - 1);
    }
  }

  /** The fields of two responses that differ in the case of their keys only. */
  ghost predicate SameButCase(a: seq<Field>, b: seq<Field>) {
    |a| == |b| &&
    forall i :: 0 <= i < |a| ==> SameLetters(a[i].key, b[i].key) && a[i].val == b[i].val
  }

  /** Such responses announce the same size, retry time and server time. */
  lemma {:induction false} CaseOfKeys(a: seq<Field>, b: seq<Field>, size: int32)
    requires SameButCase(a, b)
    ensures Announced(a, size) == Announced(b, size)
    ensures RetryField(a) == RetryField(b) && ServerTime(a) == ServerTime(b)
    decreases |a|
  {
    hide AtouValue, AsInt32;
    if a != [] {
      CaseIgnored(a[0].key, b[0].key);
      SameNames(a[0].key, b[0].key, CONTENT_LENGTH);
      SameNames(a[0].key, b[0].key, RETRY_AFTER);
      SameNames(a[0].key, b[0].key, X_HERE_TIMESTAMP);
      hide SameIgnoringCase, SameLetters;
      CaseOfKeys(a[1..], b[1..], if IsContentLength(a[0].key) then AsInt32(AtouValue(a[0].val)) else size);
    }
  }

  lemma SameNames(a: bytes, b: bytes, name: bytes)
    requires SameIgnoringCase(a, b)
    ensures SameIgnoringCase(a, name) <==> SameIgnoringCase(b, name)
  {
  }

  /** The window takes a printed response if and only if no line of it is longer than 256 bytes. */
  lemma WindowBytes(r: Response)
    requires WellFormed(r)
    ensures Windowed(TLS_BUFFER_SIZE, INITIAL, Print(r)).end == Done <==>
      |r.major| + |r.minor| + 7 <= 256 && |r.reason| + 2 <= 256 &&
      forall f :: f in r.fields ==> |f.key| + f.pad + |f.val| + 3 <= 256
  {
    hide Windowed, WellFormed, Print;
    PrintDelivered(TLS_BUFFER_SIZE, r);
    LinesFit(r.fields);
    CodeFits(r);
  }

  lemma CodeFits(r: Response)
    requires WellFormed(r)
    ensures |r.code| == 3
  {
  }

  lemma {:induction false} LinesFit(fields: seq<Field>)
    ensures FieldsFit(256, fields) <==> forall f :: f in fields ==> |f.key| + f.pad + |f.val| + 3 <= 256
    decreases |fields|
  {
    if fields != [] {
      LinesFit(fields[1..]);
      assert fields[0] in fields && fields == [fields[0]] + fields[1..];
    }
  }

  /** The sizes of key and value are 16-bit numbers. */
  lemma CutBytes(f: Field)
    ensures Cut16(f).key == f.key[..|f.key| % 65536] && Cut16(f).val == f.val[..|f.val| % 65536]
    ensures Cut16(f).pad == f.pad
  {
  }

  // ----- the answer of the token server -----

  /** A body with both keys, in either order: what stands in front of a key does not contain it
      and ends with a byte foreign to it, and the second key is not in front of the first. */
  ghost predicate TokenBody(t: bytes, u: bytes, gap: bytes, token: bytes,
                            v: bytes, gap2: bytes, digits: bytes, end: byte, rest: bytes) {
    var name, expires := Ascii("\"accessToken\""), Ascii("\"expiresIn\"");
    var x := (u + name) + ((gap + [34]) + (token + [34]));
    var y := (v + expires) + (gap2 + (digits + [end]));
    Plain(name, u) && 34 !in gap && 34 !in token && |token| < 1024 &&
    Plain(expires, v) && (forall c :: c in gap2 ==> !(48 <= c <= 57)) &&
    digits != [] && (forall c :: c in digits ==> 48 <= c <= 57) && !(48 <= end <= 57) &&
    ((t == x + (y + rest) && Absent(expires, u + name)) || (t == y + (x + rest) && Absent(name, v + expires)))
  }

  /** Such a body with status 200 gives every client that token, terminated, and that expiry,
      counted from the clock in 32 bits. */
  lemma TokenAnswer(clock: Clock, a: Auth, r: Response, u: bytes, gap: bytes, token: bytes,
                    v: bytes, gap2: bytes, digits: bytes, end: byte, rest: bytes)
    requires Fresh(a) && WellFormed(r) && HeadFits(256, r) && r.code == Ascii("200")
    requires TokenBody(r.body, u, gap, token, v, gap2, digits, end, rest)
    ensures var o := AuthOutcome(clock, a, Print(r));
      o.0 == Ok && |o.1.token| == 1024 && o.1.token[..|token|] == token && o.1.token[|token|] == 0 &&
      o.1.token[|token| + 1..] == a.token[|token| + 1..] && o.1.timeDiff == a.timeDiff &&
      o.1.expiry == (Value(digits, 10) + clock.ts) % 0x1_0000_0000
  {
    hide AuthOutcome, WellFormed, HeadFits, Value, Plain, Absent, Print, Holds;
    CodeIs200(r);
    KeyBytes();
    BodyHolds(r.body, u, gap, token, v, gap2, digits, end, rest);
    HoldsGrants(clock, r, token, digits);
    assert TokenStored(clock, a, AuthOutcome(clock, a, Print(r)), token, digits);
  }

  lemma CodeIs200(r: Response)
    requires r.code == Ascii("200")
    ensures Code(r) == 200
  {
    CodeBytes(r);
  }

  lemma KeyBytes()
    ensures TOKEN_KEY == Ascii("\"accessToken\"") && EXPIRY_KEY == Ascii("\"expiresIn\"")
  {
  }

  lemma BodyHolds(t: bytes, u: bytes, gap: bytes, token: bytes,
                  v: bytes, gap2: bytes, digits: bytes, end: byte, rest: bytes)
    requires TokenBody(t, u, gap, token, v, gap2, digits, end, rest)
    ensures Holds(t, token, digits)
  {
    hide Plain, Absent, Holds, Ascii;
    KeyBytes();
    assert forall i :: 0 <= i < |digits| ==> digits[i] in digits;
    PlainHolds(t, u, gap, token, v, gap2, digits, end, rest);
  }

  // ----- requests -----

  function CommonText(id: Option<bytes>, agent: bytes, scheme: bytes): bytes {
    (match id case None => [] case Some(v) => Ascii("x-request-id") + [58] + v + [13, 10]) +
    ((if agent == [] then [] else Ascii("User-Agent") + [58] + agent + [13, 10]) +
     (Ascii("Authorization") + [58] + scheme))
  }

  /** A token request. */
  function TokenRequestText(host: bytes, id: Option<bytes>, agent: bytes, header: bytes): bytes {
    ((Ascii("POST /v2/token HTTP/1.1") + [13, 10]) +
     ((Ascii("Host") + [58] + host + [13, 10]) +
      (((Ascii("Connection") + [58] + Ascii("close") + [13, 10]) +
        (Ascii("Content-Length") + [58] + Ascii("0") + [13, 10])) +
       CommonText(id, agent, [])))) +
    header + [13, 10] + [13, 10]
  }

  lemma CommonBytes(h: Section, id: Option<bytes>, agent: bytes)
    ensures OptionalField(X_REQUEST_ID, id) + (OptionalField(USER_AGENT, Agent(agent)) + Credentials(h)) ==
            CommonText(id, agent, h.scheme)
  {
    hide Ascii;
  }

  lemma TokenRequestBytes(host: bytes, id: Option<bytes>, agent: bytes, header: bytes)
    ensures AuthRequest(HeadText(AuthHead(), host, id, agent), header) ==
            TokenRequestText(host, id, agent, header)
  {
    hide Ascii, CommonText, OptionalField, Agent, Credentials;
    CommonBytes(AuthHead(), id, agent);
  }

  /** What HttpAuth says about its request: a token request whose header is signed, with the nonce
      of this seed and this timestamp. */
  lemma AskedBytes(c: Client, env: Environment, n: nat, request: bytes, seed: uint32, ts: uint32)
    returns (header: bytes, nonce: bytes)
    requires c.Asks(env, n, request, seed, ts)
    ensures env.link(n).Linked? &&
            request == TokenRequestText(c.baseUrl, env.link(n).requestId, c.userAgent, header)
    ensures SignedHeader(header, env.provider, c.baseUrl, c.id, nonce, Digits(ts, 10), c.secret)
    ensures |nonce| == 10 && forall i :: 0 <= i < 10 ==> nonce[i] == 48 + env.rand(seed, i) % 10
  {
    hide HeaderText, SignedHeader, NonceText, TokenRequestText, Digits, HeadText, AuthRequest;
    nonce := NonceText(env.rand, seed, NONCE_VAL_SIZE);
    header := HeaderText(env.provider, c.baseUrl, Pairs(c.id, nonce, ts), c.secret);
    TokenRequestBytes(c.baseUrl, env.link(n).requestId, c.userAgent, header);
    HeaderInBytes(env.provider, c.baseUrl, c.id, nonce, ts, c.secret);
    forall i | 0 <= i < 10 ensures nonce[i] == 48 + env.rand(seed, i) % 10 {
      NonceDrawn(env.rand, seed, 10, i);
    }
  }

  /** A send request: only a request for the status alone is asynchronous, the content type is
      that of the data, and a Protobuf answer is asked for. */
  function SendLine(resp: RespType): bytes {
    match resp
    case StatusOnly => Ascii("POST /v2/") + Ascii("?async=true") + Ascii(" HTTP/1.1") + [13, 10]
    case WithData => Ascii("POST /v2/") + [] + Ascii(" HTTP/1.1") + [13, 10]
    case WithDataProtobuf => Ascii("POST /v2/") + [] + Ascii(" HTTP/1.1") + [13, 10]
  }

  function SendFixed(req: ReqType, resp: RespType): bytes {
    (Ascii("Connection") + [58] + Ascii("close") + [13, 10]) +
    (Ascii("Transfer-Encoding") + [58] + Ascii("chunked") + [13, 10]) +
    (match req
     case DataJson => Ascii("Content-Type") + [58] + Ascii("application/json") + [13, 10]
     case DataProtobuf => Ascii("Content-Type") + [58] + Ascii("application/octet-stream") + [13, 10]) +
    (match resp
     case StatusOnly => []
     case WithData => []
     case WithDataProtobuf => Ascii("Accept") + [58] + Ascii("application/octet-stream") + [13, 10])
  }

  function SendRequestText(req: ReqType, resp: RespType, host: bytes, id: Option<bytes>, agent: bytes,
                           token: bytes, chunks: seq<bytes>): bytes {
    (SendLine(resp) +
     ((Ascii("Host") + [58] + host + [13, 10]) +
      (SendFixed(req, resp) + CommonText(id, agent, Ascii("Bearer "))))) +
    token + [13, 10] + [13, 10] + ChunkedText(chunks)
  }

  lemma SendHeadBytes(req: ReqType, resp: RespType)
    ensures var h := SendHead(req, resp);
      h.line == SendLine(resp) && h.fixed == SendFixed(req, resp) && h.scheme == Ascii("Bearer ")
  {
    hide Ascii;
  }

  lemma SendRequestBytes(req: ReqType, resp: RespType, host: bytes, id: Option<bytes>, agent: bytes,
                         token: bytes, chunks: seq<bytes>)
    ensures SendRequest(HeadText(SendHead(req, resp), host, id, agent), token, chunks) ==
            SendRequestText(req, resp, host, id, agent, token, chunks)
  {
    hide Ascii, ChunkedText, CommonText, OptionalField, Agent, Credentials, SendLine, SendFixed, SendHead;
    SendHeadBytes(req, resp);
    CommonBytes(SendHead(req, resp), id, agent);
  }

  /** A chunk, and the one that ends a body. */
  lemma ChunkBytes(d: bytes)
    ensures ChunkText(d) == Digits(|d|, 16) + [13, 10] + d + [13, 10]
    ensures ChunkedText([]) == [48, 13, 10, 13, 10]
  {
  }
}
