// The OAuth header of src/here_tracking_oauth.c and the signature base string of sections
// 3.4.1.1 and 3.4.1.3.2 of RFC 5849.

module OAuthText {
  import opened Bytes
  import opened Percent
  import opened Utils

  const DEVICE_ID_SIZE: nat := 36
  const DEVICE_SECRET_SIZE: nat := 43
  const BASE_URL_SIZE: nat := 32
  const NONCE_VAL_SIZE: nat := 10
  const HMAC_SHA256_OUT_SIZE: nat := 32
  const WORK_BUF_SIZE: nat := 384
  const MIN_OUT_SIZE: nat := 384

  const OAUTH: bytes := Ascii("OAuth")
  const CONSUMER_KEY: bytes := Ascii("oauth_consumer_key")
  const NONCE: bytes := Ascii("oauth_nonce")
  const SIGNATURE: bytes := Ascii("oauth_signature")
  const SIGNATURE_METHOD: bytes := Ascii("oauth_signature_method")
  const HMAC_SHA256: bytes := Ascii("HMAC-SHA256")
  const TIMESTAMP: bytes := Ascii("oauth_timestamp")
  const VERSION: bytes := Ascii("oauth_version")
  const VERSION_1_0: bytes := Ascii("1.0")
  const POST: bytes := Ascii("POST")
  const HTTPS: bytes := Ascii("https://")
  const PATH_VERSION: bytes := Ascii("/v2")
  const PATH_TOKEN: bytes := Ascii("/token")

  /** A parameter name and its value. */
  type Pair = (bytes, bytes)

  function Pairs(id: bytes, nonce: bytes, ts: uint32): seq<Pair> {
    [(CONSUMER_KEY, id), (NONCE, nonce), (SIGNATURE_METHOD, HMAC_SHA256),
     (TIMESTAMP, Digits(ts, 10)), (VERSION, VERSION_1_0)]
  }

  // ----- what the code writes -----

  /** One key="value", of the header. */
  function HeaderPair(p: Pair): bytes {
    p.0 + [EQUALS, QUOTE] + p.1 + [QUOTE, COMMA]
  }

  function HeaderPairs(ps: seq<Pair>): bytes {
    if ps == [] then [] else HeaderPair(ps[0]) + HeaderPairs(ps[1..])
  }

  /** One pair of the base string: the separators are encoded, the key and value are not. */
  function SignedPair(p: Pair): bytes {
    p.0 + Encode([EQUALS]) + p.1
  }

  function SignedPairs(ps: seq<Pair>): bytes {
    if ps == [] then []
    else if |ps| == 1 then SignedPair(ps[0])
    else SignedPair(ps[0]) + Encode([AMPERSAND]) + SignedPairs(ps[1..])
  }

  function UriText(host: bytes): bytes {
    Encode(HTTPS) + host + Encode(PATH_VERSION) + Encode(PATH_TOKEN)
  }

  function BaseString(host: bytes, ps: seq<Pair>): (r: bytes)
    ensures |r| >= |POST| + 2
  {
    POST + [AMPERSAND] + UriText(host) + [AMPERSAND] + SignedPairs(ps)
  }

  // ----- what the RFC asks for -----

  /** Section 3.4.1.3.2: encoded names and values, joined by "=" and "&". */
  function Normalized(ps: seq<Pair>): bytes {
    if ps == [] then []
    else if |ps| == 1 then Encode(ps[0].0) + [EQUALS] + Encode(ps[0].1)
    else Encode(ps[0].0) + [EQUALS] + Encode(ps[0].1) + [AMPERSAND] + Normalized(ps[1..])
  }

  /** Section 3.4.1.1: method, encoded base string URI and encoded normalized parameters. */
  function RfcBaseString(verb: bytes, uri: bytes, ps: seq<Pair>): bytes {
    verb + [AMPERSAND] + Encode(uri) + [AMPERSAND] + Encode(Normalized(ps))
  }

  /** Ascending byte order. */
  ghost predicate Less(a: bytes, b: bytes) {
    exists i :: 0 <= i < |b| && i <= |a| && a[..i] == b[..i] && (i == |a| || a[i] < b[i])
  }

  ghost predicate SortedByName(ps: seq<Pair>) {
    forall i :: 0 <= i < |ps| - 1 ==> Less(Encode(ps[i].0), Encode(ps[i + 1].0))
  }

  // ----- the code against the RFC -----

  lemma NamesUnreserved()
    ensures AllUnreserved(CONSUMER_KEY) && AllUnreserved(NONCE) && AllUnreserved(SIGNATURE_METHOD)
    ensures AllUnreserved(TIMESTAMP) && AllUnreserved(VERSION)
    ensures AllUnreserved(HMAC_SHA256) && AllUnreserved(VERSION_1_0)
  {
  }

  /** The five names are written in the order the RFC sorts them. */
  lemma PairsSorted(id: bytes, nonce: bytes, ts: uint32)
    ensures SortedByName(Pairs(id, nonce, ts))
  {
    hide Less, Encode, AllUnreserved, Digits, Ascii;
    NamesUnreserved();
    EncodeIdentity(CONSUMER_KEY);
    EncodeIdentity(NONCE);
    EncodeIdentity(SIGNATURE_METHOD);
    EncodeIdentity(TIMESTAMP);
    EncodeIdentity(VERSION);
    NamesAscend();
  }

  lemma NamesAscend()
    ensures Less(CONSUMER_KEY, NONCE) && Less(NONCE, SIGNATURE_METHOD)
    ensures Less(SIGNATURE_METHOD, TIMESTAMP) && Less(TIMESTAMP, VERSION)
  {
    hide Less;
    LessAtSix(CONSUMER_KEY, NONCE);
    LessAtSix(NONCE, SIGNATURE_METHOD);
    LessAtSix(SIGNATURE_METHOD, TIMESTAMP);
    LessAtSix(TIMESTAMP, VERSION);
  }

  lemma LessAtSix(a: bytes, b: bytes)
    requires |a| > 6 && |b| > 6 && a[6] < b[6]
    requires a[0] == b[0] && a[1] == b[1] && a[2] == b[2] && a[3] == b[3] && a[4] == b[4] && a[5] == b[5]
    ensures Less(a, b)
  {
    assert a[..6] == b[..6];
  }

  /** Encoded twice, as the RFC asks: nothing happens to unreserved text, and other text grows. */
  lemma TwiceEncoded(s: bytes)
    ensures |Encode(Encode(s))| >= |Encode(s)| >= |s|
    ensures |Encode(s)| == |s| <==> AllUnreserved(s)
    ensures AllUnreserved(s) ==> Encode(Encode(s)) == s
  {
    EncodeLength(s);
    EncodeLength(Encode(s));
    ReservedNone(s);
    EncodeIdentity(s);
  }

  ghost predicate PairUnreserved(p: Pair) {
    AllUnreserved(p.0) && AllUnreserved(p.1)
  }

  /** Encoding the RFC's parameters and the code's comes to the same up to their escapes. */
  ghost predicate Against(a: bytes, b: bytes, unreserved: bool) {
    |a| >= |b| && (|a| == |b| ==> unreserved) && (unreserved ==> a == b)
  }

  lemma AgainstAppend(a: bytes, b: bytes, p: bool, mid: bytes, c: bytes, d: bytes, q: bool)
    requires Against(a, b, p) && Against(c, d, q)
    ensures Against(a + mid + c, b + mid + d, p && q)
  {
  }

  lemma SignedPairAgainst(p: Pair)
    ensures Against(Encode(Encode(p.0) + [EQUALS] + Encode(p.1)), SignedPair(p), PairUnreserved(p))
  {
    hide Encode, AllUnreserved;
    EncodeFour(Encode(p.0), [EQUALS], Encode(p.1));
    TwiceEncoded(p.0);
    TwiceEncoded(p.1);
  }

  lemma {:induction false} SignedAgainstNormalized(ps: seq<Pair>)
    ensures Against(Encode(Normalized(ps)), SignedPairs(ps), forall p :: p in ps ==> PairUnreserved(p))
  {
    if ps == [] {
      assert Encode([]) == [];
    } else {
      SignedPairAgainst(ps[0]);
      if |ps| == 1 {
        assert ps == [ps[0]];
      } else {
        SignedAgainstNormalized(ps[1..]);
        SignedMore(ps);
      }
    }
  }

  lemma SignedMore(ps: seq<Pair>)
    requires |ps| >= 2
    requires Against(Encode(Encode(ps[0].0) + [EQUALS] + Encode(ps[0].1)), SignedPair(ps[0]),
                     PairUnreserved(ps[0]))
    requires Against(Encode(Normalized(ps[1..])), SignedPairs(ps[1..]),
                     forall p :: p in ps[1..] ==> PairUnreserved(p))
    ensures Against(Encode(Normalized(ps)), SignedPairs(ps), forall p :: p in ps ==> PairUnreserved(p))
  {
    hide Encode, PairUnreserved, SignedPair, Against;
    var head, more := Encode(ps[0].0) + [EQUALS] + Encode(ps[0].1), Normalized(ps[1..]);
    EncodeFour(head, [AMPERSAND], more);
    AgainstAppend(Encode(head), SignedPair(ps[0]), PairUnreserved(ps[0]), Encode([AMPERSAND]),
                  Encode(more), SignedPairs(ps[1..]), forall p :: p in ps[1..] ==> PairUnreserved(p));
    assert ps == [ps[0]] + ps[1..];
  }

  lemma EncodeFour(a: bytes, b: bytes, c: bytes)
    ensures Encode(a + b + c) == Encode(a) + Encode(b) + Encode(c)
  {
    EncodeAppend(a + b, c);
    EncodeAppend(a, b);
  }

  lemma UriAgainstEncoded(host: bytes)
    ensures var uri := HTTPS + host + PATH_VERSION + PATH_TOKEN;
      |Encode(uri)| >= |UriText(host)| &&
      (|Encode(uri)| == |UriText(host)| ==> AllUnreserved(host)) &&
      (AllUnreserved(host) ==> Encode(uri) == UriText(host))
  {
    EncodeAppend(HTTPS + host + PATH_VERSION, PATH_TOKEN);
    EncodeAppend(HTTPS + host, PATH_VERSION);
    EncodeAppend(HTTPS, host);
    TwiceEncoded(host);
    EncodeIdentity(host);
  }

  /** The base string is the RFC's if and only if host and device id need no escaping: the code
      writes both without encoding them. */
  lemma BaseStringExact(host: bytes, id: bytes, nonce: bytes, ts: uint32)
    requires AllUnreserved(nonce)
    ensures var ps := Pairs(id, nonce, ts);
      var uri := HTTPS + host + PATH_VERSION + PATH_TOKEN;
      BaseString(host, ps) == RfcBaseString(POST, uri, ps) <==> AllUnreserved(host) && AllUnreserved(id)
  {
    hide Encode, SignedPairs, Normalized, UriText, AllUnreserved;
    var ps := Pairs(id, nonce, ts);
    var uri := HTTPS + host + PATH_VERSION + PATH_TOKEN;
    UriAgainstEncoded(host);
    SignedAgainstNormalized(ps);
    PairsUnreserved(id, nonce, ts);
  }

  lemma PairsUnreserved(id: bytes, nonce: bytes, ts: uint32)
    requires AllUnreserved(nonce)
    ensures (forall p :: p in Pairs(id, nonce, ts) ==> PairUnreserved(p)) <==> AllUnreserved(id)
  {
    NamesUnreserved();
    DigitsShape(ts, 10);
    var ps := Pairs(id, nonce, ts);
    assert ps[0] in ps;
  }
}

/** HMAC-SHA256 and Base64 as their interfaces promise them. */
module Crypto {
  import opened Bytes
  import opened Errors
  import opened OAuthText

  const BASE64_SIZE: nat := 44

  datatype Provider = Provider(hmac: (bytes, bytes) -> bytes, base64: bytes -> bytes) {
    /** The sizes the interfaces fix. */
    ghost predicate Sized() {
      (forall m, k :: |hmac(m, k)| == 32) && (forall b :: |b| == 32 ==> |base64(b)| == 44)
    }
  }

  /** here_tracking_base64_enc_size. */
  function Base64EncSize(size: nat): nat {
    var n := 4 * size / 3 + 3;
    n - n % 4 + 1
  }

  /** hmac_sha256 of two stretches of a buffer into a third. */
  method HmacSha256(c: Provider, mem: array<byte>, msgSize: nat, keyAt: nat, keySize: nat,
                    outAt: nat, outSize: nat)
    returns (err: Err, size: nat)
    requires c.Sized()
    requires msgSize <= mem.Length && keyAt + keySize <= mem.Length && outAt + outSize <= mem.Length
    modifies mem
    ensures err == if outSize >= HMAC_SHA256_OUT_SIZE then Ok else BufferTooSmall
    ensures err == Ok ==> size == HMAC_SHA256_OUT_SIZE
    ensures err == Ok ==>
      mem[outAt..outAt + size] == c.hmac(old(mem[..msgSize]), old(mem[keyAt..keyAt + keySize]))
    ensures forall i :: 0 <= i < outAt ==> mem[i] == old(mem[i])
  {
    err, size := BufferTooSmall, outSize;
    if outSize >= HMAC_SHA256_OUT_SIZE {
      var h := c.hmac(mem[..msgSize], mem[keyAt..keyAt + keySize]);
      size := HMAC_SHA256_OUT_SIZE;
      forall i | 0 <= i < size {
        mem[outAt + i] := h[i];
      }
      err := Ok;
    }
  }

  /** base64_enc of one stretch of a buffer into another; the encoder may write a terminator
      behind its output. Input and output must not overlap. */
  method Base64Enc(c: Provider, mem: array<byte>, inAt: nat, inSize: nat, outSize: nat)
    returns (err: Err, size: nat)
    requires c.Sized() && inSize == HMAC_SHA256_OUT_SIZE
    requires inAt + inSize <= mem.Length && outSize <= mem.Length
    requires Base64EncSize(inSize) <= outSize ==> Base64EncSize(inSize) <= inAt
    modifies mem
    ensures err == if Base64EncSize(inSize) <= outSize then Ok else BufferTooSmall
    ensures err == Ok ==> size == BASE64_SIZE <= mem.Length &&
                          mem[..size] == c.base64(old(mem[inAt..inAt + inSize]))
  {
    err, size := BufferTooSmall, outSize;
    if Base64EncSize(inSize) <= outSize {
      var b := c.base64(mem[inAt..inAt + inSize]);
      size := BASE64_SIZE;
      forall i | 0 <= i < size {
        mem[i] := b[i];
      }
      mem[size] := NUL;
      err := Ok;
    }
  }
}

module OAuth {
  import opened Bytes
  import opened Crypto
  import opened DataBuffers
  import opened Errors
  import opened OAuthText
  import opened Options
  import opened Percent
  import opened Seeds
  import opened Utils

  type Rand = (uint32, nat) -> nat

  /** The answer of one clock call. */
  datatype Reading = Reading(err: Err, ts: uint32)

  /** key, val, key_len and val_len of a parameter: positions in the output buffer. */
  datatype Param = Param(key: nat, keyLen: nat, val: nat, valLen: nat)

  /** A parameter that points at this pair in these contents. */
  ghost predicate PointsTo(p: Param, c: bytes, pair: Pair) {
    p.key + p.keyLen <= |c| && c[p.key..p.key + p.keyLen] == pair.0 &&
    p.val + p.valLen <= |c| && c[p.val..p.val + p.valLen] == pair.1
  }

  ghost predicate AllPointTo(ps: seq<Param>, c: bytes, pairs: seq<Pair>) {
    |ps| == |pairs| && forall i :: 0 <= i < |ps| ==> PointsTo(ps[i], c, pairs[i])
  }

  /** Appending to a buffer leaves the pairs its parameters point at alone. */
  lemma StillPointsTo(p: Param, c: bytes, pair: Pair, more: bytes)
    requires PointsTo(p, c, pair)
    ensures PointsTo(p, c + more, pair)
  {
    assert (c + more)[p.key..p.key + p.keyLen] == c[p.key..p.key + p.keyLen];
    assert (c + more)[p.val..p.val + p.valLen] == c[p.val..p.val + p.valLen];
  }

  /** A pair written behind c is where the parameter says. */
  lemma PointsAtNew(c: bytes, pair: Pair)
    ensures PointsTo(Param(|c|, |pair.0|, |c| + |pair.0| + 2, |pair.1|), c + HeaderPair(pair), pair)
  {
    var all := c + HeaderPair(pair);
    var v := |c| + |pair.0| + 2;
    assert all[|c|..|c| + |pair.0|] == pair.0;
    assert all[v..v + |pair.1|] == pair.1;
  }

  function NonceText(rand: Rand, seed: uint32, n: nat): (s: bytes)
    ensures |s| == n && AllDigits(s)
  {
    if n == 0 then [] else NonceText(rand, seed, n - 1) + [rand(seed, n - 1) % 10 + ZERO]
  }

  /** Every digit of a nonce is a number of its own, drawn from this seed. */
  lemma {:induction false} NonceDrawn(rand: Rand, seed: uint32, n: nat, i: nat)
    requires i < n
    ensures NonceText(rand, seed, n)[i] == 48 + rand(seed, i) % 10
  {
    if i < n - 1 {
      NonceDrawn(rand, seed, n - 1, i);
    }
  }

  function Shifted(ts: uint32, diff: int32): uint32 {
    (ts + diff) % TWO_32
  }

  /** The error with which the clock stops a header, or Ok. */
  function FirstErr(nonceNow: Reading, stampNow: Reading): Err {
    if nonceNow.err != Ok then nonceNow.err else stampNow.err
  }

  // ----- the parameters -----

  /** key=" in front of a value; the result is where the value starts. */
  method Open(buf: DataBuffer, key: bytes) returns (err: Err, val: nat)
    requires buf.Valid()
    modifies buf`size, buf.buffer
    ensures buf.Valid()
    ensures |old(buf.Contents())| + |key| + 2 <= buf.capacity ==> err == Ok
    ensures err == Ok ==> buf.Contents() == old(buf.Contents()) + (key + [EQUALS, QUOTE])
    ensures err == Ok ==> val == |buf.Contents()|
  {
    val := 0;
    err := buf.AddString(key);
    if err == Ok {
      err := buf.AddChar(EQUALS);
    }
    if err == Ok {
      err := buf.AddChar(QUOTE);
      val := buf.size;
    }
  }

  /** ", behind a value. */
  method Close(buf: DataBuffer) returns (err: Err)
    requires buf.Valid()
    modifies buf`size, buf.buffer
    ensures buf.Valid()
    ensures |old(buf.Contents())| + 2 <= buf.capacity ==> err == Ok
    ensures err == Ok ==> buf.Contents() == old(buf.Contents()) + [QUOTE, COMMA]
  {
    err := buf.AddChar(QUOTE);
    if err == Ok {
      err := buf.AddChar(COMMA);
    }
  }

  lemma PairParts(c: bytes, pair: Pair)
    ensures c + (pair.0 + [EQUALS, QUOTE]) + pair.1 + [QUOTE, COMMA] == c + HeaderPair(pair)
    ensures |HeaderPair(pair)| == |pair.0| + |pair.1| + 4
  {
    Assoc(c, pair.0 + [EQUALS, QUOTE], pair.1);
    Assoc(c, pair.0 + [EQUALS, QUOTE] + pair.1, [QUOTE, COMMA]);
  }

  /** add_consumer_key, add_signature_method and add_version: a pair with a given value. */
  method AddPair(buf: DataBuffer, key: bytes, value: bytes) returns (err: Err, param: Param)
    requires buf.Valid() && value != []
    modifies buf`size, buf.buffer
    ensures buf.Valid()
    ensures |old(buf.Contents())| + |HeaderPair((key, value))| <= buf.capacity ==> err == Ok
    ensures err == Ok ==> buf.Contents() == old(buf.Contents()) + HeaderPair((key, value))
    ensures err == Ok ==> PointsTo(param, buf.Contents(), (key, value))
  {
    ghost var c := buf.Contents();
    PairParts(c, (key, value));
    PointsAtNew(c, (key, value));
    param := Param(buf.size, |key|, 0, |value|);
    var val;
    err, val := Open(buf, key);
    if err == Ok {
      param := param.(val := val);
      err := buf.AddData(value);
    }
    if err == Ok {
      err := Close(buf);
    }
  }

  /** add_nonce: ten digits drawn after seeding with a fresh seed. */
  method AddNonce(buf: DataBuffer, source: SeedSource, now: Reading, rand: Rand)
    returns (err: Err, param: Param)
    requires buf.Valid()
    modifies buf`size, buf.buffer, source
    ensures buf.Valid()
    ensures |old(buf.Contents())| + |NONCE| + NONCE_VAL_SIZE + 4 <= buf.capacity ==> err == now.err
    ensures err == Ok ==> source.prevTs == NextSeed(old(source.prevTs), now.ts)
    ensures err == Ok ==> source.asked == old(source.asked) + [now.ts]
    ensures Continued(old(source.Now()), source.Now())
    ensures now.err != Ok ==> err != Ok && source.prevTs == old(source.prevTs)
    ensures err == Ok ==> (source.prevTs > old(source.prevTs) <==> old(source.prevTs) < TWO_32 - 1)
    ensures err == Ok ==>
      var pair := (NONCE, NonceText(rand, source.prevTs, NONCE_VAL_SIZE));
      buf.Contents() == old(buf.Contents()) + HeaderPair(pair) && PointsTo(param, buf.Contents(), pair)
  {
    ghost var c := buf.Contents();
    param := Param(buf.size, |NONCE|, 0, NONCE_VAL_SIZE);
    var val;
    err, val := Open(buf, NONCE);
    if err == Ok {
      param := param.(val := val);
      err := now.err;
    }
    if err == Ok {
      var ts := source.Next(now.ts);
      err := AddRandomDigits(buf, rand, ts);
      PairParts(c, (NONCE, NonceText(rand, ts, NONCE_VAL_SIZE)));
      PointsAtNew(c, (NONCE, NonceText(rand, ts, NONCE_VAL_SIZE)));
    }
    if err == Ok {
      err := Close(buf);
    }
  }

  method AddRandomDigits(buf: DataBuffer, rand: Rand, seed: uint32) returns (err: Err)
    requires buf.Valid()
    modifies buf`size, buf.buffer
    ensures buf.Valid()
    ensures |old(buf.Contents())| + NONCE_VAL_SIZE <= buf.capacity ==> err == Ok
    ensures err == Ok ==> buf.Contents() == old(buf.Contents()) + NonceText(rand, seed, NONCE_VAL_SIZE)
  {
    err := Ok;
    var i := 0;
    while err == Ok && i < NONCE_VAL_SIZE
      invariant 0 <= i <= NONCE_VAL_SIZE && buf.Valid()
      invariant err == Ok ==> buf.Contents() == old(buf.Contents()) + NonceText(rand, seed, i)
      invariant |old(buf.Contents())| + NONCE_VAL_SIZE <= buf.capacity ==> err == Ok
      decreases NONCE_VAL_SIZE - i, if err == Ok then 1 else 0
    {
      err := buf.AddChar(rand(seed, i) % 10 + ZERO);
      i := i + 1;
    }
  }

  /** add_timestamp: the clock corrected by the server's time difference, in 32 bits. */
  method AddTimestamp(buf: DataBuffer, now: Reading, diff: int32) returns (err: Err, param: Param)
    requires buf.Valid()
    modifies buf`size, buf.buffer
    ensures buf.Valid()
    ensures |old(buf.Contents())| + |TIMESTAMP| + 14 <= buf.capacity ==> err == now.err
    ensures now.err != Ok ==> err != Ok
    ensures err == Ok ==>
      var pair := (TIMESTAMP, Digits(Shifted(now.ts, diff), 10));
      buf.Contents() == old(buf.Contents()) + HeaderPair(pair) && |pair.1| <= 10 &&
      PointsTo(param, buf.Contents(), pair)
  {
    ghost var c := buf.Contents();
    var ts := Shifted(now.ts, diff);
    param := Param(buf.size, |TIMESTAMP|, 0, 0);
    PairParts(c, (TIMESTAMP, Digits(ts, 10)));
    PointsAtNew(c, (TIMESTAMP, Digits(ts, 10)));
    var val;
    err, val := Open(buf, TIMESTAMP);
    if err == Ok {
      err := now.err;
    }
    if err == Ok {
      err := buf.AddUtoa(ts, 10);
      param := param.(val := val, valLen := buf.size - val);
    }
    if err == Ok {
      err := Close(buf);
    }
  }

  // ----- the signature -----

  /** One round of the parameter loop of create_base_string, through the pointers in p. */
  method AddSigned(work: DataBuffer, mem: array<byte>, p: Param, last: bool, ghost pair: Pair)
    returns (err: Err)
    requires work.Valid() && mem != work.buffer && PointsTo(p, mem[..], pair)
    requires pair.0 != [] && pair.1 != []
    modifies work`size, work.buffer
    ensures work.Valid()
    ensures var more := SignedPair(pair) + if last then [] else Encode([AMPERSAND]);
      (|old(work.Contents())| + |more| <= work.capacity ==> err == Ok) &&
      (err == Ok ==> work.Contents() == old(work.Contents()) + more)
  {
    hide Encode, SignedPair;
    SignedParts(work.Contents(), pair);
    assert mem[p.key..p.key + p.keyLen] == pair.0 && mem[p.val..p.val + p.valLen] == pair.1;
    err := work.AddData(mem[p.key..p.key + p.keyLen]);
    if err == Ok {
      err := PercentEncode(work, [EQUALS]);
    }
    if err == Ok {
      assert mem[p.val..p.val + p.valLen] == pair.1;
      err := work.AddData(mem[p.val..p.val + p.valLen]);
    }
    if err == Ok && !last {
      err := PercentEncode(work, [AMPERSAND]);
    }
  }

  lemma SignedParts(c: bytes, pair: Pair)
    ensures c + pair.0 + Encode([EQUALS]) + pair.1 == c + SignedPair(pair)
    ensures c + SignedPair(pair) + Encode([AMPERSAND]) == c + (SignedPair(pair) + Encode([AMPERSAND]))
    ensures SignedPair(pair) + [] == SignedPair(pair)
    ensures |SignedPair(pair)| == |pair.0| + |Encode([EQUALS])| + |pair.1|
  {
    hide Encode;
    Assoc(c, pair.0, Encode([EQUALS]));
    Assoc(c, pair.0 + Encode([EQUALS]), pair.1);
    Assoc(c, SignedPair(pair), Encode([AMPERSAND]));
  }

  lemma SignedStep(c: bytes, ps: seq<Pair>, i: nat)
    requires i < |ps|
    ensures var more := SignedPair(ps[i]) + if i == |ps| - 1 then [] else Encode([AMPERSAND]);
      c + SignedPairs(ps[i..]) == (c + more) + SignedPairs(ps[i + 1..])
  {
    hide Encode, SignedPair;
    assert ps[i..][1..] == ps[i + 1..];
    if i == |ps| - 1 {
      assert c + (SignedPair(ps[i]) + []) + [] == c + SignedPair(ps[i]);
    } else {
      Assoc(c, SignedPair(ps[i]) + Encode([AMPERSAND]), SignedPairs(ps[i + 1..]));
    }
  }

  method AddSignedPairs(work: DataBuffer, mem: array<byte>, params: seq<Param>,
                        ghost pairs: seq<Pair>)
    returns (err: Err)
    requires work.Valid() && mem != work.buffer && AllPointTo(params, mem[..], pairs)
    requires forall p :: p in pairs ==> p.0 != [] && p.1 != []
    modifies work`size, work.buffer
    ensures work.Valid()
    ensures |old(work.Contents())| + |SignedPairs(pairs)| <= work.capacity ==> err == Ok
    ensures err == Ok ==> work.Contents() == old(work.Contents()) + SignedPairs(pairs)
  {
    hide SignedPairs, SignedPair, Encode;
    err := Ok;
    var i := 0;
    ghost var all := work.Contents() + SignedPairs(pairs);
    assert pairs[0..] == pairs;
    while err == Ok && i < |params|
      invariant 0 <= i <= |params| && work.Valid()
      invariant err == Ok ==> work.Contents() + SignedPairs(pairs[i..]) == all
      invariant |all| <= work.capacity ==> err == Ok
      decreases |params| - i, if err == Ok then 1 else 0
    {
      SignedStep(work.Contents(), pairs, i);
      assert pairs[i] in pairs;
      err := AddSigned(work, mem, params[i], i == |params| - 1, pairs[i]);
      i := i + 1;
    }
    assert i == |params| ==> pairs[i..] == [];
    NoPairs();
    assert err == Ok ==> work.Contents() + [] == work.Contents();
  }

  lemma NoPairs()
    ensures SignedPairs([]) == []
  {
  }

  method AddUri(work: DataBuffer, baseUrl: bytes) returns (err: Err)
    requires work.Valid()
    modifies work`size, work.buffer
    ensures work.Valid()
    ensures |old(work.Contents())| + |UriText(baseUrl)| <= work.capacity ==> err == Ok
    ensures err == Ok ==> work.Contents() == old(work.Contents()) + UriText(baseUrl)
  {
    hide Encode;
    ghost var c := work.Contents();
    Assoc(c, Encode(HTTPS), baseUrl);
    Assoc(c, Encode(HTTPS) + baseUrl, Encode(PATH_VERSION));
    Assoc(c, Encode(HTTPS) + baseUrl + Encode(PATH_VERSION), Encode(PATH_TOKEN));
    err := PercentEncode(work, HTTPS);
    if err == Ok {
      err := work.AddString(baseUrl);
    }
    if err == Ok {
      err := PercentEncode(work, PATH_VERSION);
    }
    if err == Ok {
      err := PercentEncode(work, PATH_TOKEN);
    }
  }

  /** create_base_string. */
  method CreateBaseString(work: DataBuffer, mem: array<byte>, params: seq<Param>, baseUrl: bytes,
                          ghost pairs: seq<Pair>)
    returns (err: Err)
    requires work.Valid() && mem != work.buffer && AllPointTo(params, mem[..], pairs)
    requires forall p :: p in pairs ==> p.0 != [] && p.1 != []
    requires work.Contents() == []
    modifies work`size, work.buffer
    ensures work.Valid()
    ensures |BaseString(baseUrl, pairs)| <= work.capacity ==> err == Ok
    ensures err == Ok ==> work.Contents() == BaseString(baseUrl, pairs)
  {
    hide SignedPairs, UriText;
    err := work.AddString(POST);
    if err == Ok {
      err := work.AddChar(AMPERSAND);
    }
    if err == Ok {
      assert work.Contents() == POST + [AMPERSAND];
      err := AddUri(work, baseUrl);
    }
    if err == Ok {
      err := work.AddChar(AMPERSAND);
    }
    if err == Ok {
      err := AddSignedPairs(work, mem, params, pairs);
    }
  }

  function Signature(c: Provider, host: bytes, pairs: seq<Pair>, secret: bytes): bytes {
    Encode(c.base64(c.hmac(BaseString(host, pairs), secret + [AMPERSAND])))
  }

  /** What the work buffer has to hold before the Base64 step. */
  function WorkSize(host: bytes, pairs: seq<Pair>): nat {
    |BaseString(host, pairs)| + DEVICE_SECRET_SIZE + 1 + HMAC_SHA256_OUT_SIZE
  }

  /** The key and the HMAC are appended to the base string, whose place the Base64 text takes. */
  method SignWork(work: DataBuffer, secret: bytes, c: Provider) returns (err: Err, size: nat)
    requires work.Valid() && work.capacity == work.buffer.Length && c.Sized()
    requires |secret| == DEVICE_SECRET_SIZE && |work.Contents()| > 0
    modifies work`size, work.buffer
    ensures work.buffer == old(work.buffer)
    ensures |old(work.Contents())| + DEVICE_SECRET_SIZE + 1 + HMAC_SHA256_OUT_SIZE <= work.capacity ==>
              err == Ok
    ensures err == Ok ==> size <= work.buffer.Length
    ensures err == Ok ==>
      work.buffer[..size] == c.base64(c.hmac(old(work.Contents()), secret + [AMPERSAND]))
  {
    var mem, baseSize := work.buffer, work.size;
    ghost var text := work.Contents();
    size := 0;
    err := work.AddData(secret);
    if err == Ok {
      err := work.AddChar(AMPERSAND);
    }
    if err == Ok {
      assert mem[..work.size] == text + (secret + [AMPERSAND]);
      assert mem[..baseSize] == text;
      assert mem[baseSize..baseSize + (DEVICE_SECRET_SIZE + 1)] == secret + [AMPERSAND];
      size := work.capacity - work.size;
      err, size := HmacSha256(c, mem, baseSize, baseSize, DEVICE_SECRET_SIZE + 1, work.size, size);
      if err == Ok {
        err, size := Base64Enc(c, mem, work.size, HMAC_SHA256_OUT_SIZE, work.size);
      }
    }
  }

  /** create_signature_val: base string, key and HMAC side by side in one work buffer, whose
      beginning then takes the Base64 text. */
  method AddSignatureVal(buf: DataBuffer, params: seq<Param>, secret: bytes, baseUrl: bytes,
                         c: Provider, ghost pairs: seq<Pair>)
    returns (err: Err)
    requires buf.Valid() && c.Sized() && |secret| == DEVICE_SECRET_SIZE
    requires AllPointTo(params, buf.Contents(), pairs)
    requires forall p :: p in pairs ==> p.0 != [] && p.1 != []
    modifies buf`size, buf.buffer
    ensures buf.Valid()
    ensures WorkSize(baseUrl, pairs) <= WORK_BUF_SIZE ==>
      |old(buf.Contents())| + |Signature(c, baseUrl, pairs, secret)| <= buf.capacity ==> err == Ok
    ensures err == Ok ==>
      buf.Contents() == old(buf.Contents()) + Signature(c, baseUrl, pairs, secret)
  {
    hide BaseString, Encode, AllPointTo, SignedPairs;
    var workMem := new byte[WORK_BUF_SIZE](_ => 0);
    var work := new DataBuffer(workMem, WORK_BUF_SIZE);
    PointersInMemory(params, buf.Contents(), buf.buffer[..], pairs);
    err := CreateBaseString(work, buf.buffer, params, baseUrl, pairs);
    if err == Ok {
      var size;
      err, size := SignWork(work, secret, c);
      if err == Ok {
        err := PercentEncode(buf, workMem[..size]);
      }
    }
  }

  lemma PointersInMemory(params: seq<Param>, c: bytes, mem: bytes, pairs: seq<Pair>)
    requires AllPointTo(params, c, pairs) && c <= mem
    ensures AllPointTo(params, mem, pairs)
  {
    assert mem == c + mem[|c|..];
    forall i | 0 <= i < |params| ensures PointsTo(params[i], mem, pairs[i]) {
      StillPointsTo(params[i], c, pairs[i], mem[|c|..]);
    }
  }

  // ----- the header -----

  function HeaderText(c: Provider, host: bytes, pairs: seq<Pair>, secret: bytes): bytes {
    OAUTH + [SP] + HeaderPairs(pairs) + (SIGNATURE + [EQUALS, QUOTE]) +
    Signature(c, host, pairs, secret) + [QUOTE]
  }

  /** All five parameters; afterwards the pointers of all of them are good. */
  method AddPairs(buf: DataBuffer, id: bytes, nonceNow: Reading, stampNow: Reading, diff: int32,
                  source: SeedSource, rand: Rand)
    returns (err: Err, params: seq<Param>)
    requires buf.Valid() && |id| == DEVICE_ID_SIZE
    modifies buf`size, buf.buffer, source
    ensures buf.Valid()
    ensures |old(buf.Contents())| + 169 <= buf.capacity ==> err == FirstErr(nonceNow, stampNow)
    ensures FirstErr(nonceNow, stampNow) != Ok ==> err != Ok
    ensures err == Ok ==> source.prevTs == NextSeed(old(source.prevTs), nonceNow.ts)
    ensures err == Ok ==> source.asked == old(source.asked) + [nonceNow.ts]
    ensures Continued(old(source.Now()), source.Now())
    ensures err == Ok ==>
      var ps := Pairs(id, NonceText(rand, source.prevTs, NONCE_VAL_SIZE), Shifted(stampNow.ts, diff));
      buf.Contents() == old(buf.Contents()) + HeaderPairs(ps) &&
      AllPointTo(params, buf.Contents(), ps)
  {
    hide PointsTo, HeaderPair, HeaderPairs, Digits, Upto, NonceText, NextSeed, Continued;
    NothingMade(source.Now());
    PairLengths(id, rand);
    ghost var c0 := buf.Contents();
    var p0, p1, p2, p3, p4 := Param(0, 0, 0, 0), Param(0, 0, 0, 0), Param(0, 0, 0, 0),
                              Param(0, 0, 0, 0), Param(0, 0, 0, 0);
    params := [];
    err, p0 := AddPair(buf, CONSUMER_KEY, id);
    if err != Ok { return; }
    ghost var c1 := buf.Contents();
    err, p1 := AddNonce(buf, source, nonceNow, rand);
    if err != Ok { return; }
    ghost var c2 := buf.Contents();
    err, p2 := AddPair(buf, SIGNATURE_METHOD, HMAC_SHA256);
    if err != Ok { return; }
    ghost var c3 := buf.Contents();
    err, p3 := AddTimestamp(buf, stampNow, diff);
    if err != Ok { return; }
    ghost var c4 := buf.Contents();
    err, p4 := AddPair(buf, VERSION, VERSION_1_0);
    params := [p0, p1, p2, p3, p4];
    if err == Ok {
      ghost var ps := Pairs(id, NonceText(rand, source.prevTs, NONCE_VAL_SIZE),
                            Shifted(stampNow.ts, diff));
      FivePairs(c0, ps);
      FivePointers(params, c0, ps);
    }
  }

  lemma PairLengths(id: bytes, rand: Rand)
    requires |id| == DEVICE_ID_SIZE
    ensures |HeaderPair((CONSUMER_KEY, id))| == 58
    ensures forall s: uint32 :: |HeaderPair((NONCE, NonceText(rand, s, NONCE_VAL_SIZE)))| == 25
    ensures |HeaderPair((SIGNATURE_METHOD, HMAC_SHA256))| == 37
    ensures forall u: uint32 :: |Digits(u, 10)| <= 10 ==> |HeaderPair((TIMESTAMP, Digits(u, 10)))| <= 29
    ensures |HeaderPair((VERSION, VERSION_1_0))| == 20
    ensures |NONCE| + NONCE_VAL_SIZE + 4 == 25 && |TIMESTAMP| + 14 == 29
  {
    hide Digits, NonceText;
  }

  function Upto(c: bytes, ps: seq<Pair>, n: nat): bytes
    requires n <= |ps|
  {
    if n == 0 then c else Upto(c, ps, n - 1) + HeaderPair(ps[n - 1])
  }

  lemma {:induction false} UptoSplits(c: bytes, ps: seq<Pair>, n: nat)
    requires n <= |ps|
    ensures c + HeaderPairs(ps) == Upto(c, ps, n) + HeaderPairs(ps[n..])
  {
    hide HeaderPair;
    if n == 0 {
      assert ps[0..] == ps;
    } else {
      UptoSplits(c, ps, n - 1);
      assert ps[n - 1..][1..] == ps[n..];
      Assoc(Upto(c, ps, n - 1), HeaderPair(ps[n - 1]), HeaderPairs(ps[n..]));
    }
  }

  lemma FivePairs(c: bytes, ps: seq<Pair>)
    requires |ps| == 5
    ensures Upto(c, ps, 5) == c + HeaderPairs(ps)
    ensures Upto(c, ps, 1) == c + HeaderPair(ps[0])
    ensures Upto(c, ps, 2) == Upto(c, ps, 1) + HeaderPair(ps[1])
    ensures Upto(c, ps, 3) == Upto(c, ps, 2) + HeaderPair(ps[2])
    ensures Upto(c, ps, 4) == Upto(c, ps, 3) + HeaderPair(ps[3])
    ensures Upto(c, ps, 5) == Upto(c, ps, 4) + HeaderPair(ps[4])
  {
    hide HeaderPair;
    UptoSplits(c, ps, 5);
    assert ps[5..] == [];
    assert Upto(c, ps, 5) + [] == Upto(c, ps, 5);
  }

  lemma FivePointers(params: seq<Param>, c: bytes, ps: seq<Pair>)
    requires |params| == |ps| == 5
    requires PointsTo(params[0], Upto(c, ps, 1), ps[0]) && PointsTo(params[1], Upto(c, ps, 2), ps[1])
    requires PointsTo(params[2], Upto(c, ps, 3), ps[2]) && PointsTo(params[3], Upto(c, ps, 4), ps[3])
    requires PointsTo(params[4], Upto(c, ps, 5), ps[4])
    ensures AllPointTo(params, Upto(c, ps, 5), ps)
  {
    hide PointsTo, Upto, HeaderPair;
    forall i | 0 <= i < 5 ensures PointsTo(params[i], Upto(c, ps, 5), ps[i]) {
      PointsLater(params[i], c, ps, i, 5);
    }
  }

  lemma {:induction false} PointsLater(p: Param, c: bytes, ps: seq<Pair>, i: nat, n: nat)
    requires i < n <= |ps| && PointsTo(p, Upto(c, ps, i + 1), ps[i])
    ensures PointsTo(p, Upto(c, ps, n), ps[i])
    decreases n
  {
    hide PointsTo, HeaderPair;
    if i + 1 < n {
      PointsLater(p, c, ps, i, n - 1);
      StillPointsTo(p, Upto(c, ps, n - 1), ps[i], HeaderPair(ps[n - 1]));
    }
  }

  // ----- sizes -----

  lemma PathLengths()
    ensures |Encode(HTTPS)| <= 14 && |Encode(PATH_VERSION)| <= 5 && |Encode(PATH_TOKEN)| <= 8
  {
    hide Encode, AllUnreserved;
    LettersUnreserved();
    EncodedSuffix(Ascii("https"), [COLON, 47, 47]);
    assert HTTPS == Ascii("https") + [COLON, 47, 47];
    SlashedLength(Ascii("v2"));
    assert PATH_VERSION == [47] + Ascii("v2");
    SlashedLength(Ascii("token"));
    assert PATH_TOKEN == [47] + Ascii("token");
  }

  lemma LettersUnreserved()
    ensures AllUnreserved(Ascii("https")) && AllUnreserved(Ascii("v2")) && AllUnreserved(Ascii("token"))
  {
  }

  lemma SlashedLength(name: bytes)
    requires AllUnreserved(name)
    ensures |Encode([47] + name)| == 3 + |name|
  {
    EncodeAppend([47], name);
    EncodeSingle(47);
    EncodeIdentity(name);
  }

  lemma EncodedSuffix(plain: bytes, rest: bytes)
    requires AllUnreserved(plain)
    ensures |Encode(plain + rest)| <= |plain| + 3 * |rest|
  {
    EncodeAppend(plain, rest);
    EncodeIdentity(plain);
    EncodeLength(rest);
    ReservedNone(rest);
  }

  /** Whatever the clock and the time difference say, the work buffer is large enough. */
  lemma WorkFits(host: bytes, id: bytes, nonce: bytes, ts: uint32)
    requires |host| < BASE_URL_SIZE && |id| == DEVICE_ID_SIZE && |nonce| == NONCE_VAL_SIZE
    requires |Digits(ts, 10)| <= 10
    ensures WorkSize(host, Pairs(id, nonce, ts)) <= 316
  {
    hide Digits, Encode, Ascii;
    PathLengths();
    EncodeSingle(EQUALS);
    EncodeSingle(AMPERSAND);
    FiveSigned(Pairs(id, nonce, ts));
  }

  lemma FiveSigned(ps: seq<Pair>)
    requires |ps| == 5 && |Encode([EQUALS])| == 3 && |Encode([AMPERSAND])| == 3
    ensures |SignedPairs(ps)| == |SignedPair(ps[0])| + |SignedPair(ps[1])| + |SignedPair(ps[2])|
                                 + |SignedPair(ps[3])| + |SignedPair(ps[4])| + 12
    ensures forall i :: 0 <= i < 5 ==> |SignedPair(ps[i])| == |ps[i].0| + 3 + |ps[i].1|
  {
    hide Encode, SignedPairs;
    SignedLength(ps);
    SignedLength(ps[1..]);
    SignedLength(ps[2..]);
    SignedLength(ps[3..]);
    assert ps[1..][1..] == ps[2..] && ps[2..][1..] == ps[3..] && ps[3..][1..] == ps[4..];
    LastSigned(ps[4..]);
  }

  lemma SignedLength(ps: seq<Pair>)
    requires |ps| >= 2 && |Encode([AMPERSAND])| == 3
    ensures |SignedPairs(ps)| == |SignedPair(ps[0])| + 3 + |SignedPairs(ps[1..])|
  {
    hide Encode, SignedPair;
  }

  lemma LastSigned(ps: seq<Pair>)
    requires |ps| == 1
    ensures SignedPairs(ps) == SignedPair(ps[0])
  {
  }

  lemma SignatureFits(c: Provider, host: bytes, pairs: seq<Pair>, secret: bytes)
    requires c.Sized()
    ensures |Signature(c, host, pairs, secret)| <= 3 * BASE64_SIZE
  {
    var b := c.base64(c.hmac(BaseString(host, pairs), secret + [AMPERSAND]));
    EncodeLength(b);
    ReservedNone(b);
  }

  lemma HeaderParts(c: Provider, host: bytes, ps: seq<Pair>, secret: bytes)
    ensures HeaderText(c, host, ps, secret) ==
            ((((OAUTH + [SP]) + HeaderPairs(ps)) + (SIGNATURE + [EQUALS, QUOTE]))
             + Signature(c, host, ps, secret)) + [QUOTE]
    ensures |OAUTH + [SP]| == 6 && |SIGNATURE| == 15
  {
  }

  // ----- the header, byte by byte -----

  /** The text that is signed: section 3.4.1.1 of RFC 5849 for POST, https, this host, the token
      path and the five parameters, with host, id, nonce and stamp as they are. */
  function SignedText(host: bytes, id: bytes, nonce: bytes, stamp: bytes): bytes {
    Ascii("POST") + [38] +
    (Ascii("https") + Ascii("%3A%2F%2F") + host + (Ascii("%2F") + Ascii("v2")) + (Ascii("%2F") + Ascii("token"))) +
    [38] +
    ((Ascii("oauth_consumer_key") + Ascii("%3D") + id) + Ascii("%26") +
     ((Ascii("oauth_nonce") + Ascii("%3D") + nonce) + Ascii("%26") +
      ((Ascii("oauth_signature_method") + Ascii("%3D") + Ascii("HMAC-SHA256")) + Ascii("%26") +
       ((Ascii("oauth_timestamp") + Ascii("%3D") + stamp) + Ascii("%26") +
        (Ascii("oauth_version") + Ascii("%3D") + Ascii("1.0"))))))
  }

  /** The header in front of the signature. */
  function SignedFront(id: bytes, nonce: bytes, stamp: bytes): bytes {
    Ascii("OAuth") + [32] +
    (Ascii("oauth_consumer_key") + [61, 34] + id + [34, 44] +
     (Ascii("oauth_nonce") + [61, 34] + nonce + [34, 44] +
      (Ascii("oauth_signature_method") + [61, 34] + Ascii("HMAC-SHA256") + [34, 44] +
       (Ascii("oauth_timestamp") + [61, 34] + stamp + [34, 44] +
        (Ascii("oauth_version") + [61, 34] + Ascii("1.0") + [34, 44]))))) +
    (Ascii("oauth_signature") + [61, 34])
  }

  /** The value of oauth_signature: only unreserved characters and escapes, and what they stand
      for is the Base64 text of the HMAC of this text under the secret and "&". */
  ghost predicate SignatureOf(v: bytes, c: Provider, text: bytes, secret: bytes) {
    Percent.Decode(v) == Some(c.base64(c.hmac(text, secret + [38]))) && Escaped(v) &&
    forall b :: b in v ==>
      48 <= b <= 57 || 65 <= b <= 90 || 97 <= b <= 122 || b in {37, 45, 46, 95, 126}
  }

  ghost predicate SignedHeader(header: bytes, c: Provider, host: bytes, id: bytes, nonce: bytes,
                               stamp: bytes, secret: bytes) {
    exists v ::
      header == SignedFront(id, nonce, stamp) + v + [34] &&
      SignatureOf(v, c, SignedText(host, id, nonce, stamp), secret)
  }

  lemma EncodedConstants()
    ensures Encode(HTTPS) == Ascii("https") + Ascii("%3A%2F%2F")
    ensures Encode(PATH_VERSION) == Ascii("%2F") + Ascii("v2")
    ensures Encode(PATH_TOKEN) == Ascii("%2F") + Ascii("token")
  {
    hide Encode, AllUnreserved;
    EncodeSingle(COLON);
    EncodeSingle(47);
    LettersUnreserved();
    EncodeIdentity(Ascii("https"));
    EncodeIdentity(Ascii("v2"));
    EncodeIdentity(Ascii("token"));
    assert HTTPS == Ascii("https") + [COLON] + [47] + [47];
    EncodeAppend(Ascii("https") + [COLON] + [47], [47]);
    EncodeFour(Ascii("https"), [COLON], [47]);
    assert PATH_VERSION == [47] + Ascii("v2");
    EncodeAppend([47], Ascii("v2"));
    assert PATH_TOKEN == [47] + Ascii("token");
    EncodeAppend([47], Ascii("token"));
  }

  lemma NextSigned(ps: seq<Pair>)
    requires ps != []
    ensures SignedPairs(ps) == if |ps| == 1 then SignedPair(ps[0])
                               else SignedPair(ps[0]) + Encode([AMPERSAND]) + SignedPairs(ps[1..])
    ensures HeaderPairs(ps) == HeaderPair(ps[0]) + HeaderPairs(ps[1..])
    ensures |ps| == 1 ==> HeaderPairs(ps) == HeaderPair(ps[0])
  {
    hide SignedPair, HeaderPair, Encode;
    if |ps| == 1 {
      assert HeaderPairs(ps[1..]) == [];
    }
  }

  lemma FiveInTurn(a: Pair, b: Pair, c: Pair, d: Pair, e: Pair)
    ensures SignedPairs([a, b, c, d, e]) ==
      SignedPair(a) + Encode([AMPERSAND]) + (SignedPair(b) + Encode([AMPERSAND]) + (SignedPair(c) +
      Encode([AMPERSAND]) + (SignedPair(d) + Encode([AMPERSAND]) + SignedPair(e))))
    ensures HeaderPairs([a, b, c, d, e]) ==
      HeaderPair(a) + (HeaderPair(b) + (HeaderPair(c) + (HeaderPair(d) + HeaderPair(e))))
  {
    hide SignedPair, HeaderPair, Encode, SignedPairs, HeaderPairs;
    NextSigned([a, b, c, d, e]);
    NextSigned([b, c, d, e]);
    NextSigned([c, d, e]);
    NextSigned([d, e]);
    NextSigned([e]);
    assert [a, b, c, d, e][1..] == [b, c, d, e] && [b, c, d, e][1..] == [c, d, e];
    assert [c, d, e][1..] == [d, e] && [d, e][1..] == [e];
  }

  lemma EncodedSeparators()
    ensures Encode([EQUALS]) == Ascii("%3D") && Encode([AMPERSAND]) == Ascii("%26")
  {
    hide Encode;
    EncodeSingle(EQUALS);
    EncodeSingle(AMPERSAND);
  }

  lemma BaseInBytes(host: bytes, id: bytes, nonce: bytes, ts: uint32)
    ensures BaseString(host, Pairs(id, nonce, ts)) == SignedText(host, id, nonce, Digits(ts, 10))
  {
    hide Encode, Digits, Ascii, SignedPairs;
    EncodedConstants();
    EncodedSeparators();
    FiveInTurn((CONSUMER_KEY, id), (NONCE, nonce), (SIGNATURE_METHOD, HMAC_SHA256), (TIMESTAMP, Digits(ts, 10)),
               (VERSION, VERSION_1_0));
  }

  lemma FrontInBytes(id: bytes, nonce: bytes, ts: uint32)
    ensures OAUTH + [SP] + HeaderPairs(Pairs(id, nonce, ts)) + (SIGNATURE + [EQUALS, QUOTE]) ==
            SignedFront(id, nonce, Digits(ts, 10))
  {
    hide Digits, Ascii, HeaderPairs;
    FiveInTurn((CONSUMER_KEY, id), (NONCE, nonce), (SIGNATURE_METHOD, HMAC_SHA256), (TIMESTAMP, Digits(ts, 10)),
               (VERSION, VERSION_1_0));
  }

  /** The header of every request, byte by byte; what is signed is the RFC's base string of the
      parameters it carries, for a host and a device id that need no escaping. */
  lemma HeaderInBytes(c: Provider, host: bytes, id: bytes, nonce: bytes, ts: uint32, secret: bytes)
    ensures SignedHeader(HeaderText(c, host, Pairs(id, nonce, ts), secret), c, host, id, nonce,
                         Digits(ts, 10), secret)
    ensures AllUnreserved(host) && AllUnreserved(id) && AllUnreserved(nonce) ==>
      SignedText(host, id, nonce, Digits(ts, 10)) ==
      RfcBaseString(POST, HTTPS + host + PATH_VERSION + PATH_TOKEN, Pairs(id, nonce, ts))
  {
    hide Encode, AllUnreserved, Digits, BaseString, SignedText, SignedFront, HeaderPairs, RfcBaseString, Escaped,
      Percent.Decode, Ascii, Pairs;
    BaseInBytes(host, id, nonce, ts);
    FrontInBytes(id, nonce, ts);
    if AllUnreserved(nonce) {
      BaseStringExact(host, id, nonce, ts);
    }
    var b := c.base64(c.hmac(BaseString(host, Pairs(id, nonce, ts)), secret + [AMPERSAND]));
    EncodeEscaped(b);
    DecodeEncode(b);
    assert SignatureOf(Encode(b), c, SignedText(host, id, nonce, Digits(ts, 10)), secret);
  }

  /** create_header. No append can fail for a base URL of at most 31 bytes; the pairs signed
      are those of the finished header. */
  method CreateHeader(out: array<byte>, outSize: nat, id: bytes, secret: bytes, baseUrl: bytes,
                      diff: int32, nonceNow: Reading, stampNow: Reading, source: SeedSource,
                      rand: Rand, c: Provider)
    returns (err: Err, size: nat)
    requires outSize <= out.Length && outSize < TWO_32 && c.Sized()
    requires |id| == DEVICE_ID_SIZE && |secret| == DEVICE_SECRET_SIZE
    modifies out, source
    ensures outSize < 384 ==> err == BufferTooSmall
    ensures outSize >= 384 && |baseUrl| <= 31 ==>
              err == (if nonceNow.err != Ok then nonceNow.err else stampNow.err) && (err == Ok ==> size <= 325)
    ensures err == Ok ==> size <= outSize && FirstErr(nonceNow, stampNow) == Ok
    ensures err == Ok ==> source.prevTs == NextSeed(old(source.prevTs), nonceNow.ts)
    ensures err == Ok ==> source.asked == old(source.asked) + [nonceNow.ts]
    ensures Continued(old(source.Now()), source.Now())
    ensures err == Ok ==>
      var nonce := NonceText(rand, NextSeed(old(source.prevTs), nonceNow.ts), NONCE_VAL_SIZE);
      out[..size] == HeaderText(c, baseUrl, Pairs(id, nonce, Shifted(stampNow.ts, diff)), secret) &&
      SignedHeader(out[..size], c, baseUrl, id, nonce, Digits(Shifted(stampNow.ts, diff), 10), secret)
  {
    hide AllPointTo, HeaderPairs, Signature, NonceText, NextSeed, Digits, Pairs, WorkSize, SignedHeader;
    err, size := Error, outSize;
    if outSize >= MIN_OUT_SIZE {
      var buf := new DataBuffer(out, outSize);
      ghost var nonce := NonceText(rand, NextSeed(source.prevTs, nonceNow.ts), NONCE_VAL_SIZE);
      ghost var ps := Pairs(id, nonce, Shifted(stampNow.ts, diff));
      HeaderInBytes(c, baseUrl, id, nonce, Shifted(stampNow.ts, diff), secret);
      HeaderParts(c, baseUrl, ps, secret);
      SignatureFits(c, baseUrl, ps, secret);
      var params;
      err := buf.AddString(OAUTH);
      if err != Ok { return; }
      err := buf.AddChar(SP);
      if err != Ok { return; }
      assert buf.Contents() == OAUTH + [SP];
      err, params := AddPairs(buf, id, nonceNow, stampNow, diff, source, rand);
      if err != Ok { return; }
      PairsSize(id, nonce, Shifted(stampNow.ts, diff), baseUrl);
      ghost var front := buf.Contents();
      var val;
      err, val := Open(buf, SIGNATURE);
      if err != Ok { return; }
      PointersInMemory(params, front, buf.Contents(), ps);
      err := AddSignatureVal(buf, params, secret, baseUrl, c, ps);
      if err != Ok { return; }
      err := buf.AddChar(QUOTE);
      if err != Ok { return; }
      size := buf.size;
    } else {
      err := BufferTooSmall;
    }
  }

  lemma PairsSize(id: bytes, nonce: bytes, ts: uint32, host: bytes)
    requires |id| == DEVICE_ID_SIZE && |nonce| == NONCE_VAL_SIZE
    ensures |HeaderPairs(Pairs(id, nonce, ts))| <= 169
    ensures |host| < BASE_URL_SIZE ==> WorkSize(host, Pairs(id, nonce, ts)) <= WORK_BUF_SIZE
    ensures forall p :: p in Pairs(id, nonce, ts) ==> p.0 != [] && p.1 != []
  {
    hide Digits, HeaderPairs, BaseString, WorkSize, Ascii;
    StampSize(ts);
    if |host| < BASE_URL_SIZE {
      WorkFits(host, id, nonce, ts);
    }
    var ps := Pairs(id, nonce, ts);
    FivePairs([], ps);
    assert [] + HeaderPairs(ps) == HeaderPairs(ps);
  }

  /** A 32-bit number has at most ten digits. */
  lemma StampSize(ts: uint32)
    ensures 0 < |Digits(ts, 10)| <= 10
  {
    PowTable();
    if ts >= 1000000000 {
      DigitsLength(ts, 10, 10);
    } else {
      DigitsAtMost(ts, 9);
    }
  }

  lemma {:induction false} DigitsAtMost(u: nat, n: nat)
    requires n > 0 && u < Pow(10, n)
    ensures |Digits(u, 10)| <= n
  {
    if u >= 10 {
      assert Pow(10, n) == 10 * Pow(10, n - 1);
      assert n > 1;
      DigitsAtMost(u / 10, n - 1);
    }
  }
}
