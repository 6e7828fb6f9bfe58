// The token scanner of src/here_tracking_http.c: auth_resp_cb, auth_data_init, auth_done.

module StatusCodes {
  import opened Errors

  /** status_code_to_err. */
  function ToErr(code: nat): Err {
    match code
    case 200 => Ok
    case 204 => Ok
    case 400 => BadRequest
    case 401 => Unauthorized
    case 403 => Forbidden
    case 404 => NotFound
    case 412 => DeviceUnclaimed
    case 429 => TooManyRequests
    case _ => Error
  }
}

module AuthScanner {
  import opened Bytes
  import opened Errors
  import opened HttpEvents
  import opened StatusCodes
  import opened Utils

  const ACCESS_TOKEN_SIZE: nat := 1024
  const TOKEN_KEY: bytes := [QUOTE] + Ascii("accessToken") + [QUOTE]
  const EXPIRY_KEY: bytes := [QUOTE] + Ascii("expiresIn") + [QUOTE]
  const X_HERE_TIMESTAMP: bytes := Ascii("x-here-timestamp")

  datatype ScanState = FindKey | TokenFindStart | TokenWrite | ExpiryFindStart | ExpiryWrite

  /** The found and chars fields of one search key. */
  datatype Search = Search(found: bool, chars: nat)

  /** One reading of the clock; ts is what the caller's variable holds afterwards. */
  datatype Clock = Clock(ok: bool, ts: uint32)

  /** auth_data together with the client fields it writes. */
  datatype Auth = Auth(
    token: bytes, expiry: uint32, timeDiff: int32,
    state: ScanState, chars: nat, status: Err, tokenKey: Search, expiryKey: Search)

  function Start(token: bytes, expiry: uint32, timeDiff: int32): Auth {
    Auth(token, expiry, timeDiff, FindKey, 0, Error, Search(false, 0), Search(false, 0))
  }

  /** One byte against one search key. A byte that does not continue the match resets it and
      is not looked at again. */
  function MatchByte(key: bytes, s: Search, c: byte): Search {
    if s.found then s
    else if s.chars < |key| && c == key[s.chars] then Search(s.chars + 1 == |key|, s.chars + 1)
    else Search(false, 0)
  }

  function FindKeyByte(a: Auth, c: byte): Auth {
    var t, e := MatchByte(TOKEN_KEY, a.tokenKey, c), MatchByte(EXPIRY_KEY, a.expiryKey, c);
    a.(tokenKey := t, expiryKey := e,
       state := if e.found && !a.expiryKey.found then ExpiryFindStart
                else if t.found && !a.tokenKey.found then TokenFindStart
                else a.state)
  }

  function AllFound(a: Auth): bool {
    a.tokenKey.found && a.expiryKey.found
  }

  function Unfound(s: Search): Search {
    if s.found then s else Search(false, 0)
  }

  /** auth_done: stop if both keys were handled, otherwise look for the other one afresh. */
  function KeyHandled(a: Auth): (Auth, bool) {
    if AllFound(a) then (a, true)
    else (a.(tokenKey := Unfound(a.tokenKey), expiryKey := Unfound(a.expiryKey), state := FindKey), false)
  }

  function TokenByte(a: Auth, c: byte): (Auth, bool) {
    if c == QUOTE then
      var r := KeyHandled(if a.chars < |a.token| then a.(token := a.token[a.chars := NUL]) else a);
      if r.1 then r else (r.0.(chars := a.chars + 1), false)
    else if a.chars < ACCESS_TOKEN_SIZE - 1 then
      (a.(token := if a.chars < |a.token| then a.token[a.chars := c] else a.token,
          chars := a.chars + 1), false)
    else
      (a.(token := if a.token != [] then a.token[0 := NUL] else a.token, status := BufferTooSmall), true)
  }

  function ExpiryByte(clock: Clock, a: Auth, c: byte): (Auth, bool) {
    if IsDigit(c) then
      (a.(expiry := (a.expiry * 10 % TWO_32 + (c - ZERO)) % TWO_32), false)
    else
      KeyHandled(a.(expiry := (a.expiry + clock.ts) % TWO_32))
  }

  /** One byte of the body; true stops the scan. */
  function ScanByte(clock: Clock, a: Auth, c: byte): (Auth, bool) {
    match a.state
    case FindKey => (FindKeyByte(a, c), false)
    case TokenFindStart => (if c == QUOTE then a.(state := TokenWrite) else a, false)
    case TokenWrite => TokenByte(a, c)
    case ExpiryFindStart =>
      if IsDigit(c) then ExpiryByte(clock, a.(state := ExpiryWrite), c) else (a, false)
    case ExpiryWrite => ExpiryByte(clock, a, c)
  }

  function Scan(clock: Clock, a: Auth, data: bytes): (Auth, bool)
    decreases |data|
  {
    if data == [] then (a, false)
    else
      var r := ScanByte(clock, a, data[0]);
      if r.1 then r else Scan(clock, r.0, data[1..])
  }

  /** auth_resp_cb. */
  function OnEvent(clock: Clock, a: Auth, evt: Event): (Auth, bool) {
    match evt
    case StatusCode(code) => (a.(status := ToErr(code)), false)
    case Header(key, val) =>
      if a.status == Unauthorized && SameIgnoringCase(key, X_HERE_TIMESTAMP) && clock.ok then
        (a.(timeDiff := Difference(AtouValue(val), clock.ts), status := TimeMismatch), true)
      else (a, false)
    case Body(data, _) => if a.status == Ok then Scan(clock, a, data) else (a, false)
    case _ => (a, false)
  }

  /** srv_time - pl_time, subtracted in 32 bits and stored as int32. */
  function Difference(server: uint32, here: uint32): int32 {
    var d := (server - here) % TWO_32;
    if d < TWO_31 then d else d - TWO_32
  }

  function AuthCb(clock: Clock): Callback<Auth> {
    (a, evt) => OnEvent(clock, a, evt)
  }

  // ----- the scan is byte-wise, hence blind to fragmentation -----

  lemma {:induction false} ScanAppend(clock: Clock, a: Auth, x: bytes, y: bytes)
    ensures Scan(clock, a, x + y) ==
            if Scan(clock, a, x).1 then Scan(clock, a, x) else Scan(clock, Scan(clock, a, x).0, y)
    decreases |x|
  {
    hide ScanByte;
    if x == [] {
      assert x + y == y;
    } else {
      assert (x + y)[1..] == x[1..] + y;
      ScanAppend(clock, ScanByte(clock, a, x[0]).0, x[1..], y);
    }
  }

  lemma {:induction false} ScanKeepsStatus(clock: Clock, a: Auth, x: bytes)
    ensures !Scan(clock, a, x).1 ==> Scan(clock, a, x).0.status == a.status
    decreases |x|
  {
    if x != [] {
      ScanKeepsStatus(clock, ScanByte(clock, a, x[0]).0, x[1..]);
    }
  }

  lemma AuthSplittable(clock: Clock)
    ensures Splittable(AuthCb(clock))
  {
    forall s: Auth, a: bytes, b: bytes, last: bool | a != [] && b != []
      ensures SplitsAt(AuthCb(clock), s, a, b, last)
    {
      ScanAppend(clock, s, a, b);
      ScanKeepsStatus(clock, s, a);
    }
  }

  // ----- what holds in every state -----

  /** Counters stay inside the keys, and token writes inside the token buffer; the token state
      is entered once, with the write position still at the start. */
  ghost predicate Sane(a: Auth) {
    |a.token| == ACCESS_TOKEN_SIZE &&
    (!a.tokenKey.found ==> a.tokenKey.chars < |TOKEN_KEY|) &&
    (!a.expiryKey.found ==> a.expiryKey.chars < |EXPIRY_KEY|) &&
    (!a.tokenKey.found || a.state == TokenFindStart ==> a.chars == 0) &&
    (a.state == TokenFindStart || a.state == TokenWrite ==> a.tokenKey.found) &&
    (a.state == TokenWrite ==> a.chars < ACCESS_TOKEN_SIZE)
  }

  lemma SaneByte(clock: Clock, a: Auth, c: byte)
    requires Sane(a) && !ScanByte(clock, a, c).1
    ensures Sane(ScanByte(clock, a, c).0)
  {
  }

  // ----- the imperative scanner -----

  class AuthData {
    var token: array<byte>
    var expiry: uint32
    var timeDiff: int32
    var state: ScanState
    var chars: nat
    var status: Err
    var tokenKey: Search
    var expiryKey: Search

    ghost function Value(): Auth
      reads this, token
    {
      Auth(token[..], expiry, timeDiff, state, chars, status, tokenKey, expiryKey)
    }

    ghost predicate Valid()
      reads this, token
    {
      Sane(Value())
    }

    /** auth_data_init. */
    constructor (token: array<byte>, expiry: uint32, timeDiff: int32)
      requires token.Length == ACCESS_TOKEN_SIZE
      ensures Valid() && this.token == token
      ensures Value() == Start(token[..], expiry, timeDiff)
    {
      this.token := token;
      this.expiry := expiry;
      this.timeDiff := timeDiff;
      this.state := FindKey;
      this.chars := 0;
      this.status := Error;
      this.tokenKey := Search(false, 0);
      this.expiryKey := Search(false, 0);
    }

    method AuthDone() returns (allFound: bool)
      modifies this`tokenKey, this`expiryKey
      ensures allFound == AllFound(old(Value()))
      ensures Value() == old(Value()).(tokenKey := tokenKey, expiryKey := expiryKey)
      ensures tokenKey == (if old(tokenKey).found then old(tokenKey) else Search(false, 0))
      ensures expiryKey == (if old(expiryKey).found then old(expiryKey) else Search(false, 0))
    {
      allFound := true;
      if !tokenKey.found {
        tokenKey := tokenKey.(chars := 0);
        allFound := false;
      }
      if !expiryKey.found {
        expiryKey := expiryKey.(chars := 0);
        allFound := false;
      }
    }

    static method MatchKey(key: bytes, s: Search, c: byte) returns (r: Search, completed: bool)
      requires !s.found ==> s.chars < |key|
      ensures r == MatchByte(key, s, c)
      ensures completed == (r.found && !s.found)
    {
      r, completed := s, false;
      if !s.found {
        if c == key[s.chars] {
          r := r.(chars := s.chars + 1);
        } else {
          r := r.(chars := 0);
          return;
        }
        if r.chars == |key| {
          r := r.(found := true);
          completed := true;
        }
      }
    }

    method KeyStep(c: byte)
      requires Valid()
      modifies this`tokenKey, this`expiryKey, this`state
      ensures Value() == FindKeyByte(old(Value()), c)
    {
      var completed;
      tokenKey, completed := MatchKey(TOKEN_KEY, tokenKey, c);
      if completed {
        state := TokenFindStart;
      }
      expiryKey, completed := MatchKey(EXPIRY_KEY, expiryKey, c);
      if completed {
        state := ExpiryFindStart;
      }
    }

    method TokenStep(c: byte) returns (res: bool)
      requires Valid() && state == TokenWrite
      modifies this, token
      ensures token == old(token)
      ensures (Value(), res) == TokenByte(old(Value()), c)
    {
      res := false;
      if c == QUOTE {
        token[chars] := NUL;
        var done := AuthDone();
        if done {
          res := true;
          return;
        } else {
          state := FindKey;
        }
      } else if chars < ACCESS_TOKEN_SIZE - 1 {
        token[chars] := c;
      } else {
        token[0] := NUL;
        status := BufferTooSmall;
        res := true;
        return;
      }
      chars := chars + 1;
    }

    method ExpiryStep(clock: Clock, c: byte) returns (res: bool)
      modifies this
      ensures token == old(token)
      ensures (Value(), res) == ExpiryByte(clock, old(Value()), c)
    {
      res := false;
      if !IsDigit(c) {
        expiry := (expiry + clock.ts) % TWO_32;
        var done := AuthDone();
        if done {
          res := true;
        } else {
          state := FindKey;
        }
      } else {
        expiry := (expiry * 10) % TWO_32;
        expiry := (expiry + (c - ZERO)) % TWO_32;
      }
    }

    /** The body loop of auth_resp_cb. */
    method ScanBody(clock: Clock, data: bytes) returns (res: bool)
      requires Valid()
      modifies this, token
      ensures token == old(token)
      ensures !res ==> Valid()
      ensures (Value(), res) == Scan(clock, old(Value()), data)
    {
      hide FindKeyByte, TokenByte, ExpiryByte, Sane;
      res := false;
      var pos := 0;
      ghost var a0 := Value();
      assert data[0..] == data;
      while !res && |data| - pos > 0
        invariant 0 <= pos <= |data| && token == old(token) && (!res ==> Valid())
        invariant !res ==> Scan(clock, a0, data) == Scan(clock, Value(), data[pos..])
        invariant res ==> Scan(clock, a0, data) == (Value(), true)
        decreases |data| - pos, if state == ExpiryFindStart then 1 else 0
      {
        var c := data[pos];
        ghost var a := Value();
        assert data[pos..][0] == c && data[pos..][1..] == data[pos + 1..];
        if !ScanByte(clock, a, c).1 {
          SaneByte(clock, a, c);
        }
        if state == FindKey {
          KeyStep(c);
        } else if state == TokenFindStart {
          if c == QUOTE {
            state := TokenWrite;
          }
        } else if state == TokenWrite {
          res := TokenStep(c);
        } else if state == ExpiryFindStart {
          if IsDigit(c) {
            state := ExpiryWrite;
            SaneExpiry(a);
            continue;
          }
        } else if state == ExpiryWrite {
          res := ExpiryStep(clock, c);
        }
        pos := pos + 1;
      }
    }

    /** auth_resp_cb. */
    method Receive(clock: Clock, evt: Event) returns (res: bool)
      requires Valid()
      modifies this, token
      ensures token == old(token)
      ensures !res ==> Valid()
      ensures (Value(), res) == OnEvent(clock, old(Value()), evt)
    {
      res := false;
      match evt {
        case StatusCode(code) =>
          status := ToErr(code);
        case Header(key, val) =>
          if status == Unauthorized && |key| == |X_HERE_TIMESTAMP| {
            var order := MemCaseCmp(key + [COLON], X_HERE_TIMESTAMP + [NUL], |key|);
            assert (key + [COLON])[..|key|] == key;
            assert (X_HERE_TIMESTAMP + [NUL])[..|key|] == X_HERE_TIMESTAMP;
            if order == 0 && clock.ok {
              var server := Atou(val + [CR], |val|);
              assert (val + [CR])[..|val|] == val;
              timeDiff := Difference(server, clock.ts);
              status := TimeMismatch;
              res := true;
            }
          }
        case Body(data, _) =>
          if status == Ok {
            res := ScanBody(clock, data);
          }
        case _ =>
      }
    }
  }

  lemma SaneExpiry(a: Auth)
    requires Sane(a) && a.state == ExpiryFindStart
    ensures Sane(a.(state := ExpiryWrite))
  {
  }
}
