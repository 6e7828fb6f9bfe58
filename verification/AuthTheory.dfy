// What the token scanner finds in a body.

module AuthTheory {
  import opened AuthScanner
  import opened Bytes
  import opened Errors
  import opened KeyMatcher
  import opened Utils

  // ----- the phases of a scan -----

  /** Looking for keys, with no match pending. */
  ghost predicate Searching(a: Auth) {
    a.state == FindKey && |a.token| == ACCESS_TOKEN_SIZE &&
    (!a.tokenKey.found ==> a.tokenKey.chars == 0 && a.chars == 0) &&
    (!a.expiryKey.found ==> a.expiryKey.chars == 0 && a.expiry == 0)
  }

  function RunFrom(key: bytes, s: Search, t: bytes): Search {
    if s.found then s else MatchRun(key, t)
  }

  function Searched(a: Auth, t: bytes): Auth {
    a.(tokenKey := RunFrom(TOKEN_KEY, a.tokenKey, t), expiryKey := RunFrom(EXPIRY_KEY, a.expiryKey, t))
  }

  lemma ScanSnoc(clock: Clock, a: Auth, t: bytes, c: byte)
    requires !Scan(clock, a, t).1
    ensures Scan(clock, a, t + [c]) == ScanByte(clock, Scan(clock, a, t).0, c)
  {
    hide ScanByte;
    ScanAppend(clock, a, t, [c]);
    assert [c][1..] == [];
  }

  /** While no key is completed the scan only moves the counters. */
  lemma {:induction false} SearchOn(clock: Clock, a: Auth, t: bytes)
    requires Searching(a)
    requires a.tokenKey.found || !MatchRun(TOKEN_KEY, t).found
    requires a.expiryKey.found || !MatchRun(EXPIRY_KEY, t).found
    ensures Scan(clock, a, t) == (Searched(a, t), false)
    decreases |t|
  {
    if t != [] {
      var u, c := t[..|t| - 1], t[|t| - 1];
      assert t == u + [c];
      SearchOn(clock, a, u);
      ScanSnoc(clock, a, u, c);
    } else {
      assert a.tokenKey.found || a.tokenKey == Search(false, 0);
    }
  }

  lemma FindTokenKey(clock: Clock, a: Auth, x: bytes)
    requires Searching(a) && !a.tokenKey.found && Finds(TOKEN_KEY, x)
    requires a.expiryKey.found || !MatchRun(EXPIRY_KEY, x).found
    ensures var r := Scan(clock, a, x);
      r == (a.(state := TokenFindStart, tokenKey := r.0.tokenKey, expiryKey := r.0.expiryKey), false) &&
      r.0.tokenKey.found && r.0.expiryKey.found == a.expiryKey.found &&
      (a.expiryKey.found ==> r.0.expiryKey == a.expiryKey)
  {
    var u, c := x[..|x| - 1], x[|x| - 1];
    assert x == u + [c];
    if !a.expiryKey.found && MatchRun(EXPIRY_KEY, u).found {
      FoundStays(EXPIRY_KEY, x, u);
    }
    SearchOn(clock, a, u);
    ScanSnoc(clock, a, u, c);
  }

  lemma FindExpiryKey(clock: Clock, a: Auth, x: bytes)
    requires Searching(a) && !a.expiryKey.found && Finds(EXPIRY_KEY, x)
    requires a.tokenKey.found || !MatchRun(TOKEN_KEY, x).found
    ensures var r := Scan(clock, a, x);
      r == (a.(state := ExpiryFindStart, tokenKey := r.0.tokenKey, expiryKey := r.0.expiryKey), false) &&
      r.0.expiryKey.found && r.0.tokenKey.found == a.tokenKey.found &&
      (a.tokenKey.found ==> r.0.tokenKey == a.tokenKey)
  {
    var u, c := x[..|x| - 1], x[|x| - 1];
    assert x == u + [c];
    if !a.tokenKey.found && MatchRun(TOKEN_KEY, u).found {
      FoundStays(TOKEN_KEY, x, u);
    }
    SearchOn(clock, a, u);
    ScanSnoc(clock, a, u, c);
  }

  lemma {:induction false} SkipToQuote(clock: Clock, a: Auth, gap: bytes)
    requires a.state == TokenFindStart && QUOTE !in gap
    ensures Scan(clock, a, gap + [QUOTE]) == (a.(state := TokenWrite), false)
    decreases |gap|
  {
    if gap == [] {
      assert gap + [QUOTE] == [QUOTE];
      assert [QUOTE][1..] == [];
    } else {
      assert (gap + [QUOTE])[1..] == gap[1..] + [QUOTE];
      assert gap[0] in gap;
      SkipToQuote(clock, a, gap[1..]);
    }
  }

  /** The token buffer after the first bytes of a token have been written into it. */
  function Stored(memory: bytes, token: bytes): bytes
    requires |token| <= |memory|
  {
    token + memory[|token|..]
  }

  lemma {:induction false} WriteToken(clock: Clock, a: Auth, token: bytes)
    requires a.state == TokenWrite && a.chars == 0 && |a.token| == ACCESS_TOKEN_SIZE
    requires QUOTE !in token && |token| < ACCESS_TOKEN_SIZE
    ensures Scan(clock, a, token) == (a.(token := Stored(a.token, token), chars := |token|), false)
    decreases |token|
  {
    if token == [] {
      assert Stored(a.token, token) == a.token;
    } else {
      var u, c := token[..|token| - 1], token[|token| - 1];
      assert token == u + [c];
      assert c in token && forall x :: x in u ==> x in token;
      WriteToken(clock, a, u);
      ScanSnoc(clock, a, u, c);
      assert Stored(a.token, u)[|u| := c] == Stored(a.token, token);
    }
  }

  lemma {:induction false} SkipToDigit(clock: Clock, a: Auth, gap: bytes, rest: bytes)
    requires a.state == ExpiryFindStart && (forall c :: c in gap ==> !IsDigit(c))
    requires rest != [] && IsDigit(rest[0])
    ensures Scan(clock, a, gap + rest) == Scan(clock, a.(state := ExpiryWrite), rest)
    decreases |gap|
  {
    if gap == [] {
      assert gap + rest == rest;
    } else {
      assert (gap + rest)[1..] == gap[1..] + rest;
      assert gap[0] in gap;
      SkipToDigit(clock, a, gap[1..], rest);
    }
  }

  lemma {:induction false} WriteExpiry(clock: Clock, a: Auth, digits: bytes)
    requires a.state == ExpiryWrite && a.expiry == 0 && AllDigits(digits)
    ensures Scan(clock, a, digits) == (a.(expiry := Value(digits, 10) % TWO_32), false)
    decreases |digits|
  {
    if digits != [] {
      var u, c := digits[..|digits| - 1], digits[|digits| - 1];
      assert digits == u + [c];
      assert AllDigits(u);
      WriteExpiry(clock, a, u);
      ScanSnoc(clock, a, u, c);
      WrappedStep(Value(u, 10), c - ZERO);
    }
  }

  // ----- a body with both keys -----

  /** Text in which the token's key is found at the end of x; then anything without a quote,
      then the quoted token. */
  function TokenText(x: bytes, gap: bytes, token: bytes): bytes {
    x + ((gap + [QUOTE]) + (token + [QUOTE]))
  }

  /** Text in which the expiry's key is found at the end of x; then anything without a digit,
      then the digits and the byte that ends them. */
  function ExpiryText(x: bytes, gap: bytes, digits: bytes, end: byte): bytes {
    x + (gap + (digits + [end]))
  }

  ghost predicate TokenPart(x: bytes, gap: bytes, token: bytes) {
    Finds(TOKEN_KEY, x) && QUOTE !in gap && QUOTE !in token
  }

  ghost predicate ExpiryPart(x: bytes, gap: bytes, digits: bytes, end: byte) {
    Finds(EXPIRY_KEY, x) && (forall c :: c in gap ==> !IsDigit(c)) &&
    digits != [] && AllDigits(digits) && !IsDigit(end)
  }

  lemma TokenSegment(clock: Clock, a: Auth, x: bytes, gap: bytes, token: bytes)
    requires Searching(a) && !a.tokenKey.found && TokenPart(x, gap, token)
    requires |token| < ACCESS_TOKEN_SIZE
    requires a.expiryKey.found || !MatchRun(EXPIRY_KEY, x).found
    ensures var r := Scan(clock, a, TokenText(x, gap, token));
      r.1 == a.expiryKey.found && r.0.token == Stored(a.token, token + [NUL]) &&
      r.0.expiry == a.expiry && r.0.status == a.status && r.0.timeDiff == a.timeDiff &&
      r.0.tokenKey.found && (!r.1 ==> Searching(r.0) && !r.0.expiryKey.found)
  {
    hide Scan, ScanByte, Finds, MatchRun;
    var y := gap + [QUOTE];
    var b := Scan(clock, a, x).0;
    FindTokenKey(clock, a, x);
    ScanAppend(clock, a, x, y + (token + [QUOTE]));
    SkipToQuote(clock, b, gap);
    ScanAppend(clock, b, y, token + [QUOTE]);
    var c := b.(state := TokenWrite);
    WriteToken(clock, c, token);
    ScanSnoc(clock, c, token, QUOTE);
    CloseToken(clock, Scan(clock, c, token).0, a.token, token);
  }

  lemma CloseToken(clock: Clock, d: Auth, memory: bytes, token: bytes)
    requires |memory| == ACCESS_TOKEN_SIZE && |token| < ACCESS_TOKEN_SIZE
    requires d.state == TokenWrite && d.tokenKey.found && d.token == Stored(memory, token)
    requires d.chars == |token| && (!d.expiryKey.found ==> d.expiry == 0)
    ensures var r := ScanByte(clock, d, QUOTE);
      r.1 == d.expiryKey.found && r.0.token == Stored(memory, token + [NUL]) &&
      r.0.expiry == d.expiry && r.0.status == d.status && r.0.timeDiff == d.timeDiff &&
      r.0.tokenKey.found && (!r.1 ==> Searching(r.0) && !r.0.expiryKey.found)
  {
    assert Stored(memory, token)[|token| := NUL] == Stored(memory, token + [NUL]);
  }

  lemma ExpirySegment(clock: Clock, a: Auth, x: bytes, gap: bytes, digits: bytes, end: byte)
    requires Searching(a) && !a.expiryKey.found && ExpiryPart(x, gap, digits, end)
    requires a.tokenKey.found || !MatchRun(TOKEN_KEY, x).found
    ensures var r := Scan(clock, a, ExpiryText(x, gap, digits, end));
      r.1 == a.tokenKey.found && r.0.expiry == (Value(digits, 10) + clock.ts) % TWO_32 &&
      r.0.token == a.token && r.0.status == a.status && r.0.timeDiff == a.timeDiff &&
      r.0.expiryKey.found && (!r.1 ==> Searching(r.0) && !r.0.tokenKey.found)
  {
    hide Scan, ScanByte, Finds, MatchRun, Value;
    var b := Scan(clock, a, x).0;
    FindExpiryKey(clock, a, x);
    ScanAppend(clock, a, x, gap + (digits + [end]));
    SkipToDigit(clock, b, gap, digits + [end]);
    var c := b.(state := ExpiryWrite);
    WriteExpiry(clock, c, digits);
    ScanSnoc(clock, c, digits, end);
    CloseExpiry(clock, Scan(clock, c, digits).0, Value(digits, 10), end);
  }

  lemma CloseExpiry(clock: Clock, d: Auth, value: nat, end: byte)
    requires d.state == ExpiryWrite && d.expiryKey.found && !IsDigit(end)
    requires d.expiry == value % TWO_32 && |d.token| == ACCESS_TOKEN_SIZE
    requires !d.tokenKey.found ==> d.chars == 0
    ensures var r := ScanByte(clock, d, end);
      r.1 == d.tokenKey.found && r.0.expiry == (value + clock.ts) % TWO_32 &&
      r.0.token == d.token && r.0.status == d.status && r.0.timeDiff == d.timeDiff &&
      r.0.expiryKey.found && (!r.1 ==> Searching(r.0) && !r.0.tokenKey.found)
  {
    ModShift(value % TWO_32 + clock.ts, value / TWO_32);
  }

  /** A scan that leaves this token, terminated, and this expiry, counted from the clock. */
  ghost predicate Given(clock: Clock, a: Auth, b: Auth, token: bytes, digits: bytes) {
    |token| < ACCESS_TOKEN_SIZE && |a.token| == ACCESS_TOKEN_SIZE &&
    b.status == a.status && b.timeDiff == a.timeDiff && b.token == Stored(a.token, token + [NUL]) &&
    b.expiry == (Value(digits, 10) + clock.ts) % TWO_32
  }

  /** What a completed scan leaves in the client. */
  ghost predicate Granted(clock: Clock, a: Auth, r: (Auth, bool), token: bytes, digits: bytes) {
    r.1 && Given(clock, a, r.0, token, digits)
  }

  lemma ScanTokenFirst(clock: Clock, a: Auth, x: bytes, gap: bytes, token: bytes,
                       x2: bytes, gap2: bytes, digits: bytes, end: byte, rest: bytes)
    requires Searching(a) && !a.tokenKey.found && !a.expiryKey.found
    requires TokenPart(x, gap, token) && |token| < ACCESS_TOKEN_SIZE
    requires !MatchRun(EXPIRY_KEY, x).found
    requires ExpiryPart(x2, gap2, digits, end)
    ensures Granted(clock, a,
      Scan(clock, a, TokenText(x, gap, token) + (ExpiryText(x2, gap2, digits, end) + rest)),
      token, digits)
  {
    hide Scan, Finds, MatchRun, TokenText, ExpiryText, Value;
    var t, u := TokenText(x, gap, token), ExpiryText(x2, gap2, digits, end);
    TokenSegment(clock, a, x, gap, token);
    ScanAppend(clock, a, t, u + rest);
    var b := Scan(clock, a, t).0;
    ExpirySegment(clock, b, x2, gap2, digits, end);
    ScanAppend(clock, b, u, rest);
  }

  lemma ScanExpiryFirst(clock: Clock, a: Auth, x: bytes, gap: bytes, digits: bytes, end: byte,
                        x2: bytes, gap2: bytes, token: bytes, rest: bytes)
    requires Searching(a) && !a.tokenKey.found && !a.expiryKey.found
    requires ExpiryPart(x, gap, digits, end)
    requires !MatchRun(TOKEN_KEY, x).found
    requires TokenPart(x2, gap2, token) && |token| < ACCESS_TOKEN_SIZE
    ensures Granted(clock, a,
      Scan(clock, a, ExpiryText(x, gap, digits, end) + (TokenText(x2, gap2, token) + rest)),
      token, digits)
  {
    hide Scan, Finds, MatchRun, TokenText, ExpiryText, Value;
    var t, u := ExpiryText(x, gap, digits, end), TokenText(x2, gap2, token);
    ExpirySegment(clock, a, x, gap, digits, end);
    ScanAppend(clock, a, t, u + rest);
    var b := Scan(clock, a, t).0;
    TokenSegment(clock, b, x2, gap2, token);
    ScanAppend(clock, b, u, rest);
  }

  /** A token that does not fit stops the scan with an error and leaves no token behind. */
  lemma ScanTokenTooLong(clock: Clock, a: Auth, x: bytes, gap: bytes, token: bytes, rest: bytes)
    requires Searching(a) && !a.tokenKey.found && TokenPart(x, gap, token)
    requires |token| >= ACCESS_TOKEN_SIZE
    requires a.expiryKey.found || !MatchRun(EXPIRY_KEY, x).found
    ensures var r := Scan(clock, a, x + ((gap + [QUOTE]) + (token + rest)));
      r.1 && r.0.status == BufferTooSmall && |r.0.token| == ACCESS_TOKEN_SIZE &&
      r.0.token[0] == NUL && r.0.expiry == a.expiry
  {
    hide Scan, ScanByte, Finds, MatchRun;
    var y := gap + [QUOTE];
    var b := Scan(clock, a, x).0;
    FindTokenKey(clock, a, x);
    ScanAppend(clock, a, x, y + (token + rest));
    SkipToQuote(clock, b, gap);
    ScanAppend(clock, b, y, token + rest);
    var c := b.(state := TokenWrite);
    var full, over := token[..ACCESS_TOKEN_SIZE - 1], token[ACCESS_TOKEN_SIZE - 1];
    assert over in token && forall q :: q in full ==> q in token;
    WriteToken(clock, c, full);
    ScanSnoc(clock, c, full, over);
    Overflow(clock, Scan(clock, c, full).0, over);
    assert token + rest == (full + [over]) + (token[ACCESS_TOKEN_SIZE..] + rest);
    ScanAppend(clock, c, full + [over], token[ACCESS_TOKEN_SIZE..] + rest);
  }

  lemma Overflow(clock: Clock, d: Auth, c: byte)
    requires d.state == TokenWrite && d.chars == ACCESS_TOKEN_SIZE - 1 && c != QUOTE
    requires |d.token| == ACCESS_TOKEN_SIZE
    ensures var r := ScanByte(clock, d, c);
      r.1 && r.0.status == BufferTooSmall && |r.0.token| == ACCESS_TOKEN_SIZE &&
      r.0.token[0] == NUL && r.0.expiry == d.expiry
  {
  }

  // ----- every reachable state -----

  /** While looking for keys, the counters of the keys not found yet are those of a match over
      the bytes `seen` since the search was last started afresh. */
  ghost predicate Tracks(a: Auth, seen: bytes) {
    a.state == FindKey ==>
      (!a.tokenKey.found ==> a.tokenKey == MatchRun(TOKEN_KEY, seen)) &&
      (!a.expiryKey.found ==> a.expiryKey == MatchRun(EXPIRY_KEY, seen))
  }

  lemma TracksByte(clock: Clock, a: Auth, seen: bytes, c: byte)
    requires Tracks(a, seen) && !ScanByte(clock, a, c).1
    ensures var b := ScanByte(clock, a, c).0;
      Tracks(b, if a.state == FindKey then seen + [c] else [])
  {
    if a.state == FindKey {
      MatchSnoc(TOKEN_KEY, seen, c);
      MatchSnoc(EXPIRY_KEY, seen, c);
    }
  }

  /** Once the token has been handled, its states are never entered again and its buffer is
      never written again, whatever else the body holds. */
  lemma {:induction false} TokenWrittenOnce(clock: Clock, a: Auth, data: bytes)
    requires a.tokenKey.found && a.state != TokenFindStart && a.state != TokenWrite
    ensures var b := Scan(clock, a, data).0;
      b.token == a.token && b.tokenKey.found && b.state != TokenFindStart && b.state != TokenWrite
    decreases |data|
  {
    if data != [] && !ScanByte(clock, a, data[0]).1 {
      TokenWrittenOnce(clock, ScanByte(clock, a, data[0]).0, data[1..]);
    }
  }

  /** In every state a scan can reach the bounds of Sane hold, and the counter k of a key not
      found yet means that the last k bytes searched are the first k bytes of the key. */
  lemma {:induction false} ScanInvariant(clock: Clock, a: Auth, seen: bytes, data: bytes)
    returns (seen': bytes)
    requires Sane(a) && Tracks(a, seen) && !Scan(clock, a, data).1
    ensures var b := Scan(clock, a, data).0;
      Sane(b) && Tracks(b, seen') &&
      (b.state == FindKey && !b.tokenKey.found ==>
         b.tokenKey.chars <= |seen'| &&
         seen'[|seen'| - b.tokenKey.chars..] == TOKEN_KEY[..b.tokenKey.chars]) &&
      (b.state == FindKey && !b.expiryKey.found ==>
         b.expiryKey.chars <= |seen'| &&
         seen'[|seen'| - b.expiryKey.chars..] == EXPIRY_KEY[..b.expiryKey.chars])
    decreases |data|
  {
    hide ScanByte;
    if data == [] {
      seen' := seen;
      MatchSound(TOKEN_KEY, seen);
      MatchSound(EXPIRY_KEY, seen);
    } else {
      SaneByte(clock, a, data[0]);
      TracksByte(clock, a, seen, data[0]);
      seen' := ScanInvariant(clock, ScanByte(clock, a, data[0]).0,
                             if a.state == FindKey then seen + [data[0]] else [], data[1..]);
    }
  }

  /** In no state a scan can reach does one byte complete both searches. */
  lemma NeverBothReached(clock: Clock, a: Auth, seen: bytes, data: bytes, c: byte)
    requires Sane(a) && Tracks(a, seen) && !Scan(clock, a, data).1
    ensures var b := Scan(clock, a, data).0;
      b.state == FindKey && !b.tokenKey.found && !b.expiryKey.found ==> !AllFound(FindKeyByte(b, c))
  {
    hide Scan, ScanByte;
    var seen' := ScanInvariant(clock, a, seen, data);
    var b := Scan(clock, a, data).0;
    if b.state == FindKey && !b.tokenKey.found && !b.expiryKey.found {
      NeverBoth(seen', c);
      MatchSnoc(TOKEN_KEY, seen', c);
      MatchSnoc(EXPIRY_KEY, seen', c);
    }
  }
}
