// Which bodies give the client a token, and which leave something in its token buffer.

module BodyTheory {
  import opened AuthScanner
  import opened AuthTheory
  import opened Bytes
  import opened Errors
  import opened HttpGrammar
  import opened KeyMatcher
  import opened Utils

  // ----- a body that holds both -----

  /** The body in its parts, the token first. */
  ghost predicate TokenFirstAs(t: bytes, x: bytes, gap: bytes, token: bytes,
                               y: bytes, gap2: bytes, digits: bytes, end: byte, rest: bytes) {
    t == TokenText(x, gap, token) + (ExpiryText(y, gap2, digits, end) + rest) &&
    TokenPart(x, gap, token) && |token| < ACCESS_TOKEN_SIZE && !MatchRun(EXPIRY_KEY, x).found &&
    ExpiryPart(y, gap2, digits, end)
  }

  /** The body in its parts, the expiry first. */
  ghost predicate ExpiryFirstAs(t: bytes, y: bytes, gap2: bytes, digits: bytes, end: byte,
                                x: bytes, gap: bytes, token: bytes, rest: bytes) {
    t == ExpiryText(y, gap2, digits, end) + (TokenText(x, gap, token) + rest) &&
    ExpiryPart(y, gap2, digits, end) && !MatchRun(TOKEN_KEY, y).found &&
    TokenPart(x, gap, token) && |token| < ACCESS_TOKEN_SIZE
  }

  /** The body holds this token and this expiry, in either order. */
  ghost predicate Holds(t: bytes, token: bytes, digits: bytes) {
    (exists x, gap, y, gap2, end, rest :: TokenFirstAs(t, x, gap, token, y, gap2, digits, end, rest)) ||
    (exists y, gap2, end, x, gap, rest :: ExpiryFirstAs(t, y, gap2, digits, end, x, gap, token, rest))
  }

  ghost predicate HoldsBoth(t: bytes) {
    exists token, digits :: Holds(t, token, digits)
  }

  /** Nothing found yet. */
  ghost predicate AtStart(a: Auth) {
    Searching(a) && !a.tokenKey.found && !a.expiryKey.found
  }

  lemma HoldsGranted(clock: Clock, a: Auth, t: bytes, token: bytes, digits: bytes)
    requires AtStart(a) && Holds(t, token, digits)
    ensures Granted(clock, a, Scan(clock, a, t), token, digits)
  {
    hide Scan, MatchRun, Finds, TokenPart, ExpiryPart, TokenText, ExpiryText, Granted;
    if x, gap, y, gap2, end, rest :| TokenFirstAs(t, x, gap, token, y, gap2, digits, end, rest) {
      ScanTokenFirst(clock, a, x, gap, token, y, gap2, digits, end, rest);
    } else {
      var y, gap2, end, x, gap, rest :| ExpiryFirstAs(t, y, gap2, digits, end, x, gap, token, rest);
      ScanExpiryFirst(clock, a, y, gap2, digits, end, x, gap, token, rest);
    }
  }

  // ----- in terms of the text -----

  /** The key's first occurrence in a + key is at its end, behind a byte that is not in the key. */
  ghost predicate Plain(key: bytes, a: bytes) {
    First(key, a) && (a == [] || a[|a| - 1] !in key)
  }

  ghost predicate PlainToken(a: bytes, gap: bytes, token: bytes) {
    Plain(TOKEN_KEY, a) && QUOTE !in gap && QUOTE !in token && |token| < ACCESS_TOKEN_SIZE
  }

  ghost predicate PlainExpiry(a: bytes, gap: bytes, digits: bytes, end: byte) {
    Plain(EXPIRY_KEY, a) && (forall c :: c in gap ==> !IsDigit(c)) &&
    digits != [] && AllDigits(digits) && !IsDigit(end)
  }

  /** A body with both keys behind foreign bytes, in either order and the second one not in front
      of the first, holds the token and the expiry behind them. */
  lemma PlainHolds(t: bytes, a: bytes, gap: bytes, token: bytes,
                   b: bytes, gap2: bytes, digits: bytes, end: byte, rest: bytes)
    requires PlainToken(a, gap, token) && PlainExpiry(b, gap2, digits, end)
    requires
      var x, y := TokenText(a + TOKEN_KEY, gap, token), ExpiryText(b + EXPIRY_KEY, gap2, digits, end);
      (t == x + (y + rest) && Absent(EXPIRY_KEY, a + TOKEN_KEY)) ||
      (t == y + (x + rest) && Absent(TOKEN_KEY, b + EXPIRY_KEY))
    ensures Holds(t, token, digits)
  {
    hide MatchRun, Finds, First, Open, Absent, TokenText, ExpiryText, Quoted;
    var u, v := a + TOKEN_KEY, b + EXPIRY_KEY;
    KeysQuoted();
    ForeignOpens(TOKEN_KEY, a);
    ForeignOpens(EXPIRY_KEY, b);
    FirstFinds(TOKEN_KEY, a);
    FirstFinds(EXPIRY_KEY, b);
    if t == TokenText(u, gap, token) + (ExpiryText(v, gap2, digits, end) + rest) && Absent(EXPIRY_KEY, u) {
      AbsentNotFound(EXPIRY_KEY, u);
      assert TokenFirstAs(t, u, gap, token, v, gap2, digits, end, rest);
    } else {
      AbsentNotFound(TOKEN_KEY, v);
      assert ExpiryFirstAs(t, v, gap2, digits, end, u, gap, token, rest);
    }
  }

  // ----- walking through a body -----

  /** The scan has come to an end of the text without having touched these. */
  ghost predicate Idle(a: Auth, r: (Auth, bool)) {
    !r.1 && r.0.token == a.token && r.0.status == a.status && r.0.timeDiff == a.timeDiff
  }

  lemma {:induction false} NoQuote(clock: Clock, a: Auth, gap: bytes)
    requires a.state == TokenFindStart && QUOTE !in gap
    ensures Scan(clock, a, gap) == (a, false)
    decreases |gap|
  {
    if gap != [] {
      assert gap[0] in gap;
      NoQuote(clock, a, gap[1..]);
    }
  }

  lemma {:induction false} NoDigit(clock: Clock, a: Auth, gap: bytes)
    requires a.state == ExpiryFindStart && forall c :: c in gap ==> !IsDigit(c)
    ensures Scan(clock, a, gap) == (a, false)
    decreases |gap|
  {
    if gap != [] {
      assert gap[0] in gap;
      NoDigit(clock, a, gap[1..]);
    }
  }

  /** The bytes in front of the first quote have none. */
  lemma BeforeQuote(t: bytes)
    ensures var q := IndexOf(t, QUOTE);
      QUOTE !in t[..q] && (q < |t| ==> t == (t[..q] + [QUOTE]) + t[q + 1..]) && (q == |t| ==> t[..q] == t)
  {
    hide IndexOf;
    var q := IndexOf(t, QUOTE);
    NotAmong(t, q);
    if q < |t| {
      Apart(t, q);
    }
  }

  lemma NotAmong(t: bytes, q: nat)
    requires q <= |t| && forall i :: 0 <= i < q ==> t[i] != QUOTE
    ensures QUOTE !in t[..q] && (q == |t| ==> t[..q] == t)
  {
  }

  /** The scanner with its token buffer open at the start. */
  ghost predicate Writing(a: Auth) {
    a.state == TokenWrite && a.chars == 0 && |a.token| == ACCESS_TOKEN_SIZE && a.tokenKey.found
  }

  /** Behind the token's key: either a quote opens the token, or nothing happens any more. */
  lemma TokenWalk(clock: Clock, a: Auth, x: bytes, t: bytes)
    returns (gap: bytes, w: bytes, c: Auth, begun: bool)
    requires Searching(a) && !a.tokenKey.found && Finds(TOKEN_KEY, x)
    requires a.expiryKey.found || !MatchRun(EXPIRY_KEY, x).found
    ensures begun ==> t == (gap + [QUOTE]) + w && QUOTE !in gap && Writing(c)
    ensures begun ==> c.token == a.token && c.status == a.status
    ensures begun ==> Scan(clock, a, x + (gap + [QUOTE])) == (c, false)
    ensures begun ==> Scan(clock, a, x + t) == Scan(clock, c, w)
    ensures !begun ==> Idle(a, Scan(clock, a, x + t))
  {
    hide Scan, ScanByte, MatchRun, Finds, IndexOf;
    var q := IndexOf(t, QUOTE);
    gap, begun := t[..q], q < |t|;
    w := if begun then t[q + 1..] else [];
    BeforeQuote(t);
    FindTokenKey(clock, a, x);
    var b := Scan(clock, a, x).0;
    c := b.(state := TokenWrite);
    ScanAppend(clock, a, x, t);
    if begun {
      SkipToQuote(clock, b, gap);
      ScanAppend(clock, a, x, gap + [QUOTE]);
      ScanAppend(clock, b, gap + [QUOTE], w);
    } else {
      NoQuote(clock, b, t);
    }
  }

  /** A text is digits and the byte that ends them, or stops short of that. */
  lemma DigitParts(t: bytes) returns (gap: bytes, digits: bytes, end: byte, rest: bytes, closed: bool)
    ensures forall c :: c in gap ==> !IsDigit(c)
    ensures AllDigits(digits)
    ensures closed ==> t == gap + ((digits + [end]) + rest) && digits != [] && !IsDigit(end)
    ensures !closed ==> t == gap + digits
  {
    var d := FirstDigit(t, 0);
    gap := t[..d];
    var run := t[d..];
    var k := DigitRun(run);
    assert t == gap + run;
    digits, closed := run[..k], k < |run|;
    end, rest := if closed then run[k] else 0, if closed then run[k + 1..] else [];
    if closed {
      Apart(run, k);
    } else {
      assert digits == run;
    }
  }

  lemma Apart(run: bytes, k: nat)
    requires k < |run|
    ensures run == (run[..k] + [run[k]]) + run[k + 1..]
  {
  }

  /** Behind the expiry's key: either digits and their end, or nothing happens any more. */
  lemma ExpiryWalk(clock: Clock, a: Auth, y: bytes, t: bytes)
    returns (gap: bytes, digits: bytes, end: byte, rest: bytes, closed: bool)
    requires Searching(a) && !a.expiryKey.found && Finds(EXPIRY_KEY, y)
    requires a.tokenKey.found || !MatchRun(TOKEN_KEY, y).found
    ensures closed ==> y + t == ExpiryText(y, gap, digits, end) + rest && ExpiryPart(y, gap, digits, end)
    ensures !closed ==> Idle(a, Scan(clock, a, y + t))
  {
    hide Scan, ScanByte, MatchRun, Finds, Value, IsDigit, AllDigits;
    gap, digits, end, rest, closed := DigitParts(t);
    if closed {
      Regroup(y, gap, digits + [end], rest);
    } else {
      FindExpiryKey(clock, a, y);
      ScanAppend(clock, a, y, t);
      DigitsOnly(clock, Scan(clock, a, y).0, gap, digits);
    }
  }

  lemma DigitsOnly(clock: Clock, b: Auth, gap: bytes, digits: bytes)
    requires b.state == ExpiryFindStart && b.expiry == 0
    requires AllDigits(digits) && forall c :: c in gap ==> !IsDigit(c)
    ensures Idle(b, Scan(clock, b, gap + digits))
  {
    hide Scan, Value;
    if digits == [] {
      assert gap + digits == gap;
      NoDigit(clock, b, gap);
    } else {
      SkipToDigit(clock, b, gap, digits);
      WriteExpiry(clock, b.(state := ExpiryWrite), digits);
    }
  }

  lemma Regroup(y: bytes, gap: bytes, d: bytes, rest: bytes)
    ensures y + (gap + (d + rest)) == (y + (gap + d)) + rest
  {
    Assoc(gap, d, rest);
    Assoc(y, gap + d, rest);
  }

  function FirstDigit(t: bytes, from: nat): (d: nat)
    requires from <= |t|
    ensures from <= d <= |t| && (d < |t| ==> IsDigit(t[d]))
    ensures forall i :: from <= i < d ==> !IsDigit(t[i])
    decreases |t| - from
  {
    if from == |t| || IsDigit(t[from]) then from else FirstDigit(t, from + 1)
  }

  /** A token too long for the buffer. */
  ghost predicate Overlong(w: bytes) {
    |w| >= ACCESS_TOKEN_SIZE && QUOTE !in w[..ACCESS_TOKEN_SIZE]
  }

  /** Behind the opening quote: either a token that fits and its closing quote, or the scan does
      not stop with its status unchanged. */
  lemma TokenClose(clock: Clock, c: Auth, w: bytes) returns (token: bytes, rest: bytes, closed: bool)
    requires Writing(c) && c.status == Ok
    ensures closed ==> w == (token + [QUOTE]) + rest && QUOTE !in token && |token| < ACCESS_TOKEN_SIZE
    ensures !closed ==> !(Scan(clock, c, w).1 && Scan(clock, c, w).0.status == Ok)
  {
    hide Scan, ScanByte, IndexOf;
    var q := IndexOf(w, QUOTE);
    token, closed := w[..q], q < |w| && q < ACCESS_TOKEN_SIZE;
    rest := if closed then w[q + 1..] else [];
    BeforeQuote(w);
    if !closed {
      if |w| < ACCESS_TOKEN_SIZE {
        WriteToken(clock, c, w);
      } else {
        assert forall x :: x in w[..ACCESS_TOKEN_SIZE] ==> x in token;
        Overlength(clock, c, w);
      }
    }
  }

  lemma Overlength(clock: Clock, c: Auth, w: bytes)
    requires Writing(c) && Overlong(w)
    ensures var r := Scan(clock, c, w);
      r.1 && r.0.status == BufferTooSmall && |r.0.token| == ACCESS_TOKEN_SIZE && r.0.token[0] == NUL
  {
    hide Scan, ScanByte;
    var k := ACCESS_TOKEN_SIZE - 1;
    var full, over := w[..k], w[k];
    assert w[..ACCESS_TOKEN_SIZE] == full + [over];
    assert over in w[..ACCESS_TOKEN_SIZE] && forall q :: q in full ==> q in w[..ACCESS_TOKEN_SIZE];
    WriteToken(clock, c, full);
    ScanSnoc(clock, c, full, over);
    Overflow(clock, Scan(clock, c, full).0, over);
    assert w == (full + [over]) + w[k + 1..];
    ScanAppend(clock, c, full + [over], w[k + 1..]);
  }

  // ----- when the scan stops of its own accord -----

  /** Which key is found first, and where. */
  lemma FirstKey(t: bytes) returns (n: nat, tokenFirst: bool)
    requires MatchRun(TOKEN_KEY, t).found || MatchRun(EXPIRY_KEY, t).found
    ensures n <= |t|
    ensures tokenFirst ==> Finds(TOKEN_KEY, t[..n]) && !MatchRun(EXPIRY_KEY, t[..n]).found
    ensures !tokenFirst ==> Finds(EXPIRY_KEY, t[..n]) && !MatchRun(TOKEN_KEY, t[..n]).found
  {
    hide MatchRun;
    if !MatchRun(EXPIRY_KEY, t).found {
      tokenFirst := true;
      n := FirstFind(TOKEN_KEY, t);
      if MatchRun(EXPIRY_KEY, t[..n]).found {
        FoundStays(EXPIRY_KEY, t, t[..n]);
      }
    } else if !MatchRun(TOKEN_KEY, t).found {
      tokenFirst := false;
      n := FirstFind(EXPIRY_KEY, t);
      if MatchRun(TOKEN_KEY, t[..n]).found {
        FoundStays(TOKEN_KEY, t, t[..n]);
      }
    } else {
      var i := FirstFind(TOKEN_KEY, t);
      var j := FirstFind(EXPIRY_KEY, t);
      n, tokenFirst := if i <= j then i else j, i <= j;
      NotEarlier(TOKEN_KEY, t, i, j);
      NotEarlier(EXPIRY_KEY, t, j, i);
      if i == j {
        var u, c := t[..i - 1], t[i - 1];
        assert t[..i] == u + [c] && t[..i][..i - 1] == u;
        NeverBoth(u, c);
      }
    }
  }

  lemma NotEarlier(key: bytes, t: bytes, i: nat, j: nat)
    requires i <= |t| && j <= |t| && Finds(key, t[..i])
    ensures j < i ==> !MatchRun(key, t[..j]).found
  {
    hide MatchRun;
    if j < i && MatchRun(key, t[..j]).found {
      assert t[..j] <= t[..i][..i - 1];
      FoundStays(key, t[..i][..i - 1], t[..j]);
    }
  }

  lemma StopsBehindToken(clock: Clock, a: Auth, x: bytes, t: bytes)
    requires AtStart(a) && a.status == Ok && Finds(TOKEN_KEY, x) && !MatchRun(EXPIRY_KEY, x).found
    requires Scan(clock, a, x + t).1 && Scan(clock, a, x + t).0.status == Ok
    ensures HoldsBoth(x + t)
  {
    hide Scan, ScanByte, MatchRun, Finds, Value;
    var gap, w, c, begun := TokenWalk(clock, a, x, t);
    var token, rest, closed := TokenClose(clock, c, w);
    var head := TokenText(x, gap, token);
    assert x + t == head + rest by {
      Assoc(gap + [QUOTE], token + [QUOTE], rest);
      Assoc(x, (gap + [QUOTE]) + (token + [QUOTE]), rest);
    }
    TokenSegment(clock, a, x, gap, token);
    ScanAppend(clock, a, head, rest);
    var b := Scan(clock, a, head).0;
    if !MatchRun(EXPIRY_KEY, rest).found {
      SearchOn(clock, b, rest);
      assert false;
    }
    var n := FirstFind(EXPIRY_KEY, rest);
    var y, more := rest[..n], rest[n..];
    assert rest == y + more;
    var gap2, digits, end, last, done := ExpiryWalk(clock, b, y, more);
    assert TokenFirstAs(x + t, x, gap, token, y, gap2, digits, end, last);
    assert Holds(x + t, token, digits);
  }

  lemma StopsBehindExpiry(clock: Clock, a: Auth, y: bytes, t: bytes)
    requires AtStart(a) && a.status == Ok && Finds(EXPIRY_KEY, y) && !MatchRun(TOKEN_KEY, y).found
    requires Scan(clock, a, y + t).1 && Scan(clock, a, y + t).0.status == Ok
    ensures HoldsBoth(y + t)
  {
    hide Scan, ScanByte, MatchRun, Finds, Value;
    var gap, digits, end, rest, closed := ExpiryWalk(clock, a, y, t);
    var head := ExpiryText(y, gap, digits, end);
    ExpirySegment(clock, a, y, gap, digits, end);
    ScanAppend(clock, a, head, rest);
    var b := Scan(clock, a, head).0;
    if !MatchRun(TOKEN_KEY, rest).found {
      SearchOn(clock, b, rest);
      assert false;
    }
    var n := FirstFind(TOKEN_KEY, rest);
    var x, more := rest[..n], rest[n..];
    assert rest == x + more;
    var gap2, w, c, begun := TokenWalk(clock, b, x, more);
    var token, last, done := TokenClose(clock, c, w);
    assert rest == TokenText(x, gap2, token) + last by {
      Assoc(gap2 + [QUOTE], token + [QUOTE], last);
      Assoc(x, (gap2 + [QUOTE]) + (token + [QUOTE]), last);
    }
    assert ExpiryFirstAs(y + t, y, gap, digits, end, x, gap2, token, last);
    assert Holds(y + t, token, digits);
  }

  /** The scan of a body stops with its status unchanged if and only if the body holds both a
      token that fits and an expiry. */
  lemma StopsExactly(clock: Clock, a: Auth, t: bytes)
    requires AtStart(a) && a.status == Ok
    ensures Scan(clock, a, t).1 && Scan(clock, a, t).0.status == Ok <==> HoldsBoth(t)
  {
    hide Scan, ScanByte, MatchRun, Finds, Holds, Value;
    var r := Scan(clock, a, t);
    if r.1 && r.0.status == Ok {
      if !MatchRun(TOKEN_KEY, t).found && !MatchRun(EXPIRY_KEY, t).found {
        SearchOn(clock, a, t);
        assert false;
      }
      var n, tokenFirst := FirstKey(t);
      assert t == t[..n] + t[n..];
      if tokenFirst {
        StopsBehindToken(clock, a, t[..n], t[n..]);
      } else {
        StopsBehindExpiry(clock, a, t[..n], t[n..]);
      }
    }
    if HoldsBoth(t) {
      var token, digits :| Holds(t, token, digits);
      HoldsGranted(clock, a, t, token, digits);
    }
  }

  // ----- when something is left in the token buffer -----

  ghost predicate OpensFirst(pre: bytes, x: bytes, gap: bytes) {
    pre == x + (gap + [QUOTE]) && Finds(TOKEN_KEY, x) && QUOTE !in gap && !MatchRun(EXPIRY_KEY, x).found
  }

  ghost predicate OpensSecond(pre: bytes, y: bytes, gap2: bytes, digits: bytes, end: byte,
                              x: bytes, gap: bytes) {
    pre == ExpiryText(y, gap2, digits, end) + (x + (gap + [QUOTE])) &&
    ExpiryPart(y, gap2, digits, end) && !MatchRun(TOKEN_KEY, y).found &&
    Finds(TOKEN_KEY, x) && QUOTE !in gap
  }

  /** The last byte of pre is the opening quote of the token, and the expiry is in front of it. */
  ghost predicate OpensBehind(pre: bytes) {
    exists y, gap2, digits, end, x, gap :: OpensSecond(pre, y, gap2, digits, end, x, gap)
  }

  /** The last byte of pre is the opening quote of the token. */
  ghost predicate OpensToken(pre: bytes) {
    (exists x, gap :: OpensFirst(pre, x, gap)) || OpensBehind(pre)
  }

  ghost predicate PutsBehind(t: bytes, pre: bytes) {
    pre <= t && OpensToken(pre) &&
    var w := t[|pre|..];
    w != [] && w[0] != QUOTE && w[0] != NUL && !Overlong(w)
  }

  /** The text opens a token, whose first byte is neither the closing quote nor NUL, and which
      is not too long. */
  ghost predicate Puts(t: bytes) {
    exists pre :: PutsBehind(t, pre)
  }

  lemma OpenedScan(clock: Clock, a: Auth, pre: bytes) returns (c: Auth)
    requires AtStart(a) && OpensToken(pre)
    ensures Scan(clock, a, pre) == (c, false) && Writing(c) && c.token == a.token && c.status == a.status
    ensures c.expiryKey.found ==> OpensBehind(pre)
  {
    hide Scan, ScanByte, MatchRun, Finds, Value;
    if x, gap :| OpensFirst(pre, x, gap) {
      c := OpeningScan(clock, a, x, gap);
    } else {
      var y, gap2, digits, end, x, gap :| OpensSecond(pre, y, gap2, digits, end, x, gap);
      var head := ExpiryText(y, gap2, digits, end);
      ExpirySegment(clock, a, y, gap2, digits, end);
      ScanAppend(clock, a, head, x + (gap + [QUOTE]));
      c := OpeningScan(clock, Scan(clock, a, head).0, x, gap);
    }
  }

  lemma OpeningScan(clock: Clock, a: Auth, x: bytes, gap: bytes) returns (c: Auth)
    requires Searching(a) && !a.tokenKey.found && Finds(TOKEN_KEY, x) && QUOTE !in gap
    requires a.expiryKey.found || !MatchRun(EXPIRY_KEY, x).found
    ensures Scan(clock, a, x + (gap + [QUOTE])) == (c, false) && Writing(c)
    ensures c.token == a.token && c.status == a.status && c.expiryKey.found == a.expiryKey.found
  {
    hide Scan, ScanByte, MatchRun, Finds;
    FindTokenKey(clock, a, x);
    ScanAppend(clock, a, x, gap + [QUOTE]);
    var b := Scan(clock, a, x).0;
    SkipToQuote(clock, b, gap);
    c := b.(state := TokenWrite);
  }

  /** What the rest of a body makes of the first byte of an opened token. */
  lemma HeadByte(clock: Clock, c: Auth, w: bytes)
    requires Writing(c)
    ensures var r := Scan(clock, c, w);
      |r.0.token| == ACCESS_TOKEN_SIZE &&
      r.0.token[0] == if w == [] then c.token[0] else if w[0] == QUOTE || Overlong(w) then NUL else w[0]
  {
    hide Scan, ScanByte, IndexOf;
    var q := IndexOf(w, QUOTE);
    BeforeQuote(w);
    var token := w[..q];
    if q == |w| && q < ACCESS_TOKEN_SIZE {
      WriteToken(clock, c, w);
      StoredHead(c.token, w);
    } else if q < ACCESS_TOKEN_SIZE {
      WriteToken(clock, c, token);
      ScanSnoc(clock, c, token, QUOTE);
      ScanAppend(clock, c, token + [QUOTE], w[q + 1..]);
      ClosedHead(clock, Scan(clock, c, token).0, w[q + 1..], token, c.token);
      StoredHead(c.token, token + [NUL]);
      assert token != [] ==> token[0] == w[0];
      assert |w| >= ACCESS_TOKEN_SIZE ==> w[..ACCESS_TOKEN_SIZE][q] == QUOTE;
    } else {
      assert forall x :: x in w[..ACCESS_TOKEN_SIZE] ==> x in token;
      Overlength(clock, c, w);
    }
  }

  lemma StoredHead(memory: bytes, s: bytes)
    requires |s| <= |memory| && memory != []
    ensures Stored(memory, s) != [] && |Stored(memory, s)| == |memory|
    ensures Stored(memory, s)[0] == if s == [] then memory[0] else s[0]
  {
  }

  lemma ClosedHead(clock: Clock, d: Auth, rest: bytes, token: bytes, memory: bytes)
    requires d.state == TokenWrite && d.tokenKey.found && d.chars == |token| < ACCESS_TOKEN_SIZE
    requires |memory| == ACCESS_TOKEN_SIZE && d.token == Stored(memory, token)
    ensures var r := ScanByte(clock, d, QUOTE);
      var all := if r.1 then r else Scan(clock, r.0, rest);
      all.0.token == Stored(memory, token + [NUL])
  {
    hide Scan;
    var r := ScanByte(clock, d, QUOTE);
    assert Stored(memory, token)[|token| := NUL] == Stored(memory, token + [NUL]);
    if !r.1 {
      TokenWrittenOnce(clock, r.0, rest);
    }
  }

  /** Either the text opens a token somewhere, or the token buffer is left alone. */
  lemma Reaches(clock: Clock, a: Auth, t: bytes) returns (pre: bytes, begun: bool)
    requires AtStart(a)
    ensures begun ==> pre <= t && OpensToken(pre)
    ensures !begun ==> Scan(clock, a, t).0.token == a.token
  {
    hide Scan, ScanByte, MatchRun, Finds, Value;
    pre, begun := [], false;
    if !MatchRun(TOKEN_KEY, t).found && !MatchRun(EXPIRY_KEY, t).found {
      SearchOn(clock, a, t);
    } else {
      var n, tokenFirst := FirstKey(t);
      var k, more := t[..n], t[n..];
      assert t == k + more;
      if tokenFirst {
        var gap, w, c;
        gap, w, c, begun := TokenWalk(clock, a, k, more);
        pre := k + (gap + [QUOTE]);
        if begun {
          assert OpensFirst(pre, k, gap);
          Assoc(k, gap + [QUOTE], w);
        }
      } else {
        pre, begun := ReachesBehind(clock, a, k, more);
      }
    }
  }

  lemma ReachesBehind(clock: Clock, a: Auth, y: bytes, t: bytes) returns (pre: bytes, begun: bool)
    requires AtStart(a) && Finds(EXPIRY_KEY, y) && !MatchRun(TOKEN_KEY, y).found
    ensures begun ==> pre <= y + t && OpensToken(pre)
    ensures !begun ==> Scan(clock, a, y + t).0.token == a.token
  {
    hide Scan, ScanByte, MatchRun, Finds, Value;
    pre, begun := [], false;
    var gap, digits, end, rest, closed := ExpiryWalk(clock, a, y, t);
    if closed {
      var head := ExpiryText(y, gap, digits, end);
      ExpirySegment(clock, a, y, gap, digits, end);
      ScanAppend(clock, a, head, rest);
      var b := Scan(clock, a, head).0;
      if !MatchRun(TOKEN_KEY, rest).found {
        SearchOn(clock, b, rest);
      } else {
        var n := FirstFind(TOKEN_KEY, rest);
        var x, more := rest[..n], rest[n..];
        assert rest == x + more;
        var gap2, w, c;
        gap2, w, c, begun := TokenWalk(clock, b, x, more);
        pre := head + (x + (gap2 + [QUOTE]));
        if begun {
          assert OpensSecond(pre, y, gap, digits, end, x, gap2);
          Assoc(x, gap2 + [QUOTE], w);
          Assoc(head, x + (gap2 + [QUOTE]), w);
        }
      }
    }
  }

  /** A client without a token reads one after the scan if and only if the body puts one. */
  lemma ReadsExactly(clock: Clock, a: Auth, t: bytes)
    requires AtStart(a) && a.token[0] == NUL
    ensures var b := Scan(clock, a, t).0;
      |b.token| == ACCESS_TOKEN_SIZE && (b.token[0] != NUL <==> Puts(t))
  {
    hide Scan, ScanByte, OpensToken, Overlong;
    var pre, begun := Reaches(clock, a, t);
    if begun {
      ReadsBehind(clock, a, t, pre);
    }
    if pre' :| PutsBehind(t, pre') {
      ReadsBehind(clock, a, t, pre');
    }
  }

  lemma ReadsBehind(clock: Clock, a: Auth, t: bytes, pre: bytes)
    requires AtStart(a) && a.token[0] == NUL && pre <= t && OpensToken(pre)
    ensures var b := Scan(clock, a, t).0;
      |b.token| == ACCESS_TOKEN_SIZE && (b.token[0] != NUL <==> PutsBehind(t, pre))
  {
    hide Scan, ScanByte, OpensToken, Overlong;
    var w := t[|pre|..];
    assert t == pre + w;
    var c := OpenedScan(clock, a, pre);
    ScanAppend(clock, a, pre, w);
    HeadByte(clock, c, w);
  }

  // ----- a body that breaks off inside the token -----

  /** The scan of a body up to the middle of a token that follows the expiry. */
  lemma BrokenScan(clock: Clock, a: Auth, y: bytes, gap: bytes, digits: bytes, end: byte,
                   x: bytes, gap2: bytes, part: bytes)
    requires AtStart(a) && ExpiryPart(y, gap, digits, end) && !MatchRun(TOKEN_KEY, y).found
    requires TokenPart(x, gap2, part) && |part| < ACCESS_TOKEN_SIZE
    ensures var r := Scan(clock, a, BrokenBody(y, gap, digits, end, x, gap2, part));
      !r.1 && r.0.token == Stored(a.token, part) && r.0.timeDiff == a.timeDiff && r.0.status == a.status &&
      r.0.expiry == (Value(digits, 10) + clock.ts) % TWO_32
  {
    hide Scan, ScanByte, Finds, MatchRun, ExpiryText, Value;
    var head, open := ExpiryText(y, gap, digits, end), x + (gap2 + [QUOTE]);
    ExpirySegment(clock, a, y, gap, digits, end);
    ScanAppend(clock, a, head, open + part);
    var b := Scan(clock, a, head).0;
    var c := OpeningScan(clock, b, x, gap2);
    ScanAppend(clock, b, open, part);
    OpeningExpiry(clock, b, x, gap2);
    WriteToken(clock, c, part);
  }

  lemma OpeningExpiry(clock: Clock, b: Auth, x: bytes, gap: bytes)
    requires Searching(b) && !b.tokenKey.found && Finds(TOKEN_KEY, x) && QUOTE !in gap && b.expiryKey.found
    ensures var c := Scan(clock, b, x + (gap + [QUOTE])).0;
      c.expiry == b.expiry && c.timeDiff == b.timeDiff
  {
    hide Scan, ScanByte, Finds, MatchRun;
    FindTokenKey(clock, b, x);
    ScanAppend(clock, b, x, gap + [QUOTE]);
    SkipToQuote(clock, Scan(clock, b, x).0, gap);
  }

  function BrokenBody(y: bytes, gap: bytes, digits: bytes, end: byte, x: bytes, gap2: bytes,
                      part: bytes): bytes {
    ExpiryText(y, gap, digits, end) + ((x + (gap2 + [QUOTE])) + part)
  }

  // ----- what a body gives to every client -----

  /** The expiry has been read to its end. */
  ghost predicate Dated(a: Auth) {
    a.expiryKey.found && a.state != ExpiryFindStart && a.state != ExpiryWrite
  }

  /** The token has been read to its end. */
  ghost predicate Named(a: Auth) {
    a.tokenKey.found && a.state != TokenFindStart && a.state != TokenWrite
  }

  lemma {:induction false} StaysDated(clock: Clock, a: Auth, t: bytes)
    requires Dated(a)
    ensures !Scan(clock, a, t).1 ==> Dated(Scan(clock, a, t).0)
    decreases |t|
  {
    if t != [] && !ScanByte(clock, a, t[0]).1 {
      StaysDated(clock, ScanByte(clock, a, t[0]).0, t[1..]);
    }
  }

  /** The scan does not outlive the end of the second of the two. */
  lemma {:induction false} NeverOutlived(clock: Clock, a: Auth, t: bytes)
    requires !(Dated(a) && Named(a))
    ensures var r := Scan(clock, a, t);
      !r.1 ==> !(Dated(r.0) && Named(r.0))
    decreases |t|
  {
    if t != [] && !ScanByte(clock, a, t[0]).1 {
      NeverOutlived(clock, ScanByte(clock, a, t[0]).0, t[1..]);
    }
  }

  /** The clock plays no part before the end of the expiry. */
  lemma {:induction false} ClockFree(clock: Clock, clock': Clock, a: Auth, t: bytes)
    requires a.state == ExpiryFindStart || a.state == ExpiryWrite ==> a.expiryKey.found
    ensures var r := Scan(clock, a, t);
      r.1 || Dated(r.0) || Scan(clock', a, t) == r
    decreases |t|
  {
    if t != [] {
      var r := ScanByte(clock, a, t[0]);
      if !r.1 && Dated(r.0) {
        StaysDated(clock, r.0, t[1..]);
      } else if !r.1 {
        ClockFree(clock, clock', r.0, t[1..]);
      }
    }
  }

  /** The body ends inside the token, behind the expiry, and its last byte happens to be NUL. */
  ghost predicate UnclosedAs(t: bytes, y: bytes, gap: bytes, digits: bytes, end: byte,
                             x: bytes, gap2: bytes, token: bytes) {
    t == BrokenBody(y, gap, digits, end, x, gap2, token + [NUL]) &&
    ExpiryPart(y, gap, digits, end) && !MatchRun(TOKEN_KEY, y).found &&
    TokenPart(x, gap2, token) && |token| + 1 < ACCESS_TOKEN_SIZE
  }

  ghost predicate Unclosed(t: bytes, token: bytes, digits: bytes) {
    exists y, gap, end, x, gap2 :: UnclosedAs(t, y, gap, digits, end, x, gap2, token)
  }

  ghost predicate CarriesAs(t: bytes, token: bytes, digits: bytes, written: bytes) {
    Value(written, 10) % TWO_32 == Value(digits, 10) % TWO_32 &&
    (Holds(t, token, written) || Unclosed(t, token, written))
  }

  /** The body carries this token, and an expiry of this value in 32 bits. */
  ghost predicate Carries(t: bytes, token: bytes, digits: bytes) {
    exists written :: CarriesAs(t, token, digits, written)
  }

  lemma UnclosedGiven(clock: Clock, a: Auth, t: bytes, token: bytes, digits: bytes)
    requires AtStart(a) && Unclosed(t, token, digits)
    ensures Given(clock, a, Scan(clock, a, t).0, token, digits)
  {
    hide Scan, MatchRun, Finds, ExpiryPart, BrokenBody, Value;
    var y, gap, end, x, gap2 :| UnclosedAs(t, y, gap, digits, end, x, gap2, token);
    BrokenScan(clock, a, y, gap, digits, end, x, gap2, token + [NUL]);
  }

  lemma CarriedGiven(clock: Clock, a: Auth, t: bytes, token: bytes, digits: bytes)
    requires AtStart(a) && Carries(t, token, digits)
    ensures Given(clock, a, Scan(clock, a, t).0, token, digits)
  {
    hide Scan, Holds, Unclosed, Value;
    var written :| CarriesAs(t, token, digits, written);
    if Holds(t, token, written) {
      HoldsGranted(clock, a, t, token, written);
    } else {
      UnclosedGiven(clock, a, t, token, written);
    }
    SameExpiry(Value(written, 10), Value(digits, 10), clock.ts);
  }

  lemma SameExpiry(v: nat, w: nat, ts: uint32)
    ensures v % TWO_32 == w % TWO_32 ==> (v + ts) % TWO_32 == (w + ts) % TWO_32
    ensures (v + 0) % TWO_32 != (v + 1) % TWO_32
  {
  }

  /** A token buffer full of this byte. */
  function Filled(c: byte): (s: bytes)
    ensures |s| == ACCESS_TOKEN_SIZE && forall i :: 0 <= i < |s| ==> s[i] == c
  {
    seq(ACCESS_TOKEN_SIZE, _ => c)
  }

  lemma StoredAt(c: byte, s: bytes, i: nat)
    requires |s| <= ACCESS_TOKEN_SIZE && i < ACCESS_TOKEN_SIZE
    ensures Stored(Filled(c), s)[i] == if i < |s| then s[i] else c
  {
  }

  /** Two memories without a byte in common show what was stored in them. */
  lemma SameStored(s: bytes, u: bytes)
    requires |s| <= ACCESS_TOKEN_SIZE && |u| <= ACCESS_TOKEN_SIZE
    requires Stored(Filled(1), s) == Stored(Filled(1), u) && Stored(Filled(2), s) == Stored(Filled(2), u)
    ensures s == u
  {
    var x := Stored(Filled(1), s);
    var i := if |s| <= |u| then |s| else |u|;
    if i < ACCESS_TOKEN_SIZE {
      StoredAt(1, s, i);
      StoredAt(2, s, i);
      StoredAt(1, u, i);
      StoredAt(2, u, i);
    }
    assert s == x[..|s|] && u == x[..|u|];
  }

  /** Where a scan is that has opened the token and not read it to its end. */
  lemma StillWriting(clock: Clock, c: Auth, w: bytes)
    requires Writing(c) && c.status == Ok && !Scan(clock, c, w).1 && !Named(Scan(clock, c, w).0)
    ensures QUOTE !in w && |w| < ACCESS_TOKEN_SIZE
    ensures Scan(clock, c, w).0.expiryKey.found == c.expiryKey.found
  {
    hide Scan, ScanByte, IndexOf;
    var q := IndexOf(w, QUOTE);
    BeforeQuote(w);
    if q < |w| && q < ACCESS_TOKEN_SIZE {
      var head := w[..q] + [QUOTE];
      WriteToken(clock, c, w[..q]);
      ScanSnoc(clock, c, w[..q], QUOTE);
      ScanAppend(clock, c, head, w[q + 1..]);
      ClosedNamed(clock, Scan(clock, c, w[..q]).0, w[q + 1..]);
      assert false;
    }
    if |w| >= ACCESS_TOKEN_SIZE {
      assert forall x :: x in w[..ACCESS_TOKEN_SIZE] ==> x in w[..q];
      Overlength(clock, c, w);
      assert false;
    }
    WriteToken(clock, c, w);
  }

  lemma ClosedNamed(clock: Clock, d: Auth, rest: bytes)
    requires d.state == TokenWrite && d.tokenKey.found
    ensures var r := ScanByte(clock, d, QUOTE);
      !r.1 ==> Named(Scan(clock, r.0, rest).0)
  {
    hide Scan;
    var r := ScanByte(clock, d, QUOTE);
    if !r.1 {
      TokenWrittenOnce(clock, r.0, rest);
    }
  }

  /** A client as authentication makes it, with this byte all over its token buffer, when it has
      heard of a success. */
  function Blank(c: byte): Auth {
    Start(Filled(c), 0, 0).(status := Ok)
  }

  /** What every client is given, at every clock, the body carries. */
  lemma GivenCarried(t: bytes, token: bytes, digits: bytes)
    requires forall clock, c :: Given(clock, Blank(c), Scan(clock, Blank(c), t).0, token, digits)
    ensures Carries(t, token, digits)
  {
    hide Scan, Holds, Unclosed, Value, Stored, Filled;
    var clock, clock', a, b := Clock(true, 0), Clock(true, 1), Blank(1), Blank(2);
    var r := Scan(clock, a, t);
    assert Given(clock, a, r.0, token, digits) && Given(clock, b, Scan(clock, b, t).0, token, digits);
    assert Given(clock', a, Scan(clock', a, t).0, token, digits);
    SameExpiry(Value(digits, 10), Value(digits, 10), 0);
    ClockFree(clock, clock', a, t);
    if r.1 {
      StopsExactly(clock, a, t);
      var token', written :| Holds(t, token', written);
      HoldsGranted(clock, a, t, token', written);
      HoldsGranted(clock, b, t, token', written);
      SameStored(token' + [NUL], token + [NUL]);
      SameFront(token', token);
      assert CarriesAs(t, token, digits, written);
    } else {
      GivenUnclosed(t, token, digits);
    }
  }

  lemma SameFront(s: bytes, u: bytes)
    requires s + [NUL] == u + [NUL]
    ensures s == u
  {
    assert s == (s + [NUL])[..|s|] && u == (u + [NUL])[..|u|];
  }

  /** The same, for a scan that does not stop. */
  lemma GivenUnclosed(t: bytes, token: bytes, digits: bytes)
    requires Given(Clock(true, 0), Blank(1), Scan(Clock(true, 0), Blank(1), t).0, token, digits)
    requires Given(Clock(true, 0), Blank(2), Scan(Clock(true, 0), Blank(2), t).0, token, digits)
    requires !Scan(Clock(true, 0), Blank(1), t).1 && Dated(Scan(Clock(true, 0), Blank(1), t).0)
    ensures Carries(t, token, digits)
  {
    hide Scan, ScanByte, Finds, MatchRun, Value, Stored, Filled, BrokenBody, Searching, OpensToken;
    var clock, a, b := Clock(true, 0), Blank(1), Blank(2);
    BlankStarts(1);
    BlankStarts(2);
    NeverOutlived(clock, a, t);
    var pre, begun := Reaches(clock, a, t);
    StoredSomething(1, token);
    var w := t[|pre|..];
    assert t == pre + w;
    var c := OpenedScan(clock, a, pre);
    var d := OpenedScan(clock, b, pre);
    ScanAppend(clock, a, pre, w);
    ScanAppend(clock, b, pre, w);
    StillWriting(clock, c, w);
    WriteToken(clock, c, w);
    WriteToken(clock, d, w);
    SameStored(w, token + [NUL]);
    BehindUnclosed(clock, a, t, pre, token, digits);
  }

  lemma BlankStarts(c: byte)
    ensures AtStart(Blank(c)) && Blank(c).status == Ok
  {
  }

  lemma StoredSomething(c: byte, token: bytes)
    requires |token| < ACCESS_TOKEN_SIZE && c != NUL
    ensures Stored(Filled(c), token + [NUL]) != Filled(c)
  {
    assert Stored(Filled(c), token + [NUL])[|token|] == NUL;
  }

  lemma BehindUnclosed(clock: Clock, a: Auth, t: bytes, pre: bytes, token: bytes, digits: bytes)
    requires AtStart(a) && OpensBehind(pre) && t == pre + (token + [NUL])
    requires QUOTE !in token && |token| + 1 < ACCESS_TOKEN_SIZE
    requires Scan(clock, a, t).0.expiry == (Value(digits, 10) + clock.ts) % TWO_32 && clock.ts == 0
    ensures Carries(t, token, digits)
  {
    hide Scan, Finds, MatchRun, Value, ExpiryText;
    var y, gap, written, end, x, gap2 :| OpensSecond(pre, y, gap, written, end, x, gap2);
    Assoc(ExpiryText(y, gap, written, end), x + (gap2 + [QUOTE]), token + [NUL]);
    assert UnclosedAs(t, y, gap, written, end, x, gap2, token);
    BrokenScan(clock, a, y, gap, written, end, x, gap2, token + [NUL]);
    assert CarriesAs(t, token, digits, written);
  }

  lemma CarriesHeld(t: bytes, token: bytes, digits: bytes)
    requires Holds(t, token, digits)
    ensures Carries(t, token, digits)
  {
    hide Holds, Unclosed, Value;
    assert CarriesAs(t, token, digits, digits);
  }

  /** Without a NUL in it a body that carries a token and an expiry holds them. */
  lemma CarriedHeld(t: bytes, token: bytes, digits: bytes)
    requires Carries(t, token, digits) && NUL !in t
    ensures HoldsBoth(t)
  {
    hide Holds, Value, Unclosed;
    var written :| CarriesAs(t, token, digits, written);
    if Unclosed(t, token, written) {
      UnclosedEnds(t, token, written);
    }
  }

  lemma UnclosedEnds(t: bytes, token: bytes, digits: bytes)
    requires Unclosed(t, token, digits)
    ensures NUL in t
  {
    hide Value, Finds, MatchRun;
    var y, gap, end, x, gap2 :| UnclosedAs(t, y, gap, digits, end, x, gap2, token);
    assert t[|t| - 1] == NUL;
  }
}
