// The search for a key in src/here_tracking_http.c, byte by byte and in terms of the text.

module KeyMatcher {
  import opened AuthScanner
  import opened Bytes

  // ----- the counter -----

  ghost predicate OccursAt(key: bytes, t: bytes, i: int) {
    0 <= i && i + |key| <= |t| && t[i..i + |key|] == key
  }

  /** The search after the bytes t, started afresh. */
  function MatchRun(key: bytes, t: bytes): Search {
    if t == [] then Search(false, 0) else MatchByte(key, MatchRun(key, t[..|t| - 1]), t[|t| - 1])
  }

  lemma MatchSnoc(key: bytes, t: bytes, c: byte)
    ensures MatchRun(key, t + [c]) == MatchByte(key, MatchRun(key, t), c)
  {
    assert (t + [c])[..|t|] == t;
  }

  /** In every reachable state of a search: an unfinished counter k means that the last k bytes
      are the first k bytes of the key, and a finished search has seen the key. */
  lemma {:induction false} MatchSound(key: bytes, t: bytes)
    requires key != []
    ensures var s := MatchRun(key, t);
      if s.found then exists i :: OccursAt(key, t, i)
      else s.chars < |key| && s.chars <= |t| && t[|t| - s.chars..] == key[..s.chars]
  {
    hide OccursAt;
    if t != [] {
      var u, c := t[..|t| - 1], t[|t| - 1];
      assert t == u + [c];
      MatchSound(key, u);
      var s := MatchRun(key, u);
      if s.found {
        var i :| OccursAt(key, u, i);
        OccursInMore(key, u, [c], i);
      } else if c == key[s.chars] {
        SuffixGrows(key, u, c, s.chars);
      }
    }
  }

  lemma OccursInMore(key: bytes, t: bytes, u: bytes, i: int)
    requires OccursAt(key, t, i)
    ensures OccursAt(key, t + u, i)
  {
    assert (t + u)[i..i + |key|] == t[i..i + |key|];
  }

  lemma SuffixGrows(key: bytes, u: bytes, c: byte, k: nat)
    requires k < |key| && k <= |u| && u[|u| - k..] == key[..k] && c == key[k]
    ensures (u + [c])[|u| - k..] == key[..k + 1]
    ensures k + 1 == |key| ==> OccursAt(key, u + [c], |u| - k)
  {
    assert (u + [c])[|u| - k..] == u[|u| - k..] + [c];
    assert key[..k] + [c] == key[..k + 1];
    assert (u + [c])[|u| - k..|u| + 1] == (u + [c])[|u| - k..];
  }

  lemma {:induction false} FoundStays(key: bytes, t: bytes, u: bytes)
    requires u <= t && MatchRun(key, u).found
    ensures MatchRun(key, t).found
    decreases |t|
  {
    if u != t {
      assert u <= t[..|t| - 1];
      FoundStays(key, t[..|t| - 1], u);
    }
  }

  ghost predicate Absent(key: bytes, t: bytes) {
    forall i :: !OccursAt(key, t, i)
  }

  lemma AbsentNotFound(key: bytes, t: bytes)
    requires key != [] && Absent(key, t)
    ensures !MatchRun(key, t).found
  {
    MatchSound(key, t);
  }

  /** From counter zero the key is matched byte by byte. */
  lemma {:induction false} MatchKeyPrefix(key: bytes, a: bytes, j: nat)
    requires MatchRun(key, a) == Search(false, 0) && 0 < |key| && j <= |key|
    ensures MatchRun(key, a + key[..j]) == Search(j == |key|, j)
    decreases j
  {
    if j == 0 {
      assert a + key[..0] == a;
    } else {
      MatchKeyPrefix(key, a, j - 1);
      assert a + key[..j] == (a + key[..j - 1]) + [key[j - 1]];
      MatchSnoc(key, a + key[..j - 1], key[j - 1]);
    }
  }

  // ----- the text -----

  /** Both keys are quoted names: the quote is their first and last byte and no other. */
  ghost predicate Quoted(key: bytes) {
    |key| >= 3 && key[0] == QUOTE && key[|key| - 1] == QUOTE &&
    forall i :: 0 < i < |key| - 1 ==> key[i] != QUOTE
  }

  /** The index of the last quote, or -1. */
  function LastQuote(t: bytes): (q: int)
    ensures -1 <= q < |t|
    ensures q >= 0 ==> t[q] == QUOTE
    ensures forall i :: q < i < |t| ==> t[i] != QUOTE
  {
    if t == [] || t[|t| - 1] == QUOTE then |t| - 1 else LastQuote(t[..|t| - 1])
  }

  /** A quote behind t is taken for the beginning of the key. It is not if the text from the
      quote in front of it is so far that of the key, and that quote was itself taken for its
      beginning: then the matcher is busy, and uses up this quote to find that out. */
  ghost predicate Open(key: bytes, t: bytes)
    decreases |t|
  {
    var q := LastQuote(t);
    q < 0 || !(t[q..] <= key) || !Open(key, t[..q])
  }

  /** The counter of an unfinished search, read off the text. */
  lemma {:induction false} Counter(key: bytes, t: bytes)
    requires Quoted(key) && !MatchRun(key, t).found
    ensures MatchRun(key, t) == Search(false, if Open(key, t) then 0 else |t| - LastQuote(t))
    decreases |t|
  {
    hide Open;
    if t == [] {
      OpenEmpty(key);
    } else {
      var u, c := t[..|t| - 1], t[|t| - 1];
      assert t == u + [c];
      Counter(key, u);
      if c == QUOTE {
        OpenQuote(key, u);
      } else {
        OpenOther(key, u, c);
      }
    }
  }

  lemma OpenEmpty(key: bytes)
    ensures Open(key, [])
  {
  }

  lemma OpenQuote(key: bytes, u: bytes)
    requires Quoted(key)
    ensures LastQuote(u + [QUOTE]) == |u| && (Open(key, u + [QUOTE]) <==> !Open(key, u))
    ensures !Open(key, u) ==> 0 < |u| - LastQuote(u) < |key| && LastQuote(u) >= 0
  {
    var t := u + [QUOTE];
    assert t[..|u|] == u && t[|u|..] == [QUOTE];
    assert [QUOTE] <= key;
    if !Open(key, u) {
      BusyCounter(key, u);
    }
  }

  lemma OpenOther(key: bytes, u: bytes, c: byte)
    requires Quoted(key) && c != QUOTE
    ensures LastQuote(u + [c]) == LastQuote(u)
    ensures !Open(key, u) ==> 0 < |u| - LastQuote(u) < |key| && LastQuote(u) >= 0
    ensures Open(key, u + [c]) <==> Open(key, u) || c != key[|u| - LastQuote(u)]
  {
    hide Open, Quoted, LastQuote;
    var q := LastQuote(u);
    TailSnoc(u, c);
    OpenUnfolds(key, u);
    OpenUnfolds(key, u + [c]);
    if q >= 0 {
      PrefixSnoc(u[q..], c, key);
      if u[q..] <= key {
        BusyCounter(key, u);
      }
    }
  }

  lemma TailSnoc(u: bytes, c: byte)
    requires c != QUOTE
    ensures LastQuote(u + [c]) == LastQuote(u)
    ensures LastQuote(u) >= 0 ==>
      (u + [c])[..LastQuote(u)] == u[..LastQuote(u)] && (u + [c])[LastQuote(u)..] == u[LastQuote(u)..] + [c]
  {
    assert (u + [c])[..|u|] == u;
  }

  lemma OpenUnfolds(key: bytes, t: bytes)
    ensures var q := LastQuote(t);
      Open(key, t) <==> q < 0 || !(t[q..] <= key) || !Open(key, t[..q])
  {
  }

  lemma PrefixSnoc(w: bytes, c: byte, key: bytes)
    ensures w + [c] <= key <==> w <= key && |w| < |key| && c == key[|w|]
  {
    if w <= key && |w| < |key| {
      assert key[..|w| + 1] == key[..|w|] + [key[|w|]];
    }
    if w + [c] <= key {
      assert w == key[..|w|];
    }
  }

  /** With one quote in it the text cannot be the whole key. */
  lemma BusyCounter(key: bytes, u: bytes)
    requires Quoted(key) && LastQuote(u) >= 0 && u[LastQuote(u)..] <= key
    ensures 1 <= |u| - LastQuote(u) < |key|
    ensures u[LastQuote(u)..] == key[..|u| - LastQuote(u)]
  {
    hide Open, LastQuote, Quoted;
    var q := LastQuote(u);
    var w := u[q..];
    assert |w| == |u| - q >= 1 && w == key[..|w|];
    assert w[|w| - 1] == u[|u| - 1];
    KeyEnds(key);
    assert |w| > 1 ==> w[|w| - 1] != QUOTE;
    assert w[|w| - 1] == key[|w| - 1];
  }

  lemma KeyEnds(key: bytes)
    requires Quoted(key)
    ensures |key| >= 3 && key[|key| - 1] == QUOTE
  {
  }

  /** An occurrence of the key that begins where a quote is taken for the beginning of a key. */
  ghost predicate Hits(key: bytes, t: bytes, i: int) {
    OccursAt(key, t, i) && Open(key, t[..i])
  }

  /** The search finds the key if and only if one of its occurrences is a hit. */
  lemma {:induction false} FoundExactly(key: bytes, t: bytes)
    requires Quoted(key)
    ensures MatchRun(key, t).found <==> exists i :: Hits(key, t, i)
    decreases |t|
  {
    if MatchRun(key, t).found {
      var i := FoundHits(key, t);
    }
    if i :| Hits(key, t, i) {
      var a := t[..i];
      if !MatchRun(key, a).found {
        Counter(key, a);
        MatchKeyPrefix(key, a, |key|);
        assert key[..|key|] == key;
        assert a + key == t[..i + |key|];
        FoundStays(key, t, a + key);
      } else {
        FoundStays(key, t, a);
      }
    }
  }

  lemma {:induction false} FoundHits(key: bytes, t: bytes) returns (i: nat)
    requires Quoted(key) && MatchRun(key, t).found
    ensures Hits(key, t, i)
    decreases |t|
  {
    hide OccursAt;
    var u, c := t[..|t| - 1], t[|t| - 1];
    assert t == u + [c];
    if MatchRun(key, u).found {
      i := FoundHits(key, u);
      OccursInMore(key, u, [c], i);
      HitInside(key, u, i);
      assert t[..i] == u[..i];
    } else {
      Counter(key, u);
      i := LastQuote(u);
      BusyCounter(key, u);
      SuffixGrows(key, u, c, |u| - i);
      assert t[..i] == u[..i];
    }
  }

  lemma HitInside(key: bytes, u: bytes, i: int)
    requires OccursAt(key, u, i)
    ensures 0 <= i <= |u|
  {
  }

  /** Behind a byte that does not belong to the key a quote always begins one. */
  lemma ForeignOpens(key: bytes, a: bytes)
    requires a == [] || a[|a| - 1] !in key
    ensures Open(key, a)
  {
  }

  function Quotes(n: nat): (s: bytes)
    ensures |s| == n && forall i :: 0 <= i < n ==> s[i] == QUOTE
  {
    seq(n, _ => QUOTE)
  }

  /** Quotes behind a foreign byte cancel each other in pairs: a key is found behind an even
      number of them and missed behind an odd number, the matcher then being left with the
      closing quote of the key it has missed. */
  lemma {:induction false} QuotesAlternate(key: bytes, a: bytes, n: nat)
    requires Quoted(key) && a != [] && a[|a| - 1] !in key && !MatchRun(key, a).found
    ensures var t := a + Quotes(n);
      MatchRun(key, t) == Search(false, n % 2) &&
      MatchRun(key, t + key) == if n % 2 == 0 then Search(true, |key|) else Search(false, 1)
    decreases n
  {
    var t := a + Quotes(n);
    QuotesCount(key, a, n);
    assert key[..|key|] == key;
    if n % 2 == 0 {
      MatchKeyPrefix(key, t, |key|);
    } else {
      MissedKey(key, t, |key|);
    }
  }

  lemma {:induction false} QuotesCount(key: bytes, a: bytes, n: nat)
    requires Quoted(key) && a != [] && a[|a| - 1] !in key && !MatchRun(key, a).found
    ensures MatchRun(key, a + Quotes(n)) == Search(false, n % 2)
    decreases n
  {
    if n == 0 {
      assert a + Quotes(0) == a;
      ForeignOpens(key, a);
      Counter(key, a);
    } else {
      QuotesCount(key, a, n - 1);
      assert a + Quotes(n) == (a + Quotes(n - 1)) + [QUOTE];
      MatchSnoc(key, a + Quotes(n - 1), QUOTE);
    }
  }

  /** After the reset caused by a wrong first quote, the rest of the key is missed. */
  lemma {:induction false} MissedKey(key: bytes, a: bytes, j: nat)
    requires Quoted(key) && MatchRun(key, a) == Search(false, 1) && 1 <= j <= |key|
    ensures MatchRun(key, a + key[..j]) == Search(false, if j == |key| then 1 else 0)
    decreases j
  {
    assert a + key[..j] == (a + key[..j - 1]) + [key[j - 1]];
    MatchSnoc(key, a + key[..j - 1], key[j - 1]);
    if j == 1 {
      assert a + key[..0] == a;
    } else {
      MissedKey(key, a, j - 1);
    }
  }

  // ----- the first find -----

  /** The search finds the key with the last byte of t and not before. */
  ghost predicate Finds(key: bytes, t: bytes) {
    t != [] && MatchRun(key, t).found && !MatchRun(key, t[..|t| - 1]).found
  }

  /** In terms of the text: the key ends t, as its first hit. */
  lemma FindsExactly(key: bytes, t: bytes)
    requires Quoted(key)
    ensures Finds(key, t) <==>
            Hits(key, t, |t| - |key|) && forall i :: i < |t| - |key| ==> !Hits(key, t, i)
  {
    hide MatchRun, OccursAt, Open;
    if t == [] {
      NoHit(key, -|key|);
    } else {
      var u := t[..|t| - 1];
      FoundExactly(key, t);
      FoundExactly(key, u);
      forall i ensures Hits(key, u, i) <==> Hits(key, t, i) && i < |t| - |key| {
        HitsShorter(key, t, i);
      }
      forall i ensures Hits(key, t, i) ==> i <= |t| - |key| {
        HitsShorter(key, t, i);
      }
    }
  }

  lemma NoHit(key: bytes, i: int)
    requires key != []
    ensures !Hits(key, [], i)
    ensures !MatchRun(key, []).found
  {
  }

  lemma HitsShorter(key: bytes, t: bytes, i: int)
    requires t != []
    ensures Hits(key, t[..|t| - 1], i) <==> Hits(key, t, i) && i < |t| - |key|
    ensures Hits(key, t, i) ==> i <= |t| - |key|
  {
    var u := t[..|t| - 1];
    if 0 <= i && i + |key| <= |u| {
      assert u[..i] == t[..i] && u[i..i + |key|] == t[i..i + |key|];
    }
  }

  lemma {:induction false} FirstFind(key: bytes, t: bytes) returns (n: nat)
    requires MatchRun(key, t).found
    ensures n <= |t| && Finds(key, t[..n])
    decreases |t|
  {
    var u := t[..|t| - 1];
    if MatchRun(key, u).found {
      n := FirstFind(key, u);
      assert u[..n] == t[..n];
    } else {
      n := |t|;
      assert t[..n] == t;
    }
  }

  /** The first occurrence of the key in a + key is the one at the end. */
  ghost predicate First(key: bytes, a: bytes) {
    forall i :: 0 <= i < |a| ==> !OccursAt(key, a + key, i)
  }

  /** What is found here and not before: for example a first occurrence that is a hit, such as
      one behind a byte that does not belong to the key. */
  lemma FirstFinds(key: bytes, a: bytes)
    requires Quoted(key) && First(key, a) && Open(key, a)
    ensures Finds(key, a + key)
  {
    var t := a + key;
    assert t[..|a|] == a;
    assert OccursAt(key, t, |a|) && Hits(key, t, |a|);
    FoundExactly(key, t);
    var u := t[..|t| - 1];
    assert t == u + [QUOTE];
    MatchSound(key, u);
    if MatchRun(key, u).found {
      var i :| OccursAt(key, u, i);
      OccursInMore(key, u, [QUOTE], i);
    }
  }

  // ----- the two keys -----

  lemma KeysQuoted()
    ensures Quoted(TOKEN_KEY) && Quoted(EXPIRY_KEY)
    ensures |TOKEN_KEY| == 13 && |EXPIRY_KEY| == 11
  {
  }

  /** No byte completes both keys: the keys differ three bytes before their end. */
  lemma NeverBoth(t: bytes, c: byte)
    requires !MatchRun(TOKEN_KEY, t).found && !MatchRun(EXPIRY_KEY, t).found
    ensures !(MatchRun(TOKEN_KEY, t + [c]).found && MatchRun(EXPIRY_KEY, t + [c]).found)
  {
    MatchSnoc(TOKEN_KEY, t, c);
    MatchSnoc(EXPIRY_KEY, t, c);
    MatchSound(TOKEN_KEY, t);
    MatchSound(EXPIRY_KEY, t);
    if |t| >= 12 {
      SuffixClash(t);
    }
  }

  lemma SuffixClash(t: bytes)
    requires |t| >= 12
    ensures t[|t| - 12..] != TOKEN_KEY[..12] || t[|t| - 10..] != EXPIRY_KEY[..10]
  {
    assert t[|t| - 12..][10] == t[|t| - 2] == t[|t| - 10..][8];
    assert TOKEN_KEY[..12][10] == "accessToken"[9] as int;
    assert EXPIRY_KEY[..10][8] == "expiresIn"[7] as int;
  }
}
