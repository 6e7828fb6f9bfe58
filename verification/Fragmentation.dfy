// The parser does not depend on how its input is cut into calls, and exactly when.

module Fragmentation {
  import opened Bytes
  import opened HttpEvents
  import opened HttpGrammar

  // ----- sub-parsers are prefix-stable and tight -----

  lemma PrefixSlices(a: bytes, b: bytes, i: nat, j: nat)
    requires i <= j <= |a|
    ensures (a + b)[i..j] == a[i..j]
  {
  }

  lemma EndOfVersionAgrees(a: bytes, c: bytes)
    requires 5 <= |a| && 5 <= |c|
    requires EndOfVersion(a, 5) < |a| && EndOfVersion(a, 5) < |c|
    requires forall i :: 0 <= i <= EndOfVersion(a, 5) ==> a[i] == c[i]
    ensures EndOfVersion(c, 5) == EndOfVersion(a, 5)
  {
    var r, s := EndOfVersion(a, 5), EndOfVersion(c, 5);
    assert c[r] == a[r];
    assert s <= r;
    assert c[s] == a[s];
  }

  lemma AfterLastDotAgrees(a: bytes, c: bytes, to: nat)
    requires 5 <= to <= |a| && to <= |c|
    requires forall i :: 0 <= i < to ==> a[i] == c[i]
    ensures AfterLastDot(c, 5, to) == AfterLastDot(a, 5, to)
  {
    var m, n := AfterLastDot(a, 5, to), AfterLastDot(c, 5, to);
    assert m > 5 ==> c[m - 1] == a[m - 1] == DOT;
    assert n > 5 ==> c[n - 1] == a[n - 1] == DOT;
  }

  lemma VersionStable(p: ParserState, a: bytes, b: bytes)
    requires VersionElement(p, a).verdict != More
    ensures VersionElement(p, a + b) == VersionElement(p, a)
  {
    var c := a + b;
    PrefixSlices(a, b, 0, 5);
    if a[..5] == HTTP_PROTO {
      var end := EndOfVersion(a, 5);
      EndOfVersionAgrees(a, c);
      AfterLastDotAgrees(a, c, end);
      var minor := AfterLastDot(a, 5, end);
      PrefixSlices(a, b, minor, end);
      if minor > 5 {
        PrefixSlices(a, b, 5, minor - 1);
      }
    }
  }

  lemma CrlfStable(a: bytes, b: bytes, from: nat)
    requires from <= |a| && FindCrlf(a, from) < |a|
    ensures FindCrlf(a + b, from) == FindCrlf(a, from)
  {
    var c, end := a + b, FindCrlf(a, from);
    assert CrlfAt(c, end);
    assert forall i :: from <= i < end ==> CrlfAt(c, i) == CrlfAt(a, i);
  }

  lemma HeaderStable(p: ParserState, a: bytes, b: bytes)
    requires HeaderElement(p, a).verdict != More
    ensures HeaderElement(p, a + b) == HeaderElement(p, a)
  {
    assert CrlfAt(a + b, 0) == CrlfAt(a, 0);
    if !CrlfAt(a, 0) {
      CrlfStable(a, b, 1);
      PrefixSlices(a, b, 0, FindCrlf(a, 1));
    }
  }

  /** Once a sub-parser has decided, further bytes do not change its mind. */
  lemma ElementStable(p: ParserState, a: bytes, b: bytes)
    requires a != [] && ParseElement(p, a).verdict != More
    ensures ParseElement(p, a + b) == ParseElement(p, a)
  {
    match p.evtState {
      case AtVersion => VersionStable(p, a, b);
      case AtStatusCode => assert a[..3] == (a + b)[..3] || |a| < 4;
      case AtReason =>
        CrlfStable(a, b, 1);
        PrefixSlices(a, b, 0, FindCrlf(a, 1));
      case AtHeader => HeaderStable(p, a, b);
      case AtBody => PrefixSlices(a, b, 0, AsUint32(p.contentSize));
    }
  }

  /** A sub-parser decides as soon as it has the bytes it is going to consume. */
  lemma ElementTight(p: ParserState, a: bytes, b: bytes)
    requires a != [] && ParseElement(p, a + b).verdict == Pass && ParseElement(p, a + b).size <= |a|
    ensures ParseElement(p, a) == ParseElement(p, a + b)
  {
    var c := a + b;
    match p.evtState {
      case AtVersion =>
        var end := EndOfVersion(c, 5);
        EndOfVersionAgrees(c, a);
        PrefixSlices(a, b, 0, 5);
        ElementStable(p, a, b);
      case AtStatusCode => assert a[..3] == c[..3];
      case AtReason =>
        TightCrlf(a, b);
        ElementStable(p, a, b);
      case AtHeader =>
        assert CrlfAt(c, 0) == CrlfAt(a, 0);
        if !CrlfAt(a, 0) {
          TightCrlf(a, b);
        }
        ElementStable(p, a, b);
      case AtBody => PrefixSlices(a, b, 0, AsUint32(p.contentSize));
    }
  }

  lemma TightCrlf(a: bytes, b: bytes)
    requires a != [] && FindCrlf(a + b, 1) + 2 <= |a|
    ensures FindCrlf(a, 1) == FindCrlf(a + b, 1)
  {
    var c, end := a + b, FindCrlf(a + b, 1);
    assert CrlfAt(c, end) && CrlfAt(a, end);
    assert forall i :: 1 <= i < end ==> CrlfAt(c, i) == CrlfAt(a, i);
  }

  /** A body cut in two: the pieces add up. */
  lemma BodySplits(p: ParserState, a: bytes, b: bytes)
    requires a != [] && b != [] && p.evtState == AtBody
    requires ParseElement(p, a).verdict == More
    ensures var e1 := ParseElement(p, a);
      var e2 := ParseElement(e1.next, b);
      var e := ParseElement(p, a + b);
      e1.size == |a| && e2.size > 0 && e1.next.evtState == AtBody &&
      (Complete(e1.next) ==> Complete(p)) &&
      e.verdict == e2.verdict && e.size == |a| + e2.size && e.next == e2.next &&
      Atoms(e.events) == Atoms(e1.events) + Atoms(e2.events)
  {
    var left := AsUint32(p.contentSize);
    var n := if left - |a| <= |b| then left - |a| else |b|;
    assert AsUint32(AsInt32(left - |a|)) == left - |a|;
    assert a + b[..n] == (a + b)[..|a| + n];
    assert n == |b| ==> b[..n] == b;
    var last := left - |a| <= |b|;
    SinglesAppend(a, b[..n], last);
    AtomsOfBody(a, false);
    AtomsOfBody(b[..n], last);
    AtomsOfBody(a + b[..n], last);
  }

  lemma AtomsOfBody(d: bytes, last: bool)
    ensures Atoms([Body(d, last)]) == Singles(d, last)
  {
    assert [Body(d, last)][1..] == [];
  }

  // ----- resuming a run -----

  /** whole is what first and then rest do, up to the cuts in the body. */
  ghost predicate Composes(whole: Trace, first: Trace, rest: Trace) {
    whole.end == rest.end && whole.used == first.used + rest.used && whole.last == rest.last &&
    Atoms(whole.events) == Atoms(first.events) + Atoms(rest.events)
  }

  lemma AfterComposes(e: Element, whole: Trace, first: Trace, rest: Trace)
    requires Composes(whole, first, rest)
    ensures Composes(After(e, whole), After(e, first), rest)
  {
    AtomsAppend(e.events, whole.events);
    AtomsAppend(e.events, first.events);
    Assoc(Atoms(e.events), Atoms(first.events), Atoms(rest.events));
  }

  /** A call that ran out of data, followed by a call on the unconsumed tail and more bytes,
      does what one call on all the bytes does. */
  lemma {:induction false} Resume(p: ParserState, a: bytes, b: bytes)
    requires b != [] && Paused(Run(p, a).end)
    ensures var t := Run(p, a);
      Composes(Run(p, a + b), t, Run(t.last, a[t.used..] + b))
    decreases |a|
  {
    hide ParseElement;
    if a == [] {
      assert a + b == b;
    } else {
      var e := ParseElement(p, a);
      var t := Run(p, a);
      if e.verdict == Pass {
        ElementStable(p, a, b);
        var rest := a[e.size..];
        assert (a + b)[e.size..] == rest + b;
        Resume(e.next, rest, b);
        var u := Run(e.next, rest);
        assert a[t.used..] == rest[u.used..];
        AfterComposes(e, Run(e.next, rest + b), u, Run(u.last, rest[u.used..] + b));
      } else if p.evtState == AtBody {
        ResumeBody(p, a, b);
        assert a[t.used..] + b == b;
      } else {
        assert a[t.used..] == a;
      }
    }
  }

  lemma ResumeBody(p: ParserState, a: bytes, b: bytes)
    requires a != [] && b != [] && p.evtState == AtBody && ParseElement(p, a).verdict == More
    ensures Composes(Run(p, a + b), Run(p, a), Run(ParseElement(p, a).next, b))
    ensures Run(p, a).used == |a|
  {
    hide ParseElement;
    BodySplits(p, a, b);
    var e1, e := ParseElement(p, a), ParseElement(p, a + b);
    var e2 := ParseElement(e1.next, b);
    if e.verdict == Pass {
      assert (a + b)[e.size..] == b[e2.size..];
      var more := Run(e2.next, b[e2.size..]);
      AtomsAppend(e.events, more.events);
      AtomsAppend(e2.events, more.events);
      Assoc(Atoms(e1.events), Atoms(e2.events), Atoms(more.events));
    }
  }

  /** A call that failed or got stuck does so whatever comes behind its input. */
  lemma {:induction false} Final(p: ParserState, a: bytes, b: bytes)
    requires !Paused(Run(p, a).end)
    ensures Run(p, a + b) == Run(p, a)
    decreases |a|
  {
    hide ParseElement;
    var e := ParseElement(p, a);
    ElementStable(p, a, b);
    if e.verdict == Pass && e.size > 0 {
      assert (a + b)[e.size..] == a[e.size..] + b;
      Final(e.next, a[e.size..], b);
    }
  }

  // ----- the exact condition -----

  /** The parse loop never finds the response complete with bytes still in front of it. */
  ghost predicate Clean(p: ParserState, data: bytes)
    decreases |data|
  {
    data == [] ||
    (!Complete(p) &&
     var e := ParseElement(p, data);
     (e.verdict == Pass && e.size > 0 ==> Clean(e.next, data[e.size..])))
  }

  lemma {:induction false} CleanReturns(p: ParserState, data: bytes)
    requires Clean(p, data)
    ensures Run(p, data).end != Stuck
    ensures Run(p, data).end == Done ==> Run(p, data).used == |data|
    decreases |data|
  {
    if data != [] {
      var e := ParseElement(p, data);
      if e.verdict == Pass {
        OnlyCompleteSticks(p, data);
        CleanReturns(e.next, data[e.size..]);
      }
    }
  }

  /** Exactly one state makes an iteration succeed without progress: the body state with
      nothing left to receive. It then reports an empty last fragment and is unchanged, so
      the next iteration does the same. */
  lemma OnlyCompleteSticks(p: ParserState, data: bytes)
    requires data != []
    ensures var e := ParseElement(p, data);
      (e.verdict == Pass && e.size == 0 <==> p.evtState == AtBody && p.contentSize == 0) &&
      (e.verdict == Pass && e.size == 0 ==> e.next == p && e.events == [Body([], true)])
  {
  }

  ghost predicate EmptyFragment(e: Event) {
    e.Body? && e.data == []
  }

  /** An empty body fragment is reported by a stuck call and by no other. */
  lemma {:induction false} EmptyFragments(p: ParserState, data: bytes)
    ensures (exists e :: e in Run(p, data).events && EmptyFragment(e)) <==> Run(p, data).end == Stuck
    decreases |data|
  {
    hide ParseElement;
    if data != [] {
      var e := ParseElement(p, data);
      OnlyCompleteSticks(p, data);
      ElementFragments(p, data);
      if e.verdict == Pass && e.size == 0 {
        assert e.events[0] in Run(p, data).events;
      }
      if e.verdict == Pass && e.size > 0 {
        EmptyFragments(e.next, data[e.size..]);
        assert forall x :: x in Run(p, data).events <==>
                           x in e.events || x in Run(e.next, data[e.size..]).events;
      }
    }
  }

  lemma ElementFragments(p: ParserState, data: bytes)
    requires data != []
    ensures var e := ParseElement(p, data);
      (exists x :: x in e.events && EmptyFragment(x)) ==> e.verdict == Pass && e.size == 0
  {
  }

  /** Clean runs split where a call stops. */
  lemma {:induction false} CleanSplits(p: ParserState, a: bytes, b: bytes)
    requires b != [] && Paused(Run(p, a).end)
    ensures Clean(p, a + b) <==> Clean(p, a) && Clean(Run(p, a).last, a[Run(p, a).used..] + b)
    decreases |a|
  {
    hide ParseElement;
    if a == [] {
      assert a + b == b;
    } else {
      var e := ParseElement(p, a);
      if e.verdict == Pass {
        ElementStable(p, a, b);
        var rest := a[e.size..];
        assert (a + b)[e.size..] == rest + b;
        CleanSplits(e.next, rest, b);
        assert a[Run(p, a).used..] == rest[Run(e.next, rest).used..];
      } else if p.evtState == AtBody {
        if !Complete(p) {
          CleanBodySplits(p, a, b);
          assert a[|a|..] + b == b;
        }
      } else {
        assert a[Run(p, a).used..] == a;
      }
    }
  }

  lemma CleanBodySplits(p: ParserState, a: bytes, b: bytes)
    requires a != [] && b != [] && p.evtState == AtBody && ParseElement(p, a).verdict == More
    requires !Complete(p)
    ensures ParseElement(p, a).size == |a|
    ensures Clean(p, a + b) <==> Clean(ParseElement(p, a).next, b)
  {
    hide ParseElement;
    BodySplits(p, a, b);
    var e1, e := ParseElement(p, a), ParseElement(p, a + b);
    if e.verdict == Pass {
      assert (a + b)[e.size..] == b[ParseElement(e1.next, b).size..];
    }
  }

  lemma {:induction false} CleanPrefix(p: ParserState, a: bytes, b: bytes)
    requires Clean(p, a + b)
    ensures Clean(p, a)
    decreases |a|
  {
    if b == [] {
      assert a + b == a;
    } else if Paused(Run(p, a).end) {
      CleanSplits(p, a, b);
    } else {
      Final(p, a, b);
      CleanFinal(p, a, b);
    }
  }

  lemma {:induction false} CleanFinal(p: ParserState, a: bytes, b: bytes)
    requires !Paused(Run(p, a).end) && Clean(p, a + b)
    ensures Clean(p, a)
    decreases |a|
  {
    hide ParseElement;
    var e := ParseElement(p, a);
    ElementStable(p, a, b);
    if e.verdict == Pass && e.size > 0 {
      assert (a + b)[e.size..] == a[e.size..] + b;
      CleanFinal(e.next, a[e.size..], b);
    }
  }

  // ----- many calls -----

  ghost predicate NonEmpty(frags: seq<bytes>) {
    forall f :: f in frags ==> f != []
  }

  /** Calls of parse on successive fragments, each presented behind the bytes the previous
      call left unconsumed, until a call does not ask for more. */
  function FeedAll(p: ParserState, tail: bytes, frags: seq<bytes>): Trace
    decreases |frags|
  {
    if frags == [] then Trace([], Starved, 0, p)
    else
      var d := tail + frags[0];
      var t := Run(p, d);
      if t.end != Starved then t
      else
        var u := FeedAll(t.last, d[t.used..], frags[1..]);
        Trace(t.events + u.events, u.end, t.used + u.used, u.last)
  }

  /** Same events up to the cuts in the body, same return code, same final state, same number
      of consumed bytes. */
  ghost predicate Matches(t: Trace, u: Trace) {
    t.end == u.end && t.used == u.used && t.last == u.last && Atoms(t.events) == Atoms(u.events)
  }

  lemma {:induction false} FeedMatches(p: ParserState, tail: bytes, frags: seq<bytes>)
    requires frags != [] && NonEmpty(frags)
    requires Clean(p, tail + Concat(frags))
    ensures Matches(FeedAll(p, tail, frags), Run(p, tail + Concat(frags)))
    decreases |frags|
  {
    hide ParseElement;
    var d, more := tail + frags[0], Concat(frags[1..]);
    Assoc(tail, frags[0], more);
    var t := Run(p, d);
    if frags[1..] == [] {
      assert d + more == d;
      assert t.events + [] == t.events;
    } else {
      assert frags[1..][0] in frags && forall f :: f in frags[1..] ==> f in frags;
      if Paused(t.end) {
        CleanSplits(p, d, more);
        if t.end == Starved {
          FeedMatches(t.last, d[t.used..], frags[1..]);
          Resume(p, d, more);
          AtomsAppend(t.events, FeedAll(t.last, d[t.used..], frags[1..]).events);
        } else {
          DoneIsComplete(p, d);
          assert false;
        }
      } else {
        Final(p, d, more);
        CleanPrefix(p, d, more);
        CleanReturns(p, d);
      }
    }
  }

  lemma {:induction false} DoneIsComplete(p: ParserState, data: bytes)
    requires Run(p, data).end == Done
    ensures Complete(Run(p, data).last) && Run(p, data).used == |data|
    decreases |data|
  {
    hide ParseElement;
    if data != [] {
      var e := ParseElement(p, data);
      DoneIsComplete(e.next, data[e.size..]);
    }
  }

  /** When the loop does find the response complete too early, cutting the input there makes
      a difference: the first call returns OK, one call on everything does not stop there. */
  lemma {:induction false} DirtyCut(p: ParserState, data: bytes) returns (k: nat)
    requires !Clean(p, data) && !Complete(p)
    ensures 0 < k < |data|
    ensures Run(p, data[..k]).end == Done && Run(p, data[..k]).used == k
    ensures Run(p, data).end == Stuck || Run(p, data).used > k
    decreases |data|
  {
    hide ParseElement;
    var e := ParseElement(p, data);
    var rest := data[e.size..];
    if Complete(e.next) {
      k := e.size;
      Overrun(e.next, rest);
    } else {
      var k' := DirtyCut(e.next, rest);
      k := e.size + k';
      assert data[..k][e.size..] == rest[..k'];
    }
    assert data == data[..k] + data[k..];
    ElementTight(p, data[..k], data[k..]);
    assert Complete(e.next) ==> data[..k][e.size..] == [];
  }

  lemma Overrun(p: ParserState, data: bytes)
    requires Complete(p) && data != []
    ensures Run(p, data).end == Stuck || Run(p, data).used > 0
  {
  }

  /** The parser's result is the same for every way of cutting the input into calls if and
      only if the loop never finds the response complete with bytes still in front of it. */
  lemma FragmentationExact(data: bytes)
    requires data != []
    ensures Clean(INITIAL, data) <==>
            forall frags :: NonEmpty(frags) && Concat(frags) == data ==>
              Matches(FeedAll(INITIAL, [], frags), Run(INITIAL, data))
  {
    if Clean(INITIAL, data) {
      forall frags | NonEmpty(frags) && Concat(frags) == data
        ensures Matches(FeedAll(INITIAL, [], frags), Run(INITIAL, data))
      {
        assert [] + data == data;
        FeedMatches(INITIAL, [], frags);
      }
    } else {
      var k := DirtyCut(INITIAL, data);
      TwoFragments(data, k);
      assert !Matches(FeedAll(INITIAL, [], [data[..k], data[k..]]), Run(INITIAL, data));
    }
  }

  lemma TwoFragments(data: bytes, k: nat)
    requires 0 < k < |data|
    ensures var frags := [data[..k], data[k..]];
      Concat(frags) == data && NonEmpty(frags) &&
      (Run(INITIAL, data[..k]).end != Starved ==>
        FeedAll(INITIAL, [], frags) == Run(INITIAL, data[..k]))
  {
    hide ParseElement, Run;
    var frags: seq<bytes> := [data[..k], data[k..]];
    var tail: seq<bytes> := frags[1..];
    assert tail == [data[k..]];
    assert tail[1..] == [];
    assert Concat(tail) == data[k..] + [] == data[k..];
    assert data[..k] + data[k..] == data;
    assert [] + data[..k] == data[..k];
  }

  /** The condition in terms of the message: behind a header section that announces n body
      bytes, exactly the bodies of at most n bytes, with 0 < n < 2^31, and the empty body are
      unaffected by the cuts. */
  lemma CleanMeaning(head: bytes, body: bytes)
    requires Paused(Run(INITIAL, head).end) && Run(INITIAL, head).used == |head|
    requires Run(INITIAL, head).last.evtState == AtBody
    requires forall e :: e in Run(INITIAL, head).events ==> !e.Body?
    ensures var n := Run(INITIAL, head).last.contentSize;
      Clean(INITIAL, head + body) <==> body == [] || (0 < n && |body| <= n)
  {
    NoBodyClean(INITIAL, head);
    if body == [] {
      assert head + body == head;
    } else {
      CleanSplits(INITIAL, head, body);
      assert head[|head|..] + body == body;
      CleanBody(Run(INITIAL, head).last, body);
    }
  }

  lemma CleanBody(p: ParserState, body: bytes)
    requires p.evtState == AtBody && body != []
    ensures Clean(p, body) <==> 0 < p.contentSize && |body| <= p.contentSize
  {
    if !Complete(p) {
      var e := ParseElement(p, body);
      assert AsUint32(p.contentSize) == p.contentSize;
      if e.verdict == Pass {
        assert Complete(e.next);
        assert body[e.size..] == [] <==> |body| == e.size;
      }
    }
  }

  lemma {:induction false} NoBodyClean(p: ParserState, head: bytes)
    requires forall e :: e in Run(p, head).events ==> !e.Body?
    ensures Clean(p, head)
    decreases |head|
  {
    if head != [] {
      var e := ParseElement(p, head);
      if p.evtState == AtBody {
        assert e.events[0] in Run(p, head).events;
      } else if e.verdict == Pass && e.size > 0 {
        NoBodyClean(e.next, head[e.size..]);
      }
    }
  }
}
