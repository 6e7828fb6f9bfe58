// Parser events and the callbacks that consume them (include/internal/here_tracking_http_parser.h).

module HttpEvents {
  import opened Bytes

  datatype Event =
    | Version(major: nat, minor: nat)
    | StatusCode(code: nat)
    | Reason(text: bytes)
    | Header(key: bytes, val: bytes)
    | BodySize(size: uint32)
    | Body(data: bytes, last: bool)

  const NO_CONTENT: nat := 204

  /** A callback with its cb_data: the new cb_data, and true to interrupt the parser. */
  type Callback<!S> = (S, Event) -> (S, bool)

  /** The answer to a 204 status is overwritten by the answer to the BODY_SIZE event that
      follows it at once. */
  predicate Overruled(e: Event) {
    e == StatusCode(NO_CONTENT)
  }

  /** Hands events to the callback until it interrupts. */
  function Fold<S>(cb: Callback<S>, s: S, events: seq<Event>): (S, bool) {
    if events == [] then (s, false)
    else
      var r := cb(s, events[0]);
      if r.1 && !Overruled(events[0]) then r else Fold(cb, r.0, events[1..])
  }

  lemma {:induction false} FoldAppend<S>(cb: Callback<S>, s: S, a: seq<Event>, b: seq<Event>)
    ensures Fold(cb, s, a + b) ==
            if Fold(cb, s, a).1 then Fold(cb, s, a) else Fold(cb, Fold(cb, s, a).0, b)
  {
    if a == [] {
      assert a + b == b;
    } else {
      assert (a + b)[1..] == a[1..] + b;
      FoldAppend(cb, cb(s, a[0]).0, a[1..], b);
    }
  }

  lemma FoldOne<S>(cb: Callback<S>, s: S, a: Event)
    ensures Fold(cb, s, [a]) == (cb(s, a).0, cb(s, a).1 && !Overruled(a))
  {
    assert [a][1..] == [];
  }

  lemma FoldTwo<S>(cb: Callback<S>, s: S, a: Event, b: Event)
    ensures var r := cb(s, a);
      Fold(cb, s, [a, b]) ==
      if r.1 && !Overruled(a) then r else (cb(r.0, b).0, cb(r.0, b).1 && !Overruled(b))
  {
    assert [a, b][1..] == [b];
    FoldOne(cb, cb(s, a).0, b);
  }

  /** Of the two events of a 204 only the answer to the second counts; any other status can be
      refused at once. */
  lemma StatusAnswer<S>(cb: Callback<S>, s: S, code: nat)
    ensures code == 204 ==>
      Fold(cb, s, [StatusCode(code), BodySize(0)]) == cb(cb(s, StatusCode(code)).0, BodySize(0))
    ensures code != 204 ==> Fold(cb, s, [StatusCode(code)]) == cb(s, StatusCode(code))
  {
    FoldOne(cb, s, StatusCode(code));
    FoldTwo(cb, s, StatusCode(code), BodySize(0));
  }

  // ----- forgetting how the body was cut into fragments -----

  /** A body fragment as one-byte fragments, the last of which carries the `last` mark. */
  function Singles(data: bytes, last: bool): seq<Event> {
    if |data| <= 1 then [Body(data, last)]
    else [Body(data[..1], false)] + Singles(data[1..], last)
  }

  /** Events with every body fragment cut into single bytes: two event sequences agree up to
      fragmentation of the body exactly when their atoms are equal. */
  function Atoms(events: seq<Event>): seq<Event> {
    if events == [] then []
    else
      (match events[0]
       case Body(data, last) => Singles(data, last)
       case other => [other]) + Atoms(events[1..])
  }

  lemma {:induction false} AtomsAppend(a: seq<Event>, b: seq<Event>)
    ensures Atoms(a + b) == Atoms(a) + Atoms(b)
  {
    if a == [] {
      assert a + b == b;
    } else {
      assert (a + b)[1..] == a[1..] + b;
      AtomsAppend(a[1..], b);
    }
  }

  lemma {:induction false} SinglesAppend(a: bytes, b: bytes, last: bool)
    requires a != [] && b != []
    ensures Singles(a + b, last) == Singles(a, false) + Singles(b, last)
  {
    assert (a + b)[..1] == a[..1];
    assert (a + b)[1..] == a[1..] + b;
    if |a| == 1 {
      assert a[1..] + b == b;
      assert a[..1] == a;
    } else {
      SinglesAppend(a[1..], b, last);
    }
  }

  // ----- callbacks that cannot tell how the body was cut -----

  ghost predicate SplitsAt<S>(cb: Callback<S>, s: S, a: bytes, b: bytes, last: bool) {
    var first := cb(s, Body(a, false));
    cb(s, Body(a + b, last)) == if first.1 then first else cb(first.0, Body(b, last))
  }

  ghost predicate Splittable<S(!new)>(cb: Callback<S>) {
    forall s, a, b, last :: a != [] && b != [] ==> SplitsAt(cb, s, a, b, last)
  }

  lemma {:induction false} FoldSingles<S(!new)>(cb: Callback<S>, s: S, data: bytes, last: bool)
    requires Splittable(cb)
    ensures Fold(cb, s, Singles(data, last)) == Fold(cb, s, [Body(data, last)])
    decreases |data|
  {
    if |data| > 1 {
      var a, b := data[..1], data[1..];
      assert a + b == data;
      assert SplitsAt(cb, s, a, b, last);
      FoldSingles(cb, cb(s, Body(a, false)).0, b, last);
      assert Singles(data, last)[1..] == Singles(b, last);
    }
  }

  /** A splittable callback sees only the atoms of what the parser reports. */
  lemma {:induction false} FoldAtoms<S(!new)>(cb: Callback<S>, s: S, events: seq<Event>)
    requires Splittable(cb)
    ensures Fold(cb, s, Atoms(events)) == Fold(cb, s, events)
  {
    if events != [] {
      var head, tail := events[..1], events[1..];
      assert events == head + tail;
      AtomsAppend(head, tail);
      FoldAppend(cb, s, head, tail);
      FoldAppend(cb, s, Atoms(head), Atoms(tail));
      assert head[1..] == [];
      assert Atoms(head) ==
        match events[0] case Body(data, last) => Singles(data, last) case other => head;
      if events[0].Body? {
        FoldSingles(cb, s, events[0].data, events[0].last);
        assert head == [Body(events[0].data, events[0].last)];
      }
      FoldAtoms(cb, Fold(cb, s, head).0, tail);
    }
  }

  /** What a consumer that ignores the cuts may conclude from equal atoms. */
  lemma FoldSameAtoms<S(!new)>(cb: Callback<S>, s: S, a: seq<Event>, b: seq<Event>)
    requires Splittable(cb) && Atoms(a) == Atoms(b)
    ensures Fold(cb, s, a) == Fold(cb, s, b)
  {
    FoldAtoms(cb, s, a);
    FoldAtoms(cb, s, b);
  }
}
