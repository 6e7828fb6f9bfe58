// Seeding and layout of src/here_tracking_uuid_gen.c; src/here_tracking_oauth.c seeds its nonce
// the same way from a variable of its own.

module Seeds {
  import opened Bytes

  /** The seed for a clock reading ts when the previous seed was prev; ++prev wraps. */
  function NextSeed(prev: uint32, ts: uint32): uint32 {
    if prev >= ts then (prev + 1) % TWO_32 else ts
  }

  /** The seeds of successive calls with these clock readings. */
  function SeedRun(prev: uint32, readings: seq<uint32>): seq<uint32>
    decreases |readings|
  {
    if readings == [] then []
    else [NextSeed(prev, readings[0])] + SeedRun(NextSeed(prev, readings[0]), readings[1..])
  }

  /** The last of these seeds. */
  function LastSeed(prev: uint32, readings: seq<uint32>): uint32
    decreases |readings|
  {
    if readings == [] then prev else LastSeed(NextSeed(prev, readings[0]), readings[1..])
  }

  /** A generator at some moment: its last seed, and the readings it has made its seeds from. */
  datatype Moment = Moment(prev: uint32, asked: seq<uint32>)

  /** Between the two moments the generator has done nothing but make seeds. */
  ghost predicate Continued(a: Moment, b: Moment) {
    a.asked <= b.asked && b.prev == LastSeed(a.prev, b.asked[|a.asked|..])
  }

  /** The static prev_ts of a generator, and the readings it was asked with. */
  class SeedSource {
    var prevTs: uint32
    ghost var asked: seq<uint32>

    ghost function Now(): Moment
      reads this
    {
      Moment(prevTs, asked)
    }

    constructor ()
      ensures Now() == Moment(0, [])
    {
      prevTs := 0;
      asked := [];
    }

    method Next(reading: uint32) returns (ts: uint32)
      modifies this
      ensures ts == prevTs == NextSeed(old(prevTs), reading)
      ensures asked == old(asked) + [reading] && Continued(old(Now()), Now())
    {
      asked := asked + [reading];
      NextContinues(old(Now()), reading);
      ts := reading;
      if prevTs >= ts {
        prevTs := (prevTs + 1) % TWO_32;
        ts := prevTs;
      } else {
        prevTs := ts;
      }
    }

    /** A run of calls, whatever the clock does in between. */
    method Run(readings: seq<uint32>) returns (seeds: seq<uint32>)
      modifies this
      ensures seeds == SeedRun(old(prevTs), readings)
      ensures asked == old(asked) + readings
    {
      seeds := [];
      var i := 0;
      assert readings[0..] == readings;
      while i < |readings|
        invariant 0 <= i <= |readings|
        invariant SeedRun(old(prevTs), readings) == seeds + SeedRun(prevTs, readings[i..])
        invariant asked == old(asked) + readings[..i]
      {
        var ts := Next(readings[i]);
        assert readings[i..][1..] == readings[i + 1..];
        seeds := seeds + [ts];
        i := i + 1;
      }
    }
  }

  lemma NextContinues(a: Moment, reading: uint32)
    ensures Continued(a, Moment(NextSeed(a.prev, reading), a.asked + [reading]))
  {
    var b := a.asked + [reading];
    assert b[|a.asked|..] == [reading] && [reading][1..] == [];
  }

  lemma {:induction false} LastAppend(prev: uint32, a: seq<uint32>, b: seq<uint32>)
    ensures LastSeed(prev, a + b) == LastSeed(LastSeed(prev, a), b)
    decreases |a|
  {
    if a == [] {
      assert a + b == b;
    } else {
      assert (a + b)[1..] == a[1..] + b;
      LastAppend(NextSeed(prev, a[0]), a[1..], b);
    }
  }

  lemma NothingMade(a: Moment)
    ensures Continued(a, a)
  {
  }

  lemma ContinuedOn(a: Moment, b: Moment, c: Moment)
    requires Continued(a, b) && Continued(b, c)
    ensures Continued(a, c)
  {
    LastAppend(a.prev, b.asked[|a.asked|..], c.asked[|b.asked|..]);
    assert c.asked[|a.asked|..] == b.asked[|a.asked|..] + c.asked[|b.asked|..];
  }

  ghost predicate Increasing(prev: uint32, seeds: seq<uint32>)
    decreases |seeds|
  {
    seeds == [] || (prev < seeds[0] && Increasing(seeds[0], seeds[1..]))
  }

  /** The calls leave room for one more seed each, behind the last seed and behind every reading
      of the clock. */
  ghost predicate RoomFor(prev: uint32, readings: seq<uint32>) {
    prev + |readings| < TWO_32 &&
    forall j :: 0 <= j < |readings| ==> readings[j] + (|readings| - 1 - j) < TWO_32
  }

  /** For any clock, even one that stands still or goes back, the seeds increase strictly if and
      only if there is room for them in 32 bits. */
  lemma {:induction false} SeedsIncrease(prev: uint32, readings: seq<uint32>)
    ensures Increasing(prev, SeedRun(prev, readings)) <==> RoomFor(prev, readings)
    decreases |readings|
  {
    if readings != [] {
      var s, more := NextSeed(prev, readings[0]), readings[1..];
      SeedsIncrease(s, more);
      assert SeedRun(prev, readings)[1..] == SeedRun(s, more);
      assert forall j :: 0 <= j < |more| ==> more[j] == readings[j + 1];
      assert RoomFor(prev, readings) ==> RoomFor(s, more) by {
        if RoomFor(prev, readings) {
          forall j | 0 <= j < |more| ensures more[j] + (|more| - 1 - j) < TWO_32 {
            assert readings[j + 1] + (|readings| - 1 - (j + 1)) < TWO_32;
          }
        }
      }
    }
  }

  lemma {:induction false} LastIncreases(prev: uint32, readings: seq<uint32>)
    requires Increasing(prev, SeedRun(prev, readings))
    ensures readings != [] ==> prev < LastSeed(prev, readings)
    decreases |readings|
  {
    if readings != [] {
      assert SeedRun(prev, readings)[1..] == SeedRun(NextSeed(prev, readings[0]), readings[1..]);
      LastIncreases(NextSeed(prev, readings[0]), readings[1..]);
    }
  }

  /** Over the whole life of a generator: as long as there is room for its seeds in 32 bits, the
      seed that it has made last is greater than every one it had made before. */
  lemma SeedNotRepeated(a: Moment, b: Moment)
    requires Continued(a, b) && |a.asked| < |b.asked|
    requires RoomFor(a.prev, b.asked[|a.asked|..])
    ensures a.prev < b.prev
  {
    hide RoomFor, SeedRun, LastSeed;
    SeedsIncrease(a.prev, b.asked[|a.asked|..]);
    LastIncreases(a.prev, b.asked[|a.asked|..]);
  }

  /** Hence no seed is used twice. */
  lemma {:induction false} IncreasingDistinct(prev: uint32, seeds: seq<uint32>, i: nat, j: nat)
    requires Increasing(prev, seeds) && i < j < |seeds|
    ensures prev < seeds[i] < seeds[j]
    decreases |seeds|
  {
    if i == 0 {
      if j > 1 {
        IncreasingDistinct(seeds[0], seeds[1..], 0, j - 1);
      }
    } else {
      IncreasingDistinct(seeds[0], seeds[1..], i - 1, j - 1);
    }
  }
}

module Uuid {
  import opened Bytes
  import opened Errors
  import opened Seeds

  const UUID_SIZE: nat := 37

  /** rand(): the k-th number after srand(seed). */
  type Rand = (uint32, nat) -> nat

  function HexByte(r: nat): byte {
    if r % 16 < 10 then r % 16 + ZERO else r % 16 + LOWER_A - 10
  }

  predicate IsLowerHex(c: byte) {
    IsDigit(c) || LOWER_A <= c < LOWER_A + 6
  }

  /** The next n random digits, k numbers having been drawn before. */
  function HexBytes(rand: Rand, seed: uint32, k: nat, n: nat): (s: bytes)
    ensures |s| == n
    ensures forall i :: 0 <= i < n ==> IsLowerHex(s[i])
  {
    if n == 0 then [] else HexBytes(rand, seed, k, n - 1) + [HexByte(rand(seed, k + n - 1))]
  }

  function FrontText(rand: Rand, seed: uint32): (s: bytes)
    ensures |s| == 19
  {
    HexBytes(rand, seed, 0, 8) + [DASH] + HexBytes(rand, seed, 8, 4) + [DASH] +
    [ZERO + 4] + HexBytes(rand, seed, 12, 3) + [DASH]
  }

  /** A version 4, variant 1 identifier and the NUL behind it. */
  function UuidText(rand: Rand, seed: uint32): (s: bytes)
    ensures |s| == UUID_SIZE
  {
    FrontText(rand, seed) + [LOWER_A] + HexBytes(rand, seed, 15, 3) + [DASH] +
    HexBytes(rand, seed, 18, 12) + [NUL]
  }

  /** How many random numbers are drawn before the one at place i of an identifier. */
  function DrawnBefore(i: nat): nat {
    if i < 8 then i
    else if i < 13 then i - 1
    else if i < 18 then i - 3
    else if i < 23 then i - 5
    else i - 6
  }

  lemma {:induction false} HexDrawn(rand: Rand, seed: uint32, k: nat, n: nat, i: nat)
    requires i < n
    ensures var v := rand(seed, k + i) % 16;
      HexBytes(rand, seed, k, n)[i] == if v < 10 then 48 + v else 87 + v
  {
    if i < n - 1 {
      HexDrawn(rand, seed, k, n - 1, i);
    }
  }

  /** Every random digit is a number of its own, drawn from this seed: the thirty that are not
      dashes, version or variant are the first thirty numbers, in lower-case hex. */
  lemma UuidDrawn(rand: Rand, seed: uint32, i: nat)
    requires i < 36 && i !in {8, 13, 14, 18, 19, 23}
    ensures var v := rand(seed, DrawnBefore(i)) % 16;
      UuidText(rand, seed)[i] == if v < 10 then 48 + v else 87 + v
    ensures DrawnBefore(i) < 30 && forall j :: 0 <= j < i && j !in {8, 13, 14, 18, 19, 23} ==> DrawnBefore(j) < DrawnBefore(i)
  {
    hide HexBytes;
    if i < 8 {
      HexDrawn(rand, seed, 0, 8, i);
    } else if i < 13 {
      HexDrawn(rand, seed, 8, 4, i - 9);
    } else if i < 18 {
      HexDrawn(rand, seed, 12, 3, i - 15);
    } else if i < 23 {
      HexDrawn(rand, seed, 15, 3, i - 20);
    } else {
      HexDrawn(rand, seed, 18, 12, i - 24);
    }
  }

  /** The 8-4-4-4-12 layout: dashes, the version and variant digits, lower-case hex elsewhere. */
  lemma UuidLayout(rand: Rand, seed: uint32, i: nat)
    requires i < 37
    ensures var c := UuidText(rand, seed)[i];
      if i in {8, 13, 18, 23} then c == 45
      else if i == 14 then c == 52
      else if i == 19 then c == 97
      else if i == 36 then c == 0
      else 48 <= c <= 57 || 97 <= c <= 102
  {
  }

  /** add_bytes at buf[pos..pos + n]. */
  method AddBytes(buf: array<byte>, pos: nat, n: nat, rand: Rand, seed: uint32, k: nat)
    requires pos + n <= buf.Length
    modifies buf
    ensures buf[..pos + n] == old(buf[..pos]) + HexBytes(rand, seed, k, n)
    ensures forall j :: pos + n <= j < buf.Length ==> buf[j] == old(buf[j])
  {
    var i := 0;
    while i < n
      invariant 0 <= i <= n
      invariant buf[..pos + i] == old(buf[..pos]) + HexBytes(rand, seed, k, i)
      invariant forall j :: pos + n <= j < buf.Length ==> buf[j] == old(buf[j])
    {
      var r := rand(seed, k + i) % 16;
      if r < 10 {
        buf[pos + i] := r + ZERO;
      } else {
        buf[pos + i] := r + LOWER_A - 10;
      }
      i := i + 1;
    }
  }

  method AddByte(buf: array<byte>, pos: nat, c: byte)
    requires pos < buf.Length
    modifies buf
    ensures buf[..pos + 1] == old(buf[..pos]) + [c]
    ensures forall j :: pos + 1 <= j < buf.Length ==> buf[j] == old(buf[j])
  {
    buf[pos] := c;
  }

  method FillFront(buf: array<byte>, rand: Rand, ts: uint32)
    requires UUID_SIZE <= buf.Length
    modifies buf
    ensures buf[..19] == FrontText(rand, ts)
    ensures forall j :: 19 <= j < buf.Length ==> buf[j] == old(buf[j])
  {
    hide HexBytes;
    assert buf[..0] + HexBytes(rand, ts, 0, 8) == HexBytes(rand, ts, 0, 8);
    AddBytes(buf, 0, 8, rand, ts, 0);
    AddByte(buf, 8, DASH);
    AddBytes(buf, 9, 4, rand, ts, 8);
    AddByte(buf, 13, DASH);
    AddByte(buf, 14, ZERO + 4);
    AddBytes(buf, 15, 3, rand, ts, 12);
    AddByte(buf, 18, DASH);
  }

  /** uuid_gen_new; clockErr and reading are the clock's answer. */
  method New(buf: array<byte>, bufSize: nat, clockErr: Err, reading: uint32, source: SeedSource,
             rand: Rand)
    returns (err: Err)
    requires bufSize <= buf.Length
    modifies buf, source
    ensures err == if bufSize < UUID_SIZE then BufferTooSmall else clockErr
    ensures err == Ok ==> source.prevTs == NextSeed(old(source.prevTs), reading) &&
                          buf[..UUID_SIZE] == UuidText(rand, source.prevTs)
    ensures err == Ok ==> forall j :: UUID_SIZE <= j < buf.Length ==> buf[j] == old(buf[j])
    ensures err != Ok ==> source.prevTs == old(source.prevTs) && buf[..] == old(buf[..])
  {
    hide HexBytes, FrontText;
    err := Ok;
    if bufSize < UUID_SIZE {
      err := BufferTooSmall;
    }
    if err == Ok {
      err := clockErr;
    }
    if err == Ok {
      var ts := source.Next(reading);
      FillFront(buf, rand, ts);
      AddByte(buf, 19, LOWER_A);
      AddBytes(buf, 20, 3, rand, ts, 15);
      AddByte(buf, 23, DASH);
      AddBytes(buf, 24, 12, rand, ts, 18);
      AddByte(buf, 36, NUL);
    }
  }
}
