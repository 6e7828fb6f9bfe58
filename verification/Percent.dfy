// percent_encode of src/here_tracking_oauth.c: sections 2.1 and 2.3 of RFC 3986.

module Percent {
  import opened Bytes
  import opened DataBuffers
  import opened Errors
  import opened Options
  import opened Utils

  predicate IsUnreserved(c: byte) {
    IsAlnum(c) || c == DASH || c == UNDERSCORE || c == DOT || c == TILDE
  }

  predicate AllUnreserved(s: bytes) {
    forall i :: 0 <= i < |s| ==> IsUnreserved(s[i])
  }

  function EncodeByte(c: byte): (r: bytes)
    ensures |r| == if IsUnreserved(c) then 1 else 3
  {
    if IsUnreserved(c) then [c] else [PERCENT, DigitChar(c / 16), DigitChar(c % 16)]
  }

  function Encode(s: bytes): bytes {
    if s == [] then [] else EncodeByte(s[0]) + Encode(s[1..])
  }

  /** Percent decoding; None on a malformed escape. */
  function Decode(s: bytes): Option<bytes>
    decreases |s|
  {
    if s == [] then Some([])
    else if s[0] == PERCENT then
      if |s| < 3 || !IsHexDigit(s[1]) || !IsHexDigit(s[2]) then None
      else
        match Decode(s[3..])
        case None => None
        case Some(more) => Some([DigitValue(s[1]) * 16 + DigitValue(s[2])] + more)
    else
      match Decode(s[1..])
      case None => None
      case Some(more) => Some([s[0]] + more)
  }

  // ----- properties of the encoding -----

  predicate IsUpperHex(c: byte) {
    IsDigit(c) || UPPER_A <= c < UPPER_A + 6
  }

  lemma {:induction false} EncodeAppend(a: bytes, b: bytes)
    ensures Encode(a + b) == Encode(a) + Encode(b)
  {
    if a == [] {
      assert a + b == b;
    } else {
      assert (a + b)[1..] == a[1..] + b;
      EncodeAppend(a[1..], b);
      Assoc(EncodeByte(a[0]), Encode(a[1..]), Encode(b));
    }
  }

  lemma HexPair(c: byte)
    ensures DigitValue(DigitChar(c / 16)) * 16 + DigitValue(DigitChar(c % 16)) == c
    ensures IsUpperHex(DigitChar(c / 16)) && IsUpperHex(DigitChar(c % 16))
  {
  }

  lemma DecodeByte(c: byte, rest: bytes)
    ensures Decode(rest).Some? ==> Decode(EncodeByte(c) + rest) == Some([c] + Decode(rest).value)
  {
    if IsUnreserved(c) {
      var s := [c] + rest;
      assert s[0] == c && s[1..] == rest;
    } else {
      HexPair(c);
      DecodeEscape(DigitChar(c / 16), DigitChar(c % 16), c, rest);
    }
  }

  lemma DecodeEscape(high: byte, low: byte, c: byte, rest: bytes)
    requires DigitValue(high) * 16 + DigitValue(low) == c && IsHexDigit(high) && IsHexDigit(low)
    ensures Decode(rest).Some? ==> Decode([PERCENT, high, low] + rest) == Some([c] + Decode(rest).value)
  {
    hide DigitValue, Decode;
    var s := [PERCENT, high, low] + rest;
    assert s[3..] == rest;
    DecodeUnfolds(s);
  }

  lemma DecodeUnfolds(s: bytes)
    requires |s| >= 3 && s[0] == PERCENT && IsHexDigit(s[1]) && IsHexDigit(s[2])
    ensures Decode(s[3..]).Some? ==>
      Decode(s) == Some([DigitValue(s[1]) * 16 + DigitValue(s[2])] + Decode(s[3..]).value)
  {
  }

  lemma {:induction false} DecodeEncode(s: bytes)
    ensures Decode(Encode(s)) == Some(s)
  {
    if s != [] {
      DecodeEncode(s[1..]);
      DecodeByte(s[0], Encode(s[1..]));
      assert s == [s[0]] + s[1..];
    }
  }

  lemma EncodeInjective(a: bytes, b: bytes)
    requires Encode(a) == Encode(b)
    ensures a == b
  {
    DecodeEncode(a);
    DecodeEncode(b);
  }

  function ReservedCount(s: bytes): nat {
    if s == [] then 0 else (if IsUnreserved(s[0]) then 0 else 1) + ReservedCount(s[1..])
  }

  lemma {:induction false} EncodeLength(s: bytes)
    ensures |Encode(s)| == |s| + 2 * ReservedCount(s)
  {
    if s != [] {
      EncodeLength(s[1..]);
    }
  }

  lemma {:induction false} ReservedNone(s: bytes)
    ensures ReservedCount(s) == 0 <==> AllUnreserved(s)
    ensures ReservedCount(s) <= |s|
  {
    if s != [] {
      ReservedNone(s[1..]);
      assert forall i :: 1 <= i < |s| ==> s[i] == s[1..][i - 1];
    }
  }

  /** Nothing but unreserved characters is left alone. */
  lemma {:induction false} EncodeIdentity(s: bytes)
    ensures Encode(s) == s <==> AllUnreserved(s)
  {
    EncodeLength(s);
    ReservedNone(s);
    if AllUnreserved(s) && s != [] {
      assert AllUnreserved(s[1..]);
      EncodeIdentity(s[1..]);
      assert s == [s[0]] + s[1..];
    }
  }

  /** By number: the bytes left alone are digits, letters, "-", ".", "_" and "~". */
  lemma EncodeByNumber(c: byte)
    ensures Encode([c]) == [c] <==>
            48 <= c <= 57 || 65 <= c <= 90 || 97 <= c <= 122 || c in {45, 46, 95, 126}
  {
    EncodeSingle(c);
  }

  /** The output is unreserved characters and escapes with two upper-case hex digits. */
  ghost predicate Escaped(s: bytes)
    decreases |s|
  {
    s == [] ||
    if s[0] == PERCENT then
      |s| >= 3 && IsUpperHex(s[1]) && IsUpperHex(s[2]) && Escaped(s[3..])
    else IsUnreserved(s[0]) && Escaped(s[1..])
  }

  lemma {:induction false} EncodeEscaped(s: bytes)
    ensures Escaped(Encode(s))
    ensures forall c :: c in Encode(s) ==>
              48 <= c <= 57 || 65 <= c <= 90 || 97 <= c <= 122 || c in {37, 45, 46, 95, 126}
  {
    if s != [] {
      EncodeEscaped(s[1..]);
      var head, tail := EncodeByte(s[0]), Encode(s[1..]);
      var e := head + tail;
      assert e[|head|..] == tail;
      assert e[0] == head[0] && (|head| == 3 ==> e[1] == head[1] && e[2] == head[2]);
    }
  }

  // ----- the encoder -----

  /** The value of a C char that holds byte c, where char is signed. */
  function SignedChar(c: byte): int {
    if c < 128 then c else c - 256
  }

  /** to_hex: the low four bits of a possibly negative code. */
  function ToHex(code: int): byte {
    DigitChar(code % 16)
  }

  lemma SignedShift(c: byte)
    ensures ToHex(SignedChar(c) / 16) == DigitChar(c / 16)
    ensures ToHex(SignedChar(c) % 16) == DigitChar(c % 16)
  {
  }

  /** percent_encode: appends character by character and stops at the first that does not fit.
      The right shift of a char with the top bit set is arithmetic. */
  method PercentEncode(buf: DataBuffer, input: bytes) returns (err: Err)
    requires buf.Valid()
    modifies buf`size, buf.buffer
    ensures buf.Valid()
    ensures err == if |old(buf.Contents())| + |Encode(input)| <= buf.capacity then Ok
                   else BufferTooSmall
    ensures err == Ok ==> buf.Contents() == old(buf.Contents()) + Encode(input)
    ensures err != Ok ==> buf.Contents() == (old(buf.Contents()) + Encode(input))[..buf.capacity]
  {
    err := Ok;
    var i := 0;
    ghost var start := buf.Contents();
    ghost var all := start + Encode(input);
    assert start + [] == start;
    while err == Ok && i < |input|
      invariant 0 <= i <= |input| && buf.Valid()
      invariant err == Ok ==> buf.Contents() == start + Encode(input[..i])
      invariant err != Ok ==> err == BufferTooSmall && Overflows(buf.Contents(), all, buf.capacity)
      decreases |input| - i, if err == Ok then 1 else 0
    {
      NextByte(start, input, i);
      err := PutByte(buf, input[i]);
      i := i + 1;
    }
    assert input[..|input|] == input;
  }

  /** s is what is left of `all` in a buffer that overflowed. */
  ghost predicate Overflows(s: bytes, all: bytes, capacity: nat) {
    |s| == capacity < |all| && s == all[..capacity]
  }

  lemma NextByte(start: bytes, s: bytes, i: nat)
    requires i < |s|
    ensures start + Encode(s[..i]) + EncodeByte(s[i]) == start + Encode(s[..i + 1])
    ensures start + Encode(s) == start + Encode(s[..i + 1]) + Encode(s[i + 1..])
  {
    hide Encode, EncodeByte;
    SplitAt(s, i);
    EncodeThird(start, s[..i], s[i], s[i + 1..]);
  }

  lemma SplitAt(s: bytes, i: nat)
    requires i < |s|
    ensures s[..i + 1] == s[..i] + [s[i]]
    ensures s == s[..i] + [s[i]] + s[i + 1..]
  {
  }

  lemma EncodeThird(start: bytes, u: bytes, c: byte, v: bytes)
    ensures start + Encode(u) + EncodeByte(c) == start + Encode(u + [c])
    ensures start + Encode(u + [c] + v) == start + Encode(u + [c]) + Encode(v)
  {
    hide Encode, EncodeByte;
    EncodeAppend(u, [c]);
    EncodeSingle(c);
    Assoc(start, Encode(u), EncodeByte(c));
    EncodeAppend(u + [c], v);
    Assoc(start, Encode(u + [c]), Encode(v));
  }

  lemma EncodeSingle(c: byte)
    ensures Encode([c]) == EncodeByte(c)
  {
    assert [c][1..] == [];
    assert EncodeByte(c) + [] == EncodeByte(c);
  }

  /** One round of the loop. */
  method PutByte(buf: DataBuffer, c: byte) returns (err: Err)
    requires buf.Valid()
    modifies buf`size, buf.buffer
    ensures buf.Valid()
    ensures err == Ok ==> buf.Contents() == old(buf.Contents()) + EncodeByte(c)
    ensures err != Ok ==> err == BufferTooSmall &&
                          Overflows(buf.Contents(), old(buf.Contents()) + EncodeByte(c), buf.capacity)
  {
    hide Encode, DigitChar, ToHex, SignedChar;
    ghost var start, e := buf.Contents(), EncodeByte(c);
    Partial(start, e, 0);
    if IsUnreserved(c) {
      err := buf.AddChar(c);
    } else {
      SignedShift(c);
      Partial(start, e, 1);
      Partial(start, e, 2);
      err := buf.AddChar(PERCENT);
      if err == Ok {
        err := buf.AddChar(ToHex(SignedChar(c) / 16));
      }
      if err == Ok {
        err := buf.AddChar(ToHex(SignedChar(c) % 16));
      }
    }
  }

  lemma Partial(start: bytes, e: bytes, k: nat)
    requires k < |e|
    ensures (start + e)[..|start| + k] == start + e[..k]
    ensures start + e[..k] + [e[k]] == start + e[..k + 1]
    ensures k == 0 ==> start + e[..k] == start
    ensures k + 1 == |e| ==> e[..k + 1] == e
  {
    assert e[..k] + [e[k]] == e[..k + 1];
  }
}
