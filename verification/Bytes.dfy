// Bytes, the character constants the library names, and its error codes.

/** The error codes of include/here_tracking_error.h. */
module Errors {
  datatype Err =
    | Ok
    | Error
    | InvalidInput
    | BufferTooSmall
    | NeedMoreData
    | ClientInterrupt
    | TimeMismatch
    | BadRequest
    | Unauthorized
    | Forbidden
    | DeviceUnclaimed
    | NotFound
    | TooManyRequests
}

module Options {
  datatype Option<+T> = None | Some(value: T)
}

module Bytes {
  type byte = b: int | 0 <= b < 256
  type bytes = seq<byte>

  type int32 = i: int | -0x8000_0000 <= i < 0x8000_0000
  type uint32 = u: int | 0 <= u < 0x1_0000_0000

  const TWO_32: int := 0x1_0000_0000
  const TWO_31: int := 0x8000_0000

  const NUL: byte := 0
  const LF: byte := 10
  const CR: byte := 13
  const SP: byte := 32
  const QUOTE: byte := 34
  const PERCENT: byte := 37
  const AMPERSAND: byte := 38
  const COMMA: byte := 44
  const DASH: byte := 45
  const DOT: byte := 46
  const ZERO: byte := 48
  const COLON: byte := 58
  const EQUALS: byte := 61
  const UPPER_A: byte := 65
  const UNDERSCORE: byte := 95
  const LOWER_A: byte := 97
  const TILDE: byte := 126

  const CRLF: bytes := [CR, LF]

  predicate IsDigit(c: byte) {
    ZERO <= c <= ZERO + 9
  }

  predicate IsAlpha(c: byte) {
    65 <= c <= 90 || 97 <= c <= 122
  }

  predicate IsAlnum(c: byte) {
    IsAlpha(c) || IsDigit(c)
  }

  predicate AllDigits(s: bytes) {
    forall i :: 0 <= i < |s| ==> IsDigit(s[i])
  }

  predicate AsciiText(s: string) {
    forall i :: 0 <= i < |s| ==> s[i] as int < 128
  }

  /** The bytes of a C string literal, without its terminator. */
  function Ascii(s: string): (r: bytes)
    requires AsciiText(s)
    ensures |r| == |s|
    ensures forall i :: 0 <= i < |s| ==> r[i] == s[i] as int
  {
    seq(|s|, i requires 0 <= i < |s| => s[i] as int)
  }

  lemma Assoc<T>(a: seq<T>, b: seq<T>, c: seq<T>)
    ensures (a + b) + c == a + (b + c)
  {
  }

  lemma Grown(x: bytes, y: bytes)
    ensures x <= x + y
  {
  }

  lemma Stages(acc: bytes, h: bytes, m: bytes, d: bytes, e: bytes)
    ensures var all := acc + (h + m + d + e);
      acc + h <= all && acc + h + m <= all && acc + h + m + d <= all && acc + h + m + d + e == all
    ensures d == [] ==> acc + h + m + d == acc + h + m
  {
    Assoc(acc, h, m);
    Assoc(acc, h + m, d);
    Assoc(acc, h + m + d, e);
    Grown(acc + h + m + d, e);
    Assoc(acc + h + m, d, e);
    Grown(acc + h + m, d + e);
    Assoc(acc + h, m, d + e);
    Grown(acc + h, m + (d + e));
  }

  /** Concatenation of a list of byte strings. */
  function Concat(ss: seq<bytes>): bytes {
    if ss == [] then [] else ss[0] + Concat(ss[1..])
  }

  lemma {:induction false} ConcatAppend(ss: seq<bytes>, ts: seq<bytes>)
    ensures Concat(ss + ts) == Concat(ss) + Concat(ts)
  {
    if ss == [] {
      assert ss + ts == ts;
    } else {
      ConcatAppend(ss[1..], ts);
      assert (ss + ts)[1..] == ss[1..] + ts;
      assert ss[0] + (Concat(ss[1..]) + Concat(ts)) == Concat(ss) + Concat(ts);
    }
  }
}
