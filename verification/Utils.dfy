// src/here_tracking_utils.c: decimal scanning and case-insensitive comparison.

module Utils {
  import opened Bytes

  /** The number of leading decimal digits of s. */
  function DigitRun(s: bytes): (k: nat)
    ensures k <= |s|
    ensures forall i :: 0 <= i < k ==> IsDigit(s[i])
    ensures k < |s| ==> !IsDigit(s[k])
  {
    if s == [] || !IsDigit(s[0]) then 0
    else
      var k := DigitRun(s[1..]);
      assert forall i :: 1 <= i < k + 1 ==> s[i] == s[1..][i - 1];
      k + 1
  }

  predicate IsHexDigit(c: byte) {
    IsDigit(c) || UPPER_A <= c < UPPER_A + 6 || LOWER_A <= c < LOWER_A + 6
  }

  /** The value of one digit character of base 10 or 16, in either case. */
  function DigitValue(c: byte): nat {
    if IsDigit(c) then c - ZERO
    else if UPPER_A <= c < UPPER_A + 6 then c - UPPER_A + 10
    else if LOWER_A <= c < LOWER_A + 6 then c - LOWER_A + 10
    else 0
  }

  /** The number that a string of digits denotes, most significant digit first. */
  function Value(s: bytes, base: nat): nat {
    if s == [] then 0 else Value(s[..|s| - 1], base) * base + DigitValue(s[|s| - 1])
  }

  /** What atou computes: the leading digit run as a number, reduced to 32 bits. */
  function AtouValue(s: bytes): uint32 {
    Value(s[..DigitRun(s)], 10) % TWO_32
  }

  /** A digit run is as long as the digits in front of the first non-digit. */
  lemma DigitRunUnique(s: bytes, k: nat)
    requires k <= |s| && (forall i :: 0 <= i < k ==> IsDigit(s[i]))
    requires k < |s| ==> !IsDigit(s[k])
    ensures DigitRun(s) == k
  {
  }

  lemma ValueSnoc(s: bytes, c: byte, base: nat)
    ensures Value(s + [c], base) == Value(s, base) * base + DigitValue(c)
  {
    assert (s + [c])[..|s|] == s;
  }

  lemma WrappedStep(v: nat, d: nat)
    ensures ((((v % TWO_32) * 10) % TWO_32) + d) % TWO_32 == (v * 10 + d) % TWO_32
  {
    var r := v % TWO_32;
    var q1, q2 := v / TWO_32, (r * 10) / TWO_32;
    assert r * 10 == q2 * TWO_32 + (r * 10) % TWO_32;
    assert v * 10 + d == ((r * 10) % TWO_32 + d) + (q1 * 10 + q2) * TWO_32;
    ModShift((r * 10) % TWO_32 + d, q1 * 10 + q2);
  }

  lemma ModShift(x: int, k: int)
    ensures (x + k * TWO_32) % TWO_32 == x % TWO_32
  {
  }

  /** atou: the caller must own the byte after the n it asks for, because the loop looks
      at it before testing the count. */
  method Atou(str: bytes, n: nat) returns (val: uint32)
    requires n < |str|
    ensures val == AtouValue(str[..n])
  {
    val := 0;
    if n > 0 {
      var pos := 0;
      while IsDigit(str[pos]) && pos < n
        invariant pos <= n
        invariant forall i :: 0 <= i < pos ==> IsDigit(str[i])
        invariant val == Value(str[..pos], 10) % TWO_32
        decreases n - pos
      {
        ValueSnoc(str[..pos], str[pos], 10);
        assert str[..pos + 1] == str[..pos] + [str[pos]];
        WrappedStep(Value(str[..pos], 10), str[pos] - ZERO);
        val := (val * 10) % TWO_32;
        val := (val + (str[pos] - ZERO)) % TWO_32;
        pos := pos + 1;
      }
      assert str[..n][..pos] == str[..pos];
      DigitRunUnique(str[..n], pos);
    }
  }

  function ToLower(c: byte): byte {
    if 65 <= c <= 90 then c + 32 else c
  }

  predicate SameIgnoringCase(a: bytes, b: bytes) {
    |a| == |b| && forall i :: 0 <= i < |a| ==> ToLower(a[i]) == ToLower(b[i])
  }

  /** By number: equal bytes, or a letter 65..90 against the same letter in 97..122. */
  ghost predicate SameLetters(a: bytes, b: bytes) {
    |a| == |b| &&
    forall i :: 0 <= i < |a| ==>
      a[i] == b[i] || (65 <= a[i] <= 90 && b[i] == a[i] + 32) || (65 <= b[i] <= 90 && a[i] == b[i] + 32)
  }

  /** The comparison ignores the case of the ASCII letters, and nothing else. */
  lemma CaseIgnored(a: bytes, b: bytes)
    ensures SameIgnoringCase(a, b) <==> SameLetters(a, b)
  {
  }

  lemma ValueByNumber(s: bytes, c: byte)
    requires 48 <= c <= 57
    ensures Value([], 10) == 0 && Value(s + [c], 10) == Value(s, 10) * 10 + (c - 48)
  {
    ValueSnoc(s, c, 10);
  }

  /** memcasecmp: like atou it looks at the byte after the n compared ones. */
  method MemCaseCmp(b1: bytes, b2: bytes, n: nat) returns (r: int)
    requires n < |b1| && n < |b2|
    ensures r == 0 <==> SameIgnoringCase(b1[..n], b2[..n])
    ensures r == 0 <==>
            forall i :: 0 <= i < n ==>
              b1[i] == b2[i] ||
              (65 <= b1[i] <= 90 && b2[i] == b1[i] + 32) || (65 <= b2[i] <= 90 && b1[i] == b2[i] + 32)
    ensures r != 0 ==> exists i :: 0 <= i < n && SameIgnoringCase(b1[..i], b2[..i]) &&
                                   ToLower(b1[i]) != ToLower(b2[i]) &&
                                   r == (if b1[i] < b2[i] then -1 else 1)
  {
    var i := 0;
    while ToLower(b1[i]) == ToLower(b2[i]) && i < n
      invariant 0 <= i <= n
      invariant SameIgnoringCase(b1[..i], b2[..i])
      decreases n - i
    {
      i := i + 1;
    }
    if i == n {
      r := 0;
    } else {
      assert b1[..n][i] == b1[i] && b2[..n][i] == b2[i];
      r := if b1[i] < b2[i] then -1 else 1;
    }
  }

  // ----- printing -----

  function DigitChar(v: nat): byte
    requires v < 16
  {
    if v < 10 then v + ZERO else v - 10 + UPPER_A
  }

  /** The canonical numeral of u: no leading zero, most significant digit first. */
  function Digits(u: nat, base: nat): (d: bytes)
    requires 2 <= base <= 16
    ensures |d| > 0
  {
    if u < base then [DigitChar(u)]
    else Digits(u / base, base) + [DigitChar(u % base)]
  }

  function Pow(base: nat, e: nat): nat {
    if e == 0 then 1 else base * Pow(base, e - 1)
  }

  lemma {:induction false} DigitsValue(u: nat, base: nat)
    requires base == 10 || base == 16
    ensures Value(Digits(u, base), base) == u
  {
    var d := Digits(u, base);
    if u >= base {
      DigitsValue(u / base, base);
      assert d[..|d| - 1] == Digits(u / base, base);
      assert d[|d| - 1] == DigitChar(u % base);
    } else {
      assert d[..|d| - 1] == [];
    }
  }

  lemma {:induction false} DigitsShape(u: nat, base: nat)
    requires base == 10 || base == 16
    ensures |Digits(u, base)| > 1 ==> Digits(u, base)[0] != ZERO
    ensures u > 0 ==> Digits(u, base)[0] != ZERO
    ensures base == 10 ==> AllDigits(Digits(u, base))
    ensures forall c :: c in Digits(u, base) ==> IsDigit(c) || UPPER_A <= c < UPPER_A + 6
    ensures forall c :: c in Digits(u, base) ==> 48 <= c <= 57 || (base == 16 && 65 <= c <= 70)
  {
    if u >= base {
      DigitsShape(u / base, base);
    }
  }

  lemma {:induction false} DigitsLength(u: nat, base: nat, size: nat)
    requires base == 10 || base == 16
    requires size > 0 && u < Pow(base, size) && (size == 1 || Pow(base, size - 1) <= u)
    ensures |Digits(u, base)| == size
  {
    if size == 1 {
      assert Pow(base, 1) == base * Pow(base, 0);
    } else {
      assert Pow(base, size) == base * Pow(base, size - 1);
      assert Pow(base, size - 1) == base * Pow(base, size - 2);
      PowPositive(base, size - 2);
      assert u / base < Pow(base, size - 1);
      assert Pow(base, size - 2) <= u / base;
      DigitsLength(u / base, base, size - 1);
    }
  }

  lemma {:induction false} PowPositive(base: nat, e: nat)
    requires base > 0
    ensures Pow(base, e) > 0
  {
    if e > 0 {
      PowPositive(base, e - 1);
    }
  }

  /** atou reads back what a base-10 numeral was printed from. */
  lemma AtouOfDigits(u: uint32)
    ensures AtouValue(Digits(u, 10)) == u
  {
    var d := Digits(u, 10);
    DigitsShape(u, 10);
    assert d[..|d|] == d;
    DigitRunUnique(d, |d|);
    DigitsValue(u, 10);
  }
}
