// src/here_tracking_data_buffer.c: an append-only buffer over memory the caller owns.

module DataBuffers {
  import opened Bytes
  import opened Errors
  import opened Utils

  const UINT32_MAX_SIZE: nat := 10

  class DataBuffer {
    var buffer: array<byte>
    var capacity: nat
    var size: nat

    ghost predicate Valid()
      reads this
    {
      size <= capacity <= buffer.Length && 0 < capacity < TWO_32
    }

    ghost function Contents(): bytes
      reads this, buffer
      requires Valid()
    {
      buffer[..size]
    }

    function BytesFree(): (free: nat)
      reads this
      requires Valid()
      ensures free == capacity - size
    {
      capacity - size
    }

    /** data_buffer_init with a buffer of at least one byte. */
    constructor (buffer: array<byte>, capacity: nat)
      requires 0 < capacity <= buffer.Length && capacity < TWO_32
      ensures Valid() && Contents() == []
      ensures this.buffer == buffer && this.capacity == capacity
    {
      this.buffer := buffer;
      this.capacity := capacity;
      this.size := 0;
    }

    method AddChar(c: byte) returns (err: Err)
      requires Valid()
      modifies this`size, buffer
      ensures Valid()
      ensures err == if |old(Contents())| < capacity then Ok else BufferTooSmall
      ensures Contents() == old(Contents()) + (if err == Ok then [c] else [])
      ensures forall i :: capacity <= i < buffer.Length ==> buffer[i] == old(buffer[i])
    {
      if BytesFree() >= 1 {
        buffer[size] := c;
        size := size + 1;
        err := Ok;
      } else {
        err := BufferTooSmall;
      }
    }

    /** add_string: unlike add_data it accepts the empty string. */
    method AddString(s: bytes) returns (err: Err)
      requires Valid()
      modifies this`size, buffer
      ensures Valid()
      ensures err == if |old(Contents())| + |s| <= capacity then Ok else BufferTooSmall
      ensures Contents() == old(Contents()) + (if err == Ok then s else [])
      ensures forall i :: capacity <= i < buffer.Length ==> buffer[i] == old(buffer[i])
    {
      if BytesFree() >= |s| {
        forall i | 0 <= i < |s| {
          buffer[size + i] := s[i];
        }
        size := size + |s|;
        err := Ok;
      } else {
        err := BufferTooSmall;
      }
    }

    method AddData(d: bytes) returns (err: Err)
      requires Valid()
      modifies this`size, buffer
      ensures Valid()
      ensures err == if d == [] then InvalidInput
                     else if |old(Contents())| + |d| <= capacity then Ok
                     else BufferTooSmall
      ensures Contents() == old(Contents()) + (if err == Ok then d else [])
      ensures forall i :: capacity <= i < buffer.Length ==> buffer[i] == old(buffer[i])
    {
      err := InvalidInput;
      if |d| > 0 {
        if BytesFree() >= |d| {
          forall i | 0 <= i < |d| {
            buffer[size + i] := d[i];
          }
          size := size + |d|;
          err := Ok;
        } else {
          err := BufferTooSmall;
        }
      }
    }

    /** add_utoa: appends the canonical numeral of u, written from its last digit back. */
    method AddUtoa(u0: uint32, base: nat) returns (err: Err)
      requires Valid()
      modifies this`size, buffer
      ensures Valid()
      ensures err == if base != 10 && base != 16 then InvalidInput
                     else if |old(Contents())| + |Digits(u0, base)| <= capacity then Ok
                     else BufferTooSmall
      ensures Contents() == old(Contents()) + (if err == Ok then Digits(u0, base) else [])
      ensures base == 10 || base == 16 ==> |Digits(u0, base)| <= UINT32_MAX_SIZE
      ensures forall i :: capacity <= i < buffer.Length ==> buffer[i] == old(buffer[i])
    {
      err := InvalidInput;
      if base == 10 || base == 16 {
        var len := NumeralSize(u0, base);
        if BytesFree() >= len {
          PutDigits(buffer, size, u0, base, len);
          size := size + len;
          err := Ok;
        } else {
          err := BufferTooSmall;
        }
      }
    }
  }

  /** The second loop of add_utoa: fills the last of the len positions first. */
  method PutDigits(buffer: array<byte>, start: nat, u0: uint32, base: nat, total: nat)
    requires base == 10 || base == 16
    requires total == |Digits(u0, base)| && start + total <= buffer.Length
    modifies buffer
    ensures forall i :: 0 <= i < total ==> buffer[start + i] == Digits(u0, base)[i]
    ensures forall i :: 0 <= i < start || start + total <= i < buffer.Length ==>
              buffer[i] == old(buffer[i])
  {
    var u: uint32, len := u0, total;
    ghost var digits := Digits(u0, base);
    while len > 0
      invariant 0 <= len <= total
      invariant len > 0 ==> Digits(u, base) == digits[..len]
      invariant forall i :: len <= i < total ==> buffer[start + i] == digits[i]
      invariant forall i :: 0 <= i < start || start + total <= i < buffer.Length ==>
                  buffer[i] == old(buffer[i])
    {
      var val, rest := LastDigit(u, base, digits[..len]);
      if val < 10 {
        buffer[start + len - 1] := val + ZERO;
      } else {
        buffer[start + len - 1] := (val - 10) + UPPER_A;
      }
      assert digits[..len][..len - 1] == digits[..len - 1];
      u := rest;
      len := len - 1;
    }
  }

  /** One step of the digit loop: the remainder is the last digit, the quotient the rest. */
  method LastDigit(u: uint32, base: nat, ghost d: bytes) returns (val: nat, rest: uint32)
    requires base == 10 || base == 16
    requires d == Digits(u, base)
    ensures val == u % base < 16 && rest == u / base
    ensures d[|d| - 1] == DigitChar(val)
    ensures |d| > 1 ==> Digits(rest, base) == d[..|d| - 1]
  {
    val := u % base;
    rest := u / base;
  }

  /** The first loop of add_utoa: the number of digits u needs. The 32-bit divisor wraps on
      the last multiplication, to 10^10 mod 2^32 in base 10 and to 0 in base 16, and is then
      not divided by again. */
  method NumeralSize(u: uint32, base: nat) returns (size: nat)
    requires base == 10 || base == 16
    ensures size == |Digits(u, base)| <= UINT32_MAX_SIZE
  {
    var divisor: uint32 := base;
    size := 1;
    FirstDivisor(base);
    while divisor > 0 && size < UINT32_MAX_SIZE && u / divisor > 0
      invariant 1 <= size <= UINT32_MAX_SIZE
      invariant divisor == Divisor(base, size)
      invariant Reached(u, base, size)
      decreases UINT32_MAX_SIZE - size
    {
      NextDivisor(u, base, size);
      size := size + 1;
      divisor := (divisor * base) % TWO_32;
    }
    LastDivisor(u, base, size);
  }

  /** The divisor after the numeral size has reached `size`. */
  ghost function Divisor(base: nat, size: nat): uint32 {
    Pow(base, size) % TWO_32
  }

  /** u needs at least `size` digits. */
  ghost predicate Reached(u: uint32, base: nat, size: nat) {
    0 < size && (size == 1 || Pow(base, size - 1) <= u)
  }

  lemma FirstDivisor(base: nat)
    requires base == 10 || base == 16
    ensures Divisor(base, 1) == base
  {
  }

  lemma NextDivisor(u: uint32, base: nat, size: nat)
    requires base == 10 || base == 16
    requires 1 <= size < UINT32_MAX_SIZE && Reached(u, base, size)
    requires Divisor(base, size) > 0 && u / Divisor(base, size) > 0
    ensures (Divisor(base, size) * base) % TWO_32 == Divisor(base, size + 1)
    ensures Reached(u, base, size + 1)
  {
    PowTable();
    DivisionPositive(u, Divisor(base, size));
    if base == 10 {
      WrappedProduct10(size);
    } else {
      ReachedBase16(u, size);
      WrappedProduct16(size);
    }
  }

  lemma LastDivisor(u: uint32, base: nat, size: nat)
    requires base == 10 || base == 16
    requires 1 <= size <= UINT32_MAX_SIZE && Reached(u, base, size)
    requires !(Divisor(base, size) > 0 && size < UINT32_MAX_SIZE && u / Divisor(base, size) > 0)
    ensures size == |Digits(u, base)|
  {
    PowTable();
    if Divisor(base, size) > 0 {
      DivisionPositive(u, Divisor(base, size));
    }
    if base == 10 {
      if size < 10 {
        WrappedProduct10(size);
      }
    } else {
      ReachedBase16(u, size);
      if size < 8 {
        WrappedProduct16(size);
      }
    }
    DigitsLength(u, base, size);
  }

  lemma DivisionPositive(u: nat, d: nat)
    requires d > 0
    ensures u / d > 0 <==> u >= d
  {
  }

  lemma WrappedProduct10(e: nat)
    requires 1 <= e < UINT32_MAX_SIZE
    ensures Divisor(10, e) == Pow(10, e)
    ensures Pow(10, e + 1) == Pow(10, e) * 10
  {
    PowTable();
  }

  lemma WrappedProduct16(e: nat)
    requires 1 <= e < 8
    ensures Divisor(16, e) == Pow(16, e)
    ensures Pow(16, e + 1) == Pow(16, e) * 16
  {
    PowTable();
  }

  /** No 32-bit number needs more than eight hexadecimal digits. */
  lemma ReachedBase16(u: uint32, size: nat)
    requires 1 <= size <= UINT32_MAX_SIZE && Reached(u, 16, size)
    ensures size <= 8
    ensures size == 8 ==> Divisor(16, size) == 0
  {
    PowTable();
  }

  /** The powers that the divisor of add_utoa runs through. */
  lemma PowTable()
    ensures Pow(10, 1) == 10 && Pow(10, 2) == 100 && Pow(10, 3) == 1000
    ensures Pow(10, 4) == 10000 && Pow(10, 5) == 100000 && Pow(10, 6) == 1000000
    ensures Pow(10, 7) == 10000000 && Pow(10, 8) == 100000000 && Pow(10, 9) == 1000000000
    ensures Pow(10, 10) == 10000000000
    ensures Pow(16, 1) == 0x10 && Pow(16, 2) == 0x100 && Pow(16, 3) == 0x1000
    ensures Pow(16, 4) == 0x1_0000 && Pow(16, 5) == 0x10_0000 && Pow(16, 6) == 0x100_0000
    ensures Pow(16, 7) == 0x1000_0000 && Pow(16, 8) == 0x1_0000_0000
  {
  }
}
