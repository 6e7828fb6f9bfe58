// The TLS pipe of include/here_tracking_tls.h and src/here_tracking_tls_writer.c.

/** An abstract TLS connection: it may fail at any call and may transfer any positive part
    of what a call asks for. */
module TlsPipe {
  import opened Bytes
  import opened Errors

  /** Which calls fail, and how much of the request each call transfers. */
  datatype Behaviour = Behaviour(fails: nat -> bool, share: nat -> nat) {
    ghost predicate Reliable() {
      forall k :: !fails(k)
    }

    /** The size of the transfer of call k when `limit` bytes could be moved. */
    function Amount(k: nat, limit: nat): (n: nat)
      requires limit > 0
      ensures 1 <= n <= limit
    {
      1 + share(k) % limit
    }
  }

  class Tls {
    const behaviour: Behaviour
    var calls: nat
    var sent: bytes
    var incoming: bytes

    constructor (behaviour: Behaviour, incoming: bytes)
      ensures this.behaviour == behaviour
      ensures calls == 0 && sent == [] && this.incoming == incoming
    {
      this.behaviour := behaviour;
      this.calls := 0;
      this.sent := [];
      this.incoming := incoming;
    }

    /** tls_write: a successful call takes at least one byte. */
    method Write(data: bytes) returns (err: Err, written: nat)
      requires data != []
      modifies this`calls, this`sent
      ensures err != Ok ==> written == 0
      ensures err == Ok ==> 1 <= written <= |data|
      ensures err == Ok || err == Error
      ensures behaviour.Reliable() ==> err == Ok
      ensures sent == old(sent) + data[..written]
    {
      calls := calls + 1;
      if behaviour.fails(calls) {
        err, written := Error, 0;
        assert sent == sent + data[..0];
      } else {
        err, written := Ok, behaviour.Amount(calls, |data|);
        sent := sent + data[..written];
      }
    }

    /** tls_read into buf[off..off + max]: a successful call yields at least one byte, and a
        call on an exhausted stream fails. */
    method Read(buf: array<byte>, off: nat, max: nat) returns (err: Err, n: nat)
      requires 0 < max && off + max <= buf.Length
      modifies this`calls, this`incoming, buf
      ensures err == Ok ==> 1 <= n <= max && n <= |old(incoming)|
      ensures err != Ok ==> n == 0 && err == Error
      ensures old(incoming) == [] ==> err != Ok
      ensures behaviour.Reliable() && old(incoming) != [] ==> err == Ok
      ensures calls == old(calls) + 1
      ensures err == Ok <==> !behaviour.fails(calls) && old(incoming) != []
      ensures err == Ok ==>
                n == behaviour.Amount(calls, if max <= |old(incoming)| then max else |old(incoming)|)
      ensures incoming == old(incoming)[n..]
      ensures buf[..off + n] == old(buf[..off]) + old(incoming)[..n]
      ensures buf[off + n..] == old(buf[off + n..])
    {
      calls := calls + 1;
      n := 0;
      if behaviour.fails(calls) || incoming == [] {
        err := Error;
      } else {
        n := behaviour.Amount(calls, if max <= |incoming| then max else |incoming|);
        forall i | 0 <= i < n {
          buf[off + i] := incoming[i];
        }
        incoming := incoming[n..];
        err := Ok;
      }
    }
  }
}

module TlsWriters {
  import opened Bytes
  import opened DataBuffers
  import opened Errors
  import opened TlsPipe
  import opened Utils

  class TlsWriter {
    const tls: Tls
    const data: DataBuffer

    ghost predicate Valid()
      reads this, data
    {
      data.Valid()
    }

    /** Everything accepted so far: what TLS has taken, then what is still buffered. */
    ghost function Accepted(): bytes
      reads this, tls, data, data.buffer
      requires Valid()
    {
      tls.sent + data.Contents()
    }

    ghost predicate Full()
      reads this, data
      requires Valid()
    {
      data.size == data.capacity
    }

    constructor (tls: Tls, buf: array<byte>, capacity: nat)
      requires 0 < capacity <= buf.Length && capacity < TWO_32
      ensures Valid() && !Full() && fresh(data)
      ensures this.tls == tls && data.buffer == buf && data.capacity == capacity
      ensures Accepted() == tls.sent
    {
      this.tls := tls;
      this.data := new DataBuffer(buf, capacity);
    }

    /** flush: repeats partial TLS writes. When a write fails the buffer keeps all its bytes,
        the ones already sent included. */
    method Flush() returns (err: Err)
      requires Valid()
      modifies tls`calls, tls`sent, data`size
      ensures Valid()
      ensures err == Ok ==> tls.sent == old(Accepted()) && data.Contents() == []
      ensures err != Ok ==> err == Error && data.size == old(data.size)
      ensures tls.behaviour.Reliable() ==> err == Ok
      ensures err != Ok ==> exists k :: 0 <= k < data.size &&
                                        tls.sent == old(tls.sent) + data.Contents()[..k]
    {
      var pos, writeSize := 0, data.size;
      err := Ok;
      assert data.Contents()[..0] == [];
      while err == Ok && writeSize > 0
        invariant 0 <= pos <= data.size == old(data.size)
        invariant err == Ok ==> writeSize == data.size - pos
        invariant err == Ok || (err == Error && pos < data.size)
        invariant tls.behaviour.Reliable() ==> err == Ok
        invariant tls.sent == old(tls.sent) + data.Contents()[..pos]
        decreases data.size - pos, if err == Ok then 1 else 0
      {
        ghost var before := tls.sent;
        var written;
        err, written := tls.Write(data.buffer[pos..pos + writeSize]);
        assert data.buffer[pos..pos + writeSize][..written] == data.Contents()[pos..pos + written];
        assert data.Contents()[..pos] + data.Contents()[pos..pos + written]
            == data.Contents()[..pos + written];
        if err == Ok {
          pos := pos + written;
          writeSize := data.size - pos;
        }
      }
      if err == Ok {
        assert data.Contents()[..pos] == data.Contents();
        data.size := 0;
      }
    }

    /** One round of write_data: buffers as much as fits and flushes if that fills the buffer. */
    method Absorb(d: bytes) returns (err: Err, taken: nat)
      requires Valid() && d != []
      modifies tls`calls, tls`sent, data`size, data.buffer
      ensures Valid() && taken <= |d|
      ensures old(Full()) ==> err == InvalidInput && Accepted() == old(Accepted()) &&
                              tls.sent == old(tls.sent)
      ensures !old(Full()) ==> (err == Ok || err == Error) && taken > 0
      ensures !old(Full()) && tls.behaviour.Reliable() ==> err == Ok
      ensures err == Ok ==> Accepted() == old(Accepted()) + d[..taken] && !Full()
      ensures old(tls.sent) <= tls.sent <= old(Accepted()) + d[..taken]
      ensures forall i :: data.capacity <= i < data.buffer.Length ==>
                data.buffer[i] == old(data.buffer[i])
    {
      ghost var before, c0 := tls.sent, data.Contents();
      err := data.AddData(d);
      taken := |d|;
      if err == BufferTooSmall {
        taken := data.BytesFree();
        err := data.AddData(d[..taken]);
      }
      assert d[..|d|] == d;
      if err == Ok {
        assert data.Contents() == c0 + d[..taken];
        assert before + (c0 + d[..taken]) == (before + c0) + d[..taken];
        if data.BytesFree() == 0 {
          err := Flush();
        }
      }
    }

    /** write_data: copies into the buffer, flushing whenever it fills up. Whatever happens,
        TLS never gets a byte that was not handed in, in order. */
    method WriteData(d: bytes) returns (err: Err)
      requires Valid() && |d| < TWO_32
      modifies tls`calls, tls`sent, data`size, data.buffer
      ensures Valid()
      ensures d == [] || old(Full()) ==> err == InvalidInput && Accepted() == old(Accepted())
      ensures d != [] && !old(Full()) ==> err == Ok || err == Error
      ensures d != [] && !old(Full()) && tls.behaviour.Reliable() ==> err == Ok
      ensures err == Ok ==> Accepted() == old(Accepted()) + d && !Full()
      ensures old(tls.sent) <= tls.sent <= old(Accepted()) + d
      ensures forall i :: data.capacity <= i < data.buffer.Length ==>
                data.buffer[i] == old(data.buffer[i])
    {
      err := InvalidInput;
      if |d| > 0 {
        var pos := 0;
        err := Ok;
        ghost var acc := Accepted();
        assert acc + d[..0] == acc;
        while err == Ok && pos < |d|
          invariant Valid() && 0 <= pos <= |d|
          invariant err == Ok ==> Accepted() == acc + d[..pos]
          invariant err == Ok ==> if pos == 0 then Full() == old(Full()) else !old(Full()) && !Full()
          invariant err == InvalidInput ==> old(Full()) && Accepted() == acc
          invariant err != Ok ==> err == InvalidInput || (err == Error && !old(Full()))
          invariant !old(Full()) && tls.behaviour.Reliable() ==> err == Ok
          invariant old(tls.sent) <= tls.sent <= acc + d[..pos]
          invariant forall i :: data.capacity <= i < data.buffer.Length ==>
                      data.buffer[i] == old(data.buffer[i])
          decreases |d| - pos, if err == Ok then 1 else 0
        {
          var taken;
          err, taken := Absorb(d[pos..]);
          Extend(acc, d, pos, taken);
          pos := pos + taken;
        }
        assert d[..|d|] == d;
        assert acc + d[..pos] <= acc + d;
      }
    }

    method WriteChar(c: byte) returns (err: Err)
      requires Valid()
      modifies tls`calls, tls`sent, data`size, data.buffer
      ensures Valid()
      ensures !old(Full()) ==> err == Ok || err == Error
      ensures !old(Full()) && tls.behaviour.Reliable() ==> err == Ok
      ensures err == Ok ==> Accepted() == old(Accepted()) + [c] && !Full()
      ensures old(tls.sent) <= tls.sent <= old(Accepted()) + [c]
    {
      err := WriteData([c]);
    }

    /** write_utoa: prints into a ten-byte scratch buffer first. */
    method WriteUtoa(u: uint32, base: nat) returns (err: Err)
      requires Valid()
      modifies tls`calls, tls`sent, data`size, data.buffer
      ensures Valid()
      ensures base != 10 && base != 16 ==> err == InvalidInput && Accepted() == old(Accepted())
      ensures base == 10 || base == 16 ==>
                (!old(Full()) ==> err == Ok || err == Error) &&
                (!old(Full()) && tls.behaviour.Reliable() ==> err == Ok) &&
                (err == Ok ==> Accepted() == old(Accepted()) + Digits(u, base) && !Full()) &&
                old(tls.sent) <= tls.sent <= old(Accepted()) + Digits(u, base)
    {
      var scratch := new byte[UINT32_MAX_SIZE](_ => 0);
      var local := new DataBuffer(scratch, UINT32_MAX_SIZE);
      err := local.AddUtoa(u, base);
      if err == Ok {
        err := WriteData(local.buffer[..local.size]);
      }
    }
  }

  lemma Extend(acc: bytes, d: bytes, pos: nat, n: nat)
    requires pos + n <= |d|
    ensures acc + d[..pos] + d[pos..][..n] == acc + d[..pos + n]
    ensures acc + d[..pos] <= acc + d[..pos + n]
  {
    assert d[..pos] + d[pos..][..n] == d[..pos + n];
  }
}
