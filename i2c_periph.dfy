// The companion firmware's I2C peripheral: a 32-byte buffer the bus controller reads
// from, and one it writes into, behind the bus callbacks.

module I2CPeriph {

  import opened Errors
  import Panic

  import PyBytes

  type byte = PyBytes.byte

  const BufferSize: nat := 32
  const Uint32: nat := 0x1_0000_0000

  /** The peripheral's static state: whether a bus is attached, the address and speed,
    * how many subaddress bytes to discard, and the two buffers with their counts. */
  datatype PeriphState = PeriphState(attached: bool, addr: byte, speed: nat, subaddrLen: byte,
                       rbuf: seq<byte>, rcount: nat, wbuf: seq<byte>, wcount: nat)

  predicate Valid(v: PeriphState)
  {
    |v.rbuf| == BufferSize && |v.wbuf| == BufferSize && v.rcount <= BufferSize && v.wcount <= BufferSize &&
    v.speed < Uint32
  }

  function Zeros(n: nat): (r: seq<byte>)
    ensures |r| == n && forall i :: 0 <= i < n ==> r[i] == 0
  {
    seq(n, _ => 0)
  }

  function Min(a: nat, b: nat): nat { if a < b then a else b }

  /** The state before `attach`: no bus, address and speed 0, one subaddress byte. */
  function Initial(): (v: PeriphState)
    ensures Valid(v)
  {
    PeriphState(false, 0, 0, 1, Zeros(BufferSize), 0, Zeros(BufferSize), 0)
  }

  /** `setSpeed`: 0 leaves the speed alone. */
  function SpeedStep(v: PeriphState, speed: nat): (r: PeriphState)
    requires speed < Uint32
  {
    if speed != 0 then v.(speed := speed) else v
  }

  /** `attach`, with the panic line it reports: a second attach changes nothing and panics;
    * the first clears both buffers, records the address and sets the speed. */
  function AttachStep(v: PeriphState, addr: byte, speed: nat): (r: (PeriphState, Option<nat>))
    requires Valid(v) && speed < Uint32
    ensures Valid(r.0)
  {
    if v.attached then (v, Some(22))
    else
      (SpeedStep(v.(attached := true, addr := addr, rbuf := Zeros(BufferSize), rcount := 0,
                   wbuf := Zeros(BufferSize), wcount := 0), speed), None)
  }

  /** `getAddress`: 0xff while no bus is attached. */
  function Address(v: PeriphState): byte
  {
    if v.attached then v.addr else 0xff
  }

  /** `getWriteBuffer`: what the controller last wrote, at most `maxLen` bytes of it. */
  function WriteBuffer(v: PeriphState, maxLen: nat): (r: seq<byte>)
    requires Valid(v)
    ensures |r| == Min(v.wcount, maxLen)
  {
    v.wbuf[..Min(v.wcount, maxLen)]
  }

  /** `setReadBuffer`: at most 32 bytes are kept; the rest of the buffer is untouched. */
  function ReadBufferStep(v: PeriphState, buf: seq<byte>, len: nat): (r: PeriphState)
    requires Valid(v) && Min(len, BufferSize) <= |buf|
    ensures Valid(r)
  {
    var n := Min(len, BufferSize);
    v.(rbuf := buf[..n] + v.rbuf[n..], rcount := n)
  }

  /** `_handle_read`: the bytes sent to the controller. */
  function ReadReply(v: PeriphState): seq<byte>
    requires Valid(v)
  {
    v.rbuf[..v.rcount]
  }

  /** `Wire.read()` on the k-th byte of a transfer: -1, truncated to 0xff, past its end. */
  function BusByte(bus: seq<byte>, k: int): byte
  {
    if 0 <= k < |bus| then bus[k] else 0xff
  }

  /** The n bytes stored after the skipped subaddress bytes. */
  function Incoming(bus: seq<byte>, skip: nat, n: nat): (r: seq<byte>)
    ensures |r| == n && forall i :: 0 <= i < n ==> r[i] == BusByte(bus, skip + i)
  {
    seq<byte>(n, i => BusByte(bus, skip + i))
  }

  /** `_handle_write(count)` as written, for a transfer of `bus` bytes, with the panic
    * line it reports: a negative count changes nothing; an oversized one is clamped to
    * 32; the subaddress bytes are dropped and then `count` bytes are stored, although
    * `count` already includes the subaddress bytes. */
  function WriteStepAsWritten(v: PeriphState, count: int, bus: seq<byte>): (r: (PeriphState, Option<nat>))
    requires Valid(v)
    ensures Valid(r.0)
  {
    if count < 0 then (v, Some(132))
    else
      var n := Min(count, BufferSize);
      (v.(wbuf := Incoming(bus, v.subaddrLen, n) + v.wbuf[n..], wcount := n),
       if count > BufferSize then Some(146) else None)
  }

  /** `_handle_write(count)` storing only the bytes that follow the subaddress: of the
    * `count` bytes received (clamped to 32), the first `subaddrLen` are dropped. */
  function WriteStep(v: PeriphState, count: int, bus: seq<byte>): (r: (PeriphState, Option<nat>))
    requires Valid(v)
    ensures Valid(r.0)
  {
    if count < 0 then (v, Some(132))
    else
      var n := Min(count, BufferSize);
      var m := if n > v.subaddrLen then n - v.subaddrLen else 0;
      (v.(wbuf := Incoming(bus, v.subaddrLen, m) + v.wbuf[m..], wcount := m),
       if count > BufferSize then Some(146) else None)
  }

  /** `n` bytes that `Wire.read()` gives once a transfer is exhausted. */
  function Exhausted(n: nat): (r: seq<byte>)
    ensures |r| == n && forall i :: 0 <= i < n ==> r[i] == 0xff
  {
    seq(n, _ => 0xff)
  }

  /** A second `attach` reports a panic and leaves everything as it was. */
  lemma AttachTwice(v: PeriphState, addr: byte, speed: nat, addr2: byte, speed2: nat)
    requires Valid(v) && speed < Uint32 && speed2 < Uint32
    ensures AttachStep(AttachStep(v, addr, speed).0, addr2, speed2) == (AttachStep(v, addr, speed).0, Some(22))
  {
  }

  /** The first `attach` clears both buffers and makes the address visible. */
  lemma AttachFresh(v: PeriphState, addr: byte, speed: nat)
    requires Valid(v) && speed < Uint32 && !v.attached
    ensures AttachStep(v, addr, speed).1.None?
    ensures Address(AttachStep(v, addr, speed).0) == addr
    ensures ReadReply(AttachStep(v, addr, speed).0) == [] && WriteBuffer(AttachStep(v, addr, speed).0, BufferSize) == []
    ensures AttachStep(v, addr, speed).0.speed == (if speed == 0 then v.speed else speed)
  {
  }

  /** What the host puts in the read buffer is what the controller then reads, cut to 32
    * bytes. */
  lemma ReadBufferRoundTrip(v: PeriphState, buf: seq<byte>, len: nat)
    requires Valid(v) && Min(len, BufferSize) <= |buf|
    ensures ReadReply(ReadBufferStep(v, buf, len)) == buf[..Min(len, BufferSize)]
  {
    var n := Min(len, BufferSize);
    assert (buf[..n] + v.rbuf[n..])[..n] == buf[..n];
  }

  /** What the controller writes after the subaddress bytes is what the host then gets
    * back, cut to 32 bytes and to the host's buffer; `onReceive` counts every byte of the
    * transfer, so the bus holds at least `count` bytes. */
  lemma WriteBufferRoundTrip(v: PeriphState, count: nat, bus: seq<byte>, maxLen: nat)
    requires Valid(v) && count <= |bus|
    ensures var n := Min(count, BufferSize); var s := Min(v.subaddrLen, n);
      WriteBuffer(WriteStep(v, count, bus).0, maxLen) == bus[s..s + Min(n - s, maxLen)]
    ensures WriteStep(v, count, bus).1.Some? <==> count > BufferSize
  {
    var n := Min(count, BufferSize);
    var m := if n > v.subaddrLen then n - v.subaddrLen else 0;
    var w := WriteStep(v, count, bus).0;
    assert w.wbuf[..Min(m, maxLen)] == Incoming(bus, v.subaddrLen, m)[..Min(m, maxLen)];
  }

  /** As written, a transfer of `count` bytes, subaddress included, leaves the bytes after
    * the subaddress followed by one exhausted read (0xff) per subaddress byte, and reports
    * `count` bytes written. */
  lemma WriteTailAsWritten(v: PeriphState, count: nat, bus: seq<byte>)
    requires Valid(v) && |bus| == count && v.subaddrLen <= count <= BufferSize
    ensures WriteStepAsWritten(v, count, bus).0.wcount == count
    ensures WriteBuffer(WriteStepAsWritten(v, count, bus).0, BufferSize) ==
      bus[v.subaddrLen..] + Exhausted(v.subaddrLen as nat)
  {
    var w := WriteStepAsWritten(v, count, bus).0;
    assert w.wbuf[..count] == Incoming(bus, v.subaddrLen, count);
  }

  /** With the default single subaddress byte, a two-byte transfer `00 41` leaves `41 ff`
    * as written, where the corrected step leaves `41`. */
  lemma ExtraByteAsWritten()
    ensures var v := Initial().(attached := true);
      WriteBuffer(WriteStepAsWritten(v, 2, [0x00, 0x41]).0, BufferSize) == [0x41, 0xff] &&
      WriteBuffer(WriteStep(v, 2, [0x00, 0x41]).0, BufferSize) == [0x41]
  {
    var v := Initial().(attached := true);
    WriteTailAsWritten(v, 2, [0x00, 0x41]);
    WriteBufferRoundTrip(v, 2, [0x00, 0x41], BufferSize);
    assert [0x00, 0x41][1..] == [0x41 as byte];
  }

  /** A negative count is reported and ignored. */
  lemma NegativeCount(v: PeriphState, count: int, bus: seq<byte>)
    requires Valid(v) && count < 0
    ensures WriteStep(v, count, bus) == (v, Some(132))
  {
  }

  /** The firmware's single peripheral (`I2CPeriph`'s static members). */
  class I2CPeriph {
    var attached: bool
    var addr: byte
    var speed: nat
    var subaddrLen: byte
    var rcount: nat
    var wcount: nat
    const rbuf: array<byte>
    const wbuf: array<byte>
    const panic: Panic.Panic

    function State(): PeriphState
      reads this, rbuf, wbuf
    {
      PeriphState(attached, addr, speed, subaddrLen, rbuf[..], rcount, wbuf[..], wcount)
    }

    ghost predicate Inv()
      reads this, rbuf, wbuf
    {
      rbuf != wbuf && Valid(State())
    }

    constructor(panic: Panic.Panic)
      ensures Inv() && State() == Initial() && this.panic == panic
      ensures fresh(rbuf) && fresh(wbuf)
    {
      attached, addr, speed, subaddrLen, rcount, wcount := false, 0, 0, 1, 0, 0;
      rbuf := new byte[BufferSize](_ => 0);
      wbuf := new byte[BufferSize](_ => 0);
      this.panic := panic;
      new;
      assert rbuf[..] == Zeros(BufferSize) && wbuf[..] == Zeros(BufferSize);
    }

    /** `attach(bus, addr, speed)`. */
    method Attach(addr: byte, speed: nat)
      requires Inv() && speed < Uint32
      modifies this, rbuf, wbuf, panic
      ensures Inv() && State() == AttachStep(old(State()), addr, speed).0
      ensures AttachStep(old(State()), addr, speed).1.Some? ==>
        panic.reason == Panic.After(old(panic.reason), Panic.SourceCode(Panic.I2CPeriph), 22)
      ensures AttachStep(old(State()), addr, speed).1.None? ==> panic.reason == old(panic.reason)
    {
      if attached {
        panic.SetReason(Panic.I2CPeriph, 22);
        return;
      }
      attached := true;
      this.addr := addr;
      Fill(rbuf);
      rcount := 0;
      Fill(wbuf);
      wcount := 0;
      SetSpeed(speed);
    }

    /** `memset(buf, 0, 32)`. */
    static method Fill(a: array<byte>)
      modifies a
      ensures a[..] == Zeros(a.Length)
    {
      var i := 0;
      while i < a.Length
        invariant 0 <= i <= a.Length
        invariant forall k :: 0 <= k < i ==> a[k] == 0
      {
        a[i] := 0;
        i := i + 1;
      }
    }

    /** `setSpeed`: the clock is only reprogrammed for a nonzero speed (which needs a bus). */
    method SetSpeed(speed: nat)
      requires Inv() && speed < Uint32 && (speed != 0 ==> attached)
      modifies this
      ensures Inv() && State() == SpeedStep(old(State()), speed)
    {
      if speed != 0 {
        this.speed := speed;
      }
    }

    /** `setAddress`: re-registers the bus callbacks under `addr`; this does not change the
      * recorded address, so `getAddress` keeps reporting the one given to `attach`. */
    method SetAddress(addr: byte)
      requires Inv()
      ensures State() == old(State())
    {
    }

    method SetSubAddressLength(len: byte)
      requires Inv()
      modifies this
      ensures Inv() && State() == old(State()).(subaddrLen := len)
    {
      subaddrLen := len;
    }

    /** `getWriteBuffer(buf, maxLen)`: the bytes copied and their count. */
    method GetWriteBuffer(maxLen: nat) returns (buf: seq<byte>, n: nat)
      requires Inv()
      ensures n == Min(wcount, maxLen) && buf == WriteBuffer(State(), maxLen)
    {
      n := if wcount > maxLen then maxLen else wcount;
      buf := wbuf[..n];
    }

    /** `setReadBuffer(buf, len)`: a `memcpy` of at most 32 bytes. */
    method SetReadBuffer(buf: seq<byte>, len: nat)
      requires Inv() && Min(len, BufferSize) <= |buf|
      modifies this, rbuf
      ensures Inv() && State() == ReadBufferStep(old(State()), buf, len)
    {
      var n := if len > BufferSize then BufferSize else len;
      var i := 0;
      while i < n
        modifies rbuf
        invariant 0 <= i <= n
        invariant forall k :: 0 <= k < i ==> rbuf[k] == buf[k]
        invariant forall k :: i <= k < BufferSize ==> rbuf[k] == old(rbuf[k])
      {
        rbuf[i] := buf[i];
        i := i + 1;
      }
      rcount := n;
      assert rbuf[..] == buf[..n] + old(rbuf[..])[n..];
    }

    /** `_handle_write(count)`: the controller's transfer `bus`, read byte by byte, storing the
      * bytes that follow the subaddress. */
    method HandleWrite(count: int, bus: seq<byte>)
      requires Inv()
      modifies this, wbuf, panic
      ensures Inv() && State() == WriteStep(old(State()), count, bus).0
      ensures WriteStep(old(State()), count, bus).1.Some? ==>
        panic.reason == Panic.After(old(panic.reason), Panic.SourceCode(Panic.I2CPeriph),
                                    WriteStep(old(State()), count, bus).1.value)
      ensures WriteStep(old(State()), count, bus).1.None? ==> panic.reason == old(panic.reason)
    {
      var n := count;
      if n < 0 {
        panic.SetReason(Panic.I2CPeriph, 132);
        return;
      } else if n > BufferSize {
        panic.SetReason(Panic.I2CPeriph, 146);
        n := BufferSize;
      }
      // the subaddress bytes are read and dropped; the bytes after them are stored
      var k: nat := subaddrLen;
      wcount := if n > k then n - k else 0;
      var i := 0;
      while i < wcount
        modifies wbuf
        invariant 0 <= i <= wcount <= n <= BufferSize
        invariant forall j :: 0 <= j < i ==> wbuf[j] == BusByte(bus, k + j)
        invariant forall j :: i <= j < BufferSize ==> wbuf[j] == old(wbuf[j])
      {
        wbuf[i] := BusByte(bus, k + i);
        i := i + 1;
      }
      assert wbuf[..] == Incoming(bus, subaddrLen, wcount) + old(wbuf[..])[wcount..];
    }

    /** `_handle_read`: the bytes written back to the controller. */
    method HandleRead() returns (sent: seq<byte>)
      requires Inv()
      ensures sent == ReadReply(State())
    {
      sent := rbuf[..rcount];
    }
  }
}
