// The companion firmware's top level: each request from the host is answered by exactly
// one reply, computed by the command dispatch of `handleHostMessage`.

module Companion {

  import opened Errors
  import PyBytes
  import Panic
  import Communicator
  import I2CPeriph

  type byte = PyBytes.byte
  type Msg = Communicator.Msg
  type PeriphState = I2CPeriph.PeriphState

  // Commands
  const FwGetVersion: byte := 0x00
  const FwGetCapabilities: byte := 0x01
  const I2CGetAddr: byte := 0x08
  const I2CSetAddr: byte := 0x09
  const I2CGetSpeed: byte := 0x0a
  const I2CSetSpeed: byte := 0x0b
  const I2CGetSubaddrLen: byte := 0x0c
  const I2CSetSubaddrLen: byte := 0x0d
  const I2CGetModeFlags: byte := 0x0e
  const I2CSetModeFlags: byte := 0x0f
  const I2CSetReadBuffer: byte := 0x10
  const I2CGetWriteBuffer: byte := 0x11

  // Status codes
  const Success: byte := 0x00
  const Unimplemented: byte := 0xfb
  const InvalidParam: byte := 0xfd
  const NotSupported: byte := 0xfe
  const InvalidCmd: byte := 0xff

  const CapI2CPeriph: nat := 1

  /** The commands that talk to the I2C peripheral and need it attached. */
  predicate UsesI2C(cmd: byte)
  {
    cmd in {I2CGetAddr, I2CSetAddr, I2CGetSpeed, I2CSetSpeed, I2CGetSubaddrLen, I2CSetSubaddrLen,
            I2CSetReadBuffer, I2CGetWriteBuffer}
  }

  predicate Known(cmd: byte)
  {
    cmd in {FwGetVersion, FwGetCapabilities, I2CGetModeFlags, I2CSetModeFlags} || UsesI2C(cmd)
  }

  /** A one-byte status reply. */
  function Status(m: Msg, b: byte): (r: Msg)
    requires Communicator.WellFormed(m)
    ensures Communicator.WellFormed(r) && r.cmd == m.cmd && r.len == 1 && r.data[0] == b
  {
    m.(len := 1, data := [b] + m.data[1..])
  }

  /** A reply of `b` in the first |b| data bytes; the rest of the buffer is left as it was. */
  function Fill(m: Msg, b: seq<byte>): (r: Msg)
    requires Communicator.WellFormed(m) && |b| <= Communicator.MaxDataSize
    ensures Communicator.WellFormed(r) && r.cmd == m.cmd && r.len == |b| && r.data[..|b|] == b
  {
    m.(len := |b|, data := b + m.data[|b|..])
  }

  /** The reply to a message and the peripheral after it: `handleHostMessage`'s switch
    * (Companion.cpp, lines 56-187). */
  function Dispatch(m: Msg, caps: nat, version: seq<byte>, v: PeriphState): (r: (Msg, PeriphState))
    requires Communicator.WellFormed(m) && I2CPeriph.Valid(v) && |version| == 4
    ensures Communicator.WellFormed(r.0) && r.0.cmd == m.cmd && I2CPeriph.Valid(r.1)
  {
    var c := m.cmd;
    if c == FwGetVersion then (Fill(m, version), v)
    else if c == FwGetCapabilities then (Fill(m, PyBytes.ToLE(caps, 4)), v)
    else if c == I2CGetAddr then
      (Status(m, if v.attached then I2CPeriph.Address(v) else NotSupported), v)
    else if c == I2CSetAddr then
      // setAddress re-registers the bus address; the recorded one does not change
      (Status(m, if m.len != 1 || m.data[0] > 0x7f then InvalidParam
                 else if v.attached then Success else NotSupported), v)
    else if c == I2CGetSpeed then
      if v.attached then (Fill(m, PyBytes.ToLE(v.speed, 4)), v) else (Status(m, NotSupported), v)
    else if c == I2CSetSpeed then
      if m.len != 4 || m.data[0] == 0 then (Status(m, InvalidParam), v)
      else if v.attached then
        PyBytes.FromLEBound(m.data[..4]);
        (Status(m, Success), I2CPeriph.SpeedStep(v, PyBytes.FromLE(m.data[..4])))
      else (Status(m, NotSupported), v)
    else if c == I2CGetSubaddrLen then
      (Status(m, if v.attached then v.subaddrLen else NotSupported), v)
    else if c == I2CSetSubaddrLen then
      if v.attached then (Status(m, Success), v.(subaddrLen := m.data[0])) else (Status(m, NotSupported), v)
    else if c == I2CGetModeFlags || c == I2CSetModeFlags then (Status(m, Unimplemented), v)
    else if c == I2CSetReadBuffer then
      if m.len < 1 then (Status(m, InvalidParam), v)
      else if v.attached then (Status(m, Success), I2CPeriph.ReadBufferStep(v, m.data, m.len))
      else (Status(m, NotSupported), v)
    else if c == I2CGetWriteBuffer then
      if v.attached then (Fill(m, I2CPeriph.WriteBuffer(v, Communicator.MaxDataSize)), v)
      else (Status(m, NotSupported), v)
    else (Status(m, InvalidCmd), v)
  }

  /** Every reply fits the data buffer, so `sendResponse` never has to clamp it. */
  lemma ReplyFits(m: Msg, caps: nat, version: seq<byte>, v: PeriphState)
    requires Communicator.WellFormed(m) && I2CPeriph.Valid(v) && |version| == 4
    ensures Dispatch(m, caps, version, v).0.len <= I2CPeriph.BufferSize
    ensures Communicator.Wire(Dispatch(m, caps, version, v).0) ==
      [m.cmd, Dispatch(m, caps, version, v).0.len] + Dispatch(m, caps, version, v).0.data[..Dispatch(m, caps, version, v).0.len]
  {
  }

  /** GET_VERSION replies with the four version bytes. */
  lemma GetVersion(m: Msg, caps: nat, version: seq<byte>, v: PeriphState)
    requires Communicator.WellFormed(m) && I2CPeriph.Valid(v) && |version| == 4 && m.cmd == FwGetVersion
    ensures Dispatch(m, caps, version, v).0.len == 4 && Dispatch(m, caps, version, v).0.data[..4] == version
    ensures Dispatch(m, caps, version, v).1 == v
  {
  }

  /** An I2C command without an attached peripheral replies NOT_SUPPORTED (after the
    * parameter checks of SET_ADDR, SET_SPEED and SET_READ_BUFFER) and changes nothing. */
  lemma Unattached(m: Msg, caps: nat, version: seq<byte>, v: PeriphState)
    requires Communicator.WellFormed(m) && I2CPeriph.Valid(v) && |version| == 4
    requires UsesI2C(m.cmd) && !v.attached
    ensures Dispatch(m, caps, version, v).1 == v
    ensures Dispatch(m, caps, version, v).0.len == 1
    ensures Dispatch(m, caps, version, v).0.data[0] in {NotSupported, InvalidParam}
    ensures Dispatch(m, caps, version, v).0.data[0] == InvalidParam <==>
      (m.cmd == I2CSetAddr && (m.len != 1 || m.data[0] > 0x7f)) ||
      (m.cmd == I2CSetSpeed && (m.len != 4 || m.data[0] == 0)) ||
      (m.cmd == I2CSetReadBuffer && m.len < 1)
  {
  }

  /** SET_ADDR checks its one parameter byte before anything else. */
  lemma SetAddrInvalid(m: Msg, caps: nat, version: seq<byte>, v: PeriphState)
    requires Communicator.WellFormed(m) && I2CPeriph.Valid(v) && |version| == 4
    requires m.cmd == I2CSetAddr && (m.len != 1 || m.data[0] > 0x7f)
    ensures Dispatch(m, caps, version, v) == (Status(m, InvalidParam), v)
  {
  }

  /** An unknown command is answered with INVALID_CMD; the mode-flag commands with
    * UNIMPLEMENTED. */
  lemma UnknownCommand(m: Msg, caps: nat, version: seq<byte>, v: PeriphState)
    requires Communicator.WellFormed(m) && I2CPeriph.Valid(v) && |version| == 4
    ensures !Known(m.cmd) ==> Dispatch(m, caps, version, v) == (Status(m, InvalidCmd), v)
    ensures m.cmd in {I2CGetModeFlags, I2CSetModeFlags} ==> Dispatch(m, caps, version, v) == (Status(m, Unimplemented), v)
  {
  }

  /** SET_SPEED takes a little-endian 32-bit speed, and GET_SPEED then gives back the same
    * four bytes. */
  lemma SpeedRoundTrip(m: Msg, get: Msg, caps: nat, version: seq<byte>, v: PeriphState)
    requires Communicator.WellFormed(m) && Communicator.WellFormed(get) && I2CPeriph.Valid(v) && |version| == 4
    requires m.cmd == I2CSetSpeed && m.len == 4 && m.data[0] != 0 && v.attached
    requires get.cmd == I2CGetSpeed
    ensures Dispatch(m, caps, version, v).0.data[0] == Success
    ensures Dispatch(m, caps, version, v).1.speed == PyBytes.FromLE(m.data[..4])
    ensures Dispatch(get, caps, version, Dispatch(m, caps, version, v).1).0.len == 4
    ensures Dispatch(get, caps, version, Dispatch(m, caps, version, v).1).0.data[..4] == m.data[..4]
  {
    var w := Dispatch(m, caps, version, v).1;
    PyBytes.FromLEBound(m.data[..4]);
    assert m.data[0] == m.data[..4][0];
    assert PyBytes.FromLE(m.data[..4]) != 0;
    PyBytes.ToFromLE(m.data[..4]);
  }

  /** SET_READ_BUFFER's data is what the bus controller then reads, up to 32 bytes. */
  lemma ReadBufferFromHost(m: Msg, caps: nat, version: seq<byte>, v: PeriphState)
    requires Communicator.WellFormed(m) && I2CPeriph.Valid(v) && |version| == 4
    requires m.cmd == I2CSetReadBuffer && m.len >= 1 && v.attached
    ensures Dispatch(m, caps, version, v).0.data[0] == Success
    ensures I2CPeriph.ReadReply(Dispatch(m, caps, version, v).1) == m.data[..I2CPeriph.Min(m.len, I2CPeriph.BufferSize)]
  {
    I2CPeriph.ReadBufferRoundTrip(v, m.data, m.len);
  }

  /** GET_WRITE_BUFFER replies with what the bus controller last wrote. */
  lemma WriteBufferToHost(m: Msg, caps: nat, version: seq<byte>, v: PeriphState)
    requires Communicator.WellFormed(m) && I2CPeriph.Valid(v) && |version| == 4
    requires m.cmd == I2CGetWriteBuffer && v.attached
    ensures Dispatch(m, caps, version, v).0.len == v.wcount
    ensures Dispatch(m, caps, version, v).0.data[..v.wcount] == v.wbuf[..v.wcount]
  {
  }

  /** `m_caps |= CAP_I2C_PERIPH`. */
  function WithI2C(caps: nat): (r: nat)
    ensures r % 2 == 1 && r - r % 2 == caps - caps % 2
  {
    if caps % 2 == 1 then caps else caps + 1
  }

  /** The companion device: host interface, I2C peripheral, the panic latch and the
    * capability bits. */
  class Companion {
    var caps: nat
    var msg: Msg  // the request buffer `processEvents` keeps between calls
    const version: seq<byte>
    const comm: Communicator.Communicator
    const i2c: I2CPeriph.I2CPeriph
    const panic: Panic.Panic

    ghost predicate Valid()
      reads this, comm, i2c, i2c.rbuf, i2c.wbuf
    {
      |version| == 4 && Communicator.WellFormed(msg) && Communicator.Valid(comm.comm) && i2c.Inv() &&
      comm.panic == panic && i2c.panic == panic
    }

    constructor(version: seq<byte>)
      requires |version| == 4
      ensures Valid() && caps == 0 && fresh(comm) && fresh(i2c) && fresh(panic)
      ensures fresh(i2c.rbuf) && fresh(i2c.wbuf) && !panic.Active()
      ensures comm.comm.state == Communicator.Uninitialized && i2c.State() == I2CPeriph.Initial()
    {
      var p := new Panic.Panic();
      this.version := version;
      panic := p;
      comm := new Communicator.Communicator(p);
      i2c := new I2CPeriph.I2CPeriph(p);
      caps := 0;
      msg := Communicator.Msg(0, 0, seq(Communicator.MaxDataSize, _ => 0));
    }

    /** `attachHostInterface`. */
    method AttachHostInterface()
      requires Valid()
      modifies comm
      ensures Valid()
      ensures old(comm.comm.state) == Communicator.Uninitialized ==> comm.comm.state == Communicator.Idle
      ensures old(comm.comm.state) != Communicator.Uninitialized ==> comm.comm == old(comm.comm)
    {
      comm.Attach();
    }

    /** `attachI2C`: attach the peripheral and advertise the capability. */
    method AttachI2C(addr: byte, speed: nat)
      requires Valid() && speed < I2CPeriph.Uint32
      modifies this, i2c, i2c.rbuf, i2c.wbuf, panic
      ensures Valid() && caps == WithI2C(old(caps))
      ensures i2c.State() == I2CPeriph.AttachStep(old(i2c.State()), addr, speed).0
    {
      i2c.Attach(addr, speed);
      if caps % 2 == 0 {
        caps := caps + CapI2CPeriph;
      }
    }

    /** `handleHostMessage`: answer a request and send the reply. */
    method HandleHostMessage(m: Msg) returns (reply: Msg, wire: seq<byte>)
      requires Valid() && Communicator.WellFormed(m)
      modifies i2c, i2c.rbuf, i2c.wbuf
      ensures Valid()
      ensures (reply, i2c.State()) == Dispatch(m, caps, version, old(i2c.State()))
      ensures wire == Communicator.Wire(reply)
    {
      var c := m.cmd;
      if c in {I2CGetAddr, I2CGetSpeed, I2CGetSubaddrLen, I2CGetWriteBuffer} {
        reply := HandleI2CQuery(m);
      } else if c in {I2CSetAddr, I2CSetSpeed, I2CSetSubaddrLen, I2CSetReadBuffer} {
        reply := HandleI2CUpdate(m);
      } else if c == FwGetVersion {
        reply := Fill(m, version);
      } else if c == FwGetCapabilities {
        reply := Fill(m, PyBytes.ToLE(caps, 4));
      } else if c == I2CGetModeFlags || c == I2CSetModeFlags {
        reply := Status(m, Unimplemented);
      } else {
        reply := Status(m, InvalidCmd);
      }
      reply, wire := comm.SendResponse(reply);
    }

    /** The I2C commands that only report the peripheral's settings or buffers. */
    method HandleI2CQuery(m: Msg) returns (reply: Msg)
      requires Valid() && Communicator.WellFormed(m)
      requires m.cmd in {I2CGetAddr, I2CGetSpeed, I2CGetSubaddrLen, I2CGetWriteBuffer}
      ensures (reply, i2c.State()) == Dispatch(m, caps, version, i2c.State())
    {
      var c := m.cmd;
      if c == I2CGetAddr {
        reply := Status(m, if i2c.attached then i2c.addr else NotSupported);
      } else if c == I2CGetSpeed {
        if i2c.attached {
          reply := Fill(m, PyBytes.ToLE(i2c.speed, 4));
        } else {
          reply := Status(m, NotSupported);
        }
      } else if c == I2CGetSubaddrLen {
        reply := Status(m, if i2c.attached then i2c.subaddrLen else NotSupported);
      } else {
        if i2c.attached {
          var buf, n := i2c.GetWriteBuffer(Communicator.MaxDataSize);
          reply := Fill(m, buf);
        } else {
          reply := Status(m, NotSupported);
        }
      }
    }

    /** The I2C commands that change the peripheral's settings or read buffer. */
    method HandleI2CUpdate(m: Msg) returns (reply: Msg)
      requires Valid() && Communicator.WellFormed(m)
      requires m.cmd in {I2CSetAddr, I2CSetSpeed, I2CSetSubaddrLen, I2CSetReadBuffer}
      modifies i2c, i2c.rbuf, i2c.wbuf
      ensures Valid()
      ensures (reply, i2c.State()) == Dispatch(m, caps, version, old(i2c.State()))
    {
      var c := m.cmd;
      if c == I2CSetAddr {
        if m.len != 1 || m.data[0] > 0x7f {
          reply := Status(m, InvalidParam);
        } else if i2c.attached {
          i2c.SetAddress(m.data[0]);
          reply := Status(m, Success);
        } else {
          reply := Status(m, NotSupported);
        }
      } else if c == I2CSetSpeed {
        if m.len != 4 || m.data[0] == 0 {
          reply := Status(m, InvalidParam);
        } else if i2c.attached {
          var speed: nat := (m.data[0] as int) + 256 * ((m.data[1] as int) + 256 * ((m.data[2] as int) + 256 * (m.data[3] as int)));
          assert speed == PyBytes.FromLE(m.data[..4]) by {
            LE4(m.data[..4]);
          }
          PyBytes.FromLEBound(m.data[..4]);
          i2c.SetSpeed(speed);
          reply := Status(m, Success);
        } else {
          reply := Status(m, NotSupported);
        }
      } else if c == I2CSetSubaddrLen {
        if i2c.attached {
          i2c.SetSubAddressLength(m.data[0]);
          reply := Status(m, Success);
        } else {
          reply := Status(m, NotSupported);
        }
      } else {
        if m.len < 1 {
          reply := Status(m, InvalidParam);
        } else if i2c.attached {
          i2c.SetReadBuffer(m.data, m.len);
          reply := Status(m, Success);
        } else {
          reply := Status(m, NotSupported);
        }
      }
    }

    /** `processEvents` (without the LED): a latched panic halts the device in the panic
      * loop; otherwise the host interface is polled once, and a complete request gets
      * exactly one reply. */
    method ProcessEvents(p: Communicator.Port) returns (halted: bool, wire: Option<seq<byte>>)
      requires Valid()
      modifies this, comm, i2c, i2c.rbuf, i2c.wbuf, panic
      ensures Valid()
      ensures halted <==> old(panic.Active())
      ensures halted ==> wire.None? && comm.comm == old(comm.comm)
      ensures !halted ==> comm.comm == Communicator.Step(old(comm.comm), p, old(msg)).comm
      ensures !halted ==> (wire.Some? <==> Communicator.Step(old(comm.comm), p, old(msg)).ready)
      ensures wire.Some? ==> wire.value == Communicator.Wire(
        Dispatch(Communicator.Step(old(comm.comm), p, old(msg)).out, caps, version, old(i2c.State())).0)
    {
      if panic.Active() {
        return true, None;
      }
      halted := false;
      var ready, m := comm.HasRequest(p, msg);
      msg := m;
      if ready {
        var reply, w := HandleHostMessage(m);
        msg := reply;
        wire := Some(w);
      } else {
        wire := None;
      }
    }
  }

  lemma LE4(b: seq<byte>)
    requires |b| == 4
    ensures PyBytes.FromLE(b) == (b[0] as int) + 256 * ((b[1] as int) + 256 * ((b[2] as int) + 256 * (b[3] as int)))
  {
    assert b[3..][1..] == [] && b[2..][1..] == b[3..] && b[1..][1..] == b[2..];
    assert PyBytes.FromLE(b[3..][1..]) == 0;
    var x3 := PyBytes.FromLE(b[3..]);
    assert x3 == b[3..][0] as int + 256 * PyBytes.FromLE(b[3..][1..]);
    var x2 := PyBytes.FromLE(b[2..]);
    assert x2 == b[2] as int + 256 * x3;
    var x1 := PyBytes.FromLE(b[1..]);
    assert x1 == b[1] as int + 256 * x2;
  }
}
