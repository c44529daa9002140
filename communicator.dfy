// The companion firmware's host interface: a state machine, advanced once per call of
// `hasRequest`, that assembles a request (command, length, up to 64 data bytes) from the
// serial port.

module Communicator {

  import opened Errors
  import Panic

  import PyBytes

  type byte = PyBytes.byte

  const MaxDataSize: nat := 64
  const HeaderSize: nat := 2

  /** The packed `msg` struct: command, length and a 64-byte data buffer. */
  datatype Msg = Msg(cmd: byte, len: byte, data: seq<byte>)

  predicate WellFormed(m: Msg)
  {
    |m.data| == MaxDataSize
  }

  datatype State = Uninitialized | Idle | ReadRequestHeader | ReadRequestData | ReturnRequest | Panicked

  /** What one call sees of the serial port: `available()`, and the bytes `readBytes`
    * delivers before its timeout (it returns fewer than asked when these run out). */
  datatype Port = Port(avail: nat, rx: seq<byte>)

  /** `readBytes(n)`: at most n bytes, fewer on a timeout. */
  function ReadBytes(p: Port, n: nat): (r: seq<byte>)
    ensures |r| <= n && (|r| == n <==> |p.rx| >= n)
  {
    if |p.rx| <= n then p.rx else p.rx[..n]
  }

  /** The state `hasRequest` works on: `m_state`, the request being assembled and
    * `m_data_rcvd`. */
  datatype Comm = Comm(state: State, req: Msg, rcvd: nat)

  /** What assembling keeps: the buffer holds 64 bytes, a request being read or returned
    * has a length the buffer holds, and no more than that length has been received. */
  predicate Valid(c: Comm)
  {
    WellFormed(c.req) &&
    (c.state in {ReadRequestData, ReturnRequest} ==> c.req.len <= MaxDataSize) &&
    (c.state == ReadRequestData ==> c.rcvd < c.req.len)
  }

  /** The outcome of one call: the new state, whether a request is returned, the caller's
    * message, and the line of a panic report, if one is made. */
  datatype Outcome = Outcome(comm: Comm, ready: bool, out: Msg, panicLine: Option<nat>)

  /** `readBytes` into `m.data[at..]`: the bytes read overwrite that part of the buffer. */
  function Store(data: seq<byte>, at: nat, got: seq<byte>): (r: seq<byte>)
    requires at + |got| <= |data|
    ensures |r| == |data|
    ensures r[..at] == data[..at] && r[at..at + |got|] == got && r[at + |got|..] == data[at + |got|..]
  {
    data[..at] + got + data[at + |got|..]
  }

  /** The request handed to the caller: header and data copied, the rest zero-filled. */
  function Returned(req: Msg): (r: Msg)
    requires WellFormed(req) && req.len <= MaxDataSize
    ensures WellFormed(r) && r.cmd == req.cmd && r.len == req.len
    ensures r.data[..req.len] == req.data[..req.len]
    ensures forall i :: req.len <= i < MaxDataSize ==> r.data[i] == 0
  {
    Msg(req.cmd, req.len, req.data[..req.len] + seq(MaxDataSize - req.len, _ => 0))
  }

  /** One call of `hasRequest` (Communicator.cpp, lines 24-98). */
  function Step(c: Comm, p: Port, out: Msg): (r: Outcome)
    requires Valid(c)
    ensures Valid(r.comm)
  {
    match c.state
    case Idle =>
      Outcome(Comm(if p.avail >= HeaderSize then ReadRequestHeader else Idle, c.req, 0), false, out, None)
    case ReadRequestHeader =>
      var got := ReadBytes(p, HeaderSize);
      if |got| != HeaderSize then
        var req := if |got| == 1 then c.req.(cmd := got[0]) else c.req;
        Outcome(Comm(Panicked, req, c.rcvd), false, out, Some(39))
      else
        var req := c.req.(cmd := got[0], len := got[1]);
        if req.len == 0 then Outcome(Comm(ReturnRequest, req, c.rcvd), false, out, None)
        else if req.len <= MaxDataSize then Outcome(Comm(ReadRequestData, req, 0), false, out, None)
        else Outcome(Comm(Panicked, req, c.rcvd), false, out, Some(50))
    case ReadRequestData =>
      if p.avail > 0 then
        var left := c.req.len - c.rcvd;
        var toRead := if p.avail < left then p.avail else left;
        var got := ReadBytes(p, toRead);
        var req := c.req.(data := Store(c.req.data, c.rcvd, got));
        if |got| != toRead then Outcome(Comm(Panicked, req, c.rcvd), false, out, Some(66))
        else
          var rcvd := c.rcvd + toRead;
          Outcome(Comm(if rcvd >= c.req.len then ReturnRequest else ReadRequestData, req, rcvd), false, out, None)
      else Outcome(c, false, out, None)
    case ReturnRequest =>
      Outcome(Comm(Idle, c.req, c.rcvd), true, Returned(c.req), None)
    case Panicked =>
      Outcome(c, false, out, None)
    case Uninitialized =>
      // m_hostPort is still NULL: the switch's default branch panics
      Outcome(Comm(Panicked, c.req, c.rcvd), false, out, Some(92))
  }

  /** A returned request is the assembled header and data with a zero tail, and the
    * machine goes back to waiting; nothing else returns a request. */
  lemma StepReturns(c: Comm, p: Port, out: Msg)
    requires Valid(c)
    ensures Step(c, p, out).ready <==> c.state == ReturnRequest
    ensures Step(c, p, out).ready ==> Step(c, p, out).out == Returned(c.req) && Step(c, p, out).comm.state == Idle
    ensures !Step(c, p, out).ready ==> Step(c, p, out).out == out
  {
  }

  /** An idle machine starts reading a header once both header bytes are available, and
    * forgets what it had received. */
  lemma IdleStep(c: Comm, p: Port, out: Msg)
    requires Valid(c) && c.state == Idle
    ensures Step(c, p, out).comm.state == (if p.avail >= HeaderSize then ReadRequestHeader else Idle)
    ensures Step(c, p, out).comm.rcvd == 0 && !Step(c, p, out).ready && Step(c, p, out).panicLine.None?
  {
  }

  /** The header decides the next state: an empty request is returned at once, one of up to
    * 64 bytes is read, a longer one or a short read panics. */
  lemma HeaderStep(c: Comm, p: Port, out: Msg)
    requires Valid(c) && c.state == ReadRequestHeader
    ensures |p.rx| < HeaderSize ==> Step(c, p, out).comm.state == Panicked && Step(c, p, out).panicLine.Some?
    ensures |p.rx| >= HeaderSize && p.rx[1] == 0 ==> Step(c, p, out).comm.state == ReturnRequest
    ensures |p.rx| >= HeaderSize && 0 < p.rx[1] <= MaxDataSize ==>
      Step(c, p, out).comm.state == ReadRequestData && Step(c, p, out).comm.rcvd == 0
    ensures |p.rx| >= HeaderSize && p.rx[1] > MaxDataSize ==>
      Step(c, p, out).comm.state == Panicked && Step(c, p, out).panicLine.Some?
    ensures |p.rx| >= HeaderSize ==> Step(c, p, out).comm.req.cmd == p.rx[0] && Step(c, p, out).comm.req.len == p.rx[1]
  {
  }

  /** Reading data never goes past the announced length; the request is complete once
    * that many bytes arrived; a short read panics. */
  lemma DataStep(c: Comm, p: Port, out: Msg)
    requires Valid(c) && c.state == ReadRequestData
    ensures Step(c, p, out).comm.rcvd <= c.req.len
    ensures Step(c, p, out).comm.state == ReturnRequest <==>
      (p.avail > 0 && |p.rx| >= c.req.len - c.rcvd && p.avail >= c.req.len - c.rcvd)
    ensures Step(c, p, out).comm.state == Panicked <==>
      (p.avail > 0 && |p.rx| < (if p.avail < c.req.len - c.rcvd then p.avail else c.req.len - c.rcvd))
    ensures Step(c, p, out).comm.req.data[..c.rcvd] == c.req.data[..c.rcvd]
  {
  }

  /** PANIC is absorbing: it never leaves, never returns a request and never reports. */
  lemma PanicAbsorbing(c: Comm, p: Port, out: Msg)
    requires Valid(c) && c.state == Panicked
    ensures Step(c, p, out) == Outcome(c, false, out, None)
  {
  }

  /** The machine never leaves PANIC, whatever the port does over any number of calls. */
  lemma {:induction false} PanicForever(c: Comm, ps: seq<Port>, out: Msg)
    requires Valid(c) && c.state == Panicked
    ensures Run(c, ps, out) == (c, out)
  {
    if |ps| > 0 {
      PanicAbsorbing(c, ps[0], out);
      PanicForever(c, ps[1..], out);
    }
  }

  /** Successive calls, one per port observation; the caller keeps the last returned
    * request. */
  function Run(c: Comm, ps: seq<Port>, out: Msg): (Comm, Msg)
    requires Valid(c)
    decreases |ps|
  {
    if |ps| == 0 then (c, out)
    else
      Run(Step(c, ps[0], out).comm, ps[1..], Step(c, ps[0], out).out)
  }

  /** A request that arrives whole while the machine is idle is returned, header and data
    * as sent and the tail zeroed, after four calls. */
  lemma {:induction false} WholeRequest(c: Comm, cmd: byte, data: seq<byte>, out: Msg)
    requires Valid(c) && c.state == Idle
    requires 0 < |data| <= MaxDataSize
    ensures Run(c, WholeRequestPorts(cmd, data), out).0.state == Idle
    ensures Run(c, WholeRequestPorts(cmd, data), out).1 ==
      Msg(cmd, |data|, data + seq(MaxDataSize - |data|, _ => 0))
  {
    var ps := WholeRequestPorts(cmd, data);
    var c1 := Step(c, ps[0], out).comm;
    assert c1.state == ReadRequestHeader;
    var c2 := Step(c1, ps[1], out).comm;
    assert c2.state == ReadRequestData && c2.rcvd == 0 && c2.req.len == |data| && c2.req.cmd == cmd;
    var c3 := Step(c2, ps[2], out).comm;
    assert ReadBytes(ps[2], |data|) == data;
    assert c3.req.data[..|data|] == data;
    assert c3.state == ReturnRequest;
    var o4 := Step(c3, ps[3], out);
    assert o4.out.data == data + seq(MaxDataSize - |data|, _ => 0);
    assert ps[1..][1..][1..][1..] == [];
    assert Run(c3, ps[3..], out) == Run(o4.comm, [], o4.out);
    assert Run(c2, ps[2..], out) == Run(c3, ps[3..], out);
    assert Run(c1, ps[1..], out) == Run(c2, ps[2..], out);
  }

  /** The port as it looks on the four calls: the header, then the data, available. */
  function WholeRequestPorts(cmd: byte, data: seq<byte>): seq<Port>
    requires |data| <= MaxDataSize
  {
    [Port(HeaderSize + |data|, []), Port(HeaderSize + |data|, [cmd, |data|]), Port(|data|, data), Port(0, [])]
  }

  /** The reply on the wire: `sendResponse` clamps the length to 64 and writes the header
    * and that many data bytes. */
  function Wire(m: Msg): (r: seq<byte>)
    requires WellFormed(m)
    ensures |r| == HeaderSize + (if m.len > MaxDataSize then MaxDataSize else m.len)
    ensures r[0] == m.cmd && r[1] <= MaxDataSize && r[2..] == m.data[..r[1]]
  {
    var n := if m.len > MaxDataSize then MaxDataSize else m.len;
    [m.cmd, n] + m.data[..n]
  }

  /** `Communicator`: attached to the host port, then polled. */
  class Communicator {
    var comm: Comm
    const panic: Panic.Panic

    constructor(panic: Panic.Panic)
      ensures this.panic == panic && comm.state == Uninitialized && Valid(comm)
    {
      this.panic := panic;
      comm := Comm(Uninitialized, Msg(0, 0, seq(MaxDataSize, _ => 0)), 0);
    }

    /** `attach`: only an unattached communicator starts, clearing the request. */
    method Attach()
      requires Valid(comm)
      modifies this
      ensures old(comm.state) == Uninitialized ==> comm == Comm(Idle, Msg(0, 0, seq(MaxDataSize, _ => 0)), old(comm.rcvd))
      ensures old(comm.state) != Uninitialized ==> comm == old(comm)
      ensures Valid(comm)
    {
      if comm.state == Uninitialized {
        comm := comm.(state := Idle, req := Msg(0, 0, seq(MaxDataSize, _ => 0)));
      }
    }

    /** `hasRequest`: advance once; a panic is reported to the panic latch. */
    method HasRequest(p: Port, out: Msg) returns (ready: bool, out': Msg)
      requires Valid(comm)
      modifies this, panic
      ensures Outcome(comm, ready, out', Step(old(comm), p, out).panicLine) == Step(old(comm), p, out)
      ensures Step(old(comm), p, out).panicLine.Some? ==>
        panic.reason == Panic.After(old(panic.reason), Panic.SourceCode(Panic.Communicator), Step(old(comm), p, out).panicLine.value)
      ensures Step(old(comm), p, out).panicLine.None? ==> panic.reason == old(panic.reason)
      ensures Valid(comm)
    {
      var r := Step(comm, p, out);
      assert r.panicLine.Some? ==> r.panicLine.value < 0x1_0000;
      if r.panicLine.Some? {
        panic.SetReason(Panic.Communicator, r.panicLine.value);
      }
      comm, ready, out' := r.comm, r.ready, r.out;
    }

    /** `sendResponse`: clamps the length in place and writes the reply. */
    method SendResponse(response: Msg) returns (response': Msg, wire: seq<byte>)
      requires WellFormed(response)
      ensures response' == response.(len := if response.len > MaxDataSize then MaxDataSize else response.len)
      ensures wire == Wire(response) && wire == [response'.cmd, response'.len] + response'.data[..response'.len]
    {
      response' := response;
      if response'.len > MaxDataSize {
        response' := response'.(len := MaxDataSize);
      }
      wire := [response'.cmd, response'.len] + response'.data[..response'.len];
    }
  }
}
