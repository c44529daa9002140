// The companion firmware's panic latch: the first nonzero reason is kept for the LED to
// blink out, and every later report is ignored.

module Panic {

  /** Which part of the firmware reported a panic. */
  datatype Source = Communicator | I2CPeriph

  function SourceCode(s: Source): nat
  {
    match s
    case Communicator => 0x1
    case I2CPeriph => 0x2
  }

  /** The 32-bit reason word: the source's low byte above the 16-bit line number. */
  function Encode(source: nat, lineno: nat): (r: nat)
    requires lineno < 0x1_0000
    ensures r < 0x100_0000
    ensures r / 0x1_0000 == source % 0x100 && r % 0x1_0000 == lineno
  {
    (source % 0x100) * 0x1_0000 + lineno
  }

  /** The reason after a report: the new one only while none is latched. */
  function After(reason: nat, source: nat, lineno: nat): (r: nat)
    requires lineno < 0x1_0000
  {
    if reason == 0 then Encode(source, lineno) else reason
  }

  /** A latched reason survives every later report. */
  lemma AfterSticky(reason: nat, source: nat, lineno: nat)
    requires lineno < 0x1_0000
    requires reason != 0
    ensures After(reason, source, lineno) == reason
  {
  }

  /** A report from a real source always latches: the firmware's sources have nonzero codes. */
  lemma ReportLatches(reason: nat, s: Source, lineno: nat)
    requires lineno < 0x1_0000
    ensures After(reason, SourceCode(s), lineno) != 0
    ensures reason == 0 ==> (After(reason, SourceCode(s), lineno) / 0x1_0000 == SourceCode(s) &&
      After(reason, SourceCode(s), lineno) % 0x1_0000 == lineno)
  {
  }

  /** The firmware's single panic state (`Panic::m_reason`). */
  class Panic {
    var reason: nat

    constructor()
      ensures reason == 0 && !Active()
    {
      reason := 0;
    }

    /** `active`: a reason is latched. */
    predicate Active()
      reads this
    {
      reason != 0
    }

    /** `setReason`: latch the reason unless one is already latched. */
    method SetReason(source: Source, lineno: nat)
      requires lineno < 0x1_0000
      modifies this
      ensures reason == After(old(reason), SourceCode(source), lineno)
      ensures Active()
      ensures old(reason) != 0 ==> reason == old(reason)
    {
      if reason == 0 {
        reason := (SourceCode(source) % 0x100) * 0x1_0000 + lineno;
      }
      ReportLatches(old(reason), source, lineno);
    }
  }
}
