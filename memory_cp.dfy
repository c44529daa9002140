/** `CpMemoryWriter` (depthcharge/memory/cp.py): writes a payload by running one U-Boot
  * `cp` command per Stratagem entry, copying bytes already present somewhere in memory
  * (found by the CpHunter) into place, with the widest access size all three of
  * source, destination and length are aligned to. */
module CpWriter {
  import Strat
  import Operation
  import CpHunter
  import PyBytes
  import opened Errors
  import StratagemWriter
  import opened TargetMemory

  /** `_stratagem_spec = Operation._create_stratagem_spec(dst_off=int)`. */
  function CpSpec(): (r: Strat.Spec)
    ensures r.Keys == {"src_addr", "src_size", "dst_off"}
    ensures forall k :: k in r ==> r[k] == Strat.IntKind
  {
    Operation.CreateStratagemSpec(map["dst_off" := Strat.IntKind])
  }

  /** `is_aligned(n, src, dst, size)`; Python's `%` with a positive divisor agrees with
    * Dafny's. */
  predicate Aligned(n: int, src: int, dst: int, size: int)
    requires n > 0
  {
    size % n == 0 && src % n == 0 && dst % n == 0
  }

  /** The access width of an entry: 8 (only when the architecture supports 64-bit data
    * accesses), else 4, else 2, else 1. */
  function Width(has64: bool, src: int, dst: int, size: int): nat
  {
    if has64 && Aligned(8, src, dst, size) then 8
    else if Aligned(4, src, dst, size) then 4
    else if Aligned(2, src, dst, size) then 2
    else 1
  }

  /** A width the writer may use on this architecture. */
  predicate Allowed(has64: bool, w: nat)
  {
    w == 1 || w == 2 || w == 4 || (w == 8 && has64)
  }

  /** The chosen width is allowed, everything is aligned to it, and no wider allowed
    * width would have been aligned. */
  lemma WidthWidest(has64: bool, src: int, dst: int, size: int)
    ensures Allowed(has64, Width(has64, src, dst, size))
    ensures Aligned(Width(has64, src, dst, size), src, dst, size)
    ensures forall w: nat :: Allowed(has64, w) && w > Width(has64, src, dst, size) ==> !Aligned(w, src, dst, size)
  {
  }

  /** The size suffix of `cp.{mode}` and its access width. */
  function ModeChar(w: nat): char
  {
    if w == 8 then 'q' else if w == 4 then 'l' else if w == 2 then 'w' else 'b'
  }

  function ModeWidth(mode: char): nat
  {
    if mode == 'q' then 8 else if mode == 'l' then 4 else if mode == 'w' then 2 else 1
  }

  /** `cp.{mode} {src:x} {dst:x} {count:x}`: copy `count` elements of the mode's width. */
  datatype CpCmd = CpCmd(mode: char, src: int, dst: int, count: int)

  /** The command sent for one entry, with the destination relative to `wr_addr`. */
  function CmdFor(wrAddr: int, has64: bool, e: CpHunter.CpEntry): CpCmd
  {
    var dst := e.dstOff + wrAddr;
    var w := Width(has64, e.srcAddr, dst, e.srcSize);
    CpCmd(ModeChar(w), e.srcAddr, dst, Per(e.srcSize, w))
  }

  /** The element count for `size` bytes at width `w`, one constant divisor per width. */
  function Per(size: int, w: nat): int
  {
    if w == 8 then size / 8 else if w == 4 then size / 4 else if w == 2 then size / 2 else size
  }

  /** The number of bytes a command copies: `count` elements of the mode's width. */
  function Bytes(c: CpCmd): int
  {
    if c.mode == 'q' then 8 * c.count
    else if c.mode == 'l' then 4 * c.count
    else if c.mode == 'w' then 2 * c.count
    else c.count
  }

  /** Each command copies exactly the entry's bytes from its source address to the
    * payload address plus its offset, using the widest aligned access. */
  lemma CmdForMeaning(wrAddr: int, has64: bool, e: CpHunter.CpEntry)
    ensures CmdFor(wrAddr, has64, e).src == e.srcAddr
    ensures CmdFor(wrAddr, has64, e).dst == wrAddr + e.dstOff
    ensures Bytes(CmdFor(wrAddr, has64, e)) == e.srcSize
    ensures ModeWidth(CmdFor(wrAddr, has64, e).mode) == Width(has64, e.srcAddr, wrAddr + e.dstOff, e.srcSize)
    ensures CmdFor(wrAddr, has64, e).mode == 'q' ==> has64
  {
    var w := Width(has64, e.srcAddr, wrAddr + e.dstOff, e.srcSize);
    assert e.srcSize % w == 0;
    assert e.srcSize / w * w == e.srcSize;
  }

  /** The commands for the entries, in order. */
  function Commands(wrAddr: int, has64: bool, es: seq<CpHunter.CpEntry>): (r: seq<CpCmd>)
    ensures |r| == |es|
  {
    if |es| == 0 then [] else Commands(wrAddr, has64, es[..|es| - 1]) + [CmdFor(wrAddr, has64, es[|es| - 1])]
  }

  /** `_write_stratagem`: the commands it sends, one per entry, in the Stratagem's
    * order. */
  method WriteStratagem(wrAddr: int, has64: bool, entries: seq<CpHunter.CpEntry>) returns (cmds: seq<CpCmd>)
    ensures cmds == Commands(wrAddr, has64, entries)
    ensures |cmds| == |entries|
  {
    cmds := [];
    for i := 0 to |entries|
      invariant cmds == Commands(wrAddr, has64, entries[..i])
      invariant |cmds| == i
    {
      assert entries[..i + 1][..i] == entries[..i];
      var e := entries[i];
      var dst := e.dstOff + wrAddr;
      var mode: char;
      var size := e.srcSize;
      if has64 && size % 8 == 0 && e.srcAddr % 8 == 0 && dst % 8 == 0 {
        mode := 'q';
        size := size / 8;
      } else if size % 4 == 0 && e.srcAddr % 4 == 0 && dst % 4 == 0 {
        mode := 'l';
        size := size / 4;
      } else if size % 2 == 0 && e.srcAddr % 2 == 0 && dst % 2 == 0 {
        mode := 'w';
        size := size / 2;
      } else {
        mode := 'b';
      }
      cmds := cmds + [CpCmd(mode, e.srcAddr, dst, size)];
    }
    assert entries[..|entries|] == entries;
  }

  const Name := "CpMemoryWriter"

  /** `write` with a Stratagem (memory/stratagem.py, lines 57-76) followed by this
    * writer's `_write_stratagem`: the commands sent, or the error that stops the write
    * before any is sent. */
  method Write(wrAddr: int, has64: bool, stratagemOp: Option<string>, entries: seq<CpHunter.CpEntry>)
    returns (r: Result<seq<CpCmd>>)
    ensures r.Ok? <==> stratagemOp == Some(Name)
    ensures r.Ok? ==> r.value == Commands(wrAddr, has64, entries)
    ensures r.Err? ==> Err(r.error) == StratagemWriter.CheckStratagem(Name, stratagemOp)
  {
    var check := StratagemWriter.CheckStratagem(Name, stratagemOp);
    if check.Err? {
      return Err(check.error);
    }
    var cmds := WriteStratagem(wrAddr, has64, entries);
    return Ok(cmds);
  }

  // ---------------------------------------------------------------------------------
  // What the commands do to memory

  /** U-Boot's `cp` between regions that do not overlap: byte `dst + j` takes the old
    * value of `src + j` for `j < n`. */
  function Copy(mem: Mem, src: int, dst: int, n: int): Mem
  {
    x => if dst <= x < dst + n then mem(src + (x - dst)) else mem(x)
  }

  function Exec(mem: Mem, c: CpCmd): Mem
  {
    Copy(mem, c.src, c.dst, Bytes(c))
  }

  /** Memory after running the commands in order. */
  function Run(mem: Mem, cmds: seq<CpCmd>): Mem
  {
    if |cmds| == 0 then mem else Exec(Run(mem, cmds[..|cmds| - 1]), cmds[|cmds| - 1])
  }

  /** The CpHunter's guarantee for an entry (`CopiesFree` without the gaps): its source
    * bytes, at `address` plus an offset into the searched data, are the payload bytes
    * at its destination offset. */
  predicate Sourced(data: seq<byte>, address: int, payload: seq<byte>, e: CpHunter.CpEntry)
  {
    var src := e.srcAddr - address;
    1 <= e.srcSize && 0 <= src && src + e.srcSize <= |data| &&
    0 <= e.dstOff && e.dstOff + e.srcSize <= |payload| &&
    data[src..src + e.srcSize] == payload[e.dstOff..e.dstOff + e.srcSize]
  }

  /** Every entry is sourced, stated entry by entry from the last one back. */
  predicate AllSourced(data: seq<byte>, address: int, payload: seq<byte>, es: seq<CpHunter.CpEntry>)
  {
    |es| == 0 ||
    (AllSourced(data, address, payload, es[..|es| - 1]) && Sourced(data, address, payload, es[|es| - 1]))
  }

  /** An entry writes only inside a payload of `n` bytes. */
  predicate Inside(n: int, e: CpHunter.CpEntry)
  {
    0 <= e.dstOff && e.dstOff + e.srcSize <= n
  }

  /** Every entry writes inside the payload, stated entry by entry from the last one
    * back. */
  predicate AllInside(n: int, es: seq<CpHunter.CpEntry>)
  {
    |es| == 0 || (AllInside(n, es[..|es| - 1]) && Inside(n, es[|es| - 1]))
  }

  lemma {:induction false} AllSourcedFrom(data: seq<byte>, address: int, payload: seq<byte>, es: seq<CpHunter.CpEntry>)
    requires forall a :: 0 <= a < |es| ==> Sourced(data, address, payload, es[a])
    ensures AllSourced(data, address, payload, es)
    ensures AllInside(|payload|, es)
  {
    if |es| > 0 {
      var init := es[..|es| - 1];
      assert forall a :: 0 <= a < |init| ==> init[a] == es[a];
      AllSourcedFrom(data, address, payload, init);
    }
  }

  /** The last command runs on the memory the earlier ones left. */
  lemma RunLast(mem: Mem, wrAddr: int, has64: bool, es: seq<CpHunter.CpEntry>, x: int)
    requires |es| > 0
    ensures Run(mem, Commands(wrAddr, has64, es))(x) ==
      Exec(Run(mem, Commands(wrAddr, has64, es[..|es| - 1])), CmdFor(wrAddr, has64, es[|es| - 1]))(x)
  {
    assert Commands(wrAddr, has64, es)[..|es| - 1] == Commands(wrAddr, has64, es[..|es| - 1]);
  }

  /** A command copies to each byte of its destination the old value of the byte at
    * the same distance into its source. */
  lemma CopyIn(mem: Mem, c: CpCmd, n: int, j: int, x: int)
    requires n == Bytes(c) && 0 <= j < n && x == c.dst + j
    ensures Exec(mem, c)(x) == mem(c.src + j)
  {
  }

  /** A command leaves every byte outside its destination alone. */
  lemma CopyOut(mem: Mem, c: CpCmd, n: int, x: int)
    requires n == Bytes(c) && !(c.dst <= x < c.dst + n)
    ensures Exec(mem, c)(x) == mem(x)
  {
  }

  /** The command for an entry copies to each byte of the entry's destination the old
    * value of the byte at the same distance into its source. */
  lemma EntryIn(mem: Mem, wrAddr: int, has64: bool, e: CpHunter.CpEntry, j: int, x: int)
    requires 0 <= j < e.srcSize && x == wrAddr + e.dstOff + j
    ensures Exec(mem, CmdFor(wrAddr, has64, e))(x) == mem(e.srcAddr + j)
  {
    CmdForMeaning(wrAddr, has64, e);
    CopyIn(mem, CmdFor(wrAddr, has64, e), e.srcSize, j, x);
  }

  /** The command for an entry leaves every byte outside the entry's destination
    * alone. */
  lemma EntryOut(mem: Mem, wrAddr: int, has64: bool, e: CpHunter.CpEntry, x: int)
    requires !(wrAddr + e.dstOff <= x < wrAddr + e.dstOff + e.srcSize)
    ensures Exec(mem, CmdFor(wrAddr, has64, e))(x) == mem(x)
  {
    CmdForMeaning(wrAddr, has64, e);
    CopyOut(mem, CmdFor(wrAddr, has64, e), e.srcSize, x);
  }

  /** A sourced entry's `j`-th source byte is the payload byte it is copied to. */
  lemma SourcedAt(data: seq<byte>, address: int, payload: seq<byte>, e: CpHunter.CpEntry, j: int, k: int, i: int)
    requires Sourced(data, address, payload, e) && 0 <= j < e.srcSize
    requires k == e.srcAddr - address + j && i == e.dstOff + j
    ensures 0 <= k < |data| && 0 <= i < |payload| && data[k] == payload[i]
  {
    var src := e.srcAddr - address;
    assert data[src..src + e.srcSize][j] == payload[e.dstOff..e.dstOff + e.srcSize][j];
  }

  /** Memory holding the data at `addr` holds its `k`-th byte at `addr + k`. */
  lemma HoldsAt(mem: Mem, addr: int, data: seq<byte>, k: int, y: int)
    requires Holds(mem, addr, data) && 0 <= k < |data| && y == addr + k
    ensures mem(y) == data[k]
  {
  }

  /** Running the commands for entries that write inside the payload changes nothing
    * outside the payload's destination. */
  lemma {:induction false} RunOutside(mem: Mem, n: int, wrAddr: int, has64: bool, es: seq<CpHunter.CpEntry>, x: int)
    requires AllInside(n, es)
    requires !(wrAddr <= x < wrAddr + n)
    ensures Run(mem, Commands(wrAddr, has64, es))(x) == mem(x)
  {
    if |es| > 0 {
      RunOutside(mem, n, wrAddr, has64, es[..|es| - 1], x);
      LastSkips(mem, wrAddr, has64, es, x);
    }
  }

  /** The searched data keeps its bytes while commands that write inside a payload
    * away from it run. */
  lemma DataKept(mem: Mem, data: seq<byte>, address: int, n: int, wrAddr: int, has64: bool,
                 es: seq<CpHunter.CpEntry>, k: int)
    requires Holds(mem, address, data)
    requires address + |data| <= wrAddr || wrAddr + n <= address
    requires AllInside(n, es) && 0 <= k < |data|
    ensures Run(mem, Commands(wrAddr, has64, es))(address + k) == data[k]
  {
    HoldsAt(mem, address, data, k, address + k);
    RunOutside(mem, n, wrAddr, has64, es, address + k);
  }

  /** A byte the last command does not write keeps the value the earlier commands
    * left there. */
  lemma LastSkips(mem: Mem, wrAddr: int, has64: bool, es: seq<CpHunter.CpEntry>, x: int)
    requires |es| > 0
    requires !(wrAddr + es[|es| - 1].dstOff <= x < wrAddr + es[|es| - 1].dstOff + es[|es| - 1].srcSize)
    ensures Run(mem, Commands(wrAddr, has64, es))(x) == Run(mem, Commands(wrAddr, has64, es[..|es| - 1]))(x)
  {
    var e := es[|es| - 1];
    RunLast(mem, wrAddr, has64, es, x);
    EntryOut(Run(mem, Commands(wrAddr, has64, es[..|es| - 1])), wrAddr, has64, e, x);
  }

  /** A byte the last command writes takes the value the earlier commands left at the
    * same distance into its source. */
  lemma LastCopies(mem: Mem, wrAddr: int, has64: bool, es: seq<CpHunter.CpEntry>, j: int, x: int)
    requires |es| > 0 && 0 <= j < es[|es| - 1].srcSize && x == wrAddr + es[|es| - 1].dstOff + j
    ensures Run(mem, Commands(wrAddr, has64, es))(x) ==
      Run(mem, Commands(wrAddr, has64, es[..|es| - 1]))(es[|es| - 1].srcAddr + j)
  {
    var e := es[|es| - 1];
    RunLast(mem, wrAddr, has64, es, x);
    EntryIn(Run(mem, Commands(wrAddr, has64, es[..|es| - 1])), wrAddr, has64, e, j, x);
  }

  /** A payload byte the last entry writes takes the byte of the searched data it is
    * copied from, when the data lies away from the destination. */
  lemma LastWrites(mem: Mem, data: seq<byte>, address: int, n: int,
                   wrAddr: int, has64: bool, es: seq<CpHunter.CpEntry>, i: int, k: int)
    requires Holds(mem, address, data)
    requires address + |data| <= wrAddr || wrAddr + n <= address
    requires |es| > 0 && AllInside(n, es[..|es| - 1])
    requires CpHunter.Writes(i, es[|es| - 1])
    requires 0 <= k < |data| && address + k == es[|es| - 1].srcAddr + (i - es[|es| - 1].dstOff)
    ensures Run(mem, Commands(wrAddr, has64, es))(wrAddr + i) == data[k]
  {
    var e, init := es[|es| - 1], es[..|es| - 1];
    var j := i - e.dstOff;
    LastCopies(mem, wrAddr, has64, es, j, wrAddr + i);
    assert e.srcAddr + j == address + k;
    DataKept(mem, data, address, n, wrAddr, has64, init, k);
  }

  /** Running the commands for sourced entries leaves every payload byte that some
    * entry covers in place, when the searched data lies away from the destination. */
  lemma {:induction false} RunInside(mem: Mem, data: seq<byte>, address: int, payload: seq<byte>,
                                     wrAddr: int, has64: bool, es: seq<CpHunter.CpEntry>, i: int)
    requires Holds(mem, address, data)
    requires address + |data| <= wrAddr || wrAddr + |payload| <= address
    requires AllSourced(data, address, payload, es) && AllInside(|payload|, es)
    requires 0 <= i < |payload| && CpHunter.Hits(i, es) >= 1
    ensures Run(mem, Commands(wrAddr, has64, es))(wrAddr + i) == payload[i]
  {
    var e := es[|es| - 1];
    if CpHunter.Writes(i, e) {
      var k := e.srcAddr - address + (i - e.dstOff);
      SourcedAt(data, address, payload, e, i - e.dstOff, k, i);
      LastWrites(mem, data, address, |payload|, wrAddr, has64, es, i, k);
    } else {
      LastSkips(mem, wrAddr, has64, es, wrAddr + i);
      RunInside(mem, data, address, payload, wrAddr, has64, es[..|es| - 1], i);
    }
  }

  /** The end-to-end property of the `cp` writer: when memory holds the searched data
    * away from the destination and the Stratagem's entries are sourced and cover the
    * payload (as the CpHunter's Stratagems are and do), running `_write_stratagem`'s
    * commands leaves the payload at `wr_addr` and the data where it was. */
  lemma PayloadWritten(mem: Mem, data: seq<byte>, address: int, payload: seq<byte>,
                       wrAddr: int, has64: bool, es: seq<CpHunter.CpEntry>)
    requires Holds(mem, address, data)
    requires address + |data| <= wrAddr || wrAddr + |payload| <= address
    requires forall a :: 0 <= a < |es| ==> Sourced(data, address, payload, es[a])
    requires forall x :: 0 <= x < |payload| ==> CpHunter.Hits(x, es) == 1
    ensures forall i :: 0 <= i < |payload| ==> Run(mem, Commands(wrAddr, has64, es))(wrAddr + i) == payload[i]
    ensures Holds(Run(mem, Commands(wrAddr, has64, es)), address, data)
  {
    AllSourcedFrom(data, address, payload, es);
    var after := Run(mem, Commands(wrAddr, has64, es));
    forall i | 0 <= i < |payload|
      ensures after(wrAddr + i) == payload[i]
    {
      RunInside(mem, data, address, payload, wrAddr, has64, es, i);
    }
    forall i | 0 <= i < |data|
      ensures after(address + i) == data[i]
    {
      DataKept(mem, data, address, |payload|, wrAddr, has64, es, i);
    }
  }
}
