/** `CRC32MemoryReader` and `CRC32MemoryWriter` (depthcharge/memory/crc32.py): U-Boot's
  * `crc32` command turned into a memory reader, by inverting the checksum of a 1, 2 or
  * 4-byte window, and into a writer, by storing chosen checksums. */
module Crc32Memory {
  import opened Errors
  import opened PyBytes
  import Crc
  import ReverseCrc
  import ReverseCrcHunter
  import StratagemWriter
  import Strat
  import opened TargetMemory

  /** `zlib.crc32(data, value)` as the reader calls it. */
  type CrcFn = (seq<byte>, bv32) -> bv32

  /** The function is zlib's CRC-32. */
  ghost predicate IsZlib(crc: CrcFn)
  {
    forall d, v {:trigger crc(d, v)} :: crc(d, v) == Crc.Crc32From(v, d)
  }

  /** The inputs the reverse table is for: one or two bytes. */
  predicate Short(s: seq<byte>)
  {
    1 <= |s| <= 2
  }

  /** The key `_setup` computes for a short input: `crc32(b0)`, or `crc32(b1, crc32(b0))`. */
  function Key(crc: CrcFn, s: seq<byte>): Crc.Reg
    requires Short(s)
  {
    Crc.Reg(if |s| == 1 then crc(s, 0) else crc([s[1]], crc([s[0]], 0)))
  }

  /** The position of a short input in `_setup`'s enumeration order: `[i]` comes just
    * before the `[i, j]`, `j` from 0 to 255. */
  function Rank(s: seq<byte>): nat
    requires Short(s)
  {
    if |s| == 1 then (s[0] as int) * 257 else (s[0] as int) * 257 + 1 + s[1] as int
  }

  /** The total number of short inputs. */
  const AllShort: nat := 256 * 257

  lemma RankBound(s: seq<byte>)
    requires Short(s)
    ensures Rank(s) < AllShort
  {
  }

  lemma RankInjective(s: seq<byte>, t: seq<byte>)
    requires Short(s) && Short(t) && Rank(s) == Rank(t)
    ensures s == t
  {
    assert |s| == |t|;
    if |s| == 2 {
      assert s[0] == t[0];
    }
  }

  /** Every short input before position `n` is in the table under its key. */
  ghost predicate Filled(crc: CrcFn, lut: map<Crc.Reg, seq<byte>>, n: nat)
  {
    forall s :: Short(s) && Rank(s) < n ==> Key(crc, s) in lut && lut[Key(crc, s)] == s
  }

  /** Every table entry is a short input before position `n`, under its key. */
  ghost predicate Only(crc: CrcFn, lut: map<Crc.Reg, seq<byte>>, n: nat)
  {
    forall k :: k in lut ==> Short(lut[k]) && Rank(lut[k]) < n && Key(crc, lut[k]) == k
  }

  /** Two different short inputs with the same key: what `_setup` reports with a
    * RuntimeError. */
  ghost predicate Collision(crc: CrcFn)
  {
    exists s, t :: Short(s) && Short(t) && s != t && Key(crc, s) == Key(crc, t)
  }

  /** The table is complete and sound: every short input is found under its key,
    * and every entry holds the short input of that key. */
  ghost predicate Table(crc: CrcFn, lut: map<Crc.Reg, seq<byte>>)
  {
    Filled(crc, lut, AllShort) && Only(crc, lut, AllShort)
  }

  /** Adding the input at position `n` to a table holding everything before it. */
  lemma AddStep(crc: CrcFn, lut: map<Crc.Reg, seq<byte>>, s: seq<byte>)
    requires Short(s) && Filled(crc, lut, Rank(s)) && Only(crc, lut, Rank(s))
    requires Key(crc, s) !in lut
    ensures Filled(crc, lut[Key(crc, s) := s], Rank(s) + 1)
    ensures Only(crc, lut[Key(crc, s) := s], Rank(s) + 1)
  {
    var lut' := lut[Key(crc, s) := s];
    forall t | Short(t) && Rank(t) < Rank(s) + 1
      ensures Key(crc, t) in lut' && lut'[Key(crc, t)] == t
    {
      if Rank(t) == Rank(s) {
        RankInjective(s, t);
      } else {
        assert Key(crc, t) in lut && lut[Key(crc, t)] == t;
        assert Key(crc, t) != Key(crc, s);
      }
    }
    forall k | k in lut'
      ensures Short(lut'[k]) && Rank(lut'[k]) < Rank(s) + 1 && Key(crc, lut'[k]) == k
    {
      if k != Key(crc, s) {
        assert lut'[k] == lut[k];
      }
    }
  }

  /** A key already present when the input at position `n` arrives is a collision. */
  lemma CollisionStep(crc: CrcFn, lut: map<Crc.Reg, seq<byte>>, s: seq<byte>)
    requires Short(s) && Only(crc, lut, Rank(s)) && Key(crc, s) in lut
    ensures Collision(crc)
  {
    var k := Key(crc, s);
    var t := lut[k];
    assert Short(t) && Rank(t) < Rank(s) && Key(crc, t) == k;
    assert s != t;
    assert Short(s) && Short(t) && s != t && Key(crc, s) == Key(crc, t);
  }

  /** With zlib's CRC-32 the key of an input is its CRC. */
  lemma KeyIsCrc(crc: CrcFn, s: seq<byte>)
    requires IsZlib(crc) && Short(s)
    ensures Key(crc, s) == Crc.Reg(Crc.Crc32(s))
  {
    if |s| == 2 {
      Crc.Crc32Chain(0, [s[0]], [s[1]]);
      assert [s[0]] + [s[1]] == s;
    }
  }

  /** `CRC32MemoryReader`: its reverse table `_revlut` from checksums to 1-2 byte
    * inputs, built on first use. */
  class Crc32Reader {
    var revlut: map<Crc.Reg, seq<byte>>

    constructor ()
      ensures revlut == map[]
    {
      revlut := map[];
    }

    /** `_setup`: nothing to do once the table has entries; otherwise enter every
      * one-byte input and, after each, the two-byte inputs starting with it, under the
      * key computed from the previous state, failing with RuntimeError at the first
      * key already taken. */
    method Setup(crc: CrcFn) returns (r: Result<()>)
      modifies this
      ensures old(|revlut|) > 0 ==> r == Ok(()) && revlut == old(revlut)
      ensures old(|revlut|) == 0 && r.Ok? ==> Table(crc, revlut)
      ensures r.Err? ==> r.error == RuntimeError && Collision(crc)
    {
      if |revlut| > 0 {
        return Ok(());
      }
      for i := 0 to 256
        invariant Filled(crc, revlut, i * 257) && Only(crc, revlut, i * 257)
      {
        var b0: seq<byte> := [i];
        var state := crc(b0, 0);
        assert Key(crc, b0) == Crc.Reg(state) && Rank(b0) == i * 257;
        if Crc.Reg(state) in revlut {
          CollisionStep(crc, revlut, b0);
          return Err(RuntimeError);
        }
        AddStep(crc, revlut, b0);
        revlut := revlut[Crc.Reg(state) := b0];
        for j := 0 to 256
          invariant Filled(crc, revlut, i * 257 + 1 + j) && Only(crc, revlut, i * 257 + 1 + j)
        {
          var b1: seq<byte> := [j];
          var tmp := crc(b1, state);
          var s := b0 + b1;
          assert s[0] == i && s[1] == j && [s[1]] == b1 && [s[0]] == b0;
          assert Key(crc, s) == Crc.Reg(tmp) && Rank(s) == i * 257 + 1 + j;
          if Crc.Reg(tmp) in revlut {
            CollisionStep(crc, revlut, s);
            return Err(RuntimeError);
          }
          AddStep(crc, revlut, s);
          revlut := revlut[Crc.Reg(tmp) := s];
        }
      }
      forall s | Short(s)
        ensures Rank(s) < AllShort
      {
        RankBound(s);
      }
      return Ok(());
    }

    /** `_revcrc32(addr, size)` given the checksum the target printed (None when the
      * response does not match the expected output): a 4-byte window is the unique
      * preimage from `reverse_crc32_4bytes`, in little-endian order; a 1 or 2-byte
      * window is looked up (KeyError when absent); any other size, or a looked-up input
      * of the wrong length, is a RuntimeError. */
    method RevCrc32(size: int, response: Option<bv32>) returns (r: Result<seq<byte>>)
      ensures response.None? ==> r == Err(RuntimeError)
      ensures response.Some? && size == 4 ==>
        r.Ok? && Crc.Crc32(r.value) == response.value &&
        forall w: bv32 :: Crc.Crc32(Crc.LE4(w)) == response.value ==> r.value == Crc.LE4(w)
      ensures response.Some? && (size == 1 || size == 2) ==>
        r == if Crc.Reg(response.value) !in revlut then Err(KeyError)
             else if |revlut[Crc.Reg(response.value)]| != size then Err(RuntimeError)
             else Ok(revlut[Crc.Reg(response.value)])
      ensures response.Some? && size != 1 && size != 2 && size != 4 ==> r == Err(RuntimeError)
      ensures r.Ok? ==> |r.value| == size
    {
      if response.None? {
        return Err(RuntimeError);
      }
      var checksum := response.value;
      var data: seq<byte>;
      if size == 4 {
        var w := ReverseCrc.ReverseCrc32(checksum);
        data := Crc.LE4(w);
      } else if size == 1 || size == 2 {
        if Crc.Reg(checksum) !in revlut {
          return Err(KeyError);
        }
        data := revlut[Crc.Reg(checksum)];
      } else {
        return Err(RuntimeError);
      }
      if |data| != size {
        return Err(RuntimeError);
      }
      return Ok(data);
    }

    /** `_read_word(addr, size)`, with `target(a, n)` the parsed response to
      * `crc32 a n`: an 8-byte word is read as two 4-byte halves. When the target
      * answers truthfully about memory `mem` and the table is complete, what is read
      * is what memory holds. */
    method ReadWord(addr: int, size: int, target: (int, int) -> Option<bv32>, ghost mem: Mem, ghost crc: CrcFn)
      returns (r: Result<seq<byte>>)
      ensures r.Ok? ==> |r.value| == size
      ensures size == 8 ==> r.Ok? == (target(addr, 4).Some? && target(addr + 4, 4).Some?)
      ensures size == 4 ==> r.Ok? == target(addr, 4).Some?
      ensures (Truthful(target, mem) && IsZlib(crc) && Table(crc, revlut) &&
               (size == 1 || size == 2 || size == 4 || size == 8)) ==> r == Ok(Bytes(mem, addr, size))
    {
      if size == 8 {
        var lo := RevCrc32(4, target(addr, 4));
        if lo.Err? {
          return lo;
        }
        var hi := RevCrc32(4, target(addr + 4, 4));
        if hi.Err? {
          return hi;
        }
        if Truthful(target, mem) {
          RevCrc4Correct(mem, addr, lo.value);
          RevCrc4Correct(mem, addr + 4, hi.value);
          BytesSplit(mem, addr, 4, 4);
        }
        return Ok(lo.value + hi.value);
      }
      r := RevCrc32(size, target(addr, size));
      if Truthful(target, mem) && IsZlib(crc) && Table(crc, revlut) {
        if size == 4 {
          RevCrc4Correct(mem, addr, r.value);
        } else if size == 1 || size == 2 {
          LookupCorrect(crc, revlut, Bytes(mem, addr, size));
        }
      }
    }
  }

  /** The target answers `crc32 a n` with the CRC-32 of the `n` bytes at `a`. */
  ghost predicate Truthful(target: (int, int) -> Option<bv32>, mem: Mem)
  {
    forall a, n: nat {:trigger target(a, n)} :: target(a, n) == Some(Crc.Crc32(Bytes(mem, a, n)))
  }

  /** The reverse lookup of a 4-byte window the target answered truthfully gives back
    * the bytes in memory. */
  lemma RevCrc4Correct(mem: Mem, addr: int, r: seq<byte>)
    requires Crc.Crc32(r) == Crc.Crc32(Bytes(mem, addr, 4))
    requires forall w: bv32 :: Crc.Crc32(Crc.LE4(w)) == Crc.Crc32(Bytes(mem, addr, 4)) ==> r == Crc.LE4(w)
    ensures r == Bytes(mem, addr, 4)
  {
    Crc.LE4FromLE4(Bytes(mem, addr, 4));
  }

  /** A complete, sound table gives back every 1 or 2-byte window whose CRC the target
    * reports. */
  lemma LookupCorrect(crc: CrcFn, lut: map<Crc.Reg, seq<byte>>, s: seq<byte>)
    requires IsZlib(crc) && Table(crc, lut) && Short(s)
    ensures Crc.Reg(Crc.Crc32(s)) in lut && lut[Crc.Reg(Crc.Crc32(s))] == s
  {
    RankBound(s);
    KeyIsCrc(crc, s);
  }

  // ---------------------------------------------------------------------------------
  // CRC32MemoryWriter

  const WriterName := "CRC32MemoryWriter"

  /** `crc32 0x{src} 0x{size} 0x{dst}`: store the CRC-32 of `size` bytes at `src` as a
    * word at `dst`. */
  datatype CrcCmd = CrcCmd(src: int, size: int, dst: int)

  /** `iterations - 1` follow-up operations over the word at `dst` (none when
    * `iterations` is below 2). */
  function Repeat(dst: int, n: int): (r: seq<CrcCmd>)
    ensures |r| == if n <= 0 then 0 else n
    ensures forall k :: 0 <= k < |r| ==> r[k] == CrcCmd(dst, 4, dst)
    decreases if n <= 0 then 0 else n
  {
    if n <= 0 then [] else Repeat(dst, n - 1) + [CrcCmd(dst, 4, dst)]
  }

  /** The commands for one entry: the first over the entry's source (the original
    * location, or the target buffer at `tsrc_off` when that key is present), then the
    * follow-ups. */
  function EntryCmds(wrAddr: int, e: ReverseCrcHunter.StratEntry): seq<CrcCmd>
  {
    [FirstCmd(wrAddr, e)] + Repeat(wrAddr + e.dstOff, e.iterations - 1)
  }

  function FirstCmd(wrAddr: int, e: ReverseCrcHunter.StratEntry): CrcCmd
  {
    var src := if e.tsrcOff.None? then e.srcAddr else wrAddr + e.tsrcOff.value;
    CrcCmd(src, e.srcSize, wrAddr + e.dstOff)
  }

  function CrcCommands(wrAddr: int, es: seq<ReverseCrcHunter.StratEntry>): seq<CrcCmd>
  {
    if |es| == 0 then [] else CrcCommands(wrAddr, es[..|es| - 1]) + EntryCmds(wrAddr, es[|es| - 1])
  }

  /** The operations an entry performs: its `iterations`, but never fewer than one. */
  function Ops(e: ReverseCrcHunter.StratEntry): nat
  {
    if e.iterations >= 1 then e.iterations else 1
  }

  function SumOps(es: seq<ReverseCrcHunter.StratEntry>): nat
  {
    if |es| == 0 then 0 else SumOps(es[..|es| - 1]) + Ops(es[|es| - 1])
  }

  /** `_write_stratagem`: OperationAlignmentError when the target address is not aligned
    * for the architecture; otherwise the commands of every entry in order. */
  method WriteStratagem(wrAddr: int, alignment: int, es: seq<ReverseCrcHunter.StratEntry>)
    returns (r: Result<seq<CrcCmd>>)
    requires alignment > 0
    ensures r.Err? <==> wrAddr % alignment != 0
    ensures r.Err? ==> r.error == OperationAlignmentError
    ensures r.Ok? ==> r.value == CrcCommands(wrAddr, es)
  {
    if wrAddr % alignment != 0 {
      return Err(OperationAlignmentError);
    }
    var cmds: seq<CrcCmd> := [];
    for a := 0 to |es|
      invariant cmds == CrcCommands(wrAddr, es[..a])
    {
      assert es[..a + 1][..a] == es[..a];
      var e := es[a];
      var src := if e.tsrcOff.None? then e.srcAddr else wrAddr + e.tsrcOff.value;
      var dst := wrAddr + e.dstOff;
      ghost var before := cmds;
      cmds := cmds + [CrcCmd(src, e.srcSize, dst)];
      if e.iterations > 1 {
        for i := 1 to e.iterations
          invariant cmds == before + [CrcCmd(src, e.srcSize, dst)] + Repeat(dst, i - 1)
        {
          cmds := cmds + [CrcCmd(dst, 4, dst)];
        }
      }
      assert FirstCmd(wrAddr, e) == CrcCmd(src, e.srcSize, dst);
      assert cmds == before + EntryCmds(wrAddr, e);
    }
    assert es[..|es|] == es;
    return Ok(cmds);
  }

  /** `write` with a Stratagem (memory/stratagem.py, lines 57-76) followed by
    * `_write_stratagem`. */
  method Write(wrAddr: int, alignment: int, stratagemOp: Option<string>, es: seq<ReverseCrcHunter.StratEntry>)
    returns (r: Result<seq<CrcCmd>>)
    requires alignment > 0
    ensures r.Ok? <==> stratagemOp == Some(WriterName) && wrAddr % alignment == 0
    ensures r.Ok? ==> r.value == CrcCommands(wrAddr, es)
    ensures stratagemOp != Some(WriterName) ==> Err(r.error) == StratagemWriter.CheckStratagem(WriterName, stratagemOp)
  {
    var check := StratagemWriter.CheckStratagem(WriterName, stratagemOp);
    if check.Err? {
      return Err(check.error);
    }
    r := WriteStratagem(wrAddr, alignment, es);
  }

  /** One command per operation: an entry sends `iterations` commands, or one when
    * `iterations` is below 1; so with every `iterations` at least 1 the command count
    * is the sum of the `iterations`, which is what `total_operations` reports. */
  lemma {:induction false} CommandCount(wrAddr: int, es: seq<ReverseCrcHunter.StratEntry>)
    ensures |CrcCommands(wrAddr, es)| == SumOps(es)
  {
    if |es| > 0 {
      CommandCount(wrAddr, es[..|es| - 1]);
    }
  }

  /** The dictionary the Stratagem holds for an entry, in the order hunter/revcrc32.py
    * fills it: `src_addr`, `src_size` and `iterations`, then `tsrc_off` when the input
    * is in the target buffer, then `dst_off`. */
  function AsEntry(e: ReverseCrcHunter.StratEntry): Strat.Entry
  {
    [Strat.Field("src_addr", Strat.IntV(e.srcAddr)), Strat.Field("src_size", Strat.IntV(e.srcSize)),
     Strat.Field("iterations", Strat.IntV(e.iterations))] +
    (if e.tsrcOff.Some? then [Strat.Field("tsrc_off", Strat.IntV(e.tsrcOff.value))] else []) +
    [Strat.Field("dst_off", Strat.IntV(e.dstOff))]
  }

  /** `entry['iterations']` reads back the entry's `iterations`. */
  lemma AsEntryIterations(e: ReverseCrcHunter.StratEntry)
    ensures Strat.Get(AsEntry(e), "iterations") == Some(Strat.IntV(e.iterations))
  {
    var r := AsEntry(e);
    assert r[1..][1..][0].key == "iterations";
    assert Strat.Get(r[1..], "iterations") == Strat.Get(r[1..][1..], "iterations");
  }

  /** The Stratagem's list for the entries. */
  function Entries(es: seq<ReverseCrcHunter.StratEntry>): (r: seq<Option<Strat.Entry>>)
    ensures |r| == |es|
  {
    if |es| == 0 then [] else Entries(es[..|es| - 1]) + [Some(AsEntry(es[|es| - 1]))]
  }

  /** With every `iterations` at least 1, `Stratagem.total_operations` on the entries
    * counts exactly the commands `_write_stratagem` sends. */
  lemma {:induction false} TotalOperationsCounted(wrAddr: int, es: seq<ReverseCrcHunter.StratEntry>)
    requires forall k :: 0 <= k < |es| ==> es[k].iterations >= 1
    ensures Strat.TotalOps(Entries(es)) == Ok(SumOps(es))
    ensures Strat.TotalOps(Entries(es)) == Ok(|CrcCommands(wrAddr, es)|)
  {
    CommandCount(wrAddr, es);
    if |es| > 0 {
      var init := es[..|es| - 1];
      TotalOperationsCounted(wrAddr, init);
      var l := Entries(es);
      assert l[..|l| - 1] == Entries(init);
      AsEntryIterations(es[|es| - 1]);
    }
  }

  /** A checksum over bytes; the commands are proved for any, then for zlib's CRC-32. */
  type SumFn = seq<byte> -> bv32

  ghost predicate IsCrc32(sum: SumFn)
  {
    forall x {:trigger sum(x)} :: sum(x) == Crc.Crc32(x)
  }

  /** What `crc32 src size dst` does to memory: the checksum of the source bytes is
    * stored at `dst` as a little-endian word. */
  function Exec(mem: Mem, c: CrcCmd, sum: SumFn): Mem
    requires c.size >= 0
  {
    Store(mem, c.dst, Crc.LE4(sum(Bytes(mem, c.src, c.size))))
  }

  /** No command has a negative size. */
  predicate Sized(cmds: seq<CrcCmd>)
  {
    forall k :: 0 <= k < |cmds| ==> cmds[k].size >= 0
  }

  function Run(mem: Mem, cmds: seq<CrcCmd>, sum: SumFn): Mem
    requires Sized(cmds)
  {
    if |cmds| == 0 then mem else Exec(Run(mem, cmds[..|cmds| - 1], sum), cmds[|cmds| - 1], sum)
  }

  /** `n` more checksums, each over the previous one's little-endian word. */
  function Again(sum: SumFn, w: bv32, n: nat): bv32
    decreases n
  {
    if n == 0 then w else Again(sum, sum(Crc.LE4(w)), n - 1)
  }

  /** The last of `n + 1` checksums is taken over the word the first `n` left. */
  lemma {:induction false} AgainLast(sum: SumFn, w: bv32, n: nat)
    ensures Again(sum, w, n + 1) == sum(Crc.LE4(Again(sum, w, n)))
    decreases n
  {
    if n > 0 {
      AgainLast(sum, sum(Crc.LE4(w)), n - 1);
    }
  }

  /** With zlib's CRC-32 that is the hunter's `Iterate`. */
  lemma {:induction false} AgainIsIterate(sum: SumFn, w: bv32, n: nat)
    requires IsCrc32(sum)
    ensures Crc.Reg(Again(sum, w, n)) == ReverseCrcHunter.Iterate(Crc.Reg(w), n)
    decreases n
  {
    if n > 0 {
      var w' := sum(Crc.LE4(w));
      AgainIsIterate(sum, w', n - 1);
      AgainStep(sum, w);
    }
  }

  lemma AgainStep(sum: SumFn, a: bv32)
    requires IsCrc32(sum)
    ensures Crc.Reg(sum(Crc.LE4(a))) == ReverseCrcHunter.Again(Crc.Reg(a))
  {
    assert sum(Crc.LE4(a)) == Crc.Crc32(Crc.LE4(a));
  }

  lemma EntrySized(first: CrcCmd, n: nat)
    requires first.size >= 0
    ensures Sized([first] + Repeat(first.dst, n))
  {
    var cmds := [first] + Repeat(first.dst, n);
    forall k | 0 <= k < |cmds|
      ensures cmds[k].size >= 0
    {
      if k > 0 {
        assert cmds[k] == Repeat(first.dst, n)[k - 1];
      }
    }
  }

  lemma EntrySnoc(first: CrcCmd, n: nat)
    requires n > 0
    ensures [first] + Repeat(first.dst, n) == ([first] + Repeat(first.dst, n - 1)) + [CrcCmd(first.dst, 4, first.dst)]
  {
    assert Repeat(first.dst, n) == Repeat(first.dst, n - 1) + [CrcCmd(first.dst, 4, first.dst)];
  }

  /** After the first command and `n` follow-ups of an entry, the destination word holds
    * `n` more checksums over the first one, and nothing outside the destination word
    * has changed. */
  lemma {:induction false} EntryRun(mem: Mem, first: CrcCmd, n: nat, sum: SumFn)
    requires first.size >= 0
    requires first.src + first.size <= first.dst || first.dst + 4 <= first.src
    ensures Sized([first] + Repeat(first.dst, n))
    ensures Bytes(Run(mem, [first] + Repeat(first.dst, n), sum), first.dst, 4) ==
      Crc.LE4(Again(sum, sum(Bytes(mem, first.src, first.size)), n))
    ensures forall x {:trigger Run(mem, [first] + Repeat(first.dst, n), sum)(x)} :: !(first.dst <= x < first.dst + 4) ==>
      Run(mem, [first] + Repeat(first.dst, n), sum)(x) == mem(x)
  {
    var d := first.dst;
    var w0 := sum(Bytes(mem, first.src, first.size));
    var cmds := [first] + Repeat(d, n);
    EntrySized(first, n);
    if n == 0 {
      assert cmds == [first];
      assert cmds[..0] == [];
      StoreRead(mem, d, Crc.LE4(w0));
    } else {
      EntryRun(mem, first, n - 1, sum);
      var prev := [first] + Repeat(d, n - 1);
      EntrySnoc(first, n);
      assert cmds[..|cmds| - 1] == prev;
      var m := Run(mem, prev, sum);
      assert Bytes(m, d, 4) == Crc.LE4(Again(sum, w0, n - 1));
      AgainLast(sum, w0, n - 1);
      StoreRead(m, d, Crc.LE4(Again(sum, w0, n)));
    }
  }

  /** The commands of one entry with at least one iteration leave at the destination
    * `iterations - 1` more checksums over the checksum of the source bytes. */
  lemma EntryEffectSum(mem: Mem, wrAddr: int, e: ReverseCrcHunter.StratEntry, sum: SumFn)
    requires e.iterations >= 1 && e.srcSize >= 0
    requires FirstCmd(wrAddr, e).src + e.srcSize <= wrAddr + e.dstOff || wrAddr + e.dstOff + 4 <= FirstCmd(wrAddr, e).src
    ensures Sized(EntryCmds(wrAddr, e))
    ensures Bytes(Run(mem, EntryCmds(wrAddr, e), sum), wrAddr + e.dstOff, 4) ==
      Crc.LE4(Again(sum, sum(Bytes(mem, FirstCmd(wrAddr, e).src, e.srcSize)), e.iterations - 1))
  {
    var f := FirstCmd(wrAddr, e);
    var n: nat := e.iterations - 1;
    assert f.dst == wrAddr + e.dstOff && f.size == e.srcSize;
    assert EntryCmds(wrAddr, e) == [f] + Repeat(f.dst, n);
    EntryRun(mem, f, n, sum);
  }

  /** Run with zlib's CRC-32, that is the hunter's `Iterate` of `iterations - 1`
    * operations over the CRC-32 of the source bytes: the word the ReverseCRC32Hunter
    * planned for that destination. */
  lemma EntryEffect(mem: Mem, wrAddr: int, e: ReverseCrcHunter.StratEntry, sum: SumFn)
    requires IsCrc32(sum)
    requires e.iterations >= 1 && e.srcSize >= 0
    requires FirstCmd(wrAddr, e).src + e.srcSize <= wrAddr + e.dstOff || wrAddr + e.dstOff + 4 <= FirstCmd(wrAddr, e).src
    ensures Sized(EntryCmds(wrAddr, e))
    ensures Bytes(Run(mem, EntryCmds(wrAddr, e), sum), wrAddr + e.dstOff, 4) ==
      Crc.LE4(ReverseCrcHunter.Iterate(Crc.Reg(Crc.Crc32(Bytes(mem, FirstCmd(wrAddr, e).src, e.srcSize))), e.iterations - 1).bits)
  {
    EntryEffectSum(mem, wrAddr, e, sum);
    var b := Bytes(mem, FirstCmd(wrAddr, e).src, e.srcSize);
    var n: nat := e.iterations - 1;
    assert sum(b) == Crc.Crc32(b);
    AgainIsIterate(sum, sum(b), n);
  }
}
