/** The replay simulator of `examples/reverse_crc32_algo_poc.py` (`execute_stratagem`):
  * each entry's CRC-32 operations performed on a byte buffer standing in for target
  * memory, and the theorem that replaying a planned Stratagem rebuilds the payload. */
module Crc32Sim {
  import opened Errors
  import opened PyBytes
  import opened Crc
  import opened Hunter
  import opened ReverseCrcHunter

  /** The buffer after replaying some entries, and the exception that stopped the replay. */
  datatype Outcome = Outcome(mem: seq<byte>, err: Option<Error>)

  /** `sim_memory[d:d + 4] = w` for a 4-byte `w` inside the buffer. */
  function Put(mem: seq<byte>, d: int, w: seq<byte>): (r: seq<byte>)
    requires 0 <= d && d + 4 <= |mem| && |w| == 4
    ensures |r| == |mem| && r[d..d + 4] == w
    ensures forall j :: 0 <= j < |mem| && !(d <= j < d + 4) ==> r[j] == mem[j]
  {
    mem[..d] + w + mem[d + 4..]
  }

  /** The input of an entry's first operation: the source data at `src_addr`, or the
    * buffer's word at `tsrc_off` when `src_addr` is negative (a missing `tsrc_off` is
    * `None + 4`, a TypeError). */
  function Input(data: seq<byte>, mem: seq<byte>, e: StratEntry): Result<seq<byte>>
  {
    if e.srcAddr >= 0 then Ok(Slice(data, e.srcAddr, e.srcAddr + e.srcSize))
    else if e.tsrcOff.None? then Err(TypeError)
    else Ok(Slice(mem, e.tsrcOff.value, e.tsrcOff.value + 4))
  }

  /** The destination word of an entry lies in the buffer. */
  predicate Fits(mem: seq<byte>, e: StratEntry)
  {
    0 <= e.dstOff && e.dstOff + 4 <= |mem|
  }

  /** The operations after the first: `range(1, iterations)`. */
  function Repeats(iterations: int): nat
  {
    if iterations >= 1 then iterations - 1 else 0
  }

  /** What one entry leaves in the buffer: the CRC of its input, then `iterations - 1`
    * more CRC operations over the destination word. */
  function RunEntry(data: seq<byte>, mem: seq<byte>, e: StratEntry): (r: Result<seq<byte>>)
    requires Fits(mem, e)
    ensures r.Ok? ==> |r.value| == |mem|
  {
    match Input(data, mem, e)
    case Err(x) => Err(x)
    case Ok(input) => Ok(Put(mem, e.dstOff, LE4(Iterate(Reg(Crc32(input)), Repeats(e.iterations)).bits)))
  }

  /** Every entry's destination lies in a buffer of `n` bytes. */
  predicate AllFit(n: nat, es: seq<StratEntry>)
  {
    forall i :: 0 <= i < |es| ==> 0 <= es[i].dstOff && es[i].dstOff + 4 <= n
  }

  /** What one entry does to a buffer: `RunEntry` over some source data, or, in the
    * lemmas about whole plans below, any operation with the effects they name. */
  type Effect = (seq<byte>, StratEntry) --> Result<seq<byte>>

  /** `run` takes every entry whose destination lies in the buffer and keeps the
    * buffer's size. */
  ghost predicate Sized(run: Effect)
  {
    forall m, e :: Fits(m, e) ==> run.requires(m, e) && (run(m, e).Ok? ==> |run(m, e).value| == |m|)
  }

  /** The loop of `execute_stratagem` for entry semantics `run`: the entries in order; an
    * exception stops the replay. */
  function ReplayWith(run: Effect, mem: seq<byte>, es: seq<StratEntry>): (r: Outcome)
    requires Sized(run) && AllFit(|mem|, es)
    ensures |r.mem| == |mem|
    decreases |es|
  {
    if |es| == 0 then Outcome(mem, None)
    else match run(mem, es[0])
      case Err(x) => Outcome(mem, Some(x))
      case Ok(m) => ReplayWith(run, m, es[1..])
  }

  /** The simulator's own entry semantics over source data `data`. */
  function Executor(data: seq<byte>): (run: Effect)
    ensures Sized(run)
  {
    (m: seq<byte>, e: StratEntry) requires Fits(m, e) => RunEntry(data, m, e)
  }

  /** `execute_stratagem`. */
  function Replay(data: seq<byte>, mem: seq<byte>, es: seq<StratEntry>): (r: Outcome)
    requires AllFit(|mem|, es)
  {
    ReplayWith(Executor(data), mem, es)
  }

  /** `sim_memory[d:d + 4] = state.to_bytes(4, 'little')`. */
  method WriteWord(mem: array<byte>, d: int, state: bv32)
    requires 0 <= d && d + 4 <= mem.Length
    modifies mem
    ensures mem[..] == Put(old(mem[..]), d, LE4(state))
  {
    var w := LE4(state);
    forall j | d <= j < d + 4 {
      mem[j] := w[j - d];
    }
    assert mem[..] == Put(old(mem[..]), d, w);
  }

  lemma PutPut(mem: seq<byte>, d: int, w1: seq<byte>, w2: seq<byte>)
    requires 0 <= d && d + 4 <= |mem| && |w1| == 4 && |w2| == 4
    ensures Put(Put(mem, d, w1), d, w2) == Put(mem, d, w2)
  {
  }

  lemma PutSame(mem: seq<byte>, d: int)
    requires 0 <= d && d + 4 <= |mem|
    ensures Put(mem, d, mem[d..d + 4]) == mem
  {
  }

  /** Re-reading a word written from state `cur` and taking its CRC is one more operation. */
  lemma ReadBack(word: seq<byte>, cur: Reg, s: bv32)
    requires word == LE4(cur.bits) && s == Crc32(word)
    ensures Reg(s) == Again(cur)
  {
  }

  /** The `for i in range(1, iterations)` loop: `n` CRC operations over the word at `d`. */
  method RepeatCrc(mem: array<byte>, d: int, n: nat, ghost c: Reg)
    requires 0 <= d && d + 4 <= mem.Length && mem[d..d + 4] == LE4(c.bits)
    modifies mem
    ensures mem[..] == Put(old(mem[..]), d, LE4(Iterate(c, n).bits))
  {
    ghost var m0 := mem[..];
    PutSame(m0, d);
    ghost var cur := c;
    var i := 0;
    while i < n
      invariant 0 <= i <= n
      invariant cur == Iterate(c, i)
      invariant mem[..] == Put(m0, d, LE4(cur.bits))
    {
      ghost var m1 := mem[..];
      var state := Crc32(mem[d..d + 4]);
      WriteWord(mem, d, state);
      ReadBack(m1[d..d + 4], cur, state);
      IterateLast(c, i);
      PutPut(m0, d, LE4(cur.bits), LE4(state));
      cur := Again(cur);
      i := i + 1;
    }
  }

  /** One pass of `execute_stratagem`'s loop body. */
  method ExecuteEntry(data: seq<byte>, mem: array<byte>, e: StratEntry) returns (err: Option<Error>)
    requires Fits(mem[..], e)
    modifies mem
    ensures RunEntry(data, old(mem[..]), e).Ok? ==> err.None? && mem[..] == RunEntry(data, old(mem[..]), e).value
    ensures RunEntry(data, old(mem[..]), e).Err? ==>
      err == Some(RunEntry(data, old(mem[..]), e).error) && mem[..] == old(mem[..])
  {
    ghost var m0 := mem[..];
    var input: seq<byte>;
    if e.srcAddr >= 0 {
      input := Slice(data, e.srcAddr, e.srcAddr + e.srcSize);
    } else if e.tsrcOff.None? {
      return Some(TypeError);
    } else {
      input := Slice(mem[..], e.tsrcOff.value, e.tsrcOff.value + 4);
    }
    var state := Crc32(input);
    WriteWord(mem, e.dstOff, state);
    RepeatCrc(mem, e.dstOff, Repeats(e.iterations), Reg(state));
    PutPut(m0, e.dstOff, LE4(state), LE4(Iterate(Reg(state), Repeats(e.iterations)).bits));
    EntryResult(data, m0, e, input, Iterate(Reg(state), Repeats(e.iterations)));
    err := None;
  }

  /** An entry whose input is `input` writes the state `g` its operations end in. */
  lemma EntryResult(data: seq<byte>, mem: seq<byte>, e: StratEntry, input: seq<byte>, g: Reg)
    requires Fits(mem, e) && Input(data, mem, e) == Ok(input) && Iterate(Reg(Crc32(input)), Repeats(e.iterations)) == g
    ensures RunEntry(data, mem, e) == Ok(Put(mem, e.dstOff, LE4(g.bits)))
  {
  }

  /** `execute_stratagem`. */
  method ExecuteStratagem(es: seq<StratEntry>, data: seq<byte>, mem: array<byte>) returns (err: Option<Error>)
    requires AllFit(mem.Length, es)
    modifies mem
    ensures mem[..] == Replay(data, old(mem[..]), es).mem && err == Replay(data, old(mem[..]), es).err
  {
    ghost var whole := Replay(data, mem[..], es);
    for i := 0 to |es|
      invariant AllFit(mem.Length, es[i..])
      invariant Replay(data, mem[..], es[i..]) == whole
    {
      assert es[i..][0] == es[i] && es[i..][1..] == es[i + 1..];
      err := ExecuteEntry(data, mem, es[i]);
      if err.Some? {
        return;
      }
    }
    err := None;
  }

  // ---- Replaying a planned Stratagem ----

  /** `x` is the offset of a word of a buffer of `n` bytes. */
  predicate Aligned(x: int, n: int)
  {
    0 <= x && x % 4 == 0 && x + 4 <= n
  }

  function WordAt(m: seq<byte>, x: int): seq<byte>
    requires 0 <= x && x + 4 <= |m|
  {
    m[x..x + 4]
  }

  /** `m1` is `m0` with word `w` at every offset of `ds` and nothing else changed. */
  ghost predicate Wrote(m0: seq<byte>, m1: seq<byte>, ds: seq<int>, w: seq<byte>)
  {
    |m1| == |m0| &&
    forall x {:trigger WordAt(m1, x)} :: Aligned(x, |m0|) ==> WordAt(m1, x) == (if x in ds then w else WordAt(m0, x))
  }

  predicate AllAligned(ds: seq<int>, n: int)
  {
    forall i :: 0 <= i < |ds| ==> Aligned(ds[i], n)
  }

  /** Writing one word leaves every other word alone. */
  lemma PutWord(mem: seq<byte>, d: int, w: seq<byte>, x: int)
    requires Aligned(d, |mem|) && Aligned(x, |mem|) && |w| == 4
    ensures WordAt(Put(mem, d, w), x) == (if x == d then w else WordAt(mem, x))
  {
    if x != d {
      assert x + 4 <= d || d + 4 <= x;
      var r := Put(mem, d, w);
      assert forall j :: x <= j < x + 4 ==> r[j] == mem[j];
    }
  }

  lemma AllFitConcat(n: nat, a: seq<StratEntry>, b: seq<StratEntry>)
    requires AllFit(n, a) && AllFit(n, b)
    ensures AllFit(n, a + b)
  {
    forall i | 0 <= i < |a + b|
      ensures 0 <= (a + b)[i].dstOff && (a + b)[i].dstOff + 4 <= n
    {
      if i >= |a| {
        assert (a + b)[i] == b[i - |a|];
      }
    }
  }

  /** Replaying `a + b` is replaying `a`, then `b` unless `a` stopped with an exception. */
  lemma {:induction false} ReplayConcat(run: Effect, mem: seq<byte>, a: seq<StratEntry>, b: seq<StratEntry>)
    requires Sized(run) && AllFit(|mem|, a) && AllFit(|mem|, b)
    ensures AllFit(|mem|, a + b)
    ensures ReplayWith(run, mem, a + b) ==
      (if ReplayWith(run, mem, a).err.None? then ReplayWith(run, ReplayWith(run, mem, a).mem, b) else ReplayWith(run, mem, a))
    decreases |a|
  {
    AllFitConcat(|mem|, a, b);
    if |a| == 0 {
      assert a + b == b;
    } else {
      assert (a + b)[0] == a[0] && (a + b)[1..] == a[1..] + b;
      match run(mem, a[0])
      case Err(x) =>
      case Ok(m) =>
        ReplayConcat(run, m, a[1..], b);
    }
  }

  /** Entry `Direct(c, k, d)` writes word `w` at `d`, whatever the buffer holds. */
  ghost predicate DirectEffect(run: Effect, c: CrcMatch, k: int, w: seq<byte>)
  {
    |w| == 4 &&
    forall m, d {:trigger run(m, Direct(c, k, d))} :: Aligned(d, |m|) ==> run.requires(m, Direct(c, k, d)) && run(m, Direct(c, k, d)) == Ok(Put(m, d, w))
  }

  /** Entry `FromFirst(f, d)` writes word `w` at `d` when the word at `f` is `xw`. */
  ghost predicate FirstEffect(run: Effect, xw: seq<byte>, w: seq<byte>)
  {
    |xw| == 4 && |w| == 4 &&
    forall m, f, d {:trigger run(m, FromFirst(f, d))} :: Aligned(f, |m|) && Aligned(d, |m|) && WordAt(m, f) == xw ==>
      run.requires(m, FromFirst(f, d)) && run(m, FromFirst(f, d)) == Ok(Put(m, d, w))
  }

  /** What the entries for chain `c` need to write word `w`: the whole chain gives `w`,
    * and for a chain of several operations, stopping one short gives `xw` and one more
    * operation over `xw` gives `w`. */
  ghost predicate GroupEffect(run: Effect, c: CrcMatch, xw: seq<byte>, w: seq<byte>)
  {
    DirectEffect(run, c, c.iterations, w) &&
    (c.iterations != 1 ==> DirectEffect(run, c, c.iterations - 1, xw) && FirstEffect(run, xw, w))
  }

  lemma CopiesFit(n: nat, c: CrcMatch, ds: seq<int>)
    requires AllAligned(ds, n)
    ensures AllFit(n, Copies(c, ds))
  {
  }

  lemma FinalsFit(n: nat, first: int, ds: seq<int>)
    requires AllAligned(ds, n)
    ensures AllFit(n, Finals(first, ds))
  {
  }

  /** Writing `w` at the first offset, then at the others, writes it at all of them. */
  lemma WroteCons(mem: seq<byte>, r: seq<byte>, ds: seq<int>, w: seq<byte>)
    requires |ds| > 0 && Aligned(ds[0], |mem|) && |w| == 4
    requires Wrote(Put(mem, ds[0], w), r, ds[1..], w)
    ensures Wrote(mem, r, ds, w)
  {
    forall x | Aligned(x, |mem|)
      ensures WordAt(r, x) == (if x in ds then w else WordAt(mem, x))
    {
      PutWord(mem, ds[0], w, x);
      assert x in ds <==> x == ds[0] || x in ds[1..];
    }
  }

  /** Each copy of a chain from the source data writes the chain's word. */
  lemma {:induction false} CopiesReplay(run: Effect, mem: seq<byte>, c: CrcMatch, ds: seq<int>, w: seq<byte>)
    requires Sized(run) && DirectEffect(run, c, c.iterations, w) && AllAligned(ds, |mem|)
    ensures AllFit(|mem|, Copies(c, ds))
    ensures ReplayWith(run, mem, Copies(c, ds)).err.None?
    ensures Wrote(mem, ReplayWith(run, mem, Copies(c, ds)).mem, ds, w)
    decreases |ds|
  {
    CopiesFit(|mem|, c, ds);
    var es := Copies(c, ds);
    if |ds| > 0 {
      assert es[0] == Direct(c, c.iterations, ds[0]) && es[1..] == Copies(c, ds[1..]);
      var m := Put(mem, ds[0], w);
      assert run(mem, es[0]) == Ok(m);
      assert ReplayWith(run, mem, es) == ReplayWith(run, m, es[1..]);
      CopiesReplay(run, m, c, ds[1..], w);
      WroteCons(mem, ReplayWith(run, m, Copies(c, ds[1..])).mem, ds, w);
    }
  }

  /** Each final entry takes one operation over the word at `first`. */
  lemma {:induction false} FinalsReplay(run: Effect, mem: seq<byte>, first: int, ds: seq<int>, xw: seq<byte>, w: seq<byte>)
    requires Sized(run) && FirstEffect(run, xw, w)
    requires Aligned(first, |mem|) && WordAt(mem, first) == xw && first !in ds && AllAligned(ds, |mem|)
    ensures AllFit(|mem|, Finals(first, ds))
    ensures ReplayWith(run, mem, Finals(first, ds)).err.None?
    ensures Wrote(mem, ReplayWith(run, mem, Finals(first, ds)).mem, ds, w)
    decreases |ds|
  {
    FinalsFit(|mem|, first, ds);
    var es := Finals(first, ds);
    if |ds| > 0 {
      assert es[0] == FromFirst(first, ds[0]) && es[1..] == Finals(first, ds[1..]);
      var m := Put(mem, ds[0], w);
      assert run(mem, es[0]) == Ok(m);
      assert ReplayWith(run, mem, es) == ReplayWith(run, m, es[1..]);
      PutWord(mem, ds[0], w, first);
      FinalsReplay(run, m, first, ds[1..], xw, w);
      WroteCons(mem, ReplayWith(run, m, Finals(first, ds[1..])).mem, ds, w);
    }
  }

  /** Offsets in strictly ascending order. */
  predicate Ascending(ds: seq<int>)
  {
    forall i, j :: 0 <= i < j < |ds| ==> ds[i] < ds[j]
  }

  lemma WroteOne(mem: seq<byte>, d: int, w: seq<byte>)
    requires Aligned(d, |mem|) && |w| == 4
    ensures Wrote(mem, Put(mem, d, w), [d], w)
  {
    assert [d][1..] == [];
    WroteCons(mem, Put(mem, d, w), [d], w);
  }

  /** The first offset takes word `xw`, the others `w`, and then the first `w` too. */
  lemma WroteChain(mem: seq<byte>, m2: seq<byte>, ds: seq<int>, xw: seq<byte>, w: seq<byte>)
    requires |ds| >= 2 && Aligned(ds[0], |mem|) && ds[0] !in ds[1..] && |xw| == 4 && |w| == 4
    requires Wrote(Put(mem, ds[0], xw), m2, ds[1..], w)
    ensures WordAt(m2, ds[0]) == xw
    ensures Wrote(mem, Put(m2, ds[0], w), ds, w)
  {
    PutWord(mem, ds[0], xw, ds[0]);
    forall x | Aligned(x, |mem|)
      ensures WordAt(Put(m2, ds[0], w), x) == (if x in ds then w else WordAt(mem, x))
    {
      PutWord(mem, ds[0], xw, x);
      PutWord(m2, ds[0], w, x);
      assert x in ds <==> x == ds[0] || x in ds[1..];
    }
  }

  /** A group with a single offset: the chain written there. */
  lemma SplitOne(run: Effect, mem: seq<byte>, c: CrcMatch, ds: seq<int>, w: seq<byte>)
    requires Sized(run) && |ds| == 1 && DirectEffect(run, c, c.iterations, w) && AllAligned(ds, |mem|)
    ensures AllFit(|mem|, Split(c, ds))
    ensures ReplayWith(run, mem, Split(c, ds)).err.None?
    ensures Wrote(mem, ReplayWith(run, mem, Split(c, ds)).mem, ds, w)
  {
    var m := Put(mem, ds[0], w);
    assert run(mem, Direct(c, c.iterations, ds[0])) == Ok(m);
    assert ReplayWith(run, mem, Split(c, ds)) == ReplayWith(run, m, []);
    assert ds == [ds[0]];
    WroteOne(mem, ds[0], w);
  }

  /** Replaying a single entry that fits: its own outcome. */
  lemma ReplayOne(run: Effect, mem: seq<byte>, e: StratEntry)
    requires Sized(run) && Fits(mem, e)
    ensures AllFit(|mem|, [e])
    ensures run(mem, e).Ok? ==> ReplayWith(run, mem, [e]) == Outcome(run(mem, e).value, None)
  {
    assert [e][1..] == [];
  }

  /** The first entry of a longer chain stops one operation short. */
  lemma ChainHead(run: Effect, mem: seq<byte>, c: CrcMatch, d0: int, xw: seq<byte>)
    requires Sized(run) && DirectEffect(run, c, c.iterations - 1, xw) && Aligned(d0, |mem|)
    ensures AllFit(|mem|, [Direct(c, c.iterations - 1, d0)])
    ensures ReplayWith(run, mem, [Direct(c, c.iterations - 1, d0)]) == Outcome(Put(mem, d0, xw), None)
  {
    var e := Direct(c, c.iterations - 1, d0);
    assert run(mem, e) == Ok(Put(mem, d0, xw));
    ReplayOne(run, mem, e);
  }

  /** The last entry of a group takes the final operation over the first offset's word. */
  lemma ChainLast(run: Effect, mem: seq<byte>, d0: int, xw: seq<byte>, w: seq<byte>)
    requires Sized(run) && FirstEffect(run, xw, w) && Aligned(d0, |mem|) && WordAt(mem, d0) == xw
    ensures AllFit(|mem|, [FromFirst(d0, d0)])
    ensures ReplayWith(run, mem, [FromFirst(d0, d0)]) == Outcome(Put(mem, d0, w), None)
  {
    assert run(mem, FromFirst(d0, d0)) == Ok(Put(mem, d0, w));
    ReplayOne(run, mem, FromFirst(d0, d0));
  }

  /** The first entry, then the entries for the other offsets. */
  lemma ChainBody(run: Effect, mem: seq<byte>, c: CrcMatch, ds: seq<int>, xw: seq<byte>, w: seq<byte>)
    requires Sized(run) && |ds| >= 2 && DirectEffect(run, c, c.iterations - 1, xw) && FirstEffect(run, xw, w)
    requires AllAligned(ds, |mem|) && Ascending(ds)
    ensures AllFit(|mem|, [Direct(c, c.iterations - 1, ds[0])] + Finals(ds[0], ds[1..]))
    ensures ReplayWith(run, mem, [Direct(c, c.iterations - 1, ds[0])] + Finals(ds[0], ds[1..])).err.None?
    ensures Wrote(Put(mem, ds[0], xw), ReplayWith(run, mem, [Direct(c, c.iterations - 1, ds[0])] + Finals(ds[0], ds[1..])).mem,
                  ds[1..], w)
  {
    ChainHead(run, mem, c, ds[0], xw);
    var m1 := Put(mem, ds[0], xw);
    PutWord(mem, ds[0], xw, ds[0]);
    assert ds[0] !in ds[1..];
    FinalsReplay(run, m1, ds[0], ds[1..], xw, w);
    ReplayConcat(run, mem, [Direct(c, c.iterations - 1, ds[0])], Finals(ds[0], ds[1..]));
  }

  /** A group of several offsets and a chain of several operations: the first offset
    * stops one short, the others take the last operation from it, then the first does. */
  lemma SplitChain(run: Effect, mem: seq<byte>, c: CrcMatch, ds: seq<int>, xw: seq<byte>, w: seq<byte>)
    requires Sized(run) && |ds| >= 2 && c.iterations != 1
    requires DirectEffect(run, c, c.iterations - 1, xw) && FirstEffect(run, xw, w)
    requires AllAligned(ds, |mem|) && Ascending(ds)
    ensures AllFit(|mem|, Split(c, ds))
    ensures ReplayWith(run, mem, Split(c, ds)).err.None?
    ensures Wrote(mem, ReplayWith(run, mem, Split(c, ds)).mem, ds, w)
  {
    var body := [Direct(c, c.iterations - 1, ds[0])] + Finals(ds[0], ds[1..]);
    var last := [FromFirst(ds[0], ds[0])];
    assert Split(c, ds) == body + last;
    ChainBody(run, mem, c, ds, xw, w);
    var m2 := ReplayWith(run, mem, body).mem;
    assert ds[0] !in ds[1..];
    WroteChain(mem, m2, ds, xw, w);
    ChainLast(run, m2, ds[0], xw, w);
    ReplayConcat(run, mem, body, last);
  }

  /** The entries for one group write the group's word at every offset. */
  lemma SplitReplay(run: Effect, mem: seq<byte>, c: CrcMatch, ds: seq<int>, xw: seq<byte>, w: seq<byte>)
    requires Sized(run) && |ds| >= 1 && GroupEffect(run, c, xw, w)
    requires AllAligned(ds, |mem|) && Ascending(ds)
    ensures AllFit(|mem|, Split(c, ds))
    ensures ReplayWith(run, mem, Split(c, ds)).err.None?
    ensures Wrote(mem, ReplayWith(run, mem, Split(c, ds)).mem, ds, w)
  {
    if |ds| == 1 {
      SplitOne(run, mem, c, ds, w);
    } else if c.iterations == 1 {
      CopiesReplay(run, mem, c, ds, w);
    } else {
      SplitChain(run, mem, c, ds, xw, w);
    }
  }

  /** Chain `ms[a]` writes group `a`'s word, through intermediate word `xs[a]`. */
  ghost predicate AllEffects(run: Effect, gs: seq<Group>, ms: seq<CrcMatch>, xs: seq<seq<byte>>)
  {
    |ms| <= |gs| && |xs| == |ms| &&
    forall a :: 0 <= a < |ms| ==> GroupEffect(run, ms[a], xs[a], gs[a].word)
  }

  /** Word offset `x` is listed by one of the first `n` groups. */
  ghost predicate InSome(gs: seq<Group>, n: nat, x: int)
  {
    exists a :: 0 <= a < n && a < |gs| && x in gs[a].offsets
  }

  /** `m` holds the payload's word at every offset of the first `n` groups and the
    * original buffer's word everywhere else. */
  ghost predicate PlanWrote(p: seq<byte>, mem0: seq<byte>, m: seq<byte>, gs: seq<Group>, n: nat)
  {
    |m| == |mem0| == |p| &&
    forall x {:trigger WordAt(m, x)} :: Aligned(x, |mem0|) ==> WordAt(m, x) == (if InSome(gs, n, x) then WordAt(p, x) else WordAt(mem0, x))
  }

  lemma GroupOffsets(p: seq<byte>, gs: seq<Group>, a: int)
    requires |p| % 4 == 0 && GroupsSound(p, |p| / 4, gs) && 0 <= a < |gs|
    ensures AllAligned(gs[a].offsets, |p|) && Ascending(gs[a].offsets) && |gs[a].offsets| >= 1
    ensures forall i :: 0 <= i < |gs[a].offsets| ==> WordAt(p, gs[a].offsets[i]) == gs[a].word
  {
    assert GroupSound(p, |p| / 4, gs[a]);
  }

  lemma PlanWroteStep(p: seq<byte>, mem0: seq<byte>, m1: seq<byte>, m2: seq<byte>, gs: seq<Group>, n: nat,
                      ds: seq<int>, w: seq<byte>)
    requires 1 <= n <= |gs| && ds == gs[n - 1].offsets && PlanWrote(p, mem0, m1, gs, n - 1)
    requires Wrote(m1, m2, ds, w)
    requires forall i :: 0 <= i < |ds| ==> Aligned(ds[i], |p|) && WordAt(p, ds[i]) == w
    ensures PlanWrote(p, mem0, m2, gs, n)
  {
    forall x | Aligned(x, |mem0|)
      ensures WordAt(m2, x) == (if InSome(gs, n, x) then WordAt(p, x) else WordAt(mem0, x))
    {
      if x in ds {
        var i :| 0 <= i < |ds| && ds[i] == x;
        assert InSome(gs, n, x);
      } else {
        assert InSome(gs, n, x) == InSome(gs, n - 1, x) by {
          if InSome(gs, n, x) {
            var a :| 0 <= a < n && a < |gs| && x in gs[a].offsets;
            assert a < n - 1;
          }
        }
      }
    }
  }

  /** The entries of the first `n` groups replay without an exception and write those
    * groups' words. */
  ghost predicate PlanDone(run: Effect, p: seq<byte>, mem0: seq<byte>, gs: seq<Group>, ms: seq<CrcMatch>, n: nat)
    requires Sized(run) && n <= |gs| && n <= |ms| && NonEmpty(gs)
  {
    AllFit(|mem0|, Plan(gs, ms, n)) &&
    ReplayWith(run, mem0, Plan(gs, ms, n)).err.None? &&
    PlanWrote(p, mem0, ReplayWith(run, mem0, Plan(gs, ms, n)).mem, gs, n)
  }

  /** Chain `c` writes group `g`'s word, and `g`'s offsets are ascending word offsets of
    * `p` that hold that word. */
  ghost predicate GroupReady(run: Effect, p: seq<byte>, g: Group, c: CrcMatch, xw: seq<byte>)
  {
    GroupEffect(run, c, xw, g.word) && |g.offsets| >= 1 && AllAligned(g.offsets, |p|) && Ascending(g.offsets) &&
    forall i :: 0 <= i < |g.offsets| ==> WordAt(p, g.offsets[i]) == g.word
  }

  /** The first `n` groups are ready, stated group by group from the last one back. */
  ghost predicate Ready(run: Effect, p: seq<byte>, gs: seq<Group>, ms: seq<CrcMatch>, xs: seq<seq<byte>>, n: nat)
  {
    n <= |gs| && n <= |ms| && n <= |xs| &&
    (n == 0 || (Ready(run, p, gs, ms, xs, n - 1) && GroupReady(run, p, gs[n - 1], ms[n - 1], xs[n - 1])))
  }

  lemma {:induction false} AllReady(run: Effect, p: seq<byte>, gs: seq<Group>, ms: seq<CrcMatch>, xs: seq<seq<byte>>, n: nat)
    requires |p| % 4 == 0 && GroupsSound(p, |p| / 4, gs) && AllEffects(run, gs, ms, xs) && n <= |ms|
    ensures Ready(run, p, gs, ms, xs, n)
  {
    if n > 0 {
      AllReady(run, p, gs, ms, xs, n - 1);
      GroupOffsets(p, gs, n - 1);
    }
  }

  /** Replaying the entries of the first `n` groups writes those groups' words. */
  lemma {:induction false} PlanReplay(run: Effect, p: seq<byte>, mem0: seq<byte>, gs: seq<Group>, ms: seq<CrcMatch>,
                                      xs: seq<seq<byte>>, n: nat)
    requires Sized(run) && |mem0| == |p| && NonEmpty(gs) && Ready(run, p, gs, ms, xs, n)
    ensures PlanDone(run, p, mem0, gs, ms, n)
  {
    if n == 0 {
      assert PlanWrote(p, mem0, mem0, gs, 0);
    } else {
      PlanReplay(run, p, mem0, gs, ms, xs, n - 1);
      PlanStep(run, p, mem0, gs, ms, xs[n - 1], n);
    }
  }

  /** Group `n - 1`'s entries, replayed after those of the groups before it, write its
    * word. */
  lemma PlanStep(run: Effect, p: seq<byte>, mem0: seq<byte>, gs: seq<Group>, ms: seq<CrcMatch>, xw: seq<byte>, n: nat)
    requires Sized(run) && |mem0| == |p| && 1 <= n <= |gs| && n <= |ms| && NonEmpty(gs)
    requires PlanDone(run, p, mem0, gs, ms, n - 1) && GroupReady(run, p, gs[n - 1], ms[n - 1], xw)
    ensures PlanDone(run, p, mem0, gs, ms, n)
  {
    var prev := Plan(gs, ms, n - 1);
    var m1 := ReplayWith(run, mem0, prev).mem;
    var c := ms[n - 1];
    var ds := gs[n - 1].offsets;
    SplitReplay(run, m1, c, ds, xw, gs[n - 1].word);
    var m2 := ReplayWith(run, m1, Split(c, ds)).mem;
    ReplayConcat(run, mem0, prev, Split(c, ds));
    PlanWroteStep(p, mem0, m1, m2, gs, n, ds, gs[n - 1].word);
    assert Plan(gs, ms, n) == prev + Split(c, ds);
  }

  /** Two buffers of whole words that agree on every word are equal. */
  lemma WordsEqual(m: seq<byte>, p: seq<byte>)
    requires |m| == |p| && |p| % 4 == 0
    requires forall x :: Aligned(x, |p|) ==> WordAt(m, x) == WordAt(p, x)
    ensures m == p
  {
    forall j | 0 <= j < |p|
      ensures m[j] == p[j]
    {
      var x := j - j % 4;
      assert Aligned(x, |p|);
      var i := j - x;
      assert 0 <= i < 4 && WordAt(m, x) == WordAt(p, x);
      assert m[j] == WordAt(m, x)[i];
      assert p[j] == WordAt(p, x)[i];
    }
  }

  /** For any entry semantics under which each group's chain writes the group's word,
    * replaying the plan of a payload's workload over a buffer of the payload's size
    * leaves exactly the payload. */
  lemma PlanRebuilds(run: Effect, p: seq<byte>, mem0: seq<byte>, ms: seq<CrcMatch>, xs: seq<seq<byte>>)
    requires Sized(run) && |p| % 4 == 0 && |p| > 0 && |mem0| == |p|
    requires NonEmpty(Workload(p, |p| / 4)) && |ms| == |Workload(p, |p| / 4)|
    requires AllEffects(run, Workload(p, |p| / 4), ms, xs)
    ensures AllFit(|mem0|, Plan(Workload(p, |p| / 4), ms, |ms|))
    ensures ReplayWith(run, mem0, Plan(Workload(p, |p| / 4), ms, |ms|)) == Outcome(p, None)
  {
    var n := |p| / 4;
    var gs := Workload(p, n);
    WorkloadPartition(p, n);
    AllReady(run, p, gs, ms, xs, |ms|);
    PlanReplay(run, p, mem0, gs, ms, xs, |ms|);
    WorkloadWritten(p, mem0, ReplayWith(run, mem0, Plan(gs, ms, |ms|)).mem);
  }

  /** A buffer holding the payload's word at every offset of its whole workload is the
    * payload. */
  lemma WorkloadWritten(p: seq<byte>, mem0: seq<byte>, m: seq<byte>)
    requires |p| % 4 == 0 && PlanWrote(p, mem0, m, Workload(p, |p| / 4), |Workload(p, |p| / 4)|)
    ensures m == p
  {
    var n := |p| / 4;
    var gs := Workload(p, n);
    WorkloadPartition(p, n);
    forall x | Aligned(x, |p|)
      ensures WordAt(m, x) == WordAt(p, x)
    {
      var k := x / 4;
      assert 4 * k == x && k < n;
      var a := IndexOfWord(gs, p[4 * k..4 * k + 4]);
      assert 0 <= a && x in gs[a].offsets;
      assert InSome(gs, |gs|, x);
    }
    WordsEqual(m, p);
  }

  // ---- The simulator's entries ----

  /** The state after the first operation over the source window of `c` and `n` more. */
  function SrcState(data: seq<byte>, c: CrcMatch, n: nat): Reg
  {
    Iterate(SrcReg(data, c), n)
  }

  /** The state after the first operation, over the source window of `c`. */
  function SrcReg(data: seq<byte>, c: CrcMatch): Reg
  {
    Reg(Crc32(Slice(data, c.srcAddr, c.srcAddr + c.srcSize)))
  }

  /** Entry `Direct(c, k, d)` writes the source window's state after `k - 1` more
    * operations, whatever the buffer holds. */
  lemma DirectRun(data: seq<byte>, c: CrcMatch, k: int)
    requires c.srcAddr >= 0
    ensures DirectEffect(Executor(data), c, k, LE4(SrcState(data, c, Repeats(k)).bits))
  {
    forall m: seq<byte>, d | Aligned(d, |m|)
      ensures Executor(data)(m, Direct(c, k, d)) == Ok(Put(m, d, LE4(SrcState(data, c, Repeats(k)).bits)))
    {
    }
  }

  /** Entry `FromFirst(f, d)` writes one more operation over the word at `f`. */
  lemma FromFirstRun(data: seq<byte>, x: Reg)
    ensures FirstEffect(Executor(data), LE4(x.bits), LE4(Again(x).bits))
  {
    forall m: seq<byte>, f, d | Aligned(f, |m|) && Aligned(d, |m|) && WordAt(m, f) == LE4(x.bits)
      ensures Executor(data)(m, FromFirst(f, d)) == Ok(Put(m, d, LE4(Again(x).bits)))
    {
      SliceInRange(m, f, f + 4);
    }
  }

  lemma SrcLast(data: seq<byte>, c: CrcMatch)
    requires c.iterations >= 2
    ensures Again(SrcState(data, c, Repeats(c.iterations - 1))) == SrcState(data, c, c.iterations - 1)
  {
    var n: nat := c.iterations - 2;
    assert n + 1 == c.iterations - 1 && Repeats(c.iterations - 1) == n;
    IterateLast(SrcReg(data, c), n);
  }

  /** The word one operation short of the end of chain `c`. */
  function ShortWord(data: seq<byte>, c: CrcMatch): seq<byte>
  {
    LE4(SrcState(data, c, Repeats(c.iterations - 1)).bits)
  }

  /** A chain from the source data whose last state has bytes `w` writes `w` under the
    * simulator's entries. */
  lemma ChainEffect(data: seq<byte>, c: CrcMatch, w: seq<byte>)
    requires c.srcAddr >= 0 && c.iterations >= 1 && LE4(SrcState(data, c, c.iterations - 1).bits) == w
    ensures GroupEffect(Executor(data), c, ShortWord(data, c), w)
  {
    assert Repeats(c.iterations) == c.iterations - 1;
    DirectRun(data, c, c.iterations);
    if c.iterations != 1 {
      DirectRun(data, c, c.iterations - 1);
      FromFirstRun(data, SrcState(data, c, Repeats(c.iterations - 1)));
      SrcLast(data, c);
    }
  }

  /** A `find` result for a group's word, with the hunter at address 0: its window lies in
    * the data, so the chain is run from the data's own bytes. */
  lemma MatchState(rh: RevHunter, goal: Goal, maxIter: int, c: CrcMatch)
    requires rh.base.address == 0 && Shortest(rh, goal, maxIter, c)
    ensures c.srcAddr >= 0 && c.iterations >= 1 && SrcState(rh.base.data, c, c.iterations - 1) == goal.word
  {
    var h := rh.base;
    var w := Window(c.srcOff, c.srcSize);
    assert Chain(h, rh.maxlen, w, c.iterations, goal.word);
    SliceInRange(h.data, c.srcOff, c.srcOff + c.srcSize);
    assert Reg(Crc32(Slice(h.data, c.srcAddr, c.srcAddr + c.srcSize))) == WindowCrc(h.data, w);
  }

  lemma MatchEffect(rh: RevHunter, g: Group, maxIter: int, c: CrcMatch)
    requires rh.base.address == 0 && rh.order.Little? && |g.word| == 4 && GoalOf(WordBytes(g.word), rh.order).Ok?
    requires Shortest(rh, GoalOf(WordBytes(g.word), rh.order).value, maxIter, c)
    ensures GroupEffect(Executor(rh.base.data), c, ShortWord(rh.base.data, c), g.word)
  {
    GoalOfBytes(g.word, rh.order);
    MatchState(rh, GoalOf(WordBytes(g.word), rh.order).value, maxIter, c);
    ChainEffect(rh.base.data, c, g.word);
  }

  /** Chain `a` of a plan writes its group's word. */
  lemma ChainEffectAt(rh: RevHunter, p: seq<byte>, gs: seq<Group>, maxIter: int, ms: seq<CrcMatch>, a: nat)
    requires rh.base.address == 0 && rh.order.Little? && GroupsSound(p, |p| / 4, gs) && ChainsFor(rh, gs, maxIter, ms) && a < |ms|
    ensures GroupEffect(Executor(rh.base.data), ms[a], ShortWord(rh.base.data, ms[a]), gs[a].word)
  {
    assert GroupSound(p, |p| / 4, gs[a]);
    ChainsAt(rh, gs, maxIter, ms, a);
    MatchEffect(rh, gs[a], maxIter, ms[a]);
  }

  /** Replaying a Stratagem that `build_stratagem` returns for payload `p`, from a hunter
    * whose data sits at address 0 and whose `endianness` is `'little'`, the byte order
    * the replay writes words in, over any buffer of `|p|` bytes: every entry's
    * destination lies in the buffer, no entry raises, and the buffer ends up holding
    * exactly `p`. */
  lemma ReplayRebuildsPayload(rh: RevHunter, p: seq<byte>, maxIter: int, plan: seq<StratEntry>, mem0: seq<byte>)
    requires rh.base.address == 0 && rh.order.Little? && Planned(rh, p, maxIter, plan) && |mem0| == |p|
    ensures AllFit(|mem0|, plan)
    ensures Replay(rh.base.data, mem0, plan) == Outcome(p, None)
  {
    var gs := Workload(p, |p| / 4);
    var ms :| |ms| == |gs| && ChainsFor(rh, gs, maxIter, ms) && plan == Plan(gs, ms, |ms|);
    ChainsRebuild(rh, p, maxIter, ms, mem0);
  }

  /** The plan of found chains `ms` for the workload of `p` rebuilds `p`. */
  lemma ChainsRebuild(rh: RevHunter, p: seq<byte>, maxIter: int, ms: seq<CrcMatch>, mem0: seq<byte>)
    requires rh.base.address == 0 && rh.order.Little? && |p| % 4 == 0 && |p| > 0 && |mem0| == |p|
    requires GroupsSound(p, |p| / 4, Workload(p, |p| / 4)) && NonEmpty(Workload(p, |p| / 4))
    requires |ms| == |Workload(p, |p| / 4)| && ChainsFor(rh, Workload(p, |p| / 4), maxIter, ms)
    ensures AllFit(|mem0|, Plan(Workload(p, |p| / 4), ms, |ms|))
    ensures Replay(rh.base.data, mem0, Plan(Workload(p, |p| / 4), ms, |ms|)) == Outcome(p, None)
  {
    var data := rh.base.data;
    var gs := Workload(p, |p| / 4);
    var xs := seq(|ms|, a requires 0 <= a < |ms| => ShortWord(data, ms[a]));
    forall a | 0 <= a < |ms|
      ensures GroupEffect(Executor(data), ms[a], xs[a], gs[a].word)
    {
      ChainEffectAt(rh, p, gs, maxIter, ms, a);
    }
    PlanRebuilds(Executor(data), p, mem0, ms, xs);
  }
}
