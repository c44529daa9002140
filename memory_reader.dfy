/** `MemoryReader` and `MemoryWordReader` (depthcharge/memory/reader.py): a word reader
  * reads whole words from the start address while at least a word remains, then the
  * largest access (8 bytes with 64-bit data, else 4, 2, 1) that fits in what is left,
  * restarting the reader (`_teardown`, then `_setup`) whenever the access size drops.
  * The bytes each `_read_word` call hands over are collected, in order, into the
  * result. */
module MemoryReader {
  import Arch
  import PyBytes
  import opened TargetMemory

  /** One `_read_word(addr, size)` call. */
  datatype Access = Access(addr: int, size: nat)

  /** What a read does, in order. */
  datatype Event = Setup(addr: int, size: int) | ReadWord(access: Access) | Teardown

  /** The bytes the accesses cover. */
  function Total(accs: seq<Access>): nat
  {
    if |accs| == 0 then 0 else Total(accs[..|accs| - 1]) + accs[|accs| - 1].size
  }

  /** Each access starts where the previous one ends, the first at `addr`. */
  predicate Contiguous(addr: int, accs: seq<Access>)
  {
    |accs| == 0 ||
    (Contiguous(addr, accs[..|accs| - 1]) && accs[|accs| - 1].addr == addr + Total(accs[..|accs| - 1]))
  }

  /** The `_read_word` calls among the events. */
  function Reads(events: seq<Event>): seq<Access>
  {
    if |events| == 0 then []
    else
      var init := Reads(events[..|events| - 1]);
      match events[|events| - 1]
      case ReadWord(acc) => init + [acc]
      case _ => init
  }

  /** The data handed over by `_read_word` (a function of the address and size it is
    * called with) for the accesses, in order. */
  type WordFn = (int, nat) -> seq<byte>

  function Fetch(readWord: WordFn, accs: seq<Access>): seq<byte>
  {
    if |accs| == 0 then []
    else Fetch(readWord, accs[..|accs| - 1]) + readWord(accs[|accs| - 1].addr, accs[|accs| - 1].size)
  }

  /** The access size `_read` continues in after the accesses: the word size, lowered
    * to each access size smaller than it. */
  function Mode(ws: int, accs: seq<Access>): int
  {
    if |accs| == 0 then ws
    else
      var m := Mode(ws, accs[..|accs| - 1]);
      if accs[|accs| - 1].size < m then accs[|accs| - 1].size else m
  }

  /** The events for the accesses: each access that drops below the current access
    * size is preceded by a restart of the reader at its address and size. */
  function Trace(ws: int, accs: seq<Access>): seq<Event>
  {
    if |accs| == 0 then []
    else
      var init, x := accs[..|accs| - 1], accs[|accs| - 1];
      Trace(ws, init) +
      (if x.size < Mode(ws, init) then [Teardown, Setup(x.addr, x.size)] else []) +
      [ReadWord(x)]
  }

  /** The `_read_word` calls of the trace are the accesses. */
  lemma {:induction false} TraceReads(ws: int, accs: seq<Access>)
    ensures Reads(Trace(ws, accs)) == accs
  {
    if |accs| > 0 {
      var init, x := accs[..|accs| - 1], accs[|accs| - 1];
      TraceReads(ws, init);
      var t := Trace(ws, init);
      var r: seq<Event> := if x.size < Mode(ws, init) then [Teardown, Setup(x.addr, x.size)] else [];
      ReadsNone(r);
      assert Reads([ReadWord(x)]) == [x] by {
        assert [ReadWord(x)][..0] == [];
      }
      ReadsConcat(t, r);
      ReadsConcat(t + r, [ReadWord(x)]);
      assert accs == init + [x];
    }
  }

  /** Events without a `_read_word` call contribute no reads. */
  lemma {:induction false} ReadsNone(r: seq<Event>)
    requires forall k :: 0 <= k < |r| ==> !r[k].ReadWord?
    ensures Reads(r) == []
    decreases |r|
  {
    if |r| > 0 {
      ReadsNone(r[..|r| - 1]);
    }
  }

  lemma {:induction false} ReadsConcat(t: seq<Event>, r: seq<Event>)
    ensures Reads(t + r) == Reads(t) + Reads(r)
    decreases |r|
  {
    if |r| > 0 {
      assert (t + r)[..|t + r| - 1] == t + r[..|r| - 1];
      ReadsConcat(t, r[..|r| - 1]);
    } else {
      assert t + r == t;
    }
  }

  /** A size `_read_word` is called with: the word size, or one, two, four or (with
    * 64-bit data) eight bytes. */
  predicate SizeOk(a: Arch.Architecture, n: nat)
  {
    n == a.wordSize || n == 1 || n == 2 || n == 4 || (n == 8 && a.supports64)
  }

  predicate AllSizesOk(a: Arch.Architecture, accs: seq<Access>)
  {
    forall k :: 0 <= k < |accs| ==> SizeOk(a, accs[k].size)
  }

  /** The size of the next access once less than a word remains. */
  function ReadSize(a: Arch.Architecture, r: int): (t: nat)
    requires r >= 1
    ensures 1 <= t <= r
  {
    if a.supports64 && r >= 8 then 8 else if r >= 4 then 4 else if r >= 2 then 2 else 1
  }

  /** `n` is the access size `_read` picks when `r` bytes remain: the word size while
    * at least a word remains, then the largest access that fits. */
  predicate ReadChosen(a: Arch.Architecture, r: int, n: int)
  {
    if r >= a.wordSize then n == a.wordSize else r >= 1 && n == ReadSize(a, r)
  }

  /** Each access has the size picked for the bytes from its address up to `end`. */
  predicate AllChosen(a: Arch.Architecture, end: int, accs: seq<Access>)
  {
    |accs| == 0 ||
    (AllChosen(a, end, accs[..|accs| - 1]) &&
     ReadChosen(a, end - accs[|accs| - 1].addr, accs[|accs| - 1].size))
  }

  lemma {:induction false} AllChosenMeaning(a: Arch.Architecture, end: int, accs: seq<Access>)
    ensures AllChosen(a, end, accs) <==>
      forall k :: 0 <= k < |accs| ==> ReadChosen(a, end - accs[k].addr, accs[k].size)
    decreases |accs|
  {
    if |accs| > 0 {
      AllChosenMeaning(a, end, accs[..|accs| - 1]);
    }
  }

  /** Appending an access of the size picked for the `r` bytes that remain at its
    * address. */
  lemma ChosenSnoc(a: Arch.Architecture, end: int, accs: seq<Access>, x: Access, r: int)
    requires AllChosen(a, end, accs) && r == end - x.addr && ReadChosen(a, r, x.size)
    ensures AllChosen(a, end, accs + [x])
  {
    assert (accs + [x])[..|accs|] == accs;
  }

  /** What appending an access does to each of the functions above. */
  lemma Snoc(a: Arch.Architecture, ws: int, addr: int, readWord: WordFn, accs: seq<Access>, x: Access)
    ensures Total(accs + [x]) == Total(accs) + x.size
    ensures Contiguous(addr, accs) && x.addr == addr + Total(accs) ==> Contiguous(addr, accs + [x])
    ensures Fetch(readWord, accs + [x]) == Fetch(readWord, accs) + readWord(x.addr, x.size)
    ensures Mode(ws, accs + [x]) == if x.size < Mode(ws, accs) then x.size else Mode(ws, accs)
    ensures Trace(ws, accs + [x]) ==
      Trace(ws, accs) + (if x.size < Mode(ws, accs) then [Teardown, Setup(x.addr, x.size)] else []) + [ReadWord(x)]
    ensures AllSizesOk(a, accs) && SizeOk(a, x.size) ==> AllSizesOk(a, accs + [x])
  {
    assert (accs + [x])[..|accs|] == accs;
  }

  /** `MemoryWordReader._read`: the events, the accesses and the data collected. The
    * accesses cover `size` bytes (none for a size that is not positive) contiguously
    * from `addr`, each of a size `_read_word` supports, and the data is what they
    * hand over, in order. */
  method ReadWords(a: Arch.Architecture, addr: int, size: int, readWord: WordFn)
    returns (events: seq<Event>, accs: seq<Access>, data: seq<byte>)
    requires a.wordSize >= 1
    ensures events == Trace(a.wordSize, accs)
    ensures Contiguous(addr, accs)
    ensures Total(accs) == (if size > 0 then size else 0)
    ensures AllSizesOk(a, accs)
    ensures AllChosen(a, addr + size, accs)
    ensures data == Fetch(readWord, accs)
  {
    var p, remaining;
    events, accs, data, p, remaining := ReadWholeWords(a, addr, size, readWord);
    var ws := a.wordSize;
    while remaining > 0
      invariant p == addr + Total(accs)
      invariant remaining == size - Total(accs) && remaining < a.wordSize
      invariant (size > 0 ==> remaining >= 0) && (size <= 0 ==> Total(accs) == 0)
      invariant Mode(a.wordSize, accs) == ws
      invariant events == Trace(a.wordSize, accs)
      invariant Contiguous(addr, accs)
      invariant AllSizesOk(a, accs)
      invariant AllChosen(a, addr + size, accs)
      invariant data == Fetch(readWord, accs)
      decreases remaining
    {
      var toRead := ReadSize(a, remaining);
      var x := Access(p, toRead);
      Snoc(a, a.wordSize, addr, readWord, accs, x);
      ChosenSnoc(a, addr + size, accs, x, remaining);
      if toRead < ws {
        ws := toRead;
        events := events + [Teardown, Setup(p, ws)];
      }
      events := events + [ReadWord(x)];
      data := data + readWord(p, toRead);
      accs := accs + [x];
      p := p + toRead;
      remaining := remaining - toRead;
    }
  }

  /** The first loop of `_read`: whole words while at least a word remains, each read
    * in the starting access mode. */
  method ReadWholeWords(a: Arch.Architecture, addr: int, size: int, readWord: WordFn)
    returns (events: seq<Event>, accs: seq<Access>, data: seq<byte>, p: int, remaining: int)
    requires a.wordSize >= 1
    ensures p == addr + Total(accs)
    ensures remaining == size - Total(accs) && remaining < a.wordSize
    ensures (size > 0 ==> remaining >= 0) && (size <= 0 ==> Total(accs) == 0)
    ensures Mode(a.wordSize, accs) == a.wordSize
    ensures events == Trace(a.wordSize, accs)
    ensures Contiguous(addr, accs)
    ensures AllSizesOk(a, accs)
    ensures AllChosen(a, addr + size, accs)
    ensures data == Fetch(readWord, accs)
  {
    var ws := a.wordSize;
    p := addr;
    remaining := size;
    events, accs, data := [], [], [];
    while remaining >= ws
      invariant p == addr + Total(accs)
      invariant remaining == size - Total(accs)
      invariant (size > 0 ==> remaining >= 0) && (size <= 0 ==> Total(accs) == 0)
      invariant Mode(a.wordSize, accs) == ws
      invariant events == Trace(a.wordSize, accs)
      invariant Contiguous(addr, accs)
      invariant AllSizesOk(a, accs)
      invariant AllChosen(a, addr + size, accs)
      invariant data == Fetch(readWord, accs)
      decreases remaining
    {
      var x := Access(p, ws);
      Snoc(a, a.wordSize, addr, readWord, accs, x);
      ChosenSnoc(a, addr + size, accs, x, remaining);
      events := events + [ReadWord(x)];
      data := data + readWord(p, ws);
      accs := accs + [x];
      p := p + ws;
      remaining := remaining - ws;
    }
  }

  /** A `_read_word` that hands over the bytes in memory. */
  ghost predicate Truthful(readWord: WordFn, mem: Mem)
  {
    forall p, n :: readWord(p, n) == Bytes(mem, p, n)
  }

  /** With truthful word reads, contiguous accesses fetch the bytes they cover. */
  lemma {:induction false} FetchTruthful(mem: Mem, readWord: WordFn, addr: int, accs: seq<Access>)
    requires Truthful(readWord, mem) && Contiguous(addr, accs)
    ensures Fetch(readWord, accs) == Bytes(mem, addr, Total(accs))
  {
    if |accs| > 0 {
      var init, x := accs[..|accs| - 1], accs[|accs| - 1];
      FetchTruthful(mem, readWord, addr, init);
      BytesSplit(mem, addr, Total(init), x.size);
    }
  }

  /** `MemoryReader.read` on a word reader: `_setup` unless suppressed, `_read`, and
    * `_teardown` unless suppressed. With truthful word reads the result is the `size`
    * bytes at `addr`. */
  method Read(a: Arch.Architecture, addr: int, size: int, readWord: WordFn,
              suppressSetup: bool, suppressTeardown: bool, ghost mem: Mem)
    returns (events: seq<Event>, accs: seq<Access>, data: seq<byte>)
    requires a.wordSize >= 1
    ensures events == (if suppressSetup then [] else [Setup(addr, size)]) + Trace(a.wordSize, accs) +
                      (if suppressTeardown then [] else [Teardown])
    ensures Contiguous(addr, accs) && Total(accs) == (if size > 0 then size else 0)
    ensures AllSizesOk(a, accs)
    ensures AllChosen(a, addr + size, accs)
    ensures data == Fetch(readWord, accs)
    ensures Truthful(readWord, mem) ==> data == Bytes(mem, addr, if size > 0 then size else 0)
  {
    var inner;
    inner, accs, data := ReadWords(a, addr, size, readWord);
    events := (if suppressSetup then [] else [Setup(addr, size)]) + inner +
              (if suppressTeardown then [] else [Teardown]);
    if Truthful(readWord, mem) {
      FetchTruthful(mem, readWord, addr, accs);
    }
  }
}
