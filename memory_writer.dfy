/** `MemoryWriter` and `MemoryWordWriter` (depthcharge/memory/writer.py): a write is
  * split into blocks of the writer's block size, each handed to `_write`; a word writer
  * uses the word size as its block size and splits each block further into the byte,
  * word, long-word and quad-word stores its `_write_word` performs. The model records
  * the calls made, in order, as chunks (an address and the bytes passed). */
module MemoryWriter {
  import opened Errors
  import PyBytes
  import Arch

  type byte = PyBytes.byte

  /** One call of `_write` or `_write_word`: the address and the bytes passed. */
  datatype Chunk = Chunk(addr: int, data: seq<byte>)

  /** The bytes of the chunks, in call order. */
  function Joined(cs: seq<Chunk>): seq<byte>
  {
    if |cs| == 0 then [] else Joined(cs[..|cs| - 1]) + cs[|cs| - 1].data
  }

  /** Each chunk starts where the bytes before it end, beginning at `addr`. */
  predicate Contiguous(addr: int, cs: seq<Chunk>)
  {
    |cs| == 0 ||
    (Contiguous(addr, cs[..|cs| - 1]) && cs[|cs| - 1].addr == addr + |Joined(cs[..|cs| - 1])|)
  }

  lemma JoinedSnoc(cs: seq<Chunk>, c: Chunk)
    ensures Joined(cs + [c]) == Joined(cs) + c.data
  {
    assert (cs + [c])[..|cs|] == cs;
  }

  lemma {:induction false} JoinedAppend(x: seq<Chunk>, y: seq<Chunk>)
    ensures Joined(x + y) == Joined(x) + Joined(y)
    decreases |y|
  {
    if |y| > 0 {
      var init := y[..|y| - 1];
      assert x + y == (x + init) + [y[|y| - 1]];
      JoinedSnoc(x + init, y[|y| - 1]);
      JoinedAppend(x, init);
      assert y == init + [y[|y| - 1]];
      JoinedSnoc(init, y[|y| - 1]);
    } else {
      assert x + y == x;
    }
  }

  /** Appending a chunk that starts where the bytes end keeps the chunks contiguous. */
  lemma ContiguousSnoc(addr: int, cs: seq<Chunk>, c: Chunk)
    requires Contiguous(addr, cs)
    requires c.addr == addr + |Joined(cs)|
    ensures Contiguous(addr, cs + [c])
  {
    assert (cs + [c])[..|cs|] == cs;
  }

  /** In contiguous chunks, chunk `k` starts after the bytes of those before it. */
  lemma {:induction false} ContiguousAt(addr: int, cs: seq<Chunk>, k: nat)
    requires Contiguous(addr, cs) && k < |cs|
    ensures cs[k].addr == addr + |Joined(cs[..k])|
    decreases |cs|
  {
    if k < |cs| - 1 {
      var init := cs[..|cs| - 1];
      ContiguousAt(addr, init, k);
      assert init[..k] == cs[..k];
    }
  }

  /** Two contiguous runs, the second starting where the first ends, make one. */
  lemma {:induction false} ContiguousAppend(addr: int, x: seq<Chunk>, y: seq<Chunk>, mid: int)
    requires Contiguous(addr, x)
    requires mid == addr + |Joined(x)| && Contiguous(mid, y)
    ensures Contiguous(addr, x + y)
    decreases |y|
  {
    if |y| > 0 {
      var init, last := y[..|y| - 1], y[|y| - 1];
      ContiguousAppend(addr, x, init, mid);
      JoinedAppend(x, init);
      assert x + y == (x + init) + [last];
      ContiguousSnoc(addr, x + init, last);
    } else {
      assert x + y == x;
    }
  }

  // ---------------------------------------------------------------------------------
  // MemoryWriter.write: splitting into blocks

  /** The state `__init__` gives a writer: the block size (`block_size` keyword
    * argument, 128 by default) and whether `write` may override it. */
  datatype Config = Config(blockSize: int, allowOverride: bool)

  /** `MemoryWriter.__init__`. */
  function NewWriter(blockSize: Option<int>): (r: Config)
    ensures r.allowOverride
    ensures r.blockSize == (if blockSize.Some? then blockSize.value else 128)
  {
    Config(if blockSize.Some? then blockSize.value else 128, true)
  }

  /** `MemoryWordWriter.__init__`: one block per word, and no override. */
  function NewWordWriter(a: Arch.Architecture): (r: Config)
    ensures !r.allowOverride && r.blockSize == a.wordSize
  {
    Config(a.wordSize, false)
  }

  /** The block size `write` uses: the `block_size` keyword argument when the writer
    * allows an override and one is given, else the writer's own. */
  function EffectiveBlockSize(w: Config, requested: Option<int>): (r: int)
    ensures requested.None? || !w.allowOverride ==> r == w.blockSize
    ensures w.allowOverride && requested.Some? ==> r == requested.value
  {
    if w.allowOverride && requested.Some? then requested.value else w.blockSize
  }

  /** The loop of `write`: one `_write` per block. The blocks reassemble the data,
    * each starts where the previous one ends, and all but the last are exactly
    * `blockSize` long. */
  method SplitBlocks(addr: int, data: seq<byte>, blockSize: int) returns (blocks: seq<Chunk>)
    requires blockSize > 0
    ensures Joined(blocks) == data
    ensures Contiguous(addr, blocks)
    ensures forall k :: 0 <= k < |blocks| ==> 1 <= |blocks[k].data| <= blockSize
    ensures forall k :: 0 <= k < |blocks| - 1 ==> |blocks[k].data| == blockSize
  {
    blocks := [];
    var offset := 0;
    while offset < |data|
      invariant 0 <= offset <= |data|
      invariant Joined(blocks) == data[..offset]
      invariant Contiguous(addr, blocks)
      invariant forall k :: 0 <= k < |blocks| ==> 1 <= |blocks[k].data| <= blockSize
      invariant forall k :: 0 <= k < |blocks| - 1 ==> |blocks[k].data| == blockSize
      invariant offset < |data| ==> forall k :: 0 <= k < |blocks| ==> |blocks[k].data| == blockSize
      decreases |data| - offset
    {
      var toWrite := blockSize;
      if |data| - offset < blockSize {
        toWrite := |data| - offset;
      }
      var c := Chunk(addr + offset, data[offset..offset + toWrite]);
      JoinedSnoc(blocks, c);
      ContiguousSnoc(addr, blocks, c);
      assert data[..offset] + data[offset..offset + toWrite] == data[..offset + toWrite];
      blocks := blocks + [c];
      offset := offset + toWrite;
    }
    assert data[..|data|] == data;
  }

  /** What a write does, in order: `_setup`, the `_write` calls, `_teardown`. */
  datatype Event = Setup(addr: int, data: seq<byte>) | Write(block: Chunk) | Teardown

  function Writes(blocks: seq<Chunk>): (r: seq<Event>)
    ensures |r| == |blocks|
    ensures forall k :: 0 <= k < |r| ==> r[k] == Write(blocks[k])
  {
    if |blocks| == 0 then [] else Writes(blocks[..|blocks| - 1]) + [Write(blocks[|blocks| - 1])]
  }

  /** `MemoryWriter.write`: `_setup` unless suppressed, one `_write` per block, and
    * `_teardown` unless suppressed, which runs even when the loop raises. A block size
    * of zero makes `range` raise ValueError before any block is written; a negative
    * one makes the range empty. `blocks` are the `_write` calls. */
  method WriteData(w: Config, addr: int, data: seq<byte>, requested: Option<int>,
                   suppressSetup: bool, suppressTeardown: bool)
    returns (events: seq<Event>, blocks: seq<Chunk>, err: Option<Error>)
    ensures events == (if suppressSetup then [] else [Setup(addr, data)]) + Writes(blocks) +
                      (if suppressTeardown then [] else [Teardown])
    ensures err == (if EffectiveBlockSize(w, requested) == 0 then Some(ValueError) else None)
    ensures EffectiveBlockSize(w, requested) <= 0 ==> blocks == []
    ensures EffectiveBlockSize(w, requested) > 0 ==>
      Joined(blocks) == data && Contiguous(addr, blocks) &&
      forall k :: 0 <= k < |blocks| ==> 1 <= |blocks[k].data| <= EffectiveBlockSize(w, requested)
  {
    var bs := EffectiveBlockSize(w, requested);
    blocks := [];
    err := None;
    if bs == 0 {
      err := Some(ValueError);
    } else if bs > 0 {
      blocks := SplitBlocks(addr, data, bs);
    }
    events := (if suppressSetup then [] else [Setup(addr, data)]) + Writes(blocks) +
              (if suppressTeardown then [] else [Teardown]);
  }

  // ---------------------------------------------------------------------------------
  // MemoryWordWriter._write: splitting a block into stores

  /** The number of addresses from `p` up to the next word-aligned one. */
  function Gap(w: nat, p: int): (r: nat)
    requires w >= 1
    ensures r < w
  {
    if p % w == 0 then 0 else w - p % w
  }

  /** Of the addresses `p`, `p + 1`, ... up to `p + Gap`, only the last is aligned. */
  lemma GapMeaning(w: nat, p: int, i: int)
    requires w >= 1 && 0 <= i <= Gap(w, p)
    ensures (p + i) % w == 0 <==> i == Gap(w, p)
  {
    var q, m := p / w, p % w;
    if m != 0 {
      if m + i < w {
        PyBytes.DivModUnique(p + i, w, q, m + i);
      } else {
        PyBytes.DivModUnique(p + i, w, q + 1, 0);
      }
    }
  }

  /** A store `_write_word` can make on `a`: one, two, four or (with 64-bit data
    * accesses) eight bytes, at an address that is a multiple of its size. */
  predicate StoreOk(a: Arch.Architecture, c: Chunk)
  {
    var n := |c.data|;
    n == 1 || (n == 2 && c.addr % 2 == 0) || (n == 4 && c.addr % 4 == 0) ||
    (n == 8 && a.supports64 && c.addr % 8 == 0)
  }

  /** Every store of `cs` is one `_write_word` can make. */
  predicate AllStoresOk(a: Arch.Architecture, cs: seq<Chunk>)
  {
    |cs| == 0 || (AllStoresOk(a, cs[..|cs| - 1]) && StoreOk(a, cs[|cs| - 1]))
  }

  lemma {:induction false} AllStoresOkMeaning(a: Arch.Architecture, cs: seq<Chunk>)
    ensures AllStoresOk(a, cs) <==> forall k :: 0 <= k < |cs| ==> StoreOk(a, cs[k])
    decreases |cs|
  {
    if |cs| > 0 {
      AllStoresOkMeaning(a, cs[..|cs| - 1]);
    }
  }

  lemma {:induction false} AllStoresOkAppend(a: Arch.Architecture, x: seq<Chunk>, y: seq<Chunk>)
    requires AllStoresOk(a, x) && AllStoresOk(a, y)
    ensures AllStoresOk(a, x + y)
  {
    AllStoresOkMeaning(a, x);
    AllStoresOkMeaning(a, y);
    AllStoresOkMeaning(a, x + y);
  }

  /** The address is aligned to every store size up to `r` bytes. */
  predicate AlignedUpTo(a: Arch.Architecture, p: int, r: int)
  {
    (r >= 2 ==> p % 2 == 0) && (r >= 4 ==> p % 4 == 0) && (r >= 8 && a.supports64 ==> p % 8 == 0)
  }

  /** A power of two of at least 2, 4 or 8 is a multiple of it. */
  lemma {:induction false} PowerOfTwoDivides(w: nat)
    requires Arch.PowerOfTwo(w)
    ensures w >= 2 ==> w % 2 == 0
    ensures w >= 4 ==> w % 4 == 0
    ensures w >= 8 ==> w % 8 == 0
  {
    if w >= 2 {
      var h := w / 2;
      assert w == 2 * h;
      if h >= 2 {
        PowerOfTwoDivides(h);
        assert h == 2 * (h / 2);
        assert w == 4 * (h / 2);
        if h >= 4 {
          assert h == 4 * (h / 4);
          assert w == 8 * (h / 4);
        }
      }
    }
  }

  /** A multiple of a multiple of `k` is a multiple of `k`. */
  lemma ModOfMultiple(p: int, w: int, k: int)
    requires w > 0 && k > 0 && p % w == 0 && w % k == 0
    ensures p % k == 0
  {
    var q, h := p / w, w / k;
    assert p == w * q;
    assert w == k * h;
    assert p == k * (h * q);
    PyBytes.DivModUnique(p, k, h * q, 0);
  }

  /** A word-aligned address is aligned to every store size up to the word size. */
  lemma WordAlignedUpTo(a: Arch.Architecture, p: int, r: int)
    requires Arch.ValidArch(a) && p % a.wordSize == 0 && r <= a.wordSize
    ensures AlignedUpTo(a, p, r)
  {
    var w := a.wordSize;
    PowerOfTwoDivides(w);
    if r >= 2 {
      ModOfMultiple(p, w, 2);
    }
    if r >= 4 {
      ModOfMultiple(p, w, 4);
    }
    if r >= 8 {
      ModOfMultiple(p, w, 8);
    }
  }

  /** The size of the next store when `r` bytes remain: 8 (64-bit data only), 4, 2
    * or 1, the largest that fits. */
  function StoreSize(a: Arch.Architecture, r: int): (t: nat)
    requires r >= 1
    ensures 1 <= t <= r
  {
    if r >= 8 && a.supports64 then 8 else if r >= 4 then 4 else if r >= 2 then 2 else 1
  }

  /** `n` is the size the second loop of `_write` picks when `r` bytes remain. */
  predicate StoreChosen(a: Arch.Architecture, r: int, n: int)
  {
    r >= 1 && n == StoreSize(a, r)
  }

  /** Each store has the size picked for the bytes from its address up to `end`. */
  predicate AllChosen(a: Arch.Architecture, end: int, stores: seq<Chunk>)
  {
    |stores| == 0 ||
    (AllChosen(a, end, stores[..|stores| - 1]) &&
     StoreChosen(a, end - stores[|stores| - 1].addr, |stores[|stores| - 1].data|))
  }

  lemma {:induction false} AllChosenMeaning(a: Arch.Architecture, end: int, stores: seq<Chunk>)
    ensures AllChosen(a, end, stores) <==>
      forall k :: 0 <= k < |stores| ==> StoreChosen(a, end - stores[k].addr, |stores[k].data|)
    decreases |stores|
  {
    if |stores| > 0 {
      AllChosenMeaning(a, end, stores[..|stores| - 1]);
    }
  }

  lemma AllChosenSnoc(a: Arch.Architecture, end: int, stores: seq<Chunk>, c: Chunk)
    requires AllChosen(a, end, stores) && StoreChosen(a, end - c.addr, |c.data|)
    ensures AllChosen(a, end, stores + [c])
  {
    assert (stores + [c])[..|stores|] == stores;
  }

  /** A store of the chosen size from an address aligned to every size up to `r` is a
    * store `_write_word` can make, and leaves the next address aligned to every size up
    * to what then remains. */
  lemma StoreStep(a: Arch.Architecture, p: int, r: int, data: seq<byte>)
    requires r >= 1 && AlignedUpTo(a, p, r) && |data| == StoreSize(a, r)
    ensures StoreOk(a, Chunk(p, data))
    ensures AlignedUpTo(a, p + |data|, r - |data|)
  {
    if |data| == 8 {
      assert (p + 8) % 8 == 0 && (p + 8) % 4 == 0 && (p + 8) % 2 == 0;
    } else if |data| == 4 {
      assert (p + 4) % 4 == 0 && (p + 4) % 2 == 0;
    }
  }

  /** The second loop of `_write`, from the word-aligned offset `i0`: stores of the
    * largest size that fits in what remains. They cover the rest of the block,
    * contiguously, each is a store `_write_word` can make, and each has the size
    * picked for the bytes that remain from its address to the end of the block. */
  method StoreAligned(a: Arch.Architecture, addr: int, data: seq<byte>, i0: nat)
    returns (stores: seq<Chunk>)
    requires i0 <= |data|
    requires i0 < |data| ==> AlignedUpTo(a, addr + i0, |data| - i0)
    ensures Joined(stores) == data[i0..]
    ensures Contiguous(addr + i0, stores)
    ensures AllStoresOk(a, stores)
    ensures AllChosen(a, addr + |data|, stores)
  {
    stores := [];
    var i := i0;
    StoredStart(a, addr, data, i0);
    while i < |data|
      invariant i0 <= i <= |data|
      invariant StoredUpTo(a, addr, data, i0, i, stores)
      decreases |data| - i
    {
      var toWrite := StoreSize(a, |data| - i);
      var next := stores + [Chunk(addr + i, data[i..i + toWrite])];
      AlignedStep(a, addr, data, i0, i, stores, i + toWrite, next);
      stores, i := next, i + toWrite;
    }
    StoredAll(a, addr, data, i0, i, stores);
  }

  /** What the loop above keeps: the stores so far cover `data[i0..i]` contiguously,
    * each one can be made, and the next address is aligned for what remains. */
  predicate StoredUpTo(a: Arch.Architecture, addr: int, data: seq<byte>, i0: nat, i: nat,
                       stores: seq<Chunk>)
  {
    i0 <= i <= |data| && Joined(stores) == data[i0..i] && Contiguous(addr + i0, stores) &&
    AllStoresOk(a, stores) && (i < |data| ==> AlignedUpTo(a, addr + i, |data| - i)) &&
    AllChosen(a, addr + |data|, stores)
  }

  lemma StoredStart(a: Arch.Architecture, addr: int, data: seq<byte>, i0: nat)
    requires i0 <= |data|
    requires i0 < |data| ==> AlignedUpTo(a, addr + i0, |data| - i0)
    ensures StoredUpTo(a, addr, data, i0, i0, [])
  {
  }

  lemma StoredAll(a: Arch.Architecture, addr: int, data: seq<byte>, i0: nat, i: nat, stores: seq<Chunk>)
    requires i >= |data| && StoredUpTo(a, addr, data, i0, i, stores)
    ensures Joined(stores) == data[i0..]
    ensures Contiguous(addr + i0, stores)
    ensures AllStoresOk(a, stores)
    ensures AllChosen(a, addr + |data|, stores)
  {
  }

  /** One turn of the loop above keeps its invariant. */
  lemma AlignedStep(a: Arch.Architecture, addr: int, data: seq<byte>, i0: nat, i: nat,
                    stores: seq<Chunk>, j: nat, next: seq<Chunk>)
    requires i < |data| && StoredUpTo(a, addr, data, i0, i, stores)
    requires j == i + StoreSize(a, |data| - i) && next == stores + [Chunk(addr + i, data[i..j])]
    ensures StoredUpTo(a, addr, data, i0, j, next)
  {
    var c := Chunk(addr + i, data[i..j]);
    StoreStep(a, addr + i, |data| - i, c.data);
    JoinedSnoc(stores, c);
    ContiguousSnoc(addr + i0, stores, c);
    assert (stores + [c])[..|stores|] == stores;
    assert data[i0..i] + c.data == data[i0..j];
    ChosenStep(a, addr, data, i, stores);
  }

  /** The store the loop above appends has the size picked for what remains. */
  lemma ChosenStep(a: Arch.Architecture, addr: int, data: seq<byte>, i: nat, stores: seq<Chunk>)
    requires i < |data| && AllChosen(a, addr + |data|, stores)
    ensures var j := i + StoreSize(a, |data| - i);
      AllChosen(a, addr + |data|, stores + [Chunk(addr + i, data[i..j])])
  {
    var c := Chunk(addr + i, data[i..i + StoreSize(a, |data| - i)]);
    assert addr + |data| - c.addr == |data| - i;
    AllChosenSnoc(a, addr + |data|, stores, c);
  }

  function Min(x: int, y: int): int
  {
    if x <= y then x else y
  }

  /** `data[k:k + 1]` for `k >= 0`: the byte at `k`, or nothing past the end. */
  function Byte1(data: seq<byte>, k: int): seq<byte>
  {
    if 0 <= k < |data| then [data[k]] else []
  }

  lemma SliceOne(data: seq<byte>, k: nat)
    ensures PyBytes.Slice(data, k, k + 1) == Byte1(data, k)
  {
  }

  /** The first loop of `_write` as written: a one-byte store per address until the
    * address is word aligned, by the slice `data[i:i + 1]` whatever the block's length;
    * past the end of the block that slice is empty. The stores reassemble the bytes
    * they pass, and while they stay inside the block they are contiguous. */
  method LeadingAsWritten(a: Arch.Architecture, addr: int, data: seq<byte>) returns (stores: seq<Chunk>, i: nat)
    requires Arch.ValidArch(a)
    ensures i == Gap(a.wordSize, addr)
    ensures Arch.IsWordAligned(a, addr + i)
    ensures |stores| == i
    ensures forall k :: 0 <= k < i ==> stores[k] == Chunk(addr + k, Byte1(data, k))
    ensures Joined(stores) == data[..Min(i, |data|)]
    ensures i <= |data| ==> Contiguous(addr, stores)
    ensures i <= |data| ==> forall k :: 0 <= k < i ==> |stores[k].data| == 1
  {
    stores := [];
    i := 0;
    var g := Gap(a.wordSize, addr);
    Arch.IsWordAlignedMeaning(a, addr);
    GapMeaning(a.wordSize, addr, 0);
    while !Arch.IsWordAligned(a, addr + i)
      invariant 0 <= i <= g && |stores| == i
      invariant Arch.IsWordAligned(a, addr + i) <==> i == g
      invariant forall k :: 0 <= k < i ==> stores[k] == Chunk(addr + k, Byte1(data, k))
      decreases g - i
    {
      SliceOne(data, i);
      stores := stores + [Chunk(addr + i, PyBytes.Slice(data, i, i + 1))];
      i := i + 1;
      Arch.IsWordAlignedMeaning(a, addr + i);
      GapMeaning(a.wordSize, addr, i);
    }
    LeadingJoined(addr, data, stores, i);
  }

  /** One-byte stores at consecutive addresses reassemble the bytes they pass; inside
    * the block they are contiguous. */
  lemma LeadingJoined(addr: int, data: seq<byte>, stores: seq<Chunk>, i: nat)
    requires |stores| == i
    requires forall k :: 0 <= k < i ==> stores[k] == Chunk(addr + k, Byte1(data, k))
    ensures Joined(stores) == data[..Min(i, |data|)]
    ensures i <= |data| ==> Contiguous(addr, stores)
    ensures i <= |data| ==> forall k :: 0 <= k < i ==> |stores[k].data| == 1
  {
    LeadingBytes(addr, data, stores, i);
    if i <= |data| {
      LeadingContiguous(addr, data, stores, i);
    }
  }

  lemma {:induction false} LeadingBytes(addr: int, data: seq<byte>, stores: seq<Chunk>, i: nat)
    requires |stores| == i
    requires forall k :: 0 <= k < i ==> stores[k] == Chunk(addr + k, Byte1(data, k))
    ensures Joined(stores) == data[..Min(i, |data|)]
    decreases i
  {
    if i > 0 {
      var init, c := stores[..i - 1], stores[i - 1];
      LeadingBytes(addr, data, init, i - 1);
      assert stores == init + [c];
      JoinedSnoc(init, c);
      if i <= |data| {
        assert data[..i - 1] + [data[i - 1]] == data[..i];
      }
    }
  }

  lemma {:induction false} LeadingContiguous(addr: int, data: seq<byte>, stores: seq<Chunk>, i: nat)
    requires |stores| == i <= |data|
    requires forall k :: 0 <= k < i ==> stores[k] == Chunk(addr + k, Byte1(data, k))
    ensures Contiguous(addr, stores)
    decreases i
  {
    if i > 0 {
      var init, c := stores[..i - 1], stores[i - 1];
      LeadingContiguous(addr, data, init, i - 1);
      LeadingBytes(addr, data, init, i - 1);
      assert stores == init + [c];
      ContiguousSnoc(addr, init, c);
    }
  }

  /** The first loop of `_write` with the bound the second loop has (`i < size`): it
    * stops at the end of the block or at the first word-aligned address, whichever
    * comes first. */
  method Leading(a: Arch.Architecture, addr: int, data: seq<byte>) returns (stores: seq<Chunk>, i: nat)
    requires Arch.ValidArch(a)
    ensures i == Min(Gap(a.wordSize, addr), |data|)
    ensures i < |data| ==> Arch.IsWordAligned(a, addr + i)
    ensures |stores| == i
    ensures Joined(stores) == data[..i]
    ensures Contiguous(addr, stores)
    ensures forall k :: 0 <= k < |stores| ==> stores[k] == Chunk(addr + k, [data[k]])
  {
    stores := [];
    i := 0;
    var g := Gap(a.wordSize, addr);
    Arch.IsWordAlignedMeaning(a, addr);
    GapMeaning(a.wordSize, addr, 0);
    while i < |data| && !Arch.IsWordAligned(a, addr + i)
      invariant 0 <= i <= g && i <= |data| && |stores| == i
      invariant Arch.IsWordAligned(a, addr + i) <==> i == g
      invariant forall k :: 0 <= k < i ==> stores[k] == Chunk(addr + k, Byte1(data, k))
      decreases g - i
    {
      SliceOne(data, i);
      stores := stores + [Chunk(addr + i, PyBytes.Slice(data, i, i + 1))];
      i := i + 1;
      Arch.IsWordAlignedMeaning(a, addr + i);
      GapMeaning(a.wordSize, addr, i);
    }
    LeadingJoined(addr, data, stores, i);
  }

  /** One-byte stores, then the stores of the second loop from where they end, make the
    * stores of a block. */
  lemma {:induction false} Combine(a: Arch.Architecture, addr: int, data: seq<byte>, leading: seq<Chunk>,
                                   i: nat, rest: seq<Chunk>)
    requires i <= |data| && Joined(leading) == data[..i] && Contiguous(addr, leading)
    requires forall k :: 0 <= k < |leading| ==> |leading[k].data| == 1
    requires Joined(rest) == data[i..] && Contiguous(addr + i, rest)
    requires AllStoresOk(a, rest)
    ensures Joined(leading + rest) == data
    ensures Contiguous(addr, leading + rest)
    ensures AllStoresOk(a, leading + rest)
  {
    JoinedAppend(leading, rest);
    assert data[..i] + data[i..] == data;
    ContiguousAppend(addr, leading, rest, addr + i);
    AllStoresOkMeaning(a, leading);
    AllStoresOkAppend(a, leading, rest);
  }

  /** `MemoryWordWriter._write` as written (the `assert` bounds the block by the word
    * size). It reassembles the block and is correct once the block reaches an aligned
    * address, but a block that ends before the next aligned address gets one
    * `_write_word` call with no bytes for each address from its end up to that
    * address; `MwMemoryWriter._write_word` looks the mode up by length and raises
    * KeyError on it. */
  method WriteWordsAsWritten(a: Arch.Architecture, addr: int, data: seq<byte>) returns (stores: seq<Chunk>)
    requires Arch.ValidArch(a) && |data| <= a.wordSize
    ensures Joined(stores) == data
    ensures |data| >= Gap(a.wordSize, addr) ==>
      Contiguous(addr, stores) && AllStoresOk(a, stores)
    ensures |data| < Gap(a.wordSize, addr) ==>
      |stores| == Gap(a.wordSize, addr) &&
      forall k :: |data| <= k < |stores| ==> stores[k] == Chunk(addr + k, [])
  {
    var leading, i := LeadingAsWritten(a, addr, data);
    if i <= |data| {
      Arch.IsWordAlignedMeaning(a, addr + i);
      if i < |data| {
        WordAlignedUpTo(a, addr + i, |data| - i);
      }
      var rest := StoreAligned(a, addr, data, i);
      Combine(a, addr, data, leading, i, rest);
      stores := leading + rest;
    } else {
      stores := leading;
    }
  }

  /** The sizes `_write` picks for the block `data` at `addr`: a one-byte store at each
    * address up to the first word-aligned one or the end of the block, then from
    * there the largest size that fits in what remains of the block. */
  predicate StoresChosen(a: Arch.Architecture, addr: int, data: seq<byte>, stores: seq<Chunk>)
    requires Arch.ValidArch(a)
  {
    var g := Min(Gap(a.wordSize, addr), |data|);
    g <= |stores| &&
    (forall k :: 0 <= k < g ==> stores[k] == Chunk(addr + k, [data[k]])) &&
    AllChosen(a, addr + |data|, stores[g..])
  }

  /** `MemoryWordWriter._write` with the first loop bounded by the block: the stores
    * reassemble the block, each starts where the previous one ends, each is one,
    * two, four or (with 64-bit data) eight bytes at a multiple of its size, and the
    * sizes are the ones the two loops pick. */
  method WriteWords(a: Arch.Architecture, addr: int, data: seq<byte>) returns (stores: seq<Chunk>)
    requires Arch.ValidArch(a) && |data| <= a.wordSize
    ensures Joined(stores) == data
    ensures Contiguous(addr, stores)
    ensures AllStoresOk(a, stores)
    ensures StoresChosen(a, addr, data, stores)
  {
    var leading, i := Leading(a, addr, data);
    if i < |data| {
      Arch.IsWordAlignedMeaning(a, addr + i);
      WordAlignedUpTo(a, addr + i, |data| - i);
    }
    var rest := StoreAligned(a, addr, data, i);
    Combine(a, addr, data, leading, i, rest);
    stores := leading + rest;
    assert stores[i..] == rest;
  }

  /** The stores of the blocks, one block after another. */
  function Flatten(perBlock: seq<seq<Chunk>>): (r: seq<Chunk>)
    ensures |perBlock| > 0 ==> r == Flatten(perBlock[..|perBlock| - 1]) + perBlock[|perBlock| - 1]
  {
    if |perBlock| == 0 then [] else Flatten(perBlock[..|perBlock| - 1]) + perBlock[|perBlock| - 1]
  }

  /** Each block's stores have the sizes `_write` picks for that block. */
  predicate EachChosen(a: Arch.Architecture, blocks: seq<Chunk>, perBlock: seq<seq<Chunk>>)
    requires Arch.ValidArch(a) && |perBlock| == |blocks|
  {
    var n := |blocks|;
    n == 0 ||
    (EachChosen(a, blocks[..n - 1], perBlock[..n - 1]) &&
     StoresChosen(a, blocks[n - 1].addr, blocks[n - 1].data, perBlock[n - 1]))
  }

  lemma {:induction false} EachChosenMeaning(a: Arch.Architecture, blocks: seq<Chunk>, perBlock: seq<seq<Chunk>>)
    requires Arch.ValidArch(a) && |perBlock| == |blocks|
    requires EachChosen(a, blocks, perBlock)
    ensures forall k :: 0 <= k < |blocks| ==> StoresChosen(a, blocks[k].addr, blocks[k].data, perBlock[k])
    decreases |blocks|
  {
    var n := |blocks|;
    if n > 0 {
      EachChosenMeaning(a, blocks[..n - 1], perBlock[..n - 1]);
    }
  }

  lemma EachChosenSnoc(a: Arch.Architecture, blocks: seq<Chunk>, b: nat, perBlock: seq<seq<Chunk>>,
                       more: seq<Chunk>)
    requires Arch.ValidArch(a) && b < |blocks| && |perBlock| == b
    requires EachChosen(a, blocks[..b], perBlock)
    requires StoresChosen(a, blocks[b].addr, blocks[b].data, more)
    ensures EachChosen(a, blocks[..b + 1], perBlock + [more])
  {
    assert blocks[..b + 1][..b] == blocks[..b];
    assert (perBlock + [more])[..b] == perBlock;
  }

  /** `MemoryWordWriter.write` (with `_write` bounded as above): the data is split into
    * word-sized blocks and each block into stores, of the sizes `_write` picks for it
    * (`perBlock`). All the stores together write the data, contiguously from `addr`,
    * each one a store `_write_word` can make. */
  method WordWrite(a: Arch.Architecture, addr: int, data: seq<byte>)
    returns (blocks: seq<Chunk>, perBlock: seq<seq<Chunk>>, stores: seq<Chunk>)
    requires Arch.ValidArch(a)
    ensures Joined(blocks) == data && Contiguous(addr, blocks)
    ensures forall k :: 0 <= k < |blocks| ==> 1 <= |blocks[k].data| <= a.wordSize
    ensures forall k :: 0 <= k < |blocks| - 1 ==> |blocks[k].data| == a.wordSize
    ensures |perBlock| == |blocks|
    ensures forall k :: 0 <= k < |blocks| ==> StoresChosen(a, blocks[k].addr, blocks[k].data, perBlock[k])
    ensures stores == Flatten(perBlock)
    ensures Joined(stores) == data
    ensures Contiguous(addr, stores)
    ensures AllStoresOk(a, stores)
  {
    var w := NewWordWriter(a);
    blocks := SplitBlocks(addr, data, w.blockSize);
    stores, perBlock := [], [];
    for b := 0 to |blocks|
      invariant WrittenUpTo(a, addr, blocks, b, perBlock, stores)
    {
      var blk := blocks[b];
      var more := WriteWords(a, blk.addr, blk.data);
      var nextStores, nextPerBlock := stores + more, perBlock + [more];
      BlockStep(a, addr, blocks, b, perBlock, stores, more, nextPerBlock, nextStores);
      stores, perBlock := nextStores, nextPerBlock;
    }
    WrittenAll(a, addr, blocks, perBlock, stores);
  }

  /** What the loop above keeps: the stores of the first `b` blocks, in order, write
    * those blocks contiguously, each one a store `_write_word` can make, and each
    * block's stores have the sizes `_write` picks for it. */
  predicate WrittenUpTo(a: Arch.Architecture, addr: int, blocks: seq<Chunk>, b: nat,
                        perBlock: seq<seq<Chunk>>, stores: seq<Chunk>)
    requires Arch.ValidArch(a)
  {
    b <= |blocks| && |perBlock| == b && stores == Flatten(perBlock) &&
    Joined(stores) == Joined(blocks[..b]) && Contiguous(addr, stores) && AllStoresOk(a, stores) &&
    EachChosen(a, blocks[..b], perBlock)
  }

  lemma PrefixSnoc<T>(s: seq<T>, b: nat)
    requires b < |s|
    ensures s[..b + 1] == s[..b] + [s[b]]
  {
  }

  /** One turn of the loop above keeps its invariant. */
  lemma BlockStep(a: Arch.Architecture, addr: int, blocks: seq<Chunk>, b: nat,
                  perBlock: seq<seq<Chunk>>, stores: seq<Chunk>, more: seq<Chunk>,
                  nextPerBlock: seq<seq<Chunk>>, nextStores: seq<Chunk>)
    requires Arch.ValidArch(a) && b < |blocks| && Contiguous(addr, blocks)
    requires WrittenUpTo(a, addr, blocks, b, perBlock, stores)
    requires Joined(more) == blocks[b].data && Contiguous(blocks[b].addr, more) && AllStoresOk(a, more)
    requires StoresChosen(a, blocks[b].addr, blocks[b].data, more)
    requires nextPerBlock == perBlock + [more] && nextStores == stores + more
    ensures WrittenUpTo(a, addr, blocks, b + 1, nextPerBlock, nextStores)
  {
    var blk := blocks[b];
    PrefixSnoc(blocks, b);
    JoinedSnoc(blocks[..b], blk);
    ContiguousAt(addr, blocks, b);
    JoinedAppend(stores, more);
    ContiguousAppend(addr, stores, more, blk.addr);
    AllStoresOkAppend(a, stores, more);
    EachChosenSnoc(a, blocks, b, perBlock, more);
    assert nextPerBlock[..b] == perBlock;
  }

  lemma WrittenAll(a: Arch.Architecture, addr: int, blocks: seq<Chunk>, perBlock: seq<seq<Chunk>>,
                   stores: seq<Chunk>)
    requires Arch.ValidArch(a) && WrittenUpTo(a, addr, blocks, |blocks|, perBlock, stores)
    ensures |perBlock| == |blocks| && stores == Flatten(perBlock)
    ensures forall k :: 0 <= k < |blocks| ==> StoresChosen(a, blocks[k].addr, blocks[k].data, perBlock[k])
    ensures Joined(stores) == Joined(blocks)
    ensures Contiguous(addr, stores)
    ensures AllStoresOk(a, stores)
  {
    assert blocks[..|blocks|] == blocks;
    EachChosenMeaning(a, blocks, perBlock);
  }
}
