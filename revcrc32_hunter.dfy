/** `ReverseCRC32Hunter` (hunter/revcrc32.py): a reverse lookup table from CRC-32
  * values to the shortest data window producing them, the backward walk that turns a
  * target word into a chain of CRC operations, and the plan (`build_stratagem`) that
  * writes a payload one 4-byte word at a time. */
module ReverseCrcHunter {
  import opened Errors
  import opened PyBytes
  import opened Crc
  import opened ReverseCrc
  import opened Hunter

  /** A `revlut` value: `(offset, length)` of a data window. */
  datatype Window = Window(off: int, len: int)

  /** The hunter after construction: the base hunter, `revlut_maxlen` and `_revlut`. */
  datatype RevHunter = RevHunter(base: Hunter, maxlen: int, revlut: map<Reg, Window>, order: ByteOrder)

  /** The `endianness` keyword: `'little'`, `'big'` (its default, `sys.byteorder`, is one
    * of the two), or any other value, which `int.from_bytes` refuses with ValueError. */
  datatype ByteOrder = Little | Big | OtherOrder

  /** `_data_range.stop`: one past the last searched offset. */
  function Stop(h: Hunter): int { h.endOffset + 1 }

  /** A window the table may hold: it starts at an offset the search range yields,
    * has between 1 and `maxlen` bytes, ends in the range and touches no gap. The gap
    * test is the corrected one (`Hunter.IsInGap`); the code as written also skips a
    * window that starts at or before a gap and ends at or after `gap.stop - 11`. */
  predicate Eligible(h: Hunter, maxlen: int, w: Window)
  {
    h.startOffset <= w.off && Free(w.off, h.gaps) && 1 <= w.len <= maxlen &&
    w.off + w.len <= Stop(h) && !IsInGap(w.off, w.len, h.gaps)
  }

  /** The window lies inside the data. */
  predicate Fits(data: seq<byte>, w: Window)
  {
    0 <= w.off && 0 <= w.len && w.off + w.len <= |data|
  }

  /** The CRC-32 of a window's bytes. */
  function WindowCrc(data: seq<byte>, w: Window): Reg
    requires Fits(data, w)
  {
    Reg(Crc32(data[w.off..w.off + w.len]))
  }

  /** `a` wins over `b`: it is shorter, or as long and no later. */
  predicate NoWorse(a: Window, b: Window)
  {
    a.len < b.len || (a.len == b.len && a.off <= b.off)
  }

  /** Every entry maps a CRC to an eligible window with that CRC. */
  ghost predicate Sound(h: Hunter, maxlen: int, m: map<Reg, Window>)
  {
    Valid(h) &&
    forall c :: c in m ==> Eligible(h, maxlen, m[c]) && WindowCrc(h.data, m[c]) == c
  }

  /** The table holds the CRC of `w`, with a window that wins over `w`. */
  ghost predicate Covered(h: Hunter, m: map<Reg, Window>, w: Window)
    requires Fits(h.data, w)
  {
    WindowCrc(h.data, w) in m && NoWorse(m[WindowCrc(h.data, w)], w)
  }

  /** What `_build_revlut` produces: a sound table that covers every eligible window.
    * Each CRC of an eligible window is a key, and its value is the shortest window with
    * that CRC, the first one among the shortest. */
  ghost predicate Table(h: Hunter, maxlen: int, m: map<Reg, Window>)
  {
    Sound(h, maxlen, m) &&
    forall w {:trigger Covered(h, m, w)} :: Eligible(h, maxlen, w) ==> Covered(h, m, w)
  }

  /** The insertion test: a new CRC, or a shorter window than the one stored. */
  function Insert(m: map<Reg, Window>, c: Reg, w: Window): (r: map<Reg, Window>)
  {
    if c !in m || w.len < m[c].len then m[c := w] else m
  }

  /** Every stored window starts at or before offset `i`. */
  ghost predicate StartsBy(m: map<Reg, Window>, i: int)
  {
    forall c :: c in m ==> m[c].off <= i
  }

  /** Every eligible window at offset `i` shorter than `n` bytes is covered. */
  ghost predicate CoversBelow(h: Hunter, maxlen: int, m: map<Reg, Window>, i: int, n: int)
  {
    Valid(h) &&
    forall w: Window :: Eligible(h, maxlen, w) && w.off == i && w.len < n ==> Covered(h, m, w)
  }

  /** Whatever `m0` covers, `m` covers too. */
  ghost predicate Keeps(h: Hunter, m0: map<Reg, Window>, m: map<Reg, Window>)
  {
    forall v: Window :: Fits(h.data, v) && Covered(h, m0, v) ==> Covered(h, m, v)
  }

  lemma KeepsTrans(h: Hunter, m0: map<Reg, Window>, m1: map<Reg, Window>, m2: map<Reg, Window>)
    requires Keeps(h, m0, m1) && Keeps(h, m1, m2)
    ensures Keeps(h, m0, m2)
  {
  }

  /** Inserting an eligible window with its CRC keeps the table sound, covers the window
    * when every stored window starts no later, and loses no coverage. */
  lemma InsertKeeps(h: Hunter, maxlen: int, m: map<Reg, Window>, w: Window)
    requires Sound(h, maxlen, m) && Eligible(h, maxlen, w) && StartsBy(m, w.off)
    ensures Sound(h, maxlen, Insert(m, WindowCrc(h.data, w), w))
    ensures StartsBy(Insert(m, WindowCrc(h.data, w), w), w.off)
    ensures Covered(h, Insert(m, WindowCrc(h.data, w), w), w)
    ensures Keeps(h, m, Insert(m, WindowCrc(h.data, w), w))
  {
    var c := WindowCrc(h.data, w);
    var m' := Insert(m, c, w);
    if c !in m || w.len < m[c].len {
      assert m' == m[c := w];
      forall k | k in m'
        ensures Eligible(h, maxlen, m'[k]) && WindowCrc(h.data, m'[k]) == k && m'[k].off <= w.off
      {
        if k != c {
          assert m'[k] == m[k];
        }
      }
      forall v: Window | Fits(h.data, v) && Covered(h, m, v)
        ensures Covered(h, m', v)
      {
        if WindowCrc(h.data, v) != c {
          assert m'[WindowCrc(h.data, v)] == m[WindowCrc(h.data, v)];
        }
      }
    } else {
      assert m' == m;
    }
  }

  /** One inserted window of the inner loop: the coverage bound moves past its length. */
  lemma AddStep(h: Hunter, maxlen: int, i: int, n: int, m: map<Reg, Window>, state: Reg)
    requires Sound(h, maxlen, m) && StartsBy(m, i) && CoversBelow(h, maxlen, m, i, n)
    requires Eligible(h, maxlen, Window(i, n)) && state == WindowCrc(h.data, Window(i, n))
    ensures Sound(h, maxlen, Insert(m, state, Window(i, n)))
    ensures StartsBy(Insert(m, state, Window(i, n)), i)
    ensures CoversBelow(h, maxlen, Insert(m, state, Window(i, n)), i, n + 1)
    ensures Keeps(h, m, Insert(m, state, Window(i, n)))
  {
    InsertKeeps(h, maxlen, m, Window(i, n));
  }

  /** A length whose window touches a gap adds nothing to cover. */
  lemma SkipStep(h: Hunter, maxlen: int, m: map<Reg, Window>, i: int, n: int)
    requires CoversBelow(h, maxlen, m, i, n) && IsInGap(i, n, h.gaps)
    ensures CoversBelow(h, maxlen, m, i, n + 1)
  {
  }

  /** Past the end of the range no window at `i` is eligible. */
  lemma EndStep(h: Hunter, maxlen: int, m: map<Reg, Window>, i: int, n: int)
    requires CoversBelow(h, maxlen, m, i, n) && (Stop(h) - i < n || maxlen < n)
    ensures CoversBelow(h, maxlen, m, i, maxlen + 1)
  {
  }

  /** Extending a window's CRC by the bytes that follow it. */
  lemma Extend(data: seq<byte>, i: int, p: int, n: int, state: bv32)
    requires 0 <= i && 0 <= p <= n && i + n <= |data|
    requires Reg(state) == WindowCrc(data, Window(i, p))
    ensures Reg(Crc32From(state, data[i + p..i + n])) == WindowCrc(data, Window(i, n))
  {
    Crc32Chain(0, data[i..i + p], data[i + p..i + n]);
    assert data[i..i + p] + data[i + p..i + n] == data[i..i + n];
  }

  /** The inner loop of `_build_revlut` at offset `i`: windows of 1, 2, ... bytes from
    * `i`, stopping at the end of the range or after `maxlen`, extending one running CRC
    * and skipping the lengths whose window touches a gap. */
  method AddWindows(h: Hunter, maxlen: int, i: int, m0: map<Reg, Window>) returns (m: map<Reg, Window>)
    requires Sound(h, maxlen, m0) && maxlen >= 1 && h.startOffset <= i < Stop(h) && Free(i, h.gaps)
    requires StartsBy(m0, i)
    ensures Sound(h, maxlen, m) && StartsBy(m, i)
    ensures CoversBelow(h, maxlen, m, i, maxlen + 1)
    ensures Keeps(h, m0, m)
  {
    m := m0;
    var dataLeft := Stop(h) - i;
    var state: bv32 := 0;
    var prev := 0;
    assert h.data[i..i] == [];
    for n := 1 to maxlen + 1
      invariant 0 <= prev < n && prev <= dataLeft
      invariant Reg(state) == WindowCrc(h.data, Window(i, prev))
      invariant Sound(h, maxlen, m) && StartsBy(m, i)
      invariant CoversBelow(h, maxlen, m, i, n)
      invariant Keeps(h, m0, m)
    {
      if dataLeft < n {
        EndStep(h, maxlen, m, i, n);
        break;
      }
      if IsInGap(i, n, h.gaps) {
        SkipStep(h, maxlen, m, i, n);
        continue;
      }
      ghost var before := m;
      ghost var old_state := state;
      state := Crc32From(state, h.data[i + prev..i + n]);
      Extend(h.data, i, prev, n, old_state);
      m := Insert(m, Reg(state), Window(i, n));
      AddStep(h, maxlen, i, n, before, Reg(state));
      KeepsTrans(h, m0, before, m);
      prev := n;
    }
  }

  /** Every eligible window starting before offset `i` is covered. */
  ghost predicate CoversTo(h: Hunter, maxlen: int, m: map<Reg, Window>, i: int)
  {
    Valid(h) &&
    forall w: Window :: Eligible(h, maxlen, w) && w.off < i ==> Covered(h, m, w)
  }

  /** One offset `x` of the outer loop, reached from `i0` past offsets that lie in gaps. */
  lemma OuterStep(h: Hunter, maxlen: int, m: map<Reg, Window>, m': map<Reg, Window>, i0: int, x: int)
    requires CoversTo(h, maxlen, m, i0) && Keeps(h, m, m') && CoversBelow(h, maxlen, m', x, maxlen + 1)
    requires forall y :: i0 <= y < x ==> !Free(y, h.gaps)
    ensures CoversTo(h, maxlen, m', x + 1)
  {
  }

  /** The outer loop is done once the offsets left before the end all lie in gaps. */
  lemma OuterDone(h: Hunter, maxlen: int, m: map<Reg, Window>, i0: int)
    requires CoversTo(h, maxlen, m, i0) && Sound(h, maxlen, m)
    requires forall y :: i0 <= y < Stop(h) ==> !Free(y, h.gaps)
    ensures Table(h, maxlen, m)
  {
  }

  /** `_build_revlut`: for each offset of the search range outside every gap, the windows
    * of 1 to `maxlen` bytes that start there, keeping per CRC the shortest (the first
    * among the shortest) window. */
  method BuildRevlut(h: Hunter, maxlen: int) returns (m: map<Reg, Window>)
    requires Valid(h) && maxlen >= 1
    ensures Table(h, maxlen, m)
  {
    m := map[];
    var it := new GappedRangeIter(Range(h.startOffset, Stop(h)), h.gaps);
    while true
      invariant it.stop == Stop(h) && it.gaps == h.gaps && h.startOffset <= it.i
      invariant Sound(h, maxlen, m) && StartsBy(m, it.i - 1)
      invariant CoversTo(h, maxlen, m, it.i)
      decreases |it.Remaining()|
    {
      ghost var i0 := it.i;
      var x := it.Next();
      if x.None? {
        OuterDone(h, maxlen, m, i0);
        return;
      }
      ghost var before := m;
      m := AddWindows(h, maxlen, x.value, m);
      OuterStep(h, maxlen, before, m, i0, x.value);
    }
  }

  /** Any two tables for the same hunter and `maxlen` are equal: `Table` pins the
    * result of `_build_revlut` down completely. */
  lemma TableUnique(h: Hunter, maxlen: int, m1: map<Reg, Window>, m2: map<Reg, Window>)
    requires Table(h, maxlen, m1) && Table(h, maxlen, m2)
    ensures m1 == m2
  {
    forall c | c in m1 ensures c in m2 && m2[c] == m1[c]
    {
      var w := m1[c];
      assert Covered(h, m2, w);
      assert Covered(h, m1, m2[c]);
    }
    forall c | c in m2 ensures c in m1
    {
      assert Covered(h, m1, m2[c]);
    }
  }

  /** One CRC operation over a 4-byte word held in memory (little-endian). */
  function Again(c: Reg): Reg
  {
    Reg(Crc32(LE4(c.bits)))
  }

  /** The state after `n` more CRC operations, each over the previous state's bytes. */
  function Iterate(c: Reg, n: nat): Reg
    decreases n
  {
    if n == 0 then c else Iterate(Again(c), n - 1)
  }

  lemma {:induction false} IterateLast(c: Reg, n: nat)
    ensures Iterate(c, n + 1) == Again(Iterate(c, n))
    decreases n
  {
    if n > 0 {
      IterateLast(Again(c), n - 1);
    }
  }

  /** Different starting states stay different: the CRC of 4 bytes is a bijection. */
  lemma {:induction false} IterateInjective(a: Reg, b: Reg, n: nat)
    requires Iterate(a, n) == Iterate(b, n)
    ensures a == b
    decreases n
  {
    if n > 0 {
      IterateInjective(Again(a), Again(b), n - 1);
      Crc4Injective(a.bits, b.bits);
    }
  }

  /** A keyword argument that must be an `int`. */
  datatype IntArg = Int(v: int) | NotInt

  /** `revlut_maxlen`'s default. */
  const DefaultMaxLen := 256

  /** What every constructed `ReverseCRC32Hunter` satisfies. */
  ghost predicate RevValid(rh: RevHunter)
  {
    Table(rh.base, rh.maxlen, rh.revlut) && rh.maxlen >= 1
  }

  /** `ReverseCRC32Hunter.__init__`: the base hunter first, then `revlut_maxlen` must be
    * an int (TypeError) of at least 1 (ValueError), then `_build_revlut`; `endianness`
    * is kept as given. */
  method NewRevHunter(data: seq<byte>, address: int, startOffset: int, endOffset: int,
                      gs: seq<GapSpec>, maxlen: IntArg, order: ByteOrder) returns (r: Result<RevHunter>)
    ensures Make(data, address, startOffset, endOffset, gs).Err? ==>
      r == Err(Make(data, address, startOffset, endOffset, gs).error)
    ensures Make(data, address, startOffset, endOffset, gs).Ok? && maxlen.NotInt? ==> r == Err(TypeError)
    ensures Make(data, address, startOffset, endOffset, gs).Ok? && maxlen.Int? && maxlen.v < 1 ==>
      r == Err(ValueError)
    ensures r.Ok? ==> (Make(data, address, startOffset, endOffset, gs).Ok? && maxlen.Int? &&
                       r.value.base == Make(data, address, startOffset, endOffset, gs).value &&
                       r.value.maxlen == maxlen.v && r.value.order == order && RevValid(r.value))
  {
    var b := New(data, address, startOffset, endOffset, gs);
    if b.Err? {
      return Err(b.error);
    }
    if maxlen.NotInt? {
      return Err(TypeError);
    }
    if maxlen.v < 1 {
      return Err(ValueError);
    }
    var m := BuildRevlut(b.value, maxlen.v);
    return Ok(RevHunter(b.value, maxlen.v, m, order));
  }

  /** `find`'s target after its conversion: the 32-bit key to look up, and whether the
    * target is that key itself. An int outside 0..2^32-1 is no key of the table, but
    * `reverse_crc32_4bytes` only reads its low 32 bits. */
  datatype Goal = Goal(word: Reg, exact: bool)

  /** `find`'s target: 4 bytes, an int, or anything else. */
  datatype Target = WordBytes(b: seq<byte>) | WordInt(v: int) | NotWord

  /** Four bytes in the opposite order. */
  function Reversed4(b: seq<byte>): (r: seq<byte>)
    requires |b| == 4
    ensures |r| == 4 && forall i :: 0 <= i < 4 ==> r[i] == b[3 - i]
  {
    [b[3], b[2], b[1], b[0]]
  }

  /** The target conversion of `find`: bytes of length 4 are read in the hunter's byte
    * order, other lengths or an unknown byte order are a ValueError, a non-int is a
    * TypeError. */
  function GoalOf(t: Target, order: ByteOrder): (r: Result<Goal>)
    ensures r.Err? <==> t.NotWord? || (t.WordBytes? && (|t.b| != 4 || order.OtherOrder?))
    ensures r.Err? ==> r.error == (if t.NotWord? then TypeError else ValueError)
    ensures t.WordInt? ==> r.Ok? && r.value.exact == (0 <= t.v < 0x1_0000_0000)
  {
    match t
    case WordBytes(b) =>
      if |b| != 4 then Err(ValueError)
      else
        (match order
         case Little => Ok(Goal(Reg(FromLE4(b)), true))
         case Big => Ok(Goal(Reg(FromLE4(Reversed4(b))), true))
         case OtherOrder => Err(ValueError))
    case WordInt(v) => Ok(Goal(Reg((v % 0x1_0000_0000) as bv32), 0 <= v < 0x1_0000_0000))
    case NotWord => Err(TypeError)
  }

  /** Four bytes become the exact key whose bytes they are in the hunter's byte order:
    * its little-endian bytes, or those reversed for `'big'`. */
  lemma GoalOfBytes(b: seq<byte>, order: ByteOrder)
    requires |b| == 4 && !order.OtherOrder?
    ensures GoalOf(WordBytes(b), order).Ok? && GoalOf(WordBytes(b), order).value.exact
    ensures order.Little? ==> LE4(GoalOf(WordBytes(b), order).value.word.bits) == b
    ensures order.Big? ==> Reversed4(LE4(GoalOf(WordBytes(b), order).value.word.bits)) == b
  {
    if order.Little? {
      LE4FromLE4(b);
    } else {
      LE4FromLE4(Reversed4(b));
    }
  }

  /** A chain of `k` CRC operations producing `t`: one over the eligible window `w`, then
    * `k - 1` over the 4-byte result in place. */
  ghost predicate Chain(h: Hunter, maxlen: int, w: Window, k: int, t: Reg)
  {
    Valid(h) && Eligible(h, maxlen, w) && k >= 1 && Iterate(WindowCrc(h.data, w), k - 1) == t
  }

  /** `_do_search`'s result: the `src_off`, `src_addr`, `src_size` and `iterations` keys. */
  datatype CrcMatch = CrcMatch(srcOff: int, srcAddr: int, srcSize: int, iterations: int)

  /** The table's entry for an eligible window's CRC wins over that window. */
  lemma Lookup(h: Hunter, maxlen: int, m: map<Reg, Window>, w: Window)
    requires Table(h, maxlen, m) && Eligible(h, maxlen, w)
    ensures WindowCrc(h.data, w) in m && NoWorse(m[WindowCrc(h.data, w)], w)
  {
    assert Covered(h, m, w);
  }

  /** The first operation of a chain shows the CRC its window must have. */
  lemma ChainStart(a: Reg, cur: Reg, k: int, t: Reg)
    requires k >= 1 && Iterate(a, k - 1) == t && Iterate(cur, k - 1) == t
    ensures a == cur
  {
    IterateInjective(a, cur, k - 1);
  }

  /** No chain of `k` operations produces `t`. */
  ghost predicate NoChainAt(h: Hunter, maxlen: int, t: Reg, k: int)
  {
    forall w: Window :: !Chain(h, maxlen, w, k, t)
  }

  /** No chain of fewer than `k` operations produces `t`, except a single operation
    * when the target is not `t` itself. */
  ghost predicate NoChainBelow(h: Hunter, maxlen: int, t: Reg, exact: bool, k: int)
  {
    forall w: Window, j :: (1 <= j < k && Chain(h, maxlen, w, j, t)) ==> j == 1 && !exact
  }

  lemma BelowStep(h: Hunter, maxlen: int, t: Reg, exact: bool, k: int)
    requires NoChainBelow(h, maxlen, t, exact, k) && k >= 1
    requires NoChainAt(h, maxlen, t, k) || (k == 1 && !exact)
    ensures NoChainBelow(h, maxlen, t, exact, k + 1)
  {
    forall w: Window, j | 1 <= j < k + 1 && Chain(h, maxlen, w, j, t) ensures j == 1 && !exact
    {
      if j == k && !(k == 1 && !exact) {
        assert false;
      }
    }
  }

  /** A lookup that misses rules out every chain of that length. */
  lemma MissStep(h: Hunter, maxlen: int, m: map<Reg, Window>, cur: Reg, k: int, t: Reg)
    requires Table(h, maxlen, m) && cur !in m && k >= 1 && Iterate(cur, k - 1) == t
    ensures NoChainAt(h, maxlen, t, k)
  {
    forall w: Window | Chain(h, maxlen, w, k, t) ensures false
    {
      ChainStart(WindowCrc(h.data, w), cur, k, t);
      Lookup(h, maxlen, m, w);
    }
  }

  /** A lookup that hits gives a chain of that length, and wins over every other one. */
  lemma HitStep(h: Hunter, maxlen: int, m: map<Reg, Window>, cur: Reg, k: int, t: Reg)
    requires Table(h, maxlen, m) && cur in m && k >= 1 && Iterate(cur, k - 1) == t
    ensures Chain(h, maxlen, m[cur], k, t)
    ensures forall w: Window :: Chain(h, maxlen, w, k, t) ==> NoWorse(m[cur], w)
  {
    forall w: Window | Chain(h, maxlen, w, k, t) ensures NoWorse(m[cur], w)
    {
      ChainStart(WindowCrc(h.data, w), cur, k, t);
      Lookup(h, maxlen, m, w);
    }
  }

  lemma AgainOf(x: bv32, c: Reg)
    requires Crc32(LE4(x)) == c.bits
    ensures Again(Reg(x)) == c
  {
  }

  /** Walking one operation backwards: the reversed word needs one more operation. */
  lemma BackStep(cur: Reg, prev: Reg, k: nat, t: Reg)
    requires Iterate(cur, k) == t && Again(prev) == cur
    ensures Iterate(prev, k + 1) == t
  {
  }

  /** A `find` result for goal `g`: a chain of `iterations` operations within
    * `max_iterations`, of as few operations as any chain, over a window that wins over
    * every window giving a chain of that length, at `src_addr = address + src_off`. */
  ghost predicate Shortest(rh: RevHunter, g: Goal, maxIter: int, c: CrcMatch)
  {
    1 <= c.iterations <= maxIter && c.srcAddr == rh.base.address + c.srcOff &&
    Chain(rh.base, rh.maxlen, Window(c.srcOff, c.srcSize), c.iterations, g.word) &&
    (g.exact || c.iterations >= 2) &&
    NoChainBelow(rh.base, rh.maxlen, g.word, g.exact, c.iterations) &&
    forall w: Window :: Chain(rh.base, rh.maxlen, w, c.iterations, g.word) ==>
      NoWorse(Window(c.srcOff, c.srcSize), w)
  }

  /** The loop of `find` over `_do_search`: look the goal up; while it misses, replace
    * it by the word whose CRC it is, up to `max_iterations` lookups. A miss means no
    * chain of at most `max_iterations` operations exists. With `max_iterations < 1` the
    * error message names the unbound loop variable. */
  method Walk(rh: RevHunter, g: Goal, maxIter: int) returns (r: Result<CrcMatch>)
    requires RevValid(rh)
    ensures maxIter < 1 ==> r == Err(NameError)
    ensures maxIter >= 1 ==> r.Ok? || r == Err(HunterResultNotFound)
    ensures r.Ok? ==> Shortest(rh, g, maxIter, r.value)
    ensures r == Err(HunterResultNotFound) ==> NoChainBelow(rh.base, rh.maxlen, g.word, g.exact, maxIter + 1)
  {
    var cur := g.word;
    var exact := g.exact;
    var k := 1;
    while k <= maxIter
      invariant 1 <= k <= (if maxIter >= 1 then maxIter + 1 else 1)
      invariant Iterate(cur, k - 1) == g.word
      invariant exact == (g.exact || k >= 2)
      invariant NoChainBelow(rh.base, rh.maxlen, g.word, g.exact, k)
    {
      if exact && cur in rh.revlut {
        HitStep(rh.base, rh.maxlen, rh.revlut, cur, k, g.word);
        var w := rh.revlut[cur];
        return Ok(CrcMatch(w.off, rh.base.address + w.off, w.len, k));
      }
      if exact {
        MissStep(rh.base, rh.maxlen, rh.revlut, cur, k, g.word);
      }
      BelowStep(rh.base, rh.maxlen, g.word, g.exact, k);
      var prev := ReverseCrc32(cur.bits);
      AgainOf(prev, cur);
      BackStep(cur, Reg(prev), k - 1, g.word);
      cur := Reg(prev);
      exact := true;
      k := k + 1;
    }
    if k == 1 {
      return Err(NameError);
    }
    return Err(HunterResultNotFound);
  }

  /** `find`: the target conversion, then the walk. */
  method Find(rh: RevHunter, target: Target, maxIter: int) returns (r: Result<CrcMatch>)
    requires RevValid(rh)
    ensures GoalOf(target, rh.order).Err? ==> r == Err(GoalOf(target, rh.order).error)
    ensures GoalOf(target, rh.order).Ok? && maxIter < 1 ==> r == Err(NameError)
    ensures GoalOf(target, rh.order).Ok? && maxIter >= 1 ==> r.Ok? || r == Err(HunterResultNotFound)
    ensures r.Ok? ==> GoalOf(target, rh.order).Ok? && Shortest(rh, GoalOf(target, rh.order).value, maxIter, r.value)
    ensures r == Err(HunterResultNotFound) ==> GoalOf(target, rh.order).Ok?
    ensures r == Err(HunterResultNotFound) ==>
      NoChainBelow(rh.base, rh.maxlen, GoalOf(target, rh.order).value.word, GoalOf(target, rh.order).value.exact, maxIter + 1)
  {
    var g := GoalOf(target, rh.order);
    if g.Err? {
      return Err(g.error);
    }
    r := Walk(rh, g.value, maxIter);
  }

  /** One `workload` entry of `build_stratagem`: a 4-byte word of the payload and the
    * offsets where it occurs. */
  datatype Group = Group(word: seq<byte>, offsets: seq<int>)

  /** The position of `w` among the groups' words, or -1: the dict lookup `workload[word]`. */
  function IndexOfWord(gs: seq<Group>, w: seq<byte>): (r: int)
    ensures -1 <= r < |gs|
    ensures r >= 0 ==> gs[r].word == w
    ensures r < 0 ==> forall j :: 0 <= j < |gs| ==> gs[j].word != w
  {
    if |gs| == 0 then -1
    else if gs[0].word == w then 0
    else
      var k := IndexOfWord(gs[1..], w);
      if k < 0 then -1 else k + 1
  }

  /** `workload[word].append(i)`, or `workload[word] = [i]` for a new word (which a
    * dict keeps after all earlier keys). */
  function AddWord(gs: seq<Group>, w: seq<byte>, off: int): seq<Group>
  {
    var k := IndexOfWord(gs, w);
    if k < 0 then gs + [Group(w, [off])] else gs[k := Group(w, gs[k].offsets + [off])]
  }

  /** The workload after the first `n` words of the payload. */
  function Workload(p: seq<byte>, n: nat): seq<Group>
    requires 4 * n <= |p|
  {
    if n == 0 then [] else AddWord(Workload(p, n - 1), p[4 * (n - 1)..4 * n], 4 * (n - 1))
  }

  /** The words of different groups differ. */
  ghost predicate DistinctWords(gs: seq<Group>)
  {
    forall a, b :: 0 <= a < b < |gs| ==> gs[a].word != gs[b].word
  }

  /** Every group is non-empty; its offsets ascend, are word offsets among the first `n`
    * words of `p`, and show the group's word there. */
  ghost predicate GroupsSound(p: seq<byte>, n: nat, gs: seq<Group>)
  {
    4 * n <= |p| &&
    forall a :: 0 <= a < |gs| ==> GroupSound(p, n, gs[a])
  }

  ghost predicate GroupSound(p: seq<byte>, n: nat, g: Group)
    requires 4 * n <= |p|
  {
    |g.offsets| >= 1 && |g.word| == 4 &&
    (forall i :: 0 <= i < |g.offsets| ==>
       0 <= g.offsets[i] && g.offsets[i] % 4 == 0 && g.offsets[i] + 4 <= 4 * n &&
       p[g.offsets[i]..g.offsets[i] + 4] == g.word) &&
    (forall i, j :: 0 <= i < j < |g.offsets| ==> g.offsets[i] < g.offsets[j])
  }

  /** Groups are in the order their words first appear. */
  ghost predicate FirstAppearance(gs: seq<Group>)
  {
    forall a, b :: 0 <= a < b < |gs| && |gs[a].offsets| >= 1 && |gs[b].offsets| >= 1 ==>
      gs[a].offsets[0] < gs[b].offsets[0]
  }

  /** Every one of the first `n` words is in the group of its value. */
  ghost predicate GroupsCover(p: seq<byte>, n: nat, gs: seq<Group>)
  {
    4 * n <= |p| &&
    forall k :: 0 <= k < n ==>
      IndexOfWord(gs, p[4 * k..4 * k + 4]) >= 0 && 4 * k in gs[IndexOfWord(gs, p[4 * k..4 * k + 4])].offsets
  }

  lemma AddDistinct(gs: seq<Group>, w: seq<byte>, off: int)
    requires DistinctWords(gs)
    ensures DistinctWords(AddWord(gs, w, off))
  {
    var r := AddWord(gs, w, off);
    var k := IndexOfWord(gs, w);
    forall a, b | 0 <= a < b < |r| ensures r[a].word != r[b].word
    {
      if k >= 0 {
        assert r[a].word == gs[a].word && r[b].word == gs[b].word;
      } else if b < |gs| {
        assert r[a] == gs[a] && r[b] == gs[b];
      } else {
        assert r[a] == gs[a];
      }
    }
  }

  lemma GroupGrow(p: seq<byte>, n: nat, g: Group)
    requires 4 * (n + 1) <= |p| && GroupSound(p, n, g)
    ensures GroupSound(p, n + 1, g)
  {
  }

  lemma GroupAppend(p: seq<byte>, n: nat, g: Group)
    requires 4 * (n + 1) <= |p| && GroupSound(p, n, g) && g.word == p[4 * n..4 * n + 4]
    ensures GroupSound(p, n + 1, Group(g.word, g.offsets + [4 * n]))
  {
    var o := g.offsets + [4 * n];
    assert forall i :: 0 <= i < |g.offsets| ==> o[i] == g.offsets[i];
  }

  lemma AddSound(p: seq<byte>, n: nat, gs: seq<Group>)
    requires 4 * (n + 1) <= |p| && GroupsSound(p, n, gs)
    ensures GroupsSound(p, n + 1, AddWord(gs, p[4 * n..4 * n + 4], 4 * n))
  {
    var w := p[4 * n..4 * n + 4];
    var r := AddWord(gs, w, 4 * n);
    var k := IndexOfWord(gs, w);
    forall a | 0 <= a < |r| ensures GroupSound(p, n + 1, r[a])
    {
      if a < |gs| && a != k {
        assert r[a] == gs[a];
        GroupGrow(p, n, gs[a]);
      } else if a == k {
        GroupAppend(p, n, gs[a]);
      } else {
        assert r[a] == Group(w, [4 * n]);
      }
    }
  }

  lemma AddFirst(p: seq<byte>, n: nat, gs: seq<Group>)
    requires 4 * (n + 1) <= |p| && GroupsSound(p, n, gs) && FirstAppearance(gs)
    ensures FirstAppearance(AddWord(gs, p[4 * n..4 * n + 4], 4 * n))
  {
    var w := p[4 * n..4 * n + 4];
    var r := AddWord(gs, w, 4 * n);
    var k := IndexOfWord(gs, w);
    forall a, b | 0 <= a < b < |r| && |r[a].offsets| >= 1 && |r[b].offsets| >= 1
      ensures r[a].offsets[0] < r[b].offsets[0]
    {
      if k >= 0 {
        assert r[a].offsets[0] == gs[a].offsets[0] && r[b].offsets[0] == gs[b].offsets[0];
      } else if b < |gs| {
        assert r[a] == gs[a] && r[b] == gs[b];
      } else {
        assert r[a] == gs[a] && GroupSound(p, n, gs[a]);
      }
    }
  }

  lemma AddCover(p: seq<byte>, n: nat, gs: seq<Group>)
    requires 4 * (n + 1) <= |p| && GroupsCover(p, n, gs)
    ensures GroupsCover(p, n + 1, AddWord(gs, p[4 * n..4 * n + 4], 4 * n))
  {
    var w := p[4 * n..4 * n + 4];
    var r := AddWord(gs, w, 4 * n);
    var k := IndexOfWord(gs, w);
    forall q | 0 <= q < n + 1
      ensures IndexOfWord(r, p[4 * q..4 * q + 4]) >= 0 && 4 * q in r[IndexOfWord(r, p[4 * q..4 * q + 4])].offsets
    {
      var v := p[4 * q..4 * q + 4];
      KeepIndex(gs, w, 4 * n, v);
      if q < n {
        var i := IndexOfWord(gs, v);
        assert r[i].offsets == gs[i].offsets || r[i].offsets == gs[i].offsets + [4 * n];
      }
    }
  }

  /** Adding keeps every word's position, and a new word goes last. */
  lemma KeepIndex(gs: seq<Group>, w: seq<byte>, off: int, v: seq<byte>)
    ensures IndexOfWord(gs, v) >= 0 ==> IndexOfWord(AddWord(gs, w, off), v) == IndexOfWord(gs, v)
    ensures v == w ==> IndexOfWord(AddWord(gs, w, off), v) >= 0
    ensures IndexOfWord(gs, v) < 0 && v == w ==> IndexOfWord(AddWord(gs, w, off), v) == |gs|
  {
    var k := IndexOfWord(gs, w);
    if k < 0 {
      IndexAppend(gs, Group(w, [off]), v);
    } else {
      SameWords(gs, AddWord(gs, w, off), v);
    }
  }

  lemma {:induction false} SameWords(a: seq<Group>, b: seq<Group>, v: seq<byte>)
    requires |a| == |b| && forall j :: 0 <= j < |a| ==> a[j].word == b[j].word
    ensures IndexOfWord(a, v) == IndexOfWord(b, v)
    decreases |a|
  {
    if |a| > 0 {
      SameWords(a[1..], b[1..], v);
    }
  }

  lemma {:induction false} IndexAppend(gs: seq<Group>, g: Group, v: seq<byte>)
    ensures IndexOfWord(gs + [g], v) ==
      (if IndexOfWord(gs, v) >= 0 then IndexOfWord(gs, v) else if g.word == v then |gs| else -1)
    decreases |gs|
  {
    if |gs| > 0 {
      assert (gs + [g])[1..] == gs[1..] + [g];
      IndexAppend(gs[1..], g, v);
    }
  }

  /** The workload partitions the payload's word offsets: distinct words, each group
    * listing ascending offsets where its word occurs, groups in first-appearance order,
    * and every word offset in the group of its value. */
  lemma {:induction false} WorkloadPartition(p: seq<byte>, n: nat)
    requires 4 * n <= |p|
    ensures DistinctWords(Workload(p, n)) && GroupsSound(p, n, Workload(p, n))
    ensures FirstAppearance(Workload(p, n)) && GroupsCover(p, n, Workload(p, n))
  {
    if n > 0 {
      var m := n - 1;
      var gs := Workload(p, m);
      assert Workload(p, n) == AddWord(gs, p[4 * m..4 * m + 4], 4 * m);
      WorkloadPartition(p, m);
      AddDistinct(gs, p[4 * m..4 * m + 4], 4 * m);
      AddSound(p, m, gs);
      AddFirst(p, m, gs);
      AddCover(p, m, gs);
    }
  }

  /** The grouping loop of `build_stratagem`, over `range(0, len, 4)`. */
  method GroupWords(p: seq<byte>) returns (gs: seq<Group>)
    requires |p| % 4 == 0
    ensures gs == Workload(p, |p| / 4)
  {
    gs := [];
    var i := 0;
    while i < |p|
      invariant 0 <= i <= |p| && i % 4 == 0
      invariant gs == Workload(p, i / 4)
    {
      gs := AddWord(gs, p[i..i + 4], i);
      i := i + 4;
    }
  }

  /** A CRC32 Stratagem entry: `src_addr` (-1 when the input is a word of the target
    * buffer, at `tsrc_off`), `src_size`, `iterations` and `dst_off`. */
  datatype StratEntry = StratEntry(srcAddr: int, tsrcOff: Option<int>, srcSize: int,
                                   iterations: int, dstOff: int)

  /** The found chain, with `iterations` operations, written to `d`. */
  function Direct(c: CrcMatch, iterations: int, d: int): StratEntry
  {
    StratEntry(c.srcAddr, None, c.srcSize, iterations, d)
  }

  /** One operation over the target buffer's word at `first`, written to `d`. */
  function FromFirst(first: int, d: int): StratEntry
  {
    StratEntry(-1, Some(first), 4, 1, d)
  }

  function Copies(c: CrcMatch, ds: seq<int>): seq<StratEntry>
  {
    seq(|ds|, i requires 0 <= i < |ds| => Direct(c, c.iterations, ds[i]))
  }

  function Finals(first: int, ds: seq<int>): seq<StratEntry>
  {
    seq(|ds|, i requires 0 <= i < |ds| => FromFirst(first, ds[i]))
  }

  /** The entries for one word with found chain `c` and destination offsets `dsts`: a
    * single occurrence takes the chain; with one iteration each occurrence takes it;
    * otherwise the first occurrence stops one operation short, every other occurrence
    * takes one operation over the first, and a last entry finishes the first. */
  function Split(c: CrcMatch, dsts: seq<int>): seq<StratEntry>
    requires |dsts| >= 1
  {
    if |dsts| == 1 then [Direct(c, c.iterations, dsts[0])]
    else if c.iterations == 1 then Copies(c, dsts)
    else [Direct(c, c.iterations - 1, dsts[0])] + Finals(dsts[0], dsts[1..]) + [FromFirst(dsts[0], dsts[0])]
  }

  /** The results loop of `build_stratagem` for one word. */
  method AppendSplit(plan: seq<StratEntry>, c: CrcMatch, dsts: seq<int>) returns (r: seq<StratEntry>)
    requires |dsts| >= 1
    ensures r == plan + Split(c, dsts)
  {
    if |dsts| == 1 {
      return plan + [Direct(c, c.iterations, dsts[0])];
    }
    r := plan;
    if c.iterations == 1 {
      for i := 0 to |dsts|
        invariant r == plan + Copies(c, dsts[..i])
      {
        assert Copies(c, dsts[..i + 1]) == Copies(c, dsts[..i]) + [Direct(c, c.iterations, dsts[i])];
        r := r + [Direct(c, c.iterations, dsts[i])];
      }
      assert dsts[..|dsts|] == dsts;
      return;
    }
    r := r + [Direct(c, c.iterations - 1, dsts[0])];
    for i := 1 to |dsts|
      invariant r == plan + [Direct(c, c.iterations - 1, dsts[0])] + Finals(dsts[0], dsts[1..i])
    {
      assert Finals(dsts[0], dsts[1..i + 1]) == Finals(dsts[0], dsts[1..i]) + [FromFirst(dsts[0], dsts[i])];
      r := r + [FromFirst(dsts[0], dsts[i])];
    }
    assert dsts[1..|dsts|] == dsts[1..];
    r := r + [FromFirst(dsts[0], dsts[0])];
  }

  /** Every group has an offset. */
  ghost predicate NonEmpty(gs: seq<Group>)
  {
    forall a :: 0 <= a < |gs| ==> |gs[a].offsets| >= 1
  }

  /** The Stratagem for the first `n` groups of workload `gs` with found chains `ms`, in
    * workload order. */
  function Plan(gs: seq<Group>, ms: seq<CrcMatch>, n: nat): seq<StratEntry>
    requires n <= |gs| && n <= |ms| && NonEmpty(gs)
  {
    if n == 0 then [] else Plan(gs, ms, n - 1) + Split(ms[n - 1], gs[n - 1].offsets)
  }

  /** Later chains do not change the plan of earlier groups. */
  lemma {:induction false} PlanExtend(gs: seq<Group>, ms: seq<CrcMatch>, m: CrcMatch, n: nat)
    requires n <= |gs| && n <= |ms| && NonEmpty(gs)
    ensures Plan(gs, ms + [m], n) == Plan(gs, ms, n)
  {
    if n > 0 {
      PlanExtend(gs, ms, m, n - 1);
      assert (ms + [m])[n - 1] == ms[n - 1];
    }
  }

  lemma SoundNonEmpty(p: seq<byte>, n: nat, gs: seq<Group>)
    requires GroupsSound(p, n, gs)
    ensures NonEmpty(gs)
  {
    forall a | 0 <= a < |gs| ensures |gs[a].offsets| >= 1
    {
      assert GroupSound(p, n, gs[a]);
    }
  }

  lemma ChainsStep(rh: RevHunter, gs: seq<Group>, maxIter: int, ms: seq<CrcMatch>, m: CrcMatch)
    requires ChainsFor(rh, gs, maxIter, ms) && |ms| < |gs|
    requires Found(rh, gs[|ms|].word, maxIter, m)
    ensures ChainsFor(rh, gs, maxIter, ms + [m])
  {
    assert (ms + [m])[..|ms|] == ms;
  }

  /** Each chain of `ms` was found for its group's word. */
  lemma {:induction false} ChainsAt(rh: RevHunter, gs: seq<Group>, maxIter: int, ms: seq<CrcMatch>, a: nat)
    requires ChainsFor(rh, gs, maxIter, ms) && a < |ms|
    ensures Found(rh, gs[a].word, maxIter, ms[a])
  {
    if a < |ms| - 1 {
      ChainsAt(rh, gs, maxIter, ms[..|ms| - 1], a);
    }
  }

  /** `max_iterations`' default. */
  const DefaultMaxIterations := 4096

  /** `c` is a `find` result for `word`. */
  ghost predicate Found(rh: RevHunter, word: seq<byte>, maxIter: int, c: CrcMatch)
  {
    GoalOf(WordBytes(word), rh.order).Ok? && Shortest(rh, GoalOf(WordBytes(word), rh.order).value, maxIter, c)
  }

  /** Each found chain is a `find` result for its group's word, stated chain by chain from
    * the last one back. */
  ghost predicate ChainsFor(rh: RevHunter, gs: seq<Group>, maxIter: int, ms: seq<CrcMatch>)
  {
    |ms| <= |gs| &&
    (|ms| == 0 ||
     (ChainsFor(rh, gs, maxIter, ms[..|ms| - 1]) && Found(rh, gs[|ms| - 1].word, maxIter, ms[|ms| - 1])))
  }

  /** `plan` is the Stratagem for payload `p`: the entries of the payload's workload,
    * with a `find` result for every word. */
  ghost predicate Planned(rh: RevHunter, p: seq<byte>, maxIter: int, plan: seq<StratEntry>)
  {
    |p| % 4 == 0 && |p| > 0 &&
    GroupsSound(p, |p| / 4, Workload(p, |p| / 4)) && NonEmpty(Workload(p, |p| / 4)) &&
    exists ms :: |ms| == |Workload(p, |p| / 4)| && ChainsFor(rh, Workload(p, |p| / 4), maxIter, ms) &&
      plan == Plan(Workload(p, |p| / 4), ms, |ms|)
  }

  /** Some word of the payload has no chain of at most `maxIter` operations. */
  ghost predicate Unplannable(rh: RevHunter, p: seq<byte>, maxIter: int)
  {
    exists k :: 0 <= k && 4 * k + 4 <= |p| && GoalOf(WordBytes(p[4 * k..4 * k + 4]), rh.order).Ok? &&
      NoChainBelow(rh.base, rh.maxlen, GoalOf(WordBytes(p[4 * k..4 * k + 4]), rh.order).value.word, true, maxIter + 1)
  }

  /** `build_stratagem`, with the work on the words done one after another in workload
    * order: a payload of no bytes or of a length that is not a multiple of 4 is
    * refused; the first word without a chain ends the build with `find`'s error. */
  method BuildStratagem(rh: RevHunter, payload: seq<byte>, maxIter: int) returns (r: Result<seq<StratEntry>>)
    requires RevValid(rh)
    ensures |payload| % 4 != 0 || |payload| == 0 ==> r == Err(StratagemCreationFailed)
    ensures r.Ok? ==> Planned(rh, payload, maxIter, r.value)
    ensures r.Err? && |payload| % 4 == 0 && |payload| > 0 ==> r.error == FindError(rh.order, maxIter)
    ensures r == Err(HunterResultNotFound) ==> Unplannable(rh, payload, maxIter)
  {
    if |payload| % 4 != 0 || |payload| == 0 {
      return Err(StratagemCreationFailed);
    }
    var gs := GroupWords(payload);
    WorkloadPartition(payload, |payload| / 4);
    SoundNonEmpty(payload, |payload| / 4, gs);
    ghost var ms;
    r, ms := PlanGroups(rh, payload, gs, maxIter);
  }

  /** The error `find` raises for a 4-byte target when it finds no chain: ValueError for an
    * unknown byte order, NameError when no iteration runs, else HunterResultNotFound. */
  function FindError(order: ByteOrder, maxIter: int): Error
  {
    if order.OtherOrder? then ValueError else if maxIter < 1 then NameError else HunterResultNotFound
  }

  lemma FindErrorOf(order: ByteOrder, w: seq<byte>, maxIter: int, e: Error)
    requires |w| == 4
    requires GoalOf(WordBytes(w), order).Err? ==> e == GoalOf(WordBytes(w), order).error
    requires GoalOf(WordBytes(w), order).Ok? && maxIter < 1 ==> e == NameError
    requires GoalOf(WordBytes(w), order).Ok? && maxIter >= 1 ==> e == HunterResultNotFound
    ensures e == FindError(order, maxIter)
  {
  }

  /** `_do_stratagem_work`: `find` for one 4-byte word of the payload, its exception
    * handed back as the result. */
  method DoStratagemWork(rh: RevHunter, word: seq<byte>, maxIter: int) returns (f: Result<CrcMatch>)
    requires RevValid(rh) && |word| == 4
    ensures f.Ok? ==> Found(rh, word, maxIter, f.value)
    ensures f.Err? ==> f.error == FindError(rh.order, maxIter)
    ensures f == Err(HunterResultNotFound) ==>
      (GoalOf(WordBytes(word), rh.order).Ok? &&
       NoChainBelow(rh.base, rh.maxlen, GoalOf(WordBytes(word), rh.order).value.word, true, maxIter + 1))
  {
    f := Find(rh, WordBytes(word), maxIter);
    if f.Err? {
      FindErrorOf(rh.order, word, maxIter, f.error);
    }
  }

  /** The loop over the workload: one `find` per word, in order; `ms` are the chains
    * found. */
  method PlanGroups(rh: RevHunter, payload: seq<byte>, gs: seq<Group>, maxIter: int)
    returns (r: Result<seq<StratEntry>>, ghost ms: seq<CrcMatch>)
    requires RevValid(rh) && 4 * (|payload| / 4) <= |payload|
    requires GroupsSound(payload, |payload| / 4, gs) && NonEmpty(gs)
    ensures r.Ok? ==> |ms| == |gs| && ChainsFor(rh, gs, maxIter, ms) && r.value == Plan(gs, ms, |gs|)
    ensures r.Err? ==> r.error == FindError(rh.order, maxIter)
    ensures r == Err(HunterResultNotFound) ==> Unplannable(rh, payload, maxIter)
  {
    var plan := [];
    ms := [];
    for a := 0 to |gs|
      invariant |ms| == a && ChainsFor(rh, gs, maxIter, ms)
      invariant plan == Plan(gs, ms, a)
    {
      assert GroupSound(payload, |payload| / 4, gs[a]);
      var f := DoStratagemWork(rh, gs[a].word, maxIter);
      if f.Err? {
        if f.error == HunterResultNotFound {
          assert Unplannable(rh, payload, maxIter) by {
            NoPlan(rh, payload, maxIter, gs[a]);
          }
        }
        return Err(f.error), ms;
      }
      plan := AppendSplit(plan, f.value, gs[a].offsets);
      assert plan == Plan(gs, ms + [f.value], a + 1) by {
        PlanExtend(gs, ms, f.value, a);
      }
      assert ChainsFor(rh, gs, maxIter, ms + [f.value]) by {
        ChainsStep(rh, gs, maxIter, ms, f.value);
      }
      ms := ms + [f.value];
    }
    return Ok(plan), ms;
  }

  /** A group whose word has no chain makes the payload unplannable. */
  lemma NoPlan(rh: RevHunter, p: seq<byte>, maxIter: int, g: Group)
    requires 4 * (|p| / 4) <= |p| && GroupSound(p, |p| / 4, g)
    requires GoalOf(WordBytes(g.word), rh.order).Ok?
    requires NoChainBelow(rh.base, rh.maxlen, GoalOf(WordBytes(g.word), rh.order).value.word, true, maxIter + 1)
    ensures Unplannable(rh, p, maxIter)
  {
    var k := g.offsets[0] / 4;
    assert p[4 * k..4 * k + 4] == g.word;
  }
}
