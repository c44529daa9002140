/** `CpHunter` (hunter/cp.py): plans a series of `cp` commands that assemble a payload
  * out of bytes already present in memory. `_lcss` finds a longest common substring
  * of a data range and a piece of the payload; `build_stratagem` keeps a worklist of
  * payload pieces still to be placed and carves each one around the substring found. */
module CpHunter {
  import opened Errors
  import opened PyBytes
  import H = Hunter
  import Strat

  // ---------------------------------------------------------------------------------
  // _lcss

  /** The length of the longest common suffix of d[..i] and t[..j]: the value `_lcss`
    * stores in table[(i, j)] for a matching cell (0 where it stores nothing). */
  function Suf(d: seq<byte>, t: seq<byte>, i: nat, j: nat): (r: nat)
    requires i <= |d| && j <= |t|
    ensures r <= i && r <= j
  {
    if i == 0 || j == 0 || d[i - 1] != t[j - 1] then 0 else Suf(d, t, i - 1, j - 1) + 1
  }

  /** d[di..di+n] and t[ti..ti+n] are the same bytes. */
  predicate Common(d: seq<byte>, t: seq<byte>, di: int, ti: int, n: int)
  {
    0 <= di && 0 <= ti && 0 <= n && di + n <= |d| && ti + n <= |t| &&
    d[di..di + n] == t[ti..ti + n]
  }

  /** The bytes counted by `Suf` do match. */
  lemma {:induction false} SufCommon(d: seq<byte>, t: seq<byte>, i: nat, j: nat)
    requires i <= |d| && j <= |t|
    ensures Common(d, t, i - Suf(d, t, i, j), j - Suf(d, t, i, j), Suf(d, t, i, j))
  {
    if Suf(d, t, i, j) > 0 {
      SufCommon(d, t, i - 1, j - 1);
      var n := Suf(d, t, i - 1, j - 1);
      assert d[i - 1 - n..i] == d[i - 1 - n..i - 1] + [d[i - 1]];
      assert t[j - 1 - n..j] == t[j - 1 - n..j - 1] + [t[j - 1]];
    }
  }

  /** No common suffix is longer than `Suf`. */
  lemma {:induction false} SufLongest(d: seq<byte>, t: seq<byte>, i: nat, j: nat, n: nat)
    requires i <= |d| && j <= |t| && n <= i && n <= j && d[i - n..i] == t[j - n..j]
    ensures n <= Suf(d, t, i, j)
  {
    if n > 0 {
      assert d[i - 1] == d[i - n..i][n - 1] && t[j - 1] == t[j - n..j][n - 1];
      assert d[i - n..i - 1] == d[i - n..i][..n - 1];
      assert t[j - n..j - 1] == t[j - n..j][..n - 1];
      SufLongest(d, t, i - 1, j - 1, n - 1);
    }
  }

  /** A suffix of a common substring is a common substring. */
  lemma CommonSuffix(d: seq<byte>, t: seq<byte>, di: int, ti: int, n: int, m: int)
    requires Common(d, t, di, ti, n) && 0 <= m <= n
    ensures Common(d, t, di + n - m, ti + n - m, m)
  {
    assert d[di + n - m..di + n] == d[di..di + n][n - m..];
    assert t[ti + n - m..ti + n] == t[ti..ti + n][n - m..];
  }

  /** The variables of `_lcss` after part of its scan: longest_substr, longest_loc
    * (0, 0 standing for None) and curr_len (0 before the first match). */
  datatype Scan = Scan(longest: nat, li: nat, lj: nat, last: nat)

  /** Visiting cell (i, j), whose common suffix has length `c`. */
  function Visit(s: Scan, i: nat, j: nat, c: nat): Scan
  {
    if c == 0 then s
    else if c > s.longest then Scan(c, i, j, c)
    else s.(last := c)
  }

  /** The state after rows 1..i-1 and cells (i, 1..j) of the row-major scan. */
  function ScanTo(d: seq<byte>, t: seq<byte>, i: nat, j: nat): Scan
    requires 1 <= i <= |d| + 1 && j <= |t| && (i <= |d| || j == 0)
    decreases i, j
  {
    if j == 0 then (if i == 1 then Scan(0, 0, 0, 0) else ScanTo(d, t, i - 1, |t|))
    else Visit(ScanTo(d, t, i, j - 1), i, j, Suf(d, t, i, j))
  }

  /** The state when both loops are done. */
  function Final(d: seq<byte>, t: seq<byte>): Scan
  {
    ScanTo(d, t, |d| + 1, 0)
  }

  /** Cell (a, b) comes no later than cell (i, j) in the scan. */
  predicate Seen(a: int, b: int, i: int, j: int, tl: int)
  {
    1 <= a && 1 <= b <= tl && (a < i || (a == i && b <= j))
  }

  /** The scan keeps the longest suffix seen, where it ends, and a last match that is
    * no longer than it. */
  predicate ScanSound(d: seq<byte>, t: seq<byte>, s: Scan)
  {
    s.last <= s.longest &&
    (s.longest > 0 ==> 1 <= s.li <= |d| && 1 <= s.lj <= |t| &&
                       Suf(d, t, s.li, s.lj) == s.longest && 1 <= s.last)
  }

  lemma {:induction false} ScanToSound(d: seq<byte>, t: seq<byte>, i: nat, j: nat)
    requires 1 <= i <= |d| + 1 && j <= |t| && (i <= |d| || j == 0)
    ensures ScanSound(d, t, ScanTo(d, t, i, j))
    ensures forall a, b :: Seen(a, b, i, j, |t|) && a <= |d| ==> Suf(d, t, a, b) <= ScanTo(d, t, i, j).longest
    decreases i, j
  {
    if j == 0 {
      if i > 1 {
        ScanToSound(d, t, i - 1, |t|);
      }
    } else {
      ScanToSound(d, t, i, j - 1);
    }
  }

  /** A common substring: offsets into the data and the target, and a length. */
  datatype Substr = Substr(di: int, ti: int, size: int)

  /** `_lcss` as written: line 45 subtracts and returns curr_len, the length at the
    * last matching cell, where the longest length was meant. */
  function LcssAsWritten(d: seq<byte>, t: seq<byte>): Result<Substr>
  {
    var s := Final(d, t);
    if s.longest < 1 then Err(ValueError)
    else Ok(Substr(s.li - s.last, s.lj - s.last, s.last))
  }

  /** `_lcss` returning the longest match, as its name and docstring promise. */
  function Lcss(d: seq<byte>, t: seq<byte>): Result<Substr>
  {
    var s := Final(d, t);
    if s.longest < 1 then Err(ValueError)
    else Ok(Substr(s.li - s.longest, s.lj - s.longest, s.longest))
  }

  /** Both versions raise ValueError exactly when no byte of the target occurs in the
    * data. */
  lemma LcssNone(d: seq<byte>, t: seq<byte>)
    ensures Lcss(d, t).Err? <==> forall b :: 0 <= b < |t| ==> t[b] !in d
    ensures LcssAsWritten(d, t).Err? <==> Lcss(d, t).Err?
    ensures Lcss(d, t).Err? ==> Lcss(d, t).error == ValueError
  {
    var s := Final(d, t);
    ScanToSound(d, t, |d| + 1, 0);
    if s.longest > 0 {
      assert d[s.li - 1] == t[s.lj - 1];
    }
    if exists b :: 0 <= b < |t| && t[b] in d {
      var b :| 0 <= b < |t| && t[b] in d;
      var a :| 0 <= a < |d| && d[a] == t[b];
      assert Seen(a + 1, b + 1, |d| + 1, 0, |t|);
      assert Suf(d, t, a + 1, b + 1) >= 1;
    }
  }

  /** The corrected `_lcss` returns a common substring that no other is longer than. */
  lemma LcssLongest(d: seq<byte>, t: seq<byte>)
    requires Lcss(d, t).Ok?
    ensures Common(d, t, Lcss(d, t).value.di, Lcss(d, t).value.ti, Lcss(d, t).value.size)
    ensures Lcss(d, t).value.size >= 1
    ensures forall di, ti, n :: Common(d, t, di, ti, n) ==> n <= Lcss(d, t).value.size
  {
    var s := Final(d, t);
    ScanToSound(d, t, |d| + 1, 0);
    SufCommon(d, t, s.li, s.lj);
    forall di, ti, n | Common(d, t, di, ti, n)
      ensures n <= s.longest
    {
      if n > 0 {
        SufLongest(d, t, di + n, ti + n, n);
        assert Seen(di + n, ti + n, |d| + 1, 0, |t|);
      }
    }
  }

  /** `_lcss` as written still returns a common substring of at least one byte (a
    * suffix of the longest one), never longer than the longest. */
  lemma LcssAsWrittenCommon(d: seq<byte>, t: seq<byte>)
    requires LcssAsWritten(d, t).Ok?
    ensures Common(d, t, LcssAsWritten(d, t).value.di, LcssAsWritten(d, t).value.ti, LcssAsWritten(d, t).value.size)
    ensures 1 <= LcssAsWritten(d, t).value.size <= Lcss(d, t).value.size
  {
    var s := Final(d, t);
    ScanToSound(d, t, |d| + 1, 0);
    SufCommon(d, t, s.li, s.lj);
    CommonSuffix(d, t, s.li - s.longest, s.lj - s.longest, s.longest, s.last);
  }

  /** With data [1, 2, 1] and target [1, 2] the last match is the final 1, so as written
    * `_lcss` returns one byte at (1, 1) while [1, 2] at (0, 0) is common. */
  lemma LcssAsWrittenShort()
    ensures LcssAsWritten([1, 2, 1], [1, 2]) == Ok(Substr(1, 1, 1))
    ensures Lcss([1, 2, 1], [1, 2]) == Ok(Substr(0, 0, 2))
  {
    var d: seq<byte> := [1, 2, 1];
    var t: seq<byte> := [1, 2];
    assert Suf(d, t, 1, 1) == 1 && Suf(d, t, 1, 2) == 0;
    assert Suf(d, t, 2, 1) == 0 && Suf(d, t, 2, 2) == 2;
    assert Suf(d, t, 3, 1) == 1 && Suf(d, t, 3, 2) == 0;
    assert ScanTo(d, t, 2, 0) == Scan(1, 1, 1, 1);
    assert ScanTo(d, t, 3, 0) == Scan(2, 2, 2, 2);
    assert ScanTo(d, t, 3, 1) == Scan(2, 2, 2, 1);
    assert ScanTo(d, t, 3, 2) == Scan(2, 2, 2, 1);
    assert Final(d, t) == ScanTo(d, t, 3, 2);
  }

  /** What `table` holds after the cells up to (i, j): each stored cell's common suffix
    * length, and every matching cell seen. */
  ghost predicate TableInv(d: seq<byte>, t: seq<byte>, table: map<(int, int), nat>, i: nat, j: nat)
  {
    (forall p :: p in table ==> 1 <= p.0 <= |d| && 1 <= p.1 <= |t| && table[p] == Suf(d, t, p.0, p.1)) &&
    (forall a: int, b: int :: Seen(a, b, i, j, |t|) && a <= |d| && Suf(d, t, a, b) > 0 ==> (a, b) in table)
  }

  lemma TableStore(d: seq<byte>, t: seq<byte>, table: map<(int, int), nat>, i: nat, j: nat, v: nat)
    requires 1 <= i <= |d| && 1 <= j <= |t| && TableInv(d, t, table, i, j - 1)
    requires v == Suf(d, t, i, j)
    ensures TableInv(d, t, table[(i, j) := v], i, j)
  {
  }

  /** The cell diagonally before (i, j) has been seen, so the table (or its default 0)
    * gives its common suffix length. */
  lemma TableLookup(d: seq<byte>, t: seq<byte>, table: map<(int, int), nat>, i: nat, j: nat)
    requires 1 <= i <= |d| && 1 <= j <= |t| && TableInv(d, t, table, i, j - 1)
    ensures (if (i - 1, j - 1) in table then table[(i - 1, j - 1)] else 0) == Suf(d, t, i - 1, j - 1)
  {
    if i > 1 && j > 1 && Suf(d, t, i - 1, j - 1) > 0 {
      assert Seen(i - 1, j - 1, i, j - 1, |t|);
    }
  }

  lemma TableSkip(d: seq<byte>, t: seq<byte>, table: map<(int, int), nat>, i: nat, j: nat)
    requires 1 <= i <= |d| && 1 <= j <= |t| && TableInv(d, t, table, i, j - 1)
    requires d[i - 1] != t[j - 1]
    ensures TableInv(d, t, table, i, j)
  {
  }

  lemma TableRow(d: seq<byte>, t: seq<byte>, table: map<(int, int), nat>, i: nat)
    requires TableInv(d, t, table, i, |t|)
    ensures TableInv(d, t, table, i + 1, 0)
  {
  }

  /** The table-filling loops of `_lcss` (lines 26-39). */
  method ScanTable(d: seq<byte>, t: seq<byte>) returns (s: Scan)
    ensures s == Final(d, t)
  {
    var table: map<(int, int), nat> := map[];
    var longest, li, lj, curr := 0, 0, 0, 0;
    var i := 1;
    while i <= |d|
      invariant 1 <= i <= |d| + 1
      invariant Scan(longest, li, lj, curr) == ScanTo(d, t, i, 0)
      invariant TableInv(d, t, table, i, 0)
    {
      var j := 1;
      while j <= |t|
        invariant 1 <= j <= |t| + 1
        invariant Scan(longest, li, lj, curr) == ScanTo(d, t, i, j - 1)
        invariant TableInv(d, t, table, i, j - 1)
      {
        ghost var before := Scan(longest, li, lj, curr);
        if d[i - 1] == t[j - 1] {
          TableLookup(d, t, table, i, j);
          curr := (if (i - 1, j - 1) in table then table[(i - 1, j - 1)] else 0) + 1;
          assert curr == Suf(d, t, i, j);
          TableStore(d, t, table, i, j, curr);
          table := table[(i, j) := curr];
          if curr > longest {
            longest := curr;
            li, lj := i, j;
          }
        } else {
          TableSkip(d, t, table, i, j);
        }
        assert Scan(longest, li, lj, curr) == Visit(before, i, j, Suf(d, t, i, j));
        j := j + 1;
      }
      TableRow(d, t, table, i);
      i := i + 1;
    }
    s := Scan(longest, li, lj, curr);
  }

  /** `_lcss` with the longest length returned. */
  method LcssTable(d: seq<byte>, t: seq<byte>) returns (r: Result<Substr>)
    ensures r == Lcss(d, t)
  {
    var s := ScanTable(d, t);
    if s.longest < 1 {
      return Err(ValueError);
    }
    r := Ok(Substr(s.li - s.longest, s.lj - s.longest, s.longest));
  }

  // ---------------------------------------------------------------------------------
  // CpHunter.build_stratagem

  /** One stratagem entry: copy `srcSize` bytes from address `srcAddr` to offset
    * `dstOff` of the payload's destination. */
  datatype CpEntry = CpEntry(srcAddr: int, srcSize: int, dstOff: int)

  /** `bytes.index` of one byte: its first position, or None where Python raises
    * ValueError. */
  function IndexOf(s: seq<byte>, b: byte): (r: Option<nat>)
    ensures r.None? <==> b !in s
    ensures r.Some? ==> r.value < |s| && s[r.value] == b && b !in s[..r.value]
  {
    if |s| == 0 then None
    else if s[0] == b then Some(0)
    else
      match IndexOf(s[1..], b)
      case None => None
      case Some(k) => (assert s[..k + 1] == [s[0]] + s[1..][..k]; Some(k + 1))
  }

  /** Every range lies within data of length `n`. */
  predicate InData(ranges: seq<H.Range>, n: int)
  {
    forall k :: 0 <= k < |ranges| ==> 0 <= ranges[k].start <= ranges[k].stop <= n
  }

  /** Some byte of piece `tslice` occurs in data range `g`. */
  predicate Shares(data: seq<byte>, g: H.Range, tslice: seq<byte>)
  {
    0 <= g.start <= g.stop <= |data| &&
    exists y :: 0 <= y < |tslice| && tslice[y] in data[g.start..g.stop]
  }

  /** `s` names at least one byte common to data range `g` and piece `tslice`, at
    * offsets relative to each. */
  predicate Fits(data: seq<byte>, g: H.Range, tslice: seq<byte>, s: Substr)
  {
    0 <= g.start <= g.stop <= |data| && s.size >= 1 &&
    Common(data[g.start..g.stop], tslice, s.di, s.ti, s.size)
  }

  /** One pass of the `for r in data_ranges` body (lines 99-116) over payload piece
    * `tslice`: a single byte is looked up with `index` (its first occurrence), a
    * longer piece goes through `_lcss` (its longest match). Each fails with ValueError
    * exactly when the range holds no byte of the piece. */
  method TryRange(data: seq<byte>, g: H.Range, tslice: seq<byte>) returns (found: Result<Substr>)
    requires 0 <= g.start <= g.stop <= |data|
    ensures found.Err? <==> !Shares(data, g, tslice)
    ensures found.Err? ==> found.error == ValueError
    ensures found.Ok? ==> Fits(data, g, tslice, found.value)
    ensures found.Ok? && |tslice| == 1 ==>
      found.value.ti == 0 && tslice[0] !in data[g.start..g.stop][..found.value.di]
    ensures found.Ok? && |tslice| != 1 ==>
      forall di, ti, n :: Common(data[g.start..g.stop], tslice, di, ti, n) ==> n <= found.value.size
  {
    var dslice := data[g.start..g.stop];
    if |tslice| == 1 {
      var idx := IndexOf(dslice, tslice[0]);
      if idx.None? {
        return Err(ValueError);
      }
      found := Ok(Substr(idx.value, 0, 1));
      assert dslice[idx.value..idx.value + 1] == [tslice[0]] == tslice[0..1];
    } else {
      found := LcssTable(dslice, tslice);
      LcssNone(dslice, tslice);
      if found.Ok? {
        LcssLongest(dslice, tslice);
      }
    }
  }

  /** Entry `e` copies from inside data range `g`, into the payload, bytes equal to the
    * payload's bytes at its destination. */
  predicate Copies(data: seq<byte>, address: int, g: H.Range, payload: seq<byte>, e: CpEntry)
  {
    var src := e.srcAddr - address;
    1 <= e.srcSize && 0 <= g.start <= src && src + e.srcSize <= g.stop <= |data| &&
    0 <= e.dstOff && e.dstOff + e.srcSize <= |payload| &&
    data[src..src + e.srcSize] == payload[e.dstOff..e.dstOff + e.srcSize]
  }

  /** Entry `e` copies from one of the data ranges. */
  predicate Sound(data: seq<byte>, address: int, ranges: seq<H.Range>, payload: seq<byte>, e: CpEntry)
  {
    exists k :: 0 <= k < |ranges| && Copies(data, address, ranges[k], payload, e)
  }

  /** Byte `b` occurs in one of the data ranges. */
  predicate Available(data: seq<byte>, ranges: seq<H.Range>, b: byte)
  {
    exists k :: 0 <= k < |ranges| && 0 <= ranges[k].start <= ranges[k].stop <= |data| &&
                b in data[ranges[k].start..ranges[k].stop]
  }

  /** Payload offset `x` is written by entry `e`. */
  predicate Writes(x: int, e: CpEntry)
  {
    e.dstOff <= x < e.dstOff + e.srcSize
  }

  /** How many entries write payload offset `x`. */
  function Hits(x: int, es: seq<CpEntry>): nat
  {
    if |es| == 0 then 0 else Hits(x, es[..|es| - 1]) + (if Writes(x, es[|es| - 1]) then 1 else 0)
  }

  /** How many pending pieces hold payload offset `x`. */
  function Pending(x: int, ws: seq<H.Range>): nat
  {
    if |ws| == 0 then 0 else Pending(x, ws[..|ws| - 1]) + (if H.InRange(x, ws[|ws| - 1]) then 1 else 0)
  }

  lemma {:induction false} PendingAppend(x: int, a: seq<H.Range>, b: seq<H.Range>)
    ensures Pending(x, a + b) == Pending(x, a) + Pending(x, b)
    decreases |b|
  {
    if |b| > 0 {
      assert (a + b)[..|a + b| - 1] == a + b[..|b| - 1];
      PendingAppend(x, a, b[..|b| - 1]);
    } else {
      assert a + b == a;
    }
  }

  lemma {:induction false} TotalLenAppend(a: seq<H.Range>, b: seq<H.Range>)
    ensures H.TotalLen(a + b) == H.TotalLen(a) + H.TotalLen(b)
    ensures H.TotalLen(b) >= 0
    decreases |b|
  {
    if |b| > 0 {
      assert (a + b)[..|a + b| - 1] == a + b[..|b| - 1];
      TotalLenAppend(a, b[..|b| - 1]);
    } else {
      assert a + b == a;
    }
  }

  lemma HitsWitness(x: int, es: seq<CpEntry>) returns (a: int)
    requires Hits(x, es) > 0
    ensures 0 <= a < |es| && Writes(x, es[a])
    decreases |es|
  {
    if Writes(x, es[|es| - 1]) {
      a := |es| - 1;
    } else {
      a := HitsWitness(x, es[..|es| - 1]);
    }
  }

  /** The pieces left of and right of the placed bytes [lo, hi) of piece `w`. */
  function Carve(w: H.Range, lo: int, hi: int): seq<H.Range>
  {
    (if w.start < lo then [H.Range(w.start, lo)] else []) +
    (if hi < w.stop then [H.Range(hi, w.stop)] else [])
  }

  /** What the worklist loop has left to do: two units per pending byte and one per
    * pending piece. */
  function Cost(work: seq<H.Range>): nat
  {
    TotalLenAppend([], work);
    2 * H.TotalLen(work) + |work|
  }

  lemma PopCost(work: seq<H.Range>)
    requires |work| > 0
    ensures Cost(work[1..]) < Cost(work)
  {
    assert work == [work[0]] + work[1..];
    TotalLenAppend([work[0]], work[1..]);
    PendingOne(0, work[0]);
  }

  /** The pending pieces lie in the payload. */
  predicate WorkBounds(work: seq<H.Range>, n: int)
  {
    forall a :: 0 <= a < |work| ==> 0 <= work[a].start <= work[a].stop <= n
  }

  /** What holds between iterations of the worklist loop: every entry copies matching
    * bytes out of a data range, the pending pieces are non-empty once the payload
    * is, and each payload offset is either written by one
    * entry or held by one pending piece. */
  predicate WorkInv(data: seq<byte>, address: int, ranges: seq<H.Range>, payload: seq<byte>,
                    entries: seq<CpEntry>, work: seq<H.Range>)
  {
    AllSound(data, address, ranges, payload, entries) &&
    (|payload| > 0 ==> NonEmpty(work)) &&
    Tiled(entries, work, |payload|)
  }

  predicate AllSound(data: seq<byte>, address: int, ranges: seq<H.Range>, payload: seq<byte>, entries: seq<CpEntry>)
  {
    forall a :: 0 <= a < |entries| ==> Sound(data, address, ranges, payload, entries[a])
  }

  predicate NonEmpty(work: seq<H.Range>)
  {
    forall a :: 0 <= a < |work| ==> work[a].start < work[a].stop
  }

  /** Each offset of [0, n) is written by one entry or held by one pending piece. */
  predicate Tiled(entries: seq<CpEntry>, work: seq<H.Range>, n: int)
  {
    forall x :: 0 <= x < n ==> Hits(x, entries) + Pending(x, work) == 1
  }

  /** The entry built from a successful attempt copies matching bytes out of its range. */
  lemma PlaceCopies(data: seq<byte>, address: int, g: H.Range, payload: seq<byte>, w: H.Range, s: Substr)
    requires 0 <= g.start <= g.stop <= |data| && 0 <= w.start <= w.stop <= |payload|
    requires Fits(data, g, payload[w.start..w.stop], s)
    ensures Copies(data, address, g, payload, CpEntry(address + g.start + s.di, s.size, w.start + s.ti))
    ensures 1 <= s.size && 0 <= s.ti && w.start + s.ti + s.size <= w.stop
  {
    var tslice := payload[w.start..w.stop];
    var dslice := data[g.start..g.stop];
    assert Common(dslice, tslice, s.di, s.ti, s.size);
    assert dslice[s.di..s.di + s.size] == tslice[s.ti..s.ti + s.size];
    SliceOfSlice(data, g.start, g.stop, s.di, s.size);
    SliceOfSlice(payload, w.start, w.stop, s.ti, s.size);
  }

  lemma SliceOfSlice(a: seq<byte>, lo: int, hi: int, i: int, n: int)
    requires 0 <= lo <= hi <= |a| && 0 <= i && 0 <= n && i + n <= hi - lo
    ensures a[lo + i..lo + i + n] == a[lo..hi][i..i + n]
  {
    var u, v := a[lo + i..lo + i + n], a[lo..hi][i..i + n];
    assert forall k :: 0 <= k < n ==> u[k] == a[lo + i + k] == v[k];
  }

  lemma PendingOne(x: int, g: H.Range)
    ensures Pending(x, [g]) == if H.InRange(x, g) then 1 else 0
    ensures H.TotalLen([g]) == H.RangeLen(g)
  {
    assert [g][..0] == [];
  }

  /** The carved pieces hold exactly the offsets of `w` outside [lo, hi). */
  lemma CarveCount(x: int, w: H.Range, lo: int, hi: int)
    requires w.start <= lo <= hi <= w.stop
    ensures Pending(x, Carve(w, lo, hi)) + (if lo <= x < hi then 1 else 0) == (if H.InRange(x, w) then 1 else 0)
    ensures H.TotalLen(Carve(w, lo, hi)) + (hi - lo) == H.RangeLen(w) && |Carve(w, lo, hi)| <= 2
  {
    var c := Carve(w, lo, hi);
    var left, right := H.Range(w.start, lo), H.Range(hi, w.stop);
    PendingOne(x, left);
    PendingOne(x, right);
    if w.start < lo && hi < w.stop {
      assert c == [left] + [right];
      PendingAppend(x, [left], [right]);
      TotalLenAppend([left], [right]);
    } else if w.start < lo {
      assert c == [left];
    } else if hi < w.stop {
      assert c == [right];
    } else {
      assert c == [];
    }
  }

  /** Placing [lo, hi) of the first pending piece moves those offsets from the work to
    * the entry that writes them. */
  lemma PlaceCount(x: int, entries: seq<CpEntry>, work: seq<H.Range>, e: CpEntry)
    requires |work| > 0 && work[0].start <= e.dstOff <= e.dstOff + e.srcSize <= work[0].stop
    ensures Hits(x, entries + [e]) + Pending(x, work[1..] + Carve(work[0], e.dstOff, e.dstOff + e.srcSize))
            == Hits(x, entries) + Pending(x, work)
  {
    var w := work[0];
    var c := Carve(w, e.dstOff, e.dstOff + e.srcSize);
    assert (entries + [e])[..|entries|] == entries;
    assert work == [w] + work[1..];
    PendingAppend(x, [w], work[1..]);
    PendingAppend(x, work[1..], c);
    PendingOne(x, w);
    CarveCount(x, w, e.dstOff, e.dstOff + e.srcSize);
  }

  /** Appending an entry that copies from a data range keeps every entry sound. */
  lemma PlaceSound(data: seq<byte>, address: int, ranges: seq<H.Range>, payload: seq<byte>,
                   entries: seq<CpEntry>, e: CpEntry, k: int)
    requires 0 <= k < |ranges| && Copies(data, address, ranges[k], payload, e)
    requires AllSound(data, address, ranges, payload, entries)
    ensures AllSound(data, address, ranges, payload, entries + [e])
  {
    forall a | 0 <= a < |entries + [e]|
      ensures Sound(data, address, ranges, payload, (entries + [e])[a])
    {
      if a == |entries| {
        assert Copies(data, address, ranges[k], payload, (entries + [e])[a]);
      } else {
        assert (entries + [e])[a] == entries[a];
      }
    }
  }

  /** Replacing the first piece by pieces of it keeps the pieces in the payload, and
    * non-empty. */
  lemma PlaceBounds(work: seq<H.Range>, n: int, lo: int, hi: int)
    requires WorkBounds(work, n) && |work| > 0 && work[0].start <= lo <= hi <= work[0].stop
    ensures WorkBounds(work[1..] + Carve(work[0], lo, hi), n)
    ensures NonEmpty(work) ==> NonEmpty(work[1..] + Carve(work[0], lo, hi))
  {
  }

  /** Replacing the first pending piece by what is left of it around [lo, hi) keeps
    * the pieces in the payload and non-empty, and shrinks the work left. */
  lemma {:induction false} CarveStep(work: seq<H.Range>, n: int, lo: int, hi: int)
    requires WorkBounds(work, n) && |work| > 0 && work[0].start <= lo < hi <= work[0].stop
    ensures WorkBounds(work[1..] + Carve(work[0], lo, hi), n)
    ensures NonEmpty(work) ==> NonEmpty(work[1..] + Carve(work[0], lo, hi))
    ensures Cost(work[1..] + Carve(work[0], lo, hi)) < Cost(work)
  {
    var w := work[0];
    var c := Carve(w, lo, hi);
    PlaceBounds(work, n, lo, hi);
    CarveCount(0, w, lo, hi);
    assert work == [w] + work[1..];
    TotalLenAppend([w], work[1..]);
    TotalLenAppend(work[1..], c);
    PendingOne(0, w);
  }

  /** Placing entry `e`, built from what range `k` shares with the first pending
    * piece, keeps the loop's invariant. */
  lemma {:induction false} PlaceStep(data: seq<byte>, address: int, ranges: seq<H.Range>, payload: seq<byte>,
                  entries: seq<CpEntry>, work: seq<H.Range>, k: int, e: CpEntry)
    requires InData(ranges, |data|) && WorkBounds(work, |payload|) && |work| > 0 && 0 <= k < |ranges|
    requires WorkInv(data, address, ranges, payload, entries, work)
    requires Copies(data, address, ranges[k], payload, e)
    requires work[0].start <= e.dstOff && e.dstOff + e.srcSize <= work[0].stop
    ensures WorkInv(data, address, ranges, payload, entries + [e],
                    work[1..] + Carve(work[0], e.dstOff, e.dstOff + e.srcSize))
  {
    var rest := work[1..] + Carve(work[0], e.dstOff, e.dstOff + e.srcSize);
    PlaceSound(data, address, ranges, payload, entries, e, k);
    PlaceBounds(work, |payload|, e.dstOff, e.dstOff + e.srcSize);
    forall x | 0 <= x < |payload|
      ensures Hits(x, entries + [e]) + Pending(x, rest) == 1
    {
      PlaceCount(x, entries, work, e);
    }
  }

  /** One round of the worklist loop that places an entry keeps the loop's invariant
    * and shrinks the work. */
  lemma {:induction false} Advance(data: seq<byte>, address: int, ranges: seq<H.Range>, payload: seq<byte>,
                entries: seq<CpEntry>, work: seq<H.Range>, k: int, s: Substr)
    requires InData(ranges, |data|) && WorkBounds(work, |payload|) && |work| > 0 && 0 <= k < |ranges|
    requires WorkInv(data, address, ranges, payload, entries, work)
    requires Fits(data, ranges[k], payload[work[0].start..work[0].stop], s)
    ensures WorkBounds(work[1..] + Carve(work[0], s.ti + work[0].start, s.ti + work[0].start + s.size), |payload|)
    ensures WorkInv(data, address, ranges, payload,
                    entries + [CpEntry(address + (s.di + ranges[k].start), s.size, s.ti + work[0].start)],
                    work[1..] + Carve(work[0], s.ti + work[0].start, s.ti + work[0].start + s.size))
    ensures Cost(work[1..] + Carve(work[0], s.ti + work[0].start, s.ti + work[0].start + s.size)) < Cost(work)
  {
    var w, g := work[0], ranges[k];
    var ti := s.ti + w.start;
    var e := CpEntry(address + (s.di + g.start), s.size, ti);
    PlaceCopies(data, address, g, payload, w, s);
    CarveStep(work, |payload|, ti, ti + s.size);
    PlaceStep(data, address, ranges, payload, entries, work, k, e);
  }

  /** A piece that no data range shares a byte with, when there is a range, leaves its
    * first byte unavailable. */
  lemma NoneFit(data: seq<byte>, ranges: seq<H.Range>, tslice: seq<byte>)
    requires InData(ranges, |data|) && |tslice| > 0
    requires forall m :: 0 <= m < |ranges| ==> !Shares(data, ranges[m], tslice)
    ensures !Available(data, ranges, tslice[0])
  {
    forall m | 0 <= m < |ranges|
      ensures tslice[0] !in data[ranges[m].start..ranges[m].stop]
    {
      assert !Shares(data, ranges[m], tslice);
    }
  }

  /** Once no work is pending, every payload byte was copied out of some range. */
  lemma DoneAvailable(data: seq<byte>, address: int, ranges: seq<H.Range>, payload: seq<byte>,
                      entries: seq<CpEntry>)
    requires WorkInv(data, address, ranges, payload, entries, [])
    ensures forall x :: 0 <= x < |payload| ==> Hits(x, entries) == 1
    ensures forall x :: 0 <= x < |payload| ==> Available(data, ranges, payload[x])
  {
    forall x | 0 <= x < |payload|
      ensures Available(data, ranges, payload[x])
    {
      assert Hits(x, entries) + Pending(x, []) == 1;
      var a := HitsWitness(x, entries);
      var e := entries[a];
      var k :| 0 <= k < |ranges| && Copies(data, address, ranges[k], payload, e);
      var src := e.srcAddr - address;
      var g := ranges[k];
      assert payload[x] == payload[e.dstOff..e.dstOff + e.srcSize][x - e.dstOff];
      assert payload[x] == data[g.start..g.stop][src + x - e.dstOff - g.start];
    }
  }

  /** The `for r in data_ranges` loop of `build_stratagem` (lines 95-149) on one
    * payload piece: the first range, in order, that shares a byte with the piece and
    * what it shares; StratagemCreationFailed once every range has failed; nothing
    * when there are no ranges. */
  method FirstFit(data: seq<byte>, ranges: seq<H.Range>, tslice: seq<byte>)
    returns (r: Result<Option<(int, Substr)>>)
    requires InData(ranges, |data|)
    ensures r.Err? <==> |ranges| > 0 && forall m :: 0 <= m < |ranges| ==> !Shares(data, ranges[m], tslice)
    ensures r.Err? ==> r.error == StratagemCreationFailed
    ensures r == Ok(None) <==> |ranges| == 0
    ensures r.Ok? && r.value.Some? ==>
      0 <= r.value.value.0 < |ranges| && Fits(data, ranges[r.value.value.0], tslice, r.value.value.1) &&
      forall m :: 0 <= m < r.value.value.0 ==> !Shares(data, ranges[m], tslice)
  {
    var fail := 0;
    var k := 0;
    while k < |ranges|
      invariant 0 <= k <= |ranges| && fail == k
      invariant |ranges| > 0 ==> k < |ranges|
      invariant forall m :: 0 <= m < k ==> !Shares(data, ranges[m], tslice)
    {
      var found := TryRange(data, ranges[k], tslice);
      if found.Ok? {
        return Ok(Some((k, found.value)));
      }
      fail := fail + 1;
      if fail == |ranges| {
        return Err(StratagemCreationFailed);
      }
      k := k + 1;
    }
    return Ok(None);
  }

  /** `build_stratagem` given the data ranges in the order they are tried, with the
    * `continue` after a one-byte entry (line 113) taken as the `break` it stands in
    * for and `_lcss` returning its longest match. Without data ranges the work is
    * dropped and the stratagem is empty. Otherwise it succeeds exactly when the
    * payload is non-empty and each of its bytes occurs in some range; then each entry
    * copies matching bytes out of one range, and each payload offset is written by
    * exactly one entry. */
  method Build(data: seq<byte>, address: int, ranges: seq<H.Range>, payload: seq<byte>)
    returns (r: Result<seq<CpEntry>>)
    requires InData(ranges, |data|)
    ensures |ranges| == 0 ==> r == Ok([])
    ensures |ranges| > 0 ==>
      (r.Ok? <==> |payload| > 0 && forall x :: 0 <= x < |payload| ==> Available(data, ranges, payload[x]))
    ensures r.Err? ==> r.error == StratagemCreationFailed
    ensures r.Ok? ==> forall a :: 0 <= a < |r.value| ==> Sound(data, address, ranges, payload, r.value[a])
    ensures r.Ok? && |ranges| > 0 ==> forall x :: 0 <= x < |payload| ==> Hits(x, r.value) == 1
  {
    var entries: seq<CpEntry> := [];
    var work := [H.Range(0, |payload|)];
    assert forall x :: 0 <= x < |payload| ==> Pending(x, work) == 1 by {
      assert work[..0] == [];
    }
    while |work| > 0
      invariant WorkBounds(work, |payload|)
      invariant |ranges| > 0 ==> WorkInv(data, address, ranges, payload, entries, work)
      invariant |ranges| == 0 ==> entries == []
      invariant |payload| == 0 && |ranges| > 0 ==> work == [H.Range(0, 0)]
      decreases Cost(work)
    {
      ghost var work0 := work;
      PopCost(work);
      var w := work[0];
      work := work[1..];
      var tslice := payload[w.start..w.stop];
      var pick := FirstFit(data, ranges, tslice);
      if pick.Err? {
        if |payload| > 0 {
          NoneFit(data, ranges, tslice);
          assert tslice[0] == payload[w.start];
        }
        return Err(pick.error);
      }
      if pick.value.Some? {
        var k, s := pick.value.value.0, pick.value.value.1;
        var g := ranges[k];
        var di, ti := s.di + g.start, s.ti + w.start;
        var e := CpEntry(address + di, s.size, ti);
        Advance(data, address, ranges, payload, entries, work0, k, s);
        entries := entries + [e];
        work := work + Carve(w, ti, ti + s.size);
      }
    }
    if |ranges| > 0 {
      DoneAvailable(data, address, ranges, payload, entries);
    }
    r := Ok(entries);
  }

  // ---------------------------------------------------------------------------------
  // The one-byte branch as written

  /** How many of the data ranges hold byte `b`. */
  function Holding(data: seq<byte>, ranges: seq<H.Range>, b: byte): nat
    requires InData(ranges, |data|)
  {
    if |ranges| == 0 then 0
    else (if b in data[ranges[0].start..ranges[0].stop] then 1 else 0) + Holding(data, ranges[1..], b)
  }

  /** The entries the one-byte branch (lines 102-113) appends as written: after an
    * entry its `continue` moves on to the next range instead of leaving the loop, so
    * every range holding the byte adds an entry for the same destination offset. */
  function OneByteEntries(data: seq<byte>, address: int, ranges: seq<H.Range>, b: byte, dst: int): seq<CpEntry>
    requires InData(ranges, |data|)
  {
    if |ranges| == 0 then []
    else
      var g := ranges[0];
      (match IndexOf(data[g.start..g.stop], b)
       case None => []
       case Some(o) => [CpEntry(address + g.start + o, 1, dst)]) +
      OneByteEntries(data, address, ranges[1..], b, dst)
  }

  /** The `for r in data_ranges` loop on a one-byte piece as written: the entries of
    * every range holding the byte, or StratagemCreationFailed once every range failed. */
  function OneByteAsWritten(data: seq<byte>, address: int, ranges: seq<H.Range>, b: byte, dst: int): Result<seq<CpEntry>>
    requires InData(ranges, |data|)
  {
    var es := OneByteEntries(data, address, ranges, b, dst);
    if |ranges| > 0 && |es| == 0 then Err(StratagemCreationFailed) else Ok(es)
  }

  lemma {:induction false} HitsAppend(x: int, a: seq<CpEntry>, b: seq<CpEntry>)
    ensures Hits(x, a + b) == Hits(x, a) + Hits(x, b)
    decreases |b|
  {
    if |b| > 0 {
      assert (a + b)[..|a + b| - 1] == a + b[..|b| - 1];
      HitsAppend(x, a, b[..|b| - 1]);
    } else {
      assert a + b == a;
    }
  }

  /** As written, a one-byte piece gets one entry per range holding its byte, every
    * one of them writing its destination offset; it fails only when no range holds the
    * byte. */
  lemma {:induction false} OneByteAsWrittenHits(data: seq<byte>, address: int, ranges: seq<H.Range>, b: byte, dst: int)
    requires InData(ranges, |data|)
    ensures |OneByteEntries(data, address, ranges, b, dst)| == Holding(data, ranges, b)
    ensures Hits(dst, OneByteEntries(data, address, ranges, b, dst)) == Holding(data, ranges, b)
    ensures OneByteAsWritten(data, address, ranges, b, dst).Err? <==> |ranges| > 0 && Holding(data, ranges, b) == 0
  {
    if |ranges| > 0 {
      var g := ranges[0];
      var head := match IndexOf(data[g.start..g.stop], b)
                  case None => []
                  case Some(o) => [CpEntry(address + g.start + o, 1, dst)];
      var tail := OneByteEntries(data, address, ranges[1..], b, dst);
      OneByteAsWrittenHits(data, address, ranges[1..], b, dst);
      assert OneByteEntries(data, address, ranges, b, dst) == head + tail;
      HitsAppend(dst, head, tail);
      if |head| == 1 {
        assert head[..0] == [];
      }
    }
  }

  /** Data [7, 0, 7] outside the gaps split into the ranges [0, 1) and [2, 3): placing
    * the one-byte payload [7] as written copies offset 0 twice, so the entries do not
    * partition the payload; the corrected loop (`Build`) writes each offset once. */
  lemma OneByteAsWrittenTwice()
    ensures OneByteAsWritten([7, 0, 7], 0, [H.Range(0, 1), H.Range(2, 3)], 7, 0) ==
            Ok([CpEntry(0, 1, 0), CpEntry(2, 1, 0)])
    ensures Hits(0, [CpEntry(0, 1, 0), CpEntry(2, 1, 0)]) == 2
  {
    var data: seq<byte> := [7, 0, 7];
    var ranges := [H.Range(0, 1), H.Range(2, 3)];
    assert data[0..1] == [7] && data[2..3] == [7];
    assert IndexOf(data[0..1], 7) == Some(0);
    assert IndexOf(data[2..3], 7) == Some(0);
    assert ranges[1..] == [H.Range(2, 3)] && ranges[1..][1..] == [];
    assert OneByteEntries(data, 0, ranges[1..], 7, 0) == [CpEntry(2, 1, 0)] + [];
    assert OneByteEntries(data, 0, ranges, 7, 0) == [CpEntry(0, 1, 0)] + [CpEntry(2, 1, 0)];
    assert [CpEntry(0, 1, 0)] + [CpEntry(2, 1, 0)] == [CpEntry(0, 1, 0), CpEntry(2, 1, 0)];
    assert [CpEntry(0, 1, 0), CpEntry(2, 1, 0)][..1] == [CpEntry(0, 1, 0)];
    assert OneByteAsWritten(data, 0, ranges, 7, 0) == Ok([CpEntry(0, 1, 0), CpEntry(2, 1, 0)]);
  }

  // ---------------------------------------------------------------------------------
  // sorted(self._split_data_offsets(), key=len, reverse=True)

  /** Longer ranges come first. */
  predicate LongestFirst(s: seq<H.Range>)
  {
    forall i, j :: 0 <= i < j < |s| ==> H.RangeLen(s[i]) >= H.RangeLen(s[j])
  }

  /** Inserts `g` before the first element no longer than it, so that ranges of equal
    * length keep their order. */
  function InsertByLen(g: H.Range, s: seq<H.Range>): (r: seq<H.Range>)
    ensures |r| == |s| + 1
  {
    if |s| == 0 then [g]
    else if H.RangeLen(s[0]) <= H.RangeLen(g) then [g] + s
    else [s[0]] + InsertByLen(g, s[1..])
  }

  lemma {:induction false} InsertByLenPerm(g: H.Range, s: seq<H.Range>)
    ensures multiset(InsertByLen(g, s)) == multiset(s) + multiset{g}
  {
    if |s| > 0 && H.RangeLen(s[0]) > H.RangeLen(g) {
      InsertByLenPerm(g, s[1..]);
      assert s == [s[0]] + s[1..];
    }
  }

  lemma {:induction false} InsertByLenSorted(g: H.Range, s: seq<H.Range>, hi: int)
    requires LongestFirst(s)
    requires H.RangeLen(g) <= hi && forall k :: 0 <= k < |s| ==> H.RangeLen(s[k]) <= hi
    ensures LongestFirst(InsertByLen(g, s))
    ensures forall k :: 0 <= k < |InsertByLen(g, s)| ==> H.RangeLen(InsertByLen(g, s)[k]) <= hi
  {
    if |s| > 0 && H.RangeLen(s[0]) > H.RangeLen(g) {
      var t := InsertByLen(g, s[1..]);
      InsertByLenSorted(g, s[1..], H.RangeLen(s[0]));
      assert InsertByLen(g, s) == [s[0]] + t;
    }
  }

  /** Python's stable `sorted` by length, longest first. */
  function SortByLen(s: seq<H.Range>): (r: seq<H.Range>)
    ensures |r| == |s|
  {
    if |s| == 0 then [] else InsertByLen(s[0], SortByLen(s[1..]))
  }

  /** Sorting keeps the same ranges and puts the longest first. */
  lemma {:induction false} SortByLenSpec(s: seq<H.Range>)
    ensures multiset(SortByLen(s)) == multiset(s)
    ensures LongestFirst(SortByLen(s))
  {
    if |s| > 0 {
      var t := SortByLen(s[1..]);
      SortByLenSpec(s[1..]);
      InsertByLenPerm(s[0], t);
      assert s == [s[0]] + s[1..];
      var hi := if |t| > 0 && H.RangeLen(t[0]) > H.RangeLen(s[0]) then H.RangeLen(t[0]) else H.RangeLen(s[0]);
      InsertByLenSorted(s[0], t, hi);
    }
  }

  // ---------------------------------------------------------------------------------
  // CpHunter.build_stratagem over a hunter

  /** The data ranges, inside data of length `n`, cover exactly the offsets outside the
    * gaps, and none is empty. */
  ghost predicate CoverExactly(ranges: seq<H.Range>, n: int, gaps: seq<H.Range>)
  {
    InData(ranges, n) &&
    (forall k :: 0 <= k < |ranges| ==> ranges[k].start < ranges[k].stop) &&
    forall x :: 0 <= x < n ==> (H.Covered(x, ranges) <==> H.Free(x, gaps))
  }

  /** Reordering the ranges covers the same offsets. */
  lemma SortedCover(split: seq<H.Range>, ranges: seq<H.Range>, n: int, gaps: seq<H.Range>)
    requires H.Separated(split, n)
    requires forall x :: 0 <= x < n ==> (H.Covered(x, split) <==> H.Free(x, gaps))
    requires multiset(ranges) == multiset(split)
    ensures CoverExactly(ranges, n, gaps)
  {
    forall k | 0 <= k < |ranges|
      ensures exists j :: 0 <= j < |split| && split[j] == ranges[k]
    {
      assert ranges[k] in multiset(split);
    }
    forall x | 0 <= x < n
      ensures H.Covered(x, ranges) <==> H.Covered(x, split)
    {
      if H.Covered(x, split) {
        var j :| 0 <= j < |split| && H.InRange(x, split[j]);
        assert split[j] in multiset(ranges);
        var k :| 0 <= k < |ranges| && ranges[k] == split[j];
      }
    }
  }

  /** Some offset lies outside the gaps exactly when there is a data range. */
  lemma CoverAny(ranges: seq<H.Range>, n: int, gaps: seq<H.Range>)
    requires CoverExactly(ranges, n, gaps)
    ensures |ranges| > 0 <==> exists o :: 0 <= o < n && H.Free(o, gaps)
  {
    if |ranges| > 0 {
      assert H.InRange(ranges[0].start, ranges[0]);
      assert H.Free(ranges[0].start, gaps);
    } else {
      forall o | 0 <= o < n
        ensures !H.Free(o, gaps)
      {
        assert !H.Covered(o, ranges);
      }
    }
  }

  /** Some offset of the data outside every gap holds byte `b`. */
  predicate Offered(data: seq<byte>, gaps: seq<H.Range>, b: byte)
  {
    exists o :: 0 <= o < |data| && H.Free(o, gaps) && data[o] == b
  }

  /** Entry `e` copies bytes from data offsets outside the gaps that equal the payload's
    * bytes at its destination. */
  predicate CopiesFree(data: seq<byte>, address: int, gaps: seq<H.Range>, payload: seq<byte>, e: CpEntry)
  {
    var src := e.srcAddr - address;
    1 <= e.srcSize && 0 <= src && src + e.srcSize <= |data| &&
    (forall o :: src <= o < src + e.srcSize ==> H.Free(o, gaps)) &&
    0 <= e.dstOff && e.dstOff + e.srcSize <= |payload| &&
    data[src..src + e.srcSize] == payload[e.dstOff..e.dstOff + e.srcSize]
  }

  lemma AvailableOffered(data: seq<byte>, ranges: seq<H.Range>, gaps: seq<H.Range>, b: byte)
    requires CoverExactly(ranges, |data|, gaps)
    ensures Available(data, ranges, b) <==> Offered(data, gaps, b)
  {
    if Available(data, ranges, b) {
      var k :| 0 <= k < |ranges| && 0 <= ranges[k].start <= ranges[k].stop <= |data| &&
               b in data[ranges[k].start..ranges[k].stop];
      var g := ranges[k];
      var i :| 0 <= i < g.stop - g.start && data[g.start..g.stop][i] == b;
      assert H.InRange(g.start + i, ranges[k]);
      assert H.Free(g.start + i, gaps);
    }
    if Offered(data, gaps, b) {
      var o :| 0 <= o < |data| && H.Free(o, gaps) && data[o] == b;
      assert H.Covered(o, ranges);
      var k :| 0 <= k < |ranges| && H.InRange(o, ranges[k]);
      var g := ranges[k];
      assert data[g.start..g.stop][o - g.start] == b;
    }
  }

  lemma SoundFree(data: seq<byte>, address: int, ranges: seq<H.Range>, gaps: seq<H.Range>,
                  payload: seq<byte>, e: CpEntry)
    requires CoverExactly(ranges, |data|, gaps)
    requires Sound(data, address, ranges, payload, e)
    ensures CopiesFree(data, address, gaps, payload, e)
  {
    var k :| 0 <= k < |ranges| && Copies(data, address, ranges[k], payload, e);
    var src := e.srcAddr - address;
    forall o | src <= o < src + e.srcSize
      ensures H.Free(o, gaps)
    {
      assert H.InRange(o, ranges[k]);
    }
  }

  /** `CpHunter.build_stratagem` (lines 69-152): the data outside the gaps, split into
    * ranges and tried longest first. With no offset outside the gaps the stratagem is
    * empty. Otherwise it is built exactly when the payload is non-empty and each of its
    * bytes occurs outside the gaps; then each entry copies bytes from outside the gaps
    * equal to the payload bytes at its destination, and each payload offset is written
    * by exactly one entry. */
  method BuildStratagem(h: H.Hunter, payload: seq<byte>) returns (r: Result<seq<CpEntry>>)
    requires H.Valid(h) && H.WellPlacedGaps(h.gaps, |h.data|)
    ensures (forall o :: 0 <= o < |h.data| ==> !H.Free(o, h.gaps)) ==> r == Ok([])
    ensures (exists o :: 0 <= o < |h.data| && H.Free(o, h.gaps)) ==>
      (r.Ok? <==> |payload| > 0 && forall x :: 0 <= x < |payload| ==> Offered(h.data, h.gaps, payload[x]))
    ensures r.Err? ==> r.error == StratagemCreationFailed
    ensures r.Ok? ==> forall a :: 0 <= a < |r.value| ==> CopiesFree(h.data, h.address, h.gaps, payload, r.value[a])
    ensures r.Ok? && (exists o :: 0 <= o < |h.data| && H.Free(o, h.gaps)) ==>
      forall x :: 0 <= x < |payload| ==> Hits(x, r.value) == 1
  {
    var split := H.SplitDataOffsets(h);
    var ranges := SortByLen(split);
    SortByLenSpec(split);
    SortedCover(split, ranges, |h.data|, h.gaps);
    CoverAny(ranges, |h.data|, h.gaps);
    r := Build(h.data, h.address, ranges, payload);
    forall x | 0 <= x < |payload|
      ensures Available(h.data, ranges, payload[x]) <==> Offered(h.data, h.gaps, payload[x])
    {
      AvailableOffered(h.data, ranges, h.gaps, payload[x]);
    }
    if r.Ok? {
      forall a | 0 <= a < |r.value|
        ensures CopiesFree(h.data, h.address, h.gaps, payload, r.value[a])
      {
        SoundFree(h.data, h.address, ranges, h.gaps, payload, r.value[a]);
      }
    }
  }

  // ---------------------------------------------------------------------------------
  // CpHunter.find / finditer

  /** `CpHunter.find` (lines 55-60) is not supported. */
  function Find(h: H.Hunter, target: seq<byte>, start: int, end: int): (r: Result<H.Match<()>>)
    ensures r.Err? && r.error == OperationNotSupported
  {
    Err(OperationNotSupported)
  }

  /** `CpHunter.finditer` (lines 62-67) raises before producing any result. */
  function FindIter(h: H.Hunter, target: seq<byte>, start: int, end: int): (r: H.Stream<H.Match<()>>)
    ensures r.items == [] && r.raised == Some(OperationNotSupported)
  {
    H.Stream([], Some(OperationNotSupported))
  }
}
