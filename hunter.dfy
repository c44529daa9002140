/** The search engine every hunter shares (`Hunter` in hunter/hunter.py): offset
  * validation, gaps given by address and kept as offset ranges, iteration over the
  * offsets outside the gaps, and `find` / `finditer` driven by a per-hunter probe. */
module Hunter {
  import opened Errors
  import opened PyBytes

  /** A Python `range(start, stop)` with step 1. */
  datatype Range = Range(start: int, stop: int)

  predicate InRange(x: int, g: Range) { g.start <= x < g.stop }

  /** `len(range)`. */
  function RangeLen(g: Range): nat { if g.stop > g.start then g.stop - g.start else 0 }

  function TotalLen(gaps: seq<Range>): int
  {
    if |gaps| == 0 then 0 else TotalLen(gaps[..|gaps| - 1]) + RangeLen(gaps[|gaps| - 1])
  }

  /** `x` lies in none of the gaps. */
  predicate Free(x: int, gaps: seq<Range>)
  {
    forall k :: 0 <= k < |gaps| ==> !InRange(x, gaps[k])
  }

  /** The ascending offsets of [a, b) that lie in no gap. */
  function FreeOffsets(a: int, b: int, gaps: seq<Range>): seq<int>
    decreases b - a
  {
    if a >= b then [] else (if Free(a, gaps) then [a] else []) + FreeOffsets(a + 1, b, gaps)
  }

  /** An offset is listed exactly when it is in [a, b) and in no gap. */
  lemma {:induction false} FreeOffsetsMembers(a: int, b: int, gaps: seq<Range>, x: int)
    ensures x in FreeOffsets(a, b, gaps) <==> a <= x < b && Free(x, gaps)
    decreases b - a
  {
    if a < b {
      var head := if Free(a, gaps) then [a] else [];
      assert FreeOffsets(a, b, gaps) == head + FreeOffsets(a + 1, b, gaps);
      assert x in FreeOffsets(a, b, gaps) <==> x in head || x in FreeOffsets(a + 1, b, gaps);
      FreeOffsetsMembers(a + 1, b, gaps, x);
    }
  }

  /** The listed offsets lie in [a, b). */
  lemma {:induction false} FreeOffsetsBounds(a: int, b: int, gaps: seq<Range>)
    ensures forall k :: 0 <= k < |FreeOffsets(a, b, gaps)| ==> a <= FreeOffsets(a, b, gaps)[k] < b
    decreases b - a
  {
    if a < b {
      FreeOffsetsBounds(a + 1, b, gaps);
      var rest := FreeOffsets(a + 1, b, gaps);
      var t := FreeOffsets(a, b, gaps);
      if Free(a, gaps) {
        assert t == [a] + rest;
        assert forall k :: 1 <= k < |t| ==> t[k] == rest[k - 1];
      } else {
        assert t == rest;
      }
    }
  }

  /** The listed offsets strictly ascend. */
  lemma {:induction false} FreeOffsetsAscending(a: int, b: int, gaps: seq<Range>)
    ensures forall i, j :: 0 <= i < j < |FreeOffsets(a, b, gaps)| ==>
      FreeOffsets(a, b, gaps)[i] < FreeOffsets(a, b, gaps)[j]
    decreases b - a
  {
    if a < b {
      FreeOffsetsAscending(a + 1, b, gaps);
      FreeOffsetsBounds(a + 1, b, gaps);
      var rest := FreeOffsets(a + 1, b, gaps);
      var t := FreeOffsets(a, b, gaps);
      if Free(a, gaps) {
        assert t == [a] + rest;
        assert forall k :: 1 <= k < |t| ==> t[k] == rest[k - 1];
      } else {
        assert t == rest;
      }
    }
  }

  /** Offsets that all lie in gaps contribute nothing. */
  lemma {:induction false} SkipTaken(a: int, b: int, stop: int, gaps: seq<Range>)
    requires a <= b
    requires forall x :: a <= x < b ==> !Free(x, gaps)
    ensures FreeOffsets(a, stop, gaps) == FreeOffsets(b, stop, gaps)
    decreases b - a
  {
    if a < b {
      assert !Free(a, gaps);
      if a < stop {
        assert FreeOffsets(a, stop, gaps) == FreeOffsets(a + 1, stop, gaps);
      }
      SkipTaken(a + 1, b, stop, gaps);
    }
  }

  /** Something no smaller than `lo` and no smaller than any gap's stop. */
  function StopBound(gaps: seq<Range>, lo: int): (r: int)
    ensures r >= lo && forall k :: 0 <= k < |gaps| ==> gaps[k].stop <= r
  {
    if |gaps| == 0 then lo
    else
      var b := StopBound(gaps[1..], lo);
      assert forall k :: 1 <= k < |gaps| ==> gaps[k] == gaps[1..][k - 1];
      if gaps[0].stop > b then gaps[0].stop else b
  }

  /** `_GappedRangeIter`: iterates over a range, skipping every offset inside a gap. */
  class GappedRangeIter {
    const start: int
    const stop: int
    const gaps: seq<Range>
    /** `__len__`: the range's length less every gap's length. */
    const length: int
    var i: int

    /** The offsets still to be produced. */
    function Remaining(): seq<int>
      reads this
    {
      FreeOffsets(i, stop, gaps)
    }

    constructor (full: Range, gaps: seq<Range>)
      ensures start == full.start && stop == full.stop && this.gaps == gaps
      ensures length == full.stop - full.start - TotalLen(gaps)
      ensures Remaining() == FreeOffsets(full.start, full.stop, gaps)
      ensures i == full.start
    {
      var len := full.stop - full.start;
      var k := 0;
      while k < |gaps|
        invariant 0 <= k <= |gaps|
        invariant len == full.stop - full.start - TotalLen(gaps[..k])
      {
        assert gaps[..k + 1][..k] == gaps[..k];
        len := len - RangeLen(gaps[k]);
        k := k + 1;
      }
      assert gaps[..|gaps|] == gaps;
      start := full.start;
      stop := full.stop;
      this.gaps := gaps;
      length := len;
      i := full.start;
    }

    /** `__next__`: the next offset outside every gap, or None (StopIteration). */
    method Next() returns (r: Option<int>)
      modifies this
      ensures r.None? ==> old(Remaining()) == [] && Remaining() == []
      ensures r.Some? ==> old(Remaining()) == [r.value] + Remaining()
      ensures r.Some? ==> old(i) <= r.value < stop && Free(r.value, gaps) && i == r.value + 1
      ensures r.Some? ==> forall x :: old(i) <= x < r.value ==> !Free(x, gaps)
      ensures r.None? ==> forall x :: old(i) <= x < stop ==> !Free(x, gaps)
    {
      ghost var i0 := i;
      ghost var bound := StopBound(gaps, i);
      var resolved := false;
      while !resolved
        invariant i0 <= i <= bound
        invariant forall x :: i0 <= x < i ==> !Free(x, gaps)
        invariant resolved ==> Free(i, gaps)
        decreases bound - i, if resolved then 0 else 1
      {
        var prev := i;
        var k := 0;
        while k < |gaps|
          invariant 0 <= k <= |gaps| && i == prev
          invariant forall m :: 0 <= m < k ==> !InRange(i, gaps[m])
        {
          if InRange(i, gaps[k]) {
            assert forall x :: prev <= x < gaps[k].stop ==> InRange(x, gaps[k]);
            i := gaps[k].stop;
            break;
          }
          k := k + 1;
        }
        resolved := prev == i;
      }
      SkipTaken(i0, i, stop, gaps);
      if i >= stop {
        return None;
      }
      r := Some(i);
      i := i + 1;
    }
  }

  /** A gap as the caller gives it: an `(address, length)` tuple, an address `range`,
    * or anything else (a TypeError). */
  datatype GapSpec = AddrLen(addr: int, len: int) | AddrRange(r: Range) | OtherGap

  /** A hunter's configuration: the data, its address, the default inclusive offset
    * bounds and the gaps as offset ranges sorted by start. */
  datatype Hunter = Hunter(data: seq<byte>, address: int, startOffset: int, endOffset: int,
                           gaps: seq<Range>)

  /** What every constructed hunter satisfies. */
  predicate Valid(h: Hunter)
  {
    0 <= h.startOffset <= h.endOffset < |h.data|
  }

  /** `_validate_offsets`: IndexError unless start <= end, both lie in the data, and a
    * target (of length `tlen`, when there is one) fits in [start, end]. */
  function ValidateOffsets(dlen: nat, tlen: Option<nat>, start: int, end: int): (r: Result<()>)
    ensures r.Ok? <==> (start <= end && 0 <= start < dlen && 0 <= end < dlen &&
                        (tlen.Some? ==> end - start + 1 >= tlen.value))
    ensures r.Err? ==> r.error == IndexError
  {
    if start > end then Err(IndexError)
    else if start < 0 || start >= dlen then Err(IndexError)
    else if end < 0 || end >= dlen then Err(IndexError)
    else if tlen.None? then Ok(())
    else if end - start + 1 < tlen.value then Err(IndexError)
    else Ok(())
  }

  /** One gap, moved from addresses to offsets. */
  function GapOffset(g: GapSpec, address: int): Result<Range>
  {
    match g
    case AddrLen(a, n) => Ok(Range(a - address, a - address + n))
    case AddrRange(r) => Ok(Range(r.start - address, r.stop - address))
    case OtherGap => Err(TypeError)
  }

  /** All gaps moved to offsets, in the order given; TypeError at the first bad one. */
  function GapOffsets(gs: seq<GapSpec>, address: int): (r: Result<seq<Range>>)
    ensures r.Ok? ==> |r.value| == |gs|
    ensures r.Ok? ==> forall k :: 0 <= k < |gs| ==> GapOffset(gs[k], address) == Ok(r.value[k])
    ensures r.Err? ==> r.error == TypeError && exists k :: 0 <= k < |gs| && gs[k].OtherGap?
  {
    if |gs| == 0 then Ok([])
    else
      match GapOffsets(gs[..|gs| - 1], address)
      case Err(e) => Err(e)
      case Ok(rs) =>
        match GapOffset(gs[|gs| - 1], address)
        case Err(e) => Err(e)
        case Ok(g) => Ok(rs + [g])
  }

  predicate SortedByStart(s: seq<Range>)
  {
    forall i, j :: 0 <= i < j < |s| ==> s[i].start <= s[j].start
  }

  /** Inserts `g` before the first element that does not start before it. */
  function InsertByStart(g: Range, s: seq<Range>): (r: seq<Range>)
    ensures |r| == |s| + 1
  {
    if |s| == 0 then [g]
    else if g.start <= s[0].start then [g] + s
    else [s[0]] + InsertByStart(g, s[1..])
  }

  lemma {:induction false} InsertPerm(g: Range, s: seq<Range>)
    ensures multiset(InsertByStart(g, s)) == multiset(s) + multiset{g}
  {
    if |s| > 0 && g.start > s[0].start {
      InsertPerm(g, s[1..]);
      assert s == [s[0]] + s[1..];
    }
  }

  /** Inserting into a sorted list keeps it sorted, and keeps every start at or above
    * any common lower bound. */
  lemma {:induction false} InsertSorted(g: Range, s: seq<Range>, lo: int)
    requires SortedByStart(s)
    requires g.start >= lo && forall k :: 0 <= k < |s| ==> s[k].start >= lo
    ensures SortedByStart(InsertByStart(g, s))
    ensures forall k :: 0 <= k < |InsertByStart(g, s)| ==> InsertByStart(g, s)[k].start >= lo
  {
    if |s| > 0 && g.start > s[0].start {
      var t := InsertByStart(g, s[1..]);
      InsertSorted(g, s[1..], s[0].start);
      assert InsertByStart(g, s) == [s[0]] + t;
    }
  }

  /** `sorted(gaps, key=lambda g: g.start)`. */
  function SortByStart(s: seq<Range>): (r: seq<Range>)
    ensures |r| == |s|
  {
    if |s| == 0 then [] else InsertByStart(s[0], SortByStart(s[1..]))
  }

  /** Sorting yields the same gaps. */
  lemma {:induction false} SortByStartPerm(s: seq<Range>)
    ensures multiset(SortByStart(s)) == multiset(s)
  {
    if |s| > 0 {
      SortByStartPerm(s[1..]);
      InsertPerm(s[0], SortByStart(s[1..]));
      assert s == [s[0]] + s[1..];
    }
  }

  /** Sorting orders the gaps by start. */
  lemma {:induction false} SortByStartSorted(s: seq<Range>)
    ensures SortedByStart(SortByStart(s))
  {
    if |s| > 0 {
      var t := SortByStart(s[1..]);
      SortByStartSorted(s[1..]);
      var lo := if |t| > 0 && t[0].start < s[0].start then t[0].start else s[0].start;
      InsertSorted(s[0], t, lo);
    }
  }

  /** The `Hunter` constructor's checks and normalisation, as a value. */
  function Make(data: seq<byte>, address: int, startOffset: int, endOffset: int, gs: seq<GapSpec>): Result<Hunter>
  {
    var s := if startOffset < 0 then 0 else startOffset;
    var e := if endOffset < 0 then |data| - 1 else endOffset;
    match ValidateOffsets(|data|, None, s, e)
    case Err(err) => Err(err)
    case Ok(_) =>
      match GapOffsets(gs, address)
      case Err(err) => Err(err)
      case Ok(rs) => Ok(Hunter(data, address, s, e, SortByStart(rs)))
  }

  /** `Hunter.__init__`: negative offsets mean the whole data, the bounds are validated,
    * and the gaps are converted to offset ranges one by one and sorted by start. */
  method New(data: seq<byte>, address: int, startOffset: int, endOffset: int, gs: seq<GapSpec>)
    returns (r: Result<Hunter>)
    ensures r == Make(data, address, startOffset, endOffset, gs)
    ensures r.Ok? ==> Valid(r.value) && r.value.data == data && r.value.address == address
    ensures r.Ok? ==> SortedByStart(r.value.gaps)
    ensures r.Ok? ==> (startOffset >= 0 ==> r.value.startOffset == startOffset) &&
                      (startOffset < 0 ==> r.value.startOffset == 0) &&
                      (endOffset >= 0 ==> r.value.endOffset == endOffset) &&
                      (endOffset < 0 ==> r.value.endOffset == |data| - 1)
  {
    var s := if startOffset < 0 then 0 else startOffset;
    var e := if endOffset < 0 then |data| - 1 else endOffset;
    var v := ValidateOffsets(|data|, None, s, e);
    if v.Err? {
      return Err(v.error);
    }
    var rs: seq<Range> := [];
    var k := 0;
    while k < |gs|
      invariant 0 <= k <= |gs|
      invariant GapOffsets(gs[..k], address) == Ok(rs)
    {
      assert gs[..k + 1][..k] == gs[..k];
      var g := GapOffset(gs[k], address);
      if g.Err? {
        assert GapOffsets(gs[..k + 1], address) == Err(TypeError);
        GapOffsetsPrefixErr(gs, address, k + 1);
        return Err(g.error);
      }
      rs := rs + [g.value];
      k := k + 1;
    }
    assert gs[..|gs|] == gs;
    SortByStartSorted(rs);
    r := Ok(Hunter(data, address, s, e, SortByStart(rs)));
  }

  /** A conversion failure in a prefix is the failure of the whole list. */
  lemma {:induction false} GapOffsetsPrefixErr(gs: seq<GapSpec>, address: int, n: nat)
    requires n <= |gs| && GapOffsets(gs[..n], address).Err?
    ensures GapOffsets(gs, address) == GapOffsets(gs[..n], address)
    decreases |gs| - n
  {
    if n < |gs| {
      assert gs[..n + 1][..n] == gs[..n];
      GapOffsetsPrefixErr(gs, address, n + 1);
    } else {
      assert gs[..n] == gs;
    }
  }

  /** `_gapped_range_iter`'s bounds: negative start or end mean the hunter's own, the
    * result is validated against the target length, and the range is [start, end + 1). */
  function SearchRange(h: Hunter, tlen: Option<nat>, start: int, end: int): (r: Result<Range>)
    ensures r.Ok? ==> 0 <= r.value.start < r.value.stop <= |h.data|
    ensures r.Ok? && tlen.Some? ==> r.value.stop - r.value.start >= tlen.value
    ensures r.Ok? && start >= 0 ==> r.value.start == start
    ensures r.Ok? && start < 0 ==> r.value.start == h.startOffset
    ensures r.Ok? && end >= 0 ==> r.value.stop == end + 1
    ensures r.Ok? && end < 0 ==> r.value.stop == h.endOffset + 1
    ensures r.Err? ==> r.error == IndexError
  {
    var s := if start < 0 then h.startOffset else start;
    var e := if end < 0 then h.endOffset else end;
    match ValidateOffsets(|h.data|, tlen, s, e)
    case Err(err) => Err(err)
    case Ok(_) => Ok(Range(s, e + 1))
  }

  /** What a hunter's `_search_at` answers at one offset: None (keep going), a result
    * `(offset, size, extra)`, or an exception. */
  datatype Probe<E> = Skip | Hit(off: int, size: int, extra: E) | Fail(e: Error)

  /** A `find` result: `src_off`, `src_addr`, `src_size` and the hunter's extra entries. */
  datatype Match<E> = Match(srcOff: int, srcAddr: int, srcSize: int, extra: E)

  /** Whether a probe answer lets the search go on to the next offset. */
  predicate Passes<E>(p: Probe<E>, gaps: seq<Range>)
  {
    p.Skip? || (p.Hit? && IsInGap(p.off, p.size, gaps))
  }

  /** `_is_in_gap` as written: the pass-through test compares with `gap.stop - 11`. */
  function IsInGapAsWritten(offset: int, length: int, gaps: seq<Range>): bool
  {
    if |gaps| == 0 then false
    else
      var g, e := gaps[0], offset + length - 1;
      if InRange(offset, g) || InRange(e, g) || (offset <= g.start && e >= g.stop - 11) then true
      else IsInGapAsWritten(offset, length, gaps[1..])
  }

  /** `_is_in_gap` with the pass-through test against the gap's last offset,
    * `gap.stop - 1`. */
  function IsInGap(offset: int, length: int, gaps: seq<Range>): bool
  {
    if |gaps| == 0 then false
    else
      var g, e := gaps[0], offset + length - 1;
      if InRange(offset, g) || InRange(e, g) || (offset <= g.start && e >= g.stop - 1) then true
      else IsInGap(offset, length, gaps[1..])
  }

  predicate Touches(offset: int, length: int, g: Range)
  {
    exists x :: offset <= x < offset + length && InRange(x, g)
  }

  lemma TouchesOne(offset: int, length: int, g: Range)
    requires length >= 1 && g.start < g.stop
    ensures Touches(offset, length, g) <==>
      (InRange(offset, g) || InRange(offset + length - 1, g) ||
       (offset <= g.start && offset + length - 1 >= g.stop - 1))
  {
    var e := offset + length - 1;
    if offset <= g.start && e >= g.stop - 1 {
      assert offset <= g.start < offset + length && InRange(g.start, g);
    }
    if InRange(offset, g) {
      assert offset <= offset < offset + length;
    }
    if InRange(e, g) {
      assert offset <= e < offset + length;
    }
  }

  /** The corrected `_is_in_gap` holds exactly when the window [offset, offset + length)
    * shares an offset with some (non-empty) gap. */
  lemma {:induction false} IsInGapMeaning(offset: int, length: int, gaps: seq<Range>)
    requires length >= 1
    requires forall k :: 0 <= k < |gaps| ==> gaps[k].start < gaps[k].stop
    ensures IsInGap(offset, length, gaps) <==>
      exists k :: 0 <= k < |gaps| && Touches(offset, length, gaps[k])
  {
    if |gaps| > 0 {
      TouchesOne(offset, length, gaps[0]);
      IsInGapMeaning(offset, length, gaps[1..]);
      assert forall k :: 1 <= k < |gaps| ==> gaps[k] == gaps[1..][k - 1];
      if exists k :: 0 <= k < |gaps| && Touches(offset, length, gaps[k]) {
        var k :| 0 <= k < |gaps| && Touches(offset, length, gaps[k]);
        if k > 0 {
          assert Touches(offset, length, gaps[1..][k - 1]);
        }
      }
    }
  }

  /** The 11 in `_is_in_gap` discards a window that ends before a gap shorter than 11
    * bytes: [90, 95) shares no offset with the gap [100, 105). */
  lemma IsInGapAsWrittenFalsePositive()
    ensures IsInGapAsWritten(90, 5, [Range(100, 105)])
    ensures !IsInGap(90, 5, [Range(100, 105)])
    ensures !Touches(90, 5, Range(100, 105))
  {
  }

  /** The first offset of `offs` whose probe answer does not pass, as `_find_impl`'s
    * loop reports it. */
  function FirstHit<E>(offs: seq<int>, probe: (int, int) -> Probe<E>, stop: int, h: Hunter): Result<Match<E>>
  {
    if |offs| == 0 then Err(HunterResultNotFound)
    else
      match probe(offs[0], stop)
      case Skip => FirstHit(offs[1..], probe, stop, h)
      case Fail(e) => Err(e)
      case Hit(o, n, x) =>
        if IsInGap(o, n, h.gaps) then FirstHit(offs[1..], probe, stop, h)
        else Ok(Match(o, h.address + o, n, x))
  }

  /** `find`: probe every offset of the search range outside the gaps, in order. */
  function Find<E>(h: Hunter, probe: (int, int) -> Probe<E>, tlen: Option<nat>, start: int, end: int): (r: Result<Match<E>>)
    ensures SearchRange(h, tlen, start, end).Err? ==> r == Err(IndexError)
    ensures r.Ok? ==> r.value.srcAddr == h.address + r.value.srcOff && !IsInGap(r.value.srcOff, r.value.srcSize, h.gaps)
  {
    match SearchRange(h, tlen, start, end)
    case Err(e) => Err(e)
    case Ok(sr) =>
      FirstHitSpec(FreeOffsets(sr.start, sr.stop, h.gaps), probe, sr.stop, h);
      FirstHit(FreeOffsets(sr.start, sr.stop, h.gaps), probe, sr.stop, h)
  }

  /** A found result came from the probe at one of the offsets, every earlier offset
    * passed, and the result does not touch a gap. */
  lemma {:induction false} FirstHitSpec<E>(offs: seq<int>, probe: (int, int) -> Probe<E>, stop: int, h: Hunter)
    ensures var r := FirstHit(offs, probe, stop, h);
      r.Ok? ==> (r.value.srcAddr == h.address + r.value.srcOff &&
        !IsInGap(r.value.srcOff, r.value.srcSize, h.gaps) &&
        exists k :: 0 <= k < |offs| &&
          probe(offs[k], stop) == Hit(r.value.srcOff, r.value.srcSize, r.value.extra) &&
          forall j :: 0 <= j < k ==> Passes(probe(offs[j], stop), h.gaps))
    ensures var r := FirstHit(offs, probe, stop, h);
      (forall j :: 0 <= j < |offs| ==> Passes(probe(offs[j], stop), h.gaps)) ==> r == Err(HunterResultNotFound)
  {
    if |offs| > 0 {
      FirstHitSpec(offs[1..], probe, stop, h);
      var r := FirstHit(offs, probe, stop, h);
      if r.Ok? && Passes(probe(offs[0], stop), h.gaps) {
        var k :| 0 <= k < |offs| - 1 &&
          probe(offs[1..][k], stop) == Hit(r.value.srcOff, r.value.srcSize, r.value.extra) &&
          forall j :: 0 <= j < k ==> Passes(probe(offs[1..][j], stop), h.gaps);
        assert forall j :: 1 <= j < k + 1 ==> offs[j] == offs[1..][j - 1];
        assert probe(offs[k + 1], stop) == Hit(r.value.srcOff, r.value.srcSize, r.value.extra);
      } else if r.Ok? {
        assert probe(offs[0], stop) == Hit(r.value.srcOff, r.value.srcSize, r.value.extra);
      }
      if forall j :: 0 <= j < |offs| ==> Passes(probe(offs[j], stop), h.gaps) {
        assert forall j :: 0 <= j < |offs| - 1 ==> offs[1..][j] == offs[j + 1];
      }
    }
  }

  /** The probe never reports a result that starts before the offset it was asked about,
    * and never an empty one. */
  ghost predicate Forward<E>(probe: (int, int) -> Probe<E>)
  {
    forall i, stop :: probe(i, stop).Hit? ==> probe(i, stop).off >= i && probe(i, stop).size >= 1
  }

  lemma {:induction false} FirstHitForward<E>(offs: seq<int>, probe: (int, int) -> Probe<E>, stop: int, h: Hunter, lo: int)
    requires Forward(probe)
    requires forall k :: 0 <= k < |offs| ==> offs[k] >= lo
    ensures var r := FirstHit(offs, probe, stop, h); r.Ok? ==> r.value.srcOff >= lo && r.value.srcSize >= 1
  {
    if |offs| > 0 {
      FirstHitForward(offs[1..], probe, stop, h, lo);
    }
  }

  /** A `find` result lies at or after the offset the search started from, is not
    * empty, and does not touch a gap. */
  lemma FindForward<E>(h: Hunter, probe: (int, int) -> Probe<E>, tlen: Option<nat>, start: int, end: int)
    requires Forward(probe) && start >= 0
    ensures var r := Find(h, probe, tlen, start, end);
      r.Ok? ==> (r.value.srcOff >= start && r.value.srcSize >= 1 &&
        r.value.srcAddr == h.address + r.value.srcOff &&
        !IsInGap(r.value.srcOff, r.value.srcSize, h.gaps))
  {
    var sr := SearchRange(h, tlen, start, end);
    if sr.Ok? {
      var offs := FreeOffsets(sr.value.start, sr.value.stop, h.gaps);
      FreeOffsetsBounds(sr.value.start, sr.value.stop, h.gaps);
      FirstHitForward(offs, probe, sr.value.stop, h, start);
      FirstHitSpec(offs, probe, sr.value.stop, h);
    }
  }

  /** Every `find` result is an answer of the probe at some offset and stop. */
  lemma FindFromProbe<E>(h: Hunter, probe: (int, int) -> Probe<E>, tlen: Option<nat>, start: int, end: int, m: Match<E>)
    requires Find(h, probe, tlen, start, end) == Ok(m)
    ensures exists i, stop :: probe(i, stop) == Hit(m.srcOff, m.srcSize, m.extra)
  {
    var sr := SearchRange(h, tlen, start, end).value;
    var offs := FreeOffsets(sr.start, sr.stop, h.gaps);
    FirstHitSpec(offs, probe, sr.stop, h);
    assert FirstHit(offs, probe, sr.stop, h) == Ok(m);
    var k :| 0 <= k < |offs| && probe(offs[k], sr.stop) == Hit(m.srcOff, m.srcSize, m.extra);
    var i: int, stop: int := offs[k], sr.stop;
    assert probe(i, stop) == Hit(m.srcOff, m.srcSize, m.extra);
  }

  /** `_find_impl`, with the offsets produced by a `_GappedRangeIter`. */
  method FindImpl<E>(h: Hunter, probe: (int, int) -> Probe<E>, tlen: Option<nat>, start: int, end: int)
    returns (r: Result<Match<E>>)
    ensures r == Find(h, probe, tlen, start, end)
  {
    var sr := SearchRange(h, tlen, start, end);
    if sr.Err? {
      return Err(sr.error);
    }
    var it := new GappedRangeIter(sr.value, h.gaps);
    while true
      invariant it.stop == sr.value.stop && it.gaps == h.gaps
      invariant FirstHit(it.Remaining(), probe, it.stop, h) == Find(h, probe, tlen, start, end)
      decreases |it.Remaining()|
    {
      ghost var before := it.Remaining();
      var i := it.Next();
      if i.None? {
        return Err(HunterResultNotFound);
      }
      assert before[0] == i.value && before[1..] == it.Remaining();
      var p := probe(i.value, it.stop);
      match p {
        case Skip =>
        case Fail(e) =>
          return Err(e);
        case Hit(o, n, x) =>
          if !IsInGap(o, n, h.gaps) {
            return Ok(Match(o, h.address + o, n, x));
          }
      }
    }
  }

  /** What a generator has produced: its items, then possibly an exception. */
  datatype Stream<T> = Stream(items: seq<T>, raised: Option<Error>)

  /** `find` with the hunter, probe, target and end fixed: a function of the start offset. */
  function Finder<E>(h: Hunter, probe: (int, int) -> Probe<E>, tlen: Option<nat>, end: int): int -> Result<Match<E>>
  {
    c => Find(h, probe, tlen, c, end)
  }

  /** `finditer`'s loop from offset `cur`: at most `fuel` further results. IndexError and
    * HunterResultNotFound end the generator quietly; any other exception propagates. */
  function FindAll<E>(find: int -> Result<Match<E>>, cur: int, fuel: nat): (r: Stream<Match<E>>)
    ensures |r.items| <= fuel
    ensures r.raised.Some? ==> r.raised.value != IndexError && r.raised.value != HunterResultNotFound
    decreases fuel
  {
    if fuel == 0 then Stream([], None)
    else
      match find(cur)
      case Err(e) => if e == IndexError || e == HunterResultNotFound then Stream([], None) else Stream([], Some(e))
      case Ok(m) =>
        var rest := FindAll(find, m.srcOff + m.srcSize, fuel - 1);
        Stream([m] + rest.items, rest.raised)
  }

  /** `finditer`, for the first `limit` results a caller takes from the generator. */
  function FindIter<E>(h: Hunter, probe: (int, int) -> Probe<E>, tlen: Option<nat>, start: int, end: int, limit: nat): (r: Stream<Match<E>>)
    ensures |r.items| <= limit
    ensures SearchRange(h, tlen, start, end).Err? ==> r == Stream([], Some(IndexError))
    ensures SearchRange(h, tlen, start, end).Ok? && r.raised.Some? ==>
      r.raised.value != IndexError && r.raised.value != HunterResultNotFound
  {
    match SearchRange(h, tlen, start, end)
    case Err(e) => Stream([], Some(e))
    case Ok(r) => FindAll(Finder(h, probe, tlen, end), r.start, limit)
  }

  /** Results at or after `cur`, not empty, touching no gap, each starting at or after the
    * end of the one before. */
  predicate Ordered<E>(s: seq<Match<E>>, cur: int, gaps: seq<Range>)
  {
    (forall k :: 0 <= k < |s| ==>
      s[k].srcOff >= cur && s[k].srcSize >= 1 && !IsInGap(s[k].srcOff, s[k].srcSize, gaps)) &&
    (forall k :: 0 <= k < |s| - 1 ==> s[k].srcOff + s[k].srcSize <= s[k + 1].srcOff)
  }

  /** A search from any offset `c >= 0` reports a non-empty result at or after `c` that
    * touches no gap. */
  ghost predicate FindsForward<E>(find: int -> Result<Match<E>>, gaps: seq<Range>)
  {
    forall c :: c >= 0 && find(c).Ok? ==>
      find(c).value.srcOff >= c && find(c).value.srcSize >= 1 &&
      !IsInGap(find(c).value.srcOff, find(c).value.srcSize, gaps)
  }

  lemma OrderedCons<E>(m: Match<E>, rest: seq<Match<E>>, cur: int, gaps: seq<Range>)
    requires m.srcOff >= cur && m.srcSize >= 1 && !IsInGap(m.srcOff, m.srcSize, gaps)
    requires Ordered(rest, m.srcOff + m.srcSize, gaps)
    ensures Ordered([m] + rest, cur, gaps)
  {
    var s := [m] + rest;
    assert forall k :: 1 <= k < |s| ==> s[k] == rest[k - 1];
  }

  /** Results of a forward search do not overlap and ascend: each starts at or after
    * the end of the one before. */
  lemma {:induction false} FindAllOrdered<E>(find: int -> Result<Match<E>>, gaps: seq<Range>, cur: int, fuel: nat)
    requires FindsForward(find, gaps) && cur >= 0
    ensures Ordered(FindAll(find, cur, fuel).items, cur, gaps)
    decreases fuel
  {
    if fuel > 0 && find(cur).Ok? {
      var m := find(cur).value;
      FindAllOrdered(find, gaps, m.srcOff + m.srcSize, fuel - 1);
      OrderedCons(m, FindAll(find, m.srcOff + m.srcSize, fuel - 1).items, cur, gaps);
    }
  }

  /** With a forward probe, `find` searches forward. */
  lemma FinderForward<E>(h: Hunter, probe: (int, int) -> Probe<E>, tlen: Option<nat>, end: int)
    requires Forward(probe)
    ensures FindsForward(Finder(h, probe, tlen, end), h.gaps)
  {
    forall c | c >= 0
      ensures Finder(h, probe, tlen, end)(c) == Find(h, probe, tlen, c, end)
    {
    }
    forall c | c >= 0
      ensures var r := Find(h, probe, tlen, c, end);
        r.Ok? ==> (r.value.srcOff >= c && r.value.srcSize >= 1 && !IsInGap(r.value.srcOff, r.value.srcSize, h.gaps))
    {
      FindForward(h, probe, tlen, c, end);
    }
  }

  /** With a forward probe, `finditer` yields results that never overlap and ascend,
    * none of them touching a gap. */
  lemma FindIterOrdered<E>(h: Hunter, probe: (int, int) -> Probe<E>, tlen: Option<nat>, start: int, end: int, limit: nat)
    requires Forward(probe)
    ensures Ordered(FindIter(h, probe, tlen, start, end, limit).items, 0, h.gaps)
  {
    var sr := SearchRange(h, tlen, start, end);
    if sr.Ok? {
      FinderForward(h, probe, tlen, end);
      FindAllOrdered(Finder(h, probe, tlen, end), h.gaps, sr.value.start, limit);
    }
  }

  /** `whole` is what has been produced so far followed by what `tail` produces. */
  ghost predicate Prefix<T>(whole: Stream<T>, items: seq<T>, tail: Stream<T>)
  {
    whole == Stream(items + tail.items, tail.raised)
  }

  lemma PrefixStep<T>(whole: Stream<T>, items: seq<T>, m: T, tail: Stream<T>, rest: Stream<T>)
    requires Prefix(whole, items, tail) && tail == Stream([m] + rest.items, rest.raised)
    ensures Prefix(whole, items + [m], rest)
  {
    assert items + ([m] + rest.items) == (items + [m]) + rest.items;
  }

  lemma FindAllCons<E>(find: int -> Result<Match<E>>, cur: int, fuel: nat, m: Match<E>)
    requires fuel > 0 && find(cur) == Ok(m)
    ensures FindAll(find, cur, fuel) ==
      Stream([m] + FindAll(find, m.srcOff + m.srcSize, fuel - 1).items,
             FindAll(find, m.srcOff + m.srcSize, fuel - 1).raised)
  {
  }

  lemma FindAllErr<E>(find: int -> Result<Match<E>>, cur: int, fuel: nat)
    requires fuel > 0 && find(cur).Err?
    ensures FindAll(find, cur, fuel) ==
      if find(cur).error == IndexError || find(cur).error == HunterResultNotFound then Stream([], None)
      else Stream([], Some(find(cur).error))
  {
  }

  /** One round of the `finditer` loop keeps its invariant. */
  lemma FindIterStep<E>(whole: Stream<Match<E>>, find: int -> Result<Match<E>>, items0: seq<Match<E>>,
                        cur0: int, fuel0: nat, m: Match<E>, items: seq<Match<E>>, cur: int, fuel: nat)
    requires Prefix(whole, items0, FindAll(find, cur0, fuel0))
    requires fuel0 > 0 && find(cur0) == Ok(m)
    requires items == items0 + [m] && cur == m.srcOff + m.srcSize && fuel == fuel0 - 1
    ensures Prefix(whole, items, FindAll(find, cur, fuel))
  {
    FindAllCons(find, cur0, fuel0, m);
    PrefixStep(whole, items0, m, FindAll(find, cur0, fuel0), FindAll(find, cur, fuel));
  }

  /** The `finditer` loop: ask `find` again from the end of the previous result. */
  method FindIterLoop<E>(h: Hunter, probe: (int, int) -> Probe<E>, tlen: Option<nat>, start: int, end: int, limit: nat)
    returns (s: Stream<Match<E>>)
    ensures s == FindIter(h, probe, tlen, start, end, limit)
  {
    var sr := SearchRange(h, tlen, start, end);
    if sr.Err? {
      return Stream([], Some(sr.error));
    }
    ghost var find := Finder(h, probe, tlen, end);
    ghost var whole := FindIter(h, probe, tlen, start, end, limit);
    var cur := sr.value.start;
    var items: seq<Match<E>> := [];
    var fuel: nat := limit;
    while fuel > 0
      invariant fuel <= limit
      invariant Prefix(whole, items, FindAll(find, cur, fuel))
    {
      var f := FindImpl(h, probe, tlen, cur, end);
      assert f == find(cur);
      if f.Err? {
        FindAllErr(find, cur, fuel);
        assert items + [] == items;
        if f.error == IndexError || f.error == HunterResultNotFound {
          return Stream(items, None);
        }
        return Stream(items, Some(f.error));
      }
      ghost var items0, cur0, fuel0 := items, cur, fuel;
      items := items + [f.value];
      cur := f.value.srcOff + f.value.srcSize;
      fuel := fuel - 1;
      FindIterStep(whole, find, items0, cur0, fuel0, f.value, items, cur, fuel);
    }
    s := Stream(items, None);
    assert items + [] == items;
  }

  /** Gaps that are sorted, pairwise disjoint and inside the data. */
  predicate WellPlacedGaps(gaps: seq<Range>, n: int)
  {
    (forall k :: 0 <= k < |gaps| ==> 0 <= gaps[k].start <= gaps[k].stop <= n) &&
    (forall a, b :: 0 <= a < b < |gaps| ==> gaps[a].stop <= gaps[b].start)
  }

  predicate Covered(x: int, rs: seq<Range>)
  {
    exists k :: 0 <= k < |rs| && InRange(x, rs[k])
  }

  /** Non-empty ranges inside [0, n), each ending before the next begins. */
  predicate Separated(rs: seq<Range>, n: int)
  {
    (forall k :: 0 <= k < |rs| ==> 0 <= rs[k].start < rs[k].stop <= n) &&
    (forall k :: 0 <= k < |rs| - 1 ==> rs[k].stop <= rs[k + 1].start)
  }

  /** What `_split_data_offsets` has established after `j` gaps, `start` being the
    * first offset not yet considered. */
  predicate SplitInv(gaps: seq<Range>, n: int, j: int, start: int, ret: seq<Range>)
  {
    0 <= j <= |gaps| && 0 <= start <= n && Separated(ret, start) &&
    (forall k :: j <= k < |gaps| ==> start <= gaps[k].start) &&
    (forall x :: 0 <= x < start ==> (Covered(x, ret) <==> Free(x, gaps)))
  }

  /** The range of data before gap `j`, if any. */
  function SplitPiece(start: int, g: Range): seq<Range>
  {
    if start < g.start then [Range(start, g.start)] else []
  }

  /** Handling gap `j` keeps the invariant. */
  lemma SplitStep(gaps: seq<Range>, n: int, j: int, start: int, ret: seq<Range>)
    requires WellPlacedGaps(gaps, n) && j < |gaps| && SplitInv(gaps, n, j, start, ret)
    requires start == if j == 0 then 0 else gaps[j - 1].stop
    ensures SplitInv(gaps, n, j + 1, gaps[j].stop, ret + SplitPiece(start, gaps[j]))
  {
    var g := gaps[j];
    SplitStepTaken(gaps, j);
    if start < g.start {
      SplitStepFree(gaps, j, start, n);
      ExtendCovered(ret, Range(start, g.start), start, g.stop, gaps);
    } else {
      assert ret + SplitPiece(start, g) == ret;
      KeepCovered(ret, start, g.stop, gaps);
    }
    forall k | j + 1 <= k < |gaps|
      ensures g.stop <= gaps[k].start
    {
    }
  }

  /** `_split_data_offsets`: the data's offsets outside the gaps, as ranges. */
  method SplitDataOffsets(h: Hunter) returns (ret: seq<Range>)
    requires Valid(h)
    ensures |h.gaps| == 0 ==> ret == [Range(0, |h.data|)]
    ensures WellPlacedGaps(h.gaps, |h.data|) ==>
      Separated(ret, |h.data|) &&
      forall x :: 0 <= x < |h.data| ==> (Covered(x, ret) <==> Free(x, h.gaps))
  {
    var n := |h.data|;
    var gaps := h.gaps;
    if |gaps| == 0 {
      ret := [Range(0, n)];
      forall x | 0 <= x < n
        ensures Covered(x, ret)
      {
        assert InRange(x, ret[0]);
      }
      return;
    }
    ret := [];
    var start := 0;
    var j := 0;
    while j < |gaps|
      invariant 0 <= j <= |gaps|
      invariant start == if j == 0 then 0 else gaps[j - 1].stop
      invariant WellPlacedGaps(gaps, n) ==> SplitInv(gaps, n, j, start, ret)
    {
      var g := gaps[j];
      if WellPlacedGaps(gaps, n) {
        SplitStep(gaps, n, j, start, ret);
      }
      if start < g.start {
        ret := ret + [Range(start, g.start)];
        start := g.stop;
      } else if start >= g.start {
        start := g.stop;
      }
      j := j + 1;
    }
    if start < n {
      if WellPlacedGaps(gaps, n) {
        TailFree(gaps, start, n);
        ExtendCovered(ret, Range(start, n), start, n, gaps);
      }
      ret := ret + [Range(start, n)];
    }
  }

  /** Between the previous gap's stop and gap `j`'s start nothing is in a gap. */  lemma SplitStepFree(gaps: seq<Range>, j: int, start: int, n: int)
    requires WellPlacedGaps(gaps, n) && 0 <= j < |gaps|
    requires start == if j == 0 then 0 else gaps[j - 1].stop
    ensures forall x :: start <= x < gaps[j].start ==> Free(x, gaps)
  {
    forall x, k | start <= x < gaps[j].start && 0 <= k < |gaps|
      ensures !InRange(x, gaps[k])
    {
      if k < j && j > 0 {
        assert gaps[k].stop <= gaps[j - 1].stop by {
          if k < j - 1 {
            assert gaps[k].stop <= gaps[j - 1].start;
          }
        }
      }
    }
  }

  lemma SplitStepTaken(gaps: seq<Range>, j: int)
    requires 0 <= j < |gaps|
    ensures forall x :: gaps[j].start <= x < gaps[j].stop ==> !Free(x, gaps)
  {
    forall x | gaps[j].start <= x < gaps[j].stop
      ensures !Free(x, gaps)
    {
      assert InRange(x, gaps[j]);
    }
  }

  /** After the last gap nothing is in a gap. */
  lemma TailFree(gaps: seq<Range>, start: int, n: int)
    requires WellPlacedGaps(gaps, n) && |gaps| > 0 && start == gaps[|gaps| - 1].stop
    ensures forall x :: start <= x < n ==> Free(x, gaps)
  {
    forall x, k | start <= x < n && 0 <= k < |gaps|
      ensures !InRange(x, gaps[k])
    {
      if k < |gaps| - 1 {
        assert gaps[k].stop <= gaps[|gaps| - 1].start;
      }
    }
  }

  lemma ExtendCovered(ret: seq<Range>, r: Range, lo: int, hi: int, gaps: seq<Range>)
    requires lo == r.start && lo <= r.stop <= hi
    requires forall x :: lo <= x < r.stop ==> Free(x, gaps)
    requires forall x :: r.stop <= x < hi ==> !Free(x, gaps)
    requires forall x :: 0 <= x < lo ==> (Covered(x, ret) <==> Free(x, gaps))
    requires forall k :: 0 <= k < |ret| ==> ret[k].stop <= lo
    ensures forall x :: 0 <= x < hi ==> (Covered(x, ret + [r]) <==> Free(x, gaps))
  {
    var rs := ret + [r];
    forall x | 0 <= x < hi
      ensures Covered(x, rs) <==> Free(x, gaps)
    {
      if Covered(x, rs) {
        var k :| 0 <= k < |rs| && InRange(x, rs[k]);
        if k < |ret| {
          assert InRange(x, ret[k]);
        }
      }
      if Free(x, gaps) {
        if x < lo {
          var k :| 0 <= k < |ret| && InRange(x, ret[k]);
          assert rs[k] == ret[k];
        } else {
          assert InRange(x, rs[|ret|]);
        }
      }
    }
  }

  lemma KeepCovered(ret: seq<Range>, lo: int, hi: int, gaps: seq<Range>)
    requires lo <= hi
    requires forall x :: lo <= x < hi ==> !Free(x, gaps)
    requires forall x :: 0 <= x < lo ==> (Covered(x, ret) <==> Free(x, gaps))
    requires forall k :: 0 <= k < |ret| ==> ret[k].stop <= lo
    ensures forall x :: 0 <= x < hi ==> (Covered(x, ret) <==> Free(x, gaps))
  {
  }
}
