/** `ConstantHunter`: searches the data for a fixed byte string. */
module ConstantHunter {
  import opened Errors
  import opened PyBytes
  import opened Hunter

  /** `t` occurs at offset `o` and ends no later than `stop`. */
  predicate Occurs(data: seq<byte>, t: seq<byte>, o: int, stop: int)
  {
    0 <= o && o + |t| <= stop <= |data| && data[o..o + |t|] == t
  }

  /** `_search_at`: a result `(start, len(t))` when the data at `start` equals the target,
    * nothing when it does not, or when a positive `end` cuts the target short. */
  function SearchAt(data: seq<byte>, t: seq<byte>, start: int, end: int): (r: Probe<()>)
    ensures !r.Fail?
    ensures r.Hit? ==> r.off == start && r.size == |t|
    ensures 0 <= start && 1 <= end <= |data| ==> (r.Hit? <==> Occurs(data, t, start, end))
    ensures 0 <= start <= |data| && end <= 0 ==> (r.Hit? <==> Occurs(data, t, start, |data|))
  {
    if 0 < end < start + |t| then Skip
    else if t == Slice(data, start, start + |t|) then Hit(start, |t|, ())
    else Skip
  }

  /** The probe `find` hands the search loop. */
  function Probe(data: seq<byte>, t: seq<byte>): (int, int) -> Probe<()>
  {
    (i, stop) => SearchAt(data, t, i, stop)
  }

  /** A result `find` may report: an occurrence at a searched offset that touches no gap. */
  predicate Candidate(h: Hunter, t: seq<byte>, offs: seq<int>, stop: int, o: int)
  {
    o in offs && Occurs(h.data, t, o, stop) && !IsInGap(o, |t|, h.gaps)
  }

  lemma {:induction false} FirstHitConstant(h: Hunter, t: seq<byte>, offs: seq<int>, stop: int)
    requires 1 <= stop <= |h.data|
    requires forall k :: 0 <= k < |offs| ==> offs[k] >= 0
    requires forall i, j :: 0 <= i < j < |offs| ==> offs[i] < offs[j]
    ensures FirstHit(offs, Probe(h.data, t), stop, h).Ok? <==>
      exists o :: Candidate(h, t, offs, stop, o)
    ensures FirstHit(offs, Probe(h.data, t), stop, h).Err? ==>
      FirstHit(offs, Probe(h.data, t), stop, h).error == HunterResultNotFound
    ensures FirstHit(offs, Probe(h.data, t), stop, h).Ok? ==>
      FirstHit(offs, Probe(h.data, t), stop, h).value.srcSize == |t| &&
      Candidate(h, t, offs, stop, FirstHit(offs, Probe(h.data, t), stop, h).value.srcOff)
    ensures FirstHit(offs, Probe(h.data, t), stop, h).Ok? ==>
      forall o :: Candidate(h, t, offs, stop, o) ==>
        FirstHit(offs, Probe(h.data, t), stop, h).value.srcOff <= o
  {
    if |offs| > 0 {
      var tail := offs[1..];
      FirstHitConstant(h, t, tail, stop);
      assert forall o :: o in offs <==> o == offs[0] || o in tail;
      assert forall o :: o in tail ==> offs[0] < o;
      var p := SearchAt(h.data, t, offs[0], stop);
      assert Probe(h.data, t)(offs[0], stop) == p;
      if p.Hit? && !IsInGap(offs[0], |t|, h.gaps) {
        assert Candidate(h, t, offs, stop, offs[0]);
      } else {
        assert !Candidate(h, t, offs, stop, offs[0]);
        assert forall o :: Candidate(h, t, offs, stop, o) <==> Candidate(h, t, tail, stop, o);
      }
    }
  }

  /** `find` reports the first occurrence of the target in the search range that touches
    * no gap, and HunterResultNotFound when there is none. */
  lemma FindFirstOccurrence(h: Hunter, t: seq<byte>, start: int, end: int)
    requires SearchRange(h, Some(|t|), start, end).Ok?
    ensures var r := SearchRange(h, Some(|t|), start, end).value;
      Find(h, Probe(h.data, t), Some(|t|), start, end).Ok? <==>
        exists o :: Candidate(h, t, FreeOffsets(r.start, r.stop, h.gaps), r.stop, o)
    ensures Find(h, Probe(h.data, t), Some(|t|), start, end).Err? ==>
      Find(h, Probe(h.data, t), Some(|t|), start, end).error == HunterResultNotFound
    ensures var r := SearchRange(h, Some(|t|), start, end).value;
      Find(h, Probe(h.data, t), Some(|t|), start, end).Ok? ==>
        Candidate(h, t, FreeOffsets(r.start, r.stop, h.gaps), r.stop,
                  Find(h, Probe(h.data, t), Some(|t|), start, end).value.srcOff)
    ensures var r := SearchRange(h, Some(|t|), start, end).value;
      Find(h, Probe(h.data, t), Some(|t|), start, end).Ok? ==>
        forall o :: Candidate(h, t, FreeOffsets(r.start, r.stop, h.gaps), r.stop, o) ==>
          Find(h, Probe(h.data, t), Some(|t|), start, end).value.srcOff <= o
  {
    var r := SearchRange(h, Some(|t|), start, end).value;
    FreeOffsetsBounds(r.start, r.stop, h.gaps);
    FreeOffsetsAscending(r.start, r.stop, h.gaps);
    FirstHitConstant(h, t, FreeOffsets(r.start, r.stop, h.gaps), r.stop);
    assert Find(h, Probe(h.data, t), Some(|t|), start, end) ==
      FirstHit(FreeOffsets(r.start, r.stop, h.gaps), Probe(h.data, t), r.stop, h);
  }

  /** A candidate is an offset in the search range, outside the gaps, where the target
    * occurs and ends within the range, its window touching no gap. */
  lemma CandidateMeaning(h: Hunter, t: seq<byte>, a: int, b: int, o: int)
    ensures Candidate(h, t, FreeOffsets(a, b, h.gaps), b, o) <==>
      (a <= o < b && Free(o, h.gaps) && Occurs(h.data, t, o, b) && !IsInGap(o, |t|, h.gaps))
  {
    FreeOffsetsMembers(a, b, h.gaps, o);
  }

  /** For a non-empty target the probe only reports forward, non-empty results. */
  lemma ProbeForward(data: seq<byte>, t: seq<byte>)
    requires |t| >= 1
    ensures Forward(Probe(data, t))
  {
  }

  /** `finditer` on a non-empty target yields occurrences that ascend, never overlap
    * and never touch a gap. */
  lemma FindIterOrderedConstant(h: Hunter, t: seq<byte>, start: int, end: int, limit: nat)
    requires |t| >= 1
    ensures Ordered(FindIter(h, Probe(h.data, t), Some(|t|), start, end, limit).items, 0, h.gaps)
  {
    ProbeForward(h.data, t);
    FindIterOrdered(h, Probe(h.data, t), Some(|t|), start, end, limit);
  }
}
