/** `FDTHunter`: searches a memory or flash image for flattened device tree blobs by
  * their header, checks the header's sizes and offsets against the search range, and
  * reports the blob. */
module FdtHunter {
  import opened Errors
  import opened PyBytes
  import opened Hunter

  /** The header's magic word 0xd00dfeed, as it is stored (big-endian). */
  const Magic: seq<byte> := [0xd0, 0x0d, 0xfe, 0xed]

  /** The header the search pattern matches: the magic and nine 4-byte fields. */
  const HeaderSize: nat := 40

  // The header fields, in order after the magic.
  const TotalSize: nat := 0
  const OffDtStruct: nat := 1
  const OffDtStrings: nat := 2
  const OffMemRsvmap: nat := 3
  const SizeDtStrings: nat := 7
  const SizeDtStruct: nat := 8

  /** The search pattern matches at `p` within `data[..end]`: the magic, then 36 bytes that
    * `.` accepts (in a bytes pattern without DOTALL, every byte but the newline 0x0a). */
  predicate HeaderAt(data: seq<byte>, p: int, end: int)
  {
    0 <= p && p + HeaderSize <= end <= |data| && data[p..p + 4] == Magic &&
    forall k :: p + 4 <= k < p + HeaderSize ==> data[k] != 0x0a
  }

  /** `regex.search(data[start:end])`, as an offset into `data`: the first match at or
    * after `p`. */
  function Search(data: seq<byte>, p: nat, end: int): (r: Option<nat>)
    requires end <= |data|
    ensures r.Some? ==> p <= r.value && HeaderAt(data, r.value, end)
    decreases end - p
  {
    if p + HeaderSize > end then None
    else if HeaderAt(data, p, end) then Some(p)
    else Search(data, p + 1, end)
  }

  /** The search reports the leftmost match, and no match when there is none. */
  lemma {:induction false} SearchLeftmost(data: seq<byte>, p: nat, end: int, q: int)
    requires end <= |data| && p <= q
    ensures Search(data, p, end).Some? && q < Search(data, p, end).value ==> !HeaderAt(data, q, end)
    ensures Search(data, p, end).None? ==> !HeaderAt(data, q, end)
    decreases end - p
  {
    if p + HeaderSize <= end && !HeaderAt(data, p, end) && p < q {
      SearchLeftmost(data, p + 1, end, q);
    }
  }

  /** Header field `k`, read big-endian from the match. */
  function Field(data: seq<byte>, offset: int, k: nat): nat
    requires k < 9 && 0 <= offset && offset + HeaderSize <= |data|
  {
    FromBE(data[offset + 4 + 4 * k..offset + 8 + 4 * k])
  }

  /** `_device_tree`: the blob `data[offset:offset + totalsize]` when the header's sizes and
    * offsets pass the sanity checks against `end`, nothing otherwise. */
  function DeviceTree(data: seq<byte>, offset: int, end: int): (r: Option<seq<byte>>)
    requires 0 <= offset && offset + HeaderSize <= end <= |data|
    ensures Field(data, offset, TotalSize) > end - (offset + 4) ==> r.None?
    ensures Field(data, offset, OffDtStruct) > end - (offset + 8) ==> r.None?
    ensures Field(data, offset, OffDtStrings) > end - (offset + 12) ==> r.None?
    ensures Field(data, offset, OffMemRsvmap) > end - (offset + 16) ==> r.None?
    ensures end - Field(data, offset, OffDtStrings) < Field(data, offset, SizeDtStrings) ==> r.None?
    ensures end - Field(data, offset, OffDtStruct) < Field(data, offset, SizeDtStruct) ==> r.None?
    ensures r.Some? ==> |r.value| == Field(data, offset, TotalSize) && offset + |r.value| <= end - 4
    ensures r.Some? ==> r.value == data[offset..offset + |r.value|]
  {
    var totalsize := Field(data, offset, TotalSize);
    if totalsize > end - (offset + 4) then None
    else if Field(data, offset, OffDtStruct) > end - (offset + 8) then None
    else if Field(data, offset, OffDtStrings) > end - (offset + 12) then None
    else if Field(data, offset, OffMemRsvmap) > end - (offset + 16) then None
    else if end - Field(data, offset, OffDtStrings) < Field(data, offset, SizeDtStrings) then None
    else if end - Field(data, offset, OffDtStruct) < Field(data, offset, SizeDtStruct) then None
    else Some(Slice(data, offset, offset + totalsize))
  }

  /** A header that passes every check gives its blob. */
  lemma DeviceTreeAccepts(data: seq<byte>, offset: int, end: int)
    requires 0 <= offset && offset + HeaderSize <= end <= |data|
    requires Field(data, offset, TotalSize) <= end - (offset + 4)
    requires Field(data, offset, OffDtStruct) <= end - (offset + 8)
    requires Field(data, offset, OffDtStrings) <= end - (offset + 12)
    requires Field(data, offset, OffMemRsvmap) <= end - (offset + 16)
    requires Field(data, offset, SizeDtStrings) <= end - Field(data, offset, OffDtStrings)
    requires Field(data, offset, SizeDtStruct) <= end - Field(data, offset, OffDtStruct)
    ensures DeviceTree(data, offset, end) == Some(data[offset..offset + Field(data, offset, TotalSize)])
  {
  }

  /** A search target: None, a `str` looked for in the DTS text, or `bytes` looked for in
    * the blob (any other kind matches nothing). */
  datatype Target = NoTarget | Text(s: string) | Bytes(b: seq<byte>) | OtherTarget

  /** The extra entries of a result: the blob and, when it was produced, its DTS text. */
  datatype Extra = Extra(dtb: seq<byte>, dts: Option<string>)

  /** One search: the data, the target, and the blob-to-source conversion of the external
    * `dtc` (`None` when it is not installed or `no_dts` is set; `Err` when it fails). */
  datatype Query = Query(data: seq<byte>, target: Target, dtc: Option<seq<byte> -> Result<string>>)

  /** What the DTS text of a blob is: empty without `dtc`. */
  function Dts(q: Query, dtb: seq<byte>): Result<string>
  {
    match q.dtc
    case None => Ok("")
    case Some(conv) => conv(dtb)
  }

  /** Whether a blob (and its DTS text) answers the target. */
  predicate Answers(t: Target, dtb: seq<byte>, dts: string)
  {
    match t
    case NoTarget => true
    case Text(s) => Contains(dts, s)
    case Bytes(b) => Contains(dtb, b)
    case OtherTarget => false
  }

  /** What the loop of `_search_at` does with the match at `offset`: a result, an error
    * of `dtc`, or nothing (an invalid header, an empty blob, or one that does not answer
    * the target). */
  function Examine(q: Query, offset: int, end: int): (r: Probe<Extra>)
    ensures r.Hit? ==> 0 <= offset && offset + HeaderSize <= end <= |q.data|
    ensures r.Hit? ==> r.off == offset && r.size >= 1 && DeviceTree(q.data, offset, end) == Some(r.extra.dtb)
    ensures r.Hit? ==> (r.size == |r.extra.dtb| && offset + r.size <= end && Dts(q, r.extra.dtb).Ok? &&
      Answers(q.target, r.extra.dtb, Dts(q, r.extra.dtb).value))
    ensures r.Fail? ==> q.dtc.Some? && r.e == ValueError
  {
    if !(0 <= offset && offset + HeaderSize <= end <= |q.data|) then Skip
    else
      match DeviceTree(q.data, offset, end)
      case None => Skip
      case Some(dtb) =>
        if |dtb| == 0 then Skip
        else
          match Dts(q, dtb)
          case Err(_) =>
            // a failing `dtc` raises ValueError
            Fail(ValueError)
          case Ok(dts) =>
            if Answers(q.target, dtb, dts) then Hit(offset, |dtb|, Extra(dtb, if |dts| == 0 then None else Some(dts)))
            else Skip
  }

  /** How the loop treats each match: `Examine` for one query. */
  type Examiner = (int, int) -> Probe<Extra>

  /** The `_search_at` loop from `start`, for any treatment `ex` of the matches: examine
    * the first match, and after a rejected one search again past it. `written` selects
    * the restart as the source has it, `start += offset + 4`, which adds `start` twice
    * since `offset` is already absolute; otherwise the search restarts just past the
    * rejected magic, at `offset + 4`. */
  function ScanWith(data: seq<byte>, ex: Examiner, start: int, end: int, written: bool): (r: Probe<Extra>)
    requires 0 <= start && end <= |data|
    ensures !r.Skip?
    decreases end - start
  {
    if start >= end then Fail(HunterResultNotFound)
    else
      match Search(data, start, end)
      case None => Fail(HunterResultNotFound)
      case Some(offset) =>
        match ex(offset, end)
        case Skip => ScanWith(data, ex, if written then start + offset + 4 else offset + 4, end, written)
        case other => other
  }

  function ExamineFor(q: Query): Examiner
  {
    (offset, end) => Examine(q, offset, end)
  }

  /** A treatment that reports a result at the match it examined and never "not found". */
  ghost predicate Honest(ex: Examiner)
  {
    forall o, e :: (ex(o, e).Hit? ==> ex(o, e).off == o) && ex(o, e) != Fail(HunterResultNotFound)
  }

  lemma ExamineHonest(q: Query)
    ensures Honest(ExamineFor(q))
  {
  }

  /** `_search_at`'s loop for one query. */
  function Scan(q: Query, start: int, end: int, written: bool): (r: Probe<Extra>)
    requires 0 <= start && end <= |q.data|
  {
    ScanWith(q.data, ExamineFor(q), start, end, written)
  }

  /** `_search_at` (with the restart just past the rejected magic). */
  method SearchAt(q: Query, start: int, end: int) returns (r: Probe<Extra>)
    requires 0 <= start && end <= |q.data|
    ensures r == Scan(q, start, end, false)
  {
    ghost var ex := ExamineFor(q);
    var s := start;
    while s < end
      invariant 0 <= s
      invariant ScanWith(q.data, ex, s, end, false) == Scan(q, start, end, false)
      decreases end - s
    {
      var m := Search(q.data, s, end);
      ScanStep(q.data, ex, s, end);
      if m.None? {
        return Fail(HunterResultNotFound);
      }
      var offset := m.value;
      var x := Examine(q, offset, end);
      assert x == ex(offset, end);
      if !x.Skip? {
        return x;
      }
      s := offset + 4;
    }
    return Fail(HunterResultNotFound);
  }

  /** One round of the loop: no match ends it, an examined match that is not rejected is
    * the answer, and a rejected one restarts the search past its magic. */
  lemma ScanStep(data: seq<byte>, ex: Examiner, s: nat, end: int)
    requires s < end <= |data|
    ensures Search(data, s, end).None? ==> ScanWith(data, ex, s, end, false) == Fail(HunterResultNotFound)
    ensures Search(data, s, end).Some? ==>
      var o := Search(data, s, end).value;
      ScanWith(data, ex, s, end, false) == (if ex(o, end).Skip? then ScanWith(data, ex, o + 4, end, false) else ex(o, end))
  {
  }

  /** The magic cannot overlap itself: a match never starts 1 to 3 bytes after another. */
  lemma MagicApart(data: seq<byte>, p: int, q: int, end: int)
    requires HeaderAt(data, p, end) && p < q < p + 4
    ensures !HeaderAt(data, q, end)
  {
    assert data[q] == data[p..p + 4][q - p] && data[q] == data[q..q + 4][0];
  }

  /** The loop reports the first match in [start, end) that `Examine` accepts, and every
    * match before it was rejected; `HunterResultNotFound` means every match was. */
  lemma {:induction false} ScanFirst(data: seq<byte>, ex: Examiner, start: int, end: int, p: int)
    requires 0 <= start && end <= |data| && Honest(ex)
    requires start <= p && HeaderAt(data, p, end)
    ensures ScanWith(data, ex, start, end, false).Hit? ==> p >= ScanWith(data, ex, start, end, false).off || ex(p, end).Skip?
    ensures ScanWith(data, ex, start, end, false) == Fail(HunterResultNotFound) ==> ex(p, end).Skip?
    decreases end - start
  {
    var s := Search(data, start, end);
    SearchLeftmost(data, start, end, p);
    if s.Some? && ex(s.value, end).Skip? {
      var o := s.value;
      if p >= o + 4 {
        ScanFirst(data, ex, o + 4, end, p);
      } else if p > o {
        MagicApart(data, o, p, end);
      }
    }
  }

  /** A result of the loop is a match it examined and accepted, at or after `start`. */
  lemma {:induction false} ScanHit(data: seq<byte>, ex: Examiner, start: int, end: int, written: bool)
    requires 0 <= start && end <= |data| && Honest(ex)
    ensures var r := ScanWith(data, ex, start, end, written);
      r.Hit? ==> start <= r.off && HeaderAt(data, r.off, end) && ex(r.off, end) == r
    decreases end - start
  {
    if start < end {
      var s := Search(data, start, end);
      if s.Some? && ex(s.value, end).Skip? {
        ScanHit(data, ex, if written then start + s.value + 4 else s.value + 4, end, written);
      }
    }
  }

  /** As written, the restart after a rejected match at `offset` jumps to
    * `start + offset + 4`: once `start > 0` a valid image beginning within the `start`
    * bytes after the rejected magic is never reported. */
  lemma AsWrittenSkips(data: seq<byte>, ex: Examiner, start: int, end: int, offset: int, p: int)
    requires 0 < start && end <= |data| && Honest(ex)
    requires Search(data, start, end) == Some(offset) && ex(offset, end).Skip?
    requires offset + 4 <= p < start + offset + 4
    ensures !(ScanWith(data, ex, start, end, true).Hit? && ScanWith(data, ex, start, end, true).off == p)
  {
    ScanHit(data, ex, start + offset + 4, end, true);
  }

  /** Data showing the skip: a header at 4 whose `totalsize` field holds a second magic,
    * so it is rejected, and a valid 36-byte image at 8, searched from offset 4. */
  const SkipData: seq<byte> :=
    [0, 0, 0, 0] + Magic + Magic + [0, 0, 0, 36] + seq(32, _ => 0)

  /** The layout of such data. */
  predicate SkipShape(d: seq<byte>)
  {
    |d| == 48 && d[4..8] == Magic && d[8..12] == Magic && d[12..16] == [0, 0, 0, 36] &&
    forall k :: 16 <= k < 48 ==> d[k] == 0
  }

  lemma SkipDataShape()
    ensures SkipShape(SkipData)
  {
    var d := SkipData;
    assert d[4..8] == Magic && d[8..12] == Magic;
    assert d[12..16] == [0, 0, 0, 36];
  }

  lemma SkipShapeFields(d: seq<byte>)
    requires SkipShape(d)
    ensures HeaderAt(d, 4, 48) && HeaderAt(d, 8, 48)
    ensures Field(d, 4, TotalSize) == 0xd00dfeed && Field(d, 8, TotalSize) == 36
    ensures Field(d, 8, OffDtStruct) == 0 && Field(d, 8, OffDtStrings) == 0
    ensures Field(d, 8, OffMemRsvmap) == 0 && Field(d, 8, SizeDtStrings) == 0
    ensures Field(d, 8, SizeDtStruct) == 0
  {
    assert forall k :: 4 <= k < 8 ==> d[k] == d[4..8][k - 4];
    assert forall k :: 8 <= k < 12 ==> d[k] == d[8..12][k - 8];
    assert forall k :: 12 <= k < 16 ==> d[k] == d[12..16][k - 12];
    FourBE(d[8..12]);
    FourBE(d[12..16]);
    FourZero(d, 16);
    FourZero(d, 20);
    FourZero(d, 24);
    FourZero(d, 36);
    FourZero(d, 40);
    FourZero(d, 44);
  }

  /** The 4-byte big-endian value, spelled out. */
  lemma FourBE(b: seq<byte>)
    requires |b| == 4
    ensures FromBE(b) == (((b[0] as int) * 256 + b[1] as int) * 256 + b[2] as int) * 256 + b[3] as int
  {
    var b1, b2, b3 := b[..1], b[..2], b[..3];
    assert b1[..0] == [] && b2[..1] == b1 && b3[..2] == b2 && b[..3] == b3;
    assert FromBE(b1[..0]) == 0;
    assert FromBE(b1) == b[0] as int;
    assert FromBE(b2) == (b[0] as int) * 256 + b[1] as int;
    assert FromBE(b3) == FromBE(b2) * 256 + b[2] as int;
  }

  lemma FourZero(data: seq<byte>, i: nat)
    requires i + 4 <= |data| && forall k :: i <= k < i + 4 ==> data[k] == 0
    ensures FromBE(data[i..i + 4]) == 0
  {
    FourBE(data[i..i + 4]);
  }

  /** On that data the source's loop misses the image at 8 and finds nothing, while the
    * corrected restart reports it. */
  lemma AsWrittenMissesImage(q: Query)
    requires SkipShape(q.data) && q.target == NoTarget && q.dtc.None?
    ensures Scan(q, 4, 48, false).Hit? && Scan(q, 4, 48, false).off == 8
    ensures !(Scan(q, 4, 48, true).Hit? && Scan(q, 4, 48, true).off == 8)
  {
    SkipShapeFields(q.data);
    ExamineHonest(q);
    assert Search(q.data, 4, 48) == Some(4);
    assert Examine(q, 4, 48).Skip?;
    assert Search(q.data, 8, 48) == Some(8);
    DeviceTreeAccepts(q.data, 8, 48);
    AsWrittenSkips(q.data, ExamineFor(q), 4, 48, 4, 8);
  }

  /** The probe `find` hands the hunter's search loop: `_search_at` at the offset. */
  function Probe(q: Query): (int, int) -> Probe<Extra>
  {
    (i, stop) => if 0 <= i && stop <= |q.data| then Scan(q, i, stop, false) else Fail(HunterResultNotFound)
  }

  lemma ProbeForward(q: Query)
    ensures Forward(Probe(q))
  {
    forall i, stop | Probe(q)(i, stop).Hit?
      ensures Probe(q)(i, stop).off >= i && Probe(q)(i, stop).size >= 1
    {
      ExamineHonest(q);
      ScanHit(q.data, ExamineFor(q), i, stop, false);
    }
  }

  /** The search range's length check uses the target's length. */
  function TargetLen(t: Target): Option<nat>
  {
    match t
    case NoTarget => None
    case Text(s) => Some(|s|)
    case Bytes(b) => Some(|b|)
    case OtherTarget => None
  }

  /** A probe answer that is an accepted header with its blob. */
  ghost predicate Accepted(data: seq<byte>, r: Probe<Extra>)
  {
    r.Hit? && 0 <= r.off && r.size >= 1 && r.off + HeaderSize <= |data| && r.off + r.size <= |data| &&
    r.extra.dtb == data[r.off..r.off + r.size] && data[r.off..r.off + 4] == Magic
  }

  /** A `find` result that is a complete, accepted image: it starts with the magic at or
    * after `start`, its blob is the data it spans, and it touches no gap. */
  ghost predicate ImageMatch(h: Hunter, start: int, m: Match<Extra>)
  {
    m.srcOff >= start && m.srcAddr == h.address + m.srcOff && !IsInGap(m.srcOff, m.srcSize, h.gaps) &&
    Accepted(h.data, Hit(m.srcOff, m.srcSize, m.extra))
  }

  /** `find`: since `_search_at` runs its own search to `end`, the first offset of the
    * range decides. */
  lemma FindImage(h: Hunter, q: Query, start: int, end: int)
    requires q.data == h.data && start >= 0
    ensures Find(h, Probe(q), TargetLen(q.target), start, end).Ok? ==>
      ImageMatch(h, start, Find(h, Probe(q), TargetLen(q.target), start, end).value)
  {
    ProbeForward(q);
    FindForward(h, Probe(q), TargetLen(q.target), start, end);
    var r := Find(h, Probe(q), TargetLen(q.target), start, end);
    if r.Ok? {
      FindFromProbe(h, Probe(q), TargetLen(q.target), start, end, r.value);
      var i: int, stop: int :| Probe(q)(i, stop) == Hit(r.value.srcOff, r.value.srcSize, r.value.extra);
      ProbeHit(q, i, stop, Hit(r.value.srcOff, r.value.srcSize, r.value.extra));
    }
  }

  lemma ProbeHit(q: Query, i: int, stop: int, r: Probe<Extra>)
    requires Probe(q)(i, stop) == r && r.Hit?
    ensures Accepted(q.data, r)
  {
    if 0 <= i && stop <= |q.data| {
      ExamineHonest(q);
      ScanHit(q.data, ExamineFor(q), i, stop, false);
      ExamineHit(q, r.off, stop, r);
    }
  }

  lemma ExamineHit(q: Query, o: int, end: int, r: Probe<Extra>)
    requires Examine(q, o, end) == r && r.Hit? && HeaderAt(q.data, o, end)
    ensures Accepted(q.data, r)
  {
  }
}
