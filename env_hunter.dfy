/** `EnvironmentHunter`: locates U-Boot environments in a memory or flash image. The
  * regular expression `raw_regex` is modelled by what it accepts; the CRC-guided search
  * for the header in front of a match is modelled both as the specification functions
  * and as the loops that compute them. */
module EnvHunter {
  import opened Errors
  import opened PyBytes
  import opened Crc
  import opened Arch
  import opened Hunter
  import StringHunter
  import UBootEnv

  // ---- raw_regex: (NAME=VALUE\0){min,max} ----

  /** `[\x20-\x7f]`: the byte class of both the name and the value of `_ENV_VAR_PAT`
    * (the name class `[\x20-\x3c\x3d-\x7f]` includes '='). */
  predicate EnvByte(b: byte)
  {
    0x20 <= b <= 0x7f
  }

  /** The length of the run of class bytes that `d` starts with. */
  function Run(d: seq<byte>): (n: nat)
    ensures n <= |d|
    ensures forall k :: 0 <= k < n ==> EnvByte(d[k])
    ensures n < |d| ==> !EnvByte(d[n])
  {
    if |d| == 0 || !EnvByte(d[0]) then 0 else 1 + Run(d[1..])
  }

  /** One stored variable `NAME=VALUE\0`: class bytes, one of them an '=' with at least
    * one byte on each side, then a NUL. */
  predicate IsEntry(w: seq<byte>)
  {
    |w| >= 1 && w[|w| - 1] == 0 &&
    (forall k :: 0 <= k < |w| - 1 ==> EnvByte(w[k])) &&
    exists k :: 1 <= k < |w| - 2 && w[k] == 0x3d
  }

  /** An '=' among the first `n` bytes with a byte on each side of it. */
  predicate InnerEq(d: seq<byte>, n: nat)
    requires n <= |d|
  {
    exists k :: 1 <= k < n - 1 && d[k] == 0x3d
  }

  /** The length of the entry that `d` starts with. The class excludes NUL, so the NUL
    * can only follow the whole run; backtracking over the name then only decides
    * which '=' splits name from value, never where the entry ends. */
  function EntryAt(d: seq<byte>): (r: Option<nat>)
    ensures r.Some? ==> 4 <= r.value <= |d|
  {
    var n := Run(d);
    if n < |d| && d[n] == 0 && InnerEq(d, n) then Some(n + 1) else None
  }

  /** The entry read at the start of `d` is the one prefix of `d` that is an entry. */
  lemma EntryAtMeaning(d: seq<byte>, m: nat)
    requires m <= |d|
    ensures EntryAt(d) == Some(m) <==> IsEntry(d[..m])
  {
    var n := Run(d);
    if EntryAt(d) == Some(m) {
      assert forall k :: 0 <= k < m - 1 ==> d[..m][k] == d[k];
      var j :| 1 <= j < n - 1 && d[j] == 0x3d;
      assert d[..m][j] == 0x3d;
    }
    if IsEntry(d[..m]) {
      var w := d[..m];
      assert forall k :: 0 <= k < m - 1 ==> EnvByte(d[k]) by {
        forall k | 0 <= k < m - 1 ensures EnvByte(d[k]) { assert d[k] == w[k]; }
      }
      assert d[m - 1] == w[m - 1] == 0;
      assert n == m - 1;
      var j :| 1 <= j < m - 2 && w[j] == 0x3d;
      assert d[j] == 0x3d;
    }
  }

  /** `w` is `c` entries one after the other. */
  ghost predicate Entries(w: seq<byte>, c: nat)
    decreases c
  {
    if c == 0 then w == []
    else exists m :: 1 <= m <= |w| && IsEntry(w[..m]) && Entries(w[m..], c - 1)
  }

  lemma EntriesCons(w: seq<byte>, m: nat, c: nat)
    requires 1 <= m <= |w| && IsEntry(w[..m]) && Entries(w[m..], c)
    ensures Entries(w, c + 1)
  {
  }

  /** The greedy repetition `{lo,hi}` at the start of `d`: how many entries it takes and
    * how many bytes they cover. Each entry has a single end, so taking as many as the
    * upper bound allows is the only way the match can go. */
  function Repeat(d: seq<byte>, hi: Option<nat>): (r: (nat, nat))
    ensures r.1 <= |d|
    ensures hi.Some? ==> r.0 <= hi.value
    decreases |d|
  {
    if hi == Some(0) then (0, 0)
    else match EntryAt(d)
      case None => (0, 0)
      case Some(m) =>
        var t := Repeat(d[m..], Fewer(hi));
        (t.0 + 1, t.1 + m)
  }

  /** The upper bound left after one entry. */
  function Fewer(hi: Option<nat>): Option<nat>
  {
    if hi.None? || hi.value == 0 then hi else Some(hi.value - 1)
  }

  /** An entry followed by `c` entries is `c + 1` entries. */
  lemma EntriesPrepend(d: seq<byte>, m: nat, c: nat, n: nat)
    requires 1 <= m && m + n <= |d| && IsEntry(d[..m]) && Entries(d[m..][..n], c)
    ensures Entries(d[..m + n], c + 1)
  {
    var w := d[..m + n];
    assert w[..m] == d[..m];
    assert w[m..] == d[m..][..n];
    EntriesCons(w, m, c);
  }

  /** The repetition covers exactly its entries. */
  lemma {:induction false} RepeatEntries(d: seq<byte>, hi: Option<nat>)
    ensures Entries(d[..Repeat(d, hi).1], Repeat(d, hi).0)
    decreases |d|
  {
    if hi != Some(0) && EntryAt(d).Some? {
      var m := EntryAt(d).value;
      var t := Repeat(d[m..], Fewer(hi));
      assert Repeat(d, hi) == (t.0 + 1, t.1 + m);
      RepeatEntries(d[m..], Fewer(hi));
      EntryAtMeaning(d, m);
      EntriesPrepend(d, m, t.0, t.1);
      assert d[..Repeat(d, hi).1] == d[..m + t.1];
    } else {
      assert d[..0] == [];
    }
  }

  /** The repetition stops only at the upper bound or where no further entry starts. */
  lemma {:induction false} RepeatMaximal(d: seq<byte>, hi: Option<nat>)
    ensures (hi.Some? && Repeat(d, hi).0 == hi.value) || EntryAt(d[Repeat(d, hi).1..]).None?
    decreases |d|
  {
    if hi != Some(0) && EntryAt(d).Some? {
      var m := EntryAt(d).value;
      var t := Repeat(d[m..], Fewer(hi));
      assert Repeat(d, hi) == (t.0 + 1, t.1 + m);
      RepeatMaximal(d[m..], Fewer(hi));
      assert d[Repeat(d, hi).1..] == d[m..][t.1..];
    } else {
      assert d[0..] == d;
    }
  }

  /** `raw_regex(min_entries, max_entries)` compiled: `min_entries or ''` and
    * `max_entries or ''` make 0 and None mean no bound; a maximum below the minimum
    * does not compile. */
  function RawRegex(minEntries: nat, maxEntries: Option<nat>): (r: Result<StringHunter.Bounds>)
    ensures r.Err? <==> maxEntries.Some? && 0 < maxEntries.value < minEntries
    ensures r.Err? ==> r.error == PatternError
    ensures r.Ok? ==> r.value.lo == minEntries
    ensures r.Ok? ==> (r.value.hi.None? <==> maxEntries.None? || maxEntries.value == 0)
    ensures r.Ok? && r.value.hi.Some? ==> r.value.hi == maxEntries
  {
    var hi := if maxEntries.None? || maxEntries.value == 0 then None else maxEntries;
    if hi.Some? && hi.value < minEntries then Err(PatternError)
    else Ok(StringHunter.Bounds(minEntries, hi))
  }

  /** `re.match` of the repetition at the start of `d`: the match length when at least
    * `lo` entries are there. */
  function MatchEnv(d: seq<byte>, b: StringHunter.Bounds): (r: Option<nat>)
    ensures r.Some? ==> r.value <= |d|
  {
    var t := Repeat(d, b.hi);
    if t.0 >= b.lo then Some(t.1) else None
  }

  /** A match covers a number of entries within the bounds. */
  lemma MatchEnvMeaning(d: seq<byte>, b: StringHunter.Bounds)
    requires MatchEnv(d, b).Some?
    ensures exists c :: StringHunter.WithinBounds(c, b) && Entries(d[..MatchEnv(d, b).value], c)
  {
    RepeatEntries(d, b.hi);
    var c := Repeat(d, b.hi).0;
    assert StringHunter.WithinBounds(c, b);
  }

  function EnvMatcher(b: StringHunter.Bounds): seq<byte> -> Option<nat>
  {
    x => MatchEnv(x, b)
  }

  // ---- env_t header ----

  /** `self._data[offset]` (Python indexing): negative offsets count from the end, any
    * other offset outside the data raises IndexError. */
  function At(d: seq<byte>, i: int): (r: Result<byte>)
    ensures r.Ok? <==> -|d| <= i < |d|
    ensures r.Ok? && i >= 0 ==> r.value == d[i]
    ensures r.Err? ==> r.error == IndexError
  {
    if 0 <= i < |d| then Ok(d[i])
    else if -|d| <= i < 0 then Ok(d[|d| + i])
    else Err(IndexError)
  }

  /** `_expected_crc`: the header word in front of the data at `offset`, skipping the
    * flags byte of a redundant environment. */
  function ExpectedCrc(data: seq<byte>, offset: int, redundant: bool, a: Architecture): nat
  {
    if redundant then ToUint(a, Slice(data, offset - 5, offset - 1))
    else ToUint(a, Slice(data, offset - 4, offset))
  }

  /** The word read is the four bytes before the data (before the flags byte when
    * the environment is redundant). */
  lemma ExpectedCrcWord(data: seq<byte>, offset: int, redundant: bool, a: Architecture)
    requires a.wordSize >= 4
    requires (if redundant then 5 else 4) <= offset <= |data|
    ensures redundant ==> ExpectedCrc(data, offset, redundant, a) == FromBytes(data[offset - 5..offset - 1], a.endianness)
    ensures !redundant ==> ExpectedCrc(data, offset, redundant, a) == FromBytes(data[offset - 4..offset], a.endianness)
  {
    var w := if redundant then data[offset - 5..offset - 1] else data[offset - 4..offset];
    assert Slice(data, if redundant then offset - 5 else offset - 4, if redundant then offset - 1 else offset) == w;
    assert w[..4] == w;
  }

  /** `_get_env_flags`: the byte before the data of a redundant environment. */
  function EnvFlags(data: seq<byte>, offset: int, redundant: bool): (r: Result<Option<byte>>)
    ensures r.Ok? && r.value.Some? <==> redundant && -|data| <= offset - 1 < |data|
    ensures r.Err? <==> redundant && !(-|data| <= offset - 1 < |data|)
    ensures r.Err? ==> r.error == IndexError
  {
    if !redundant then Ok(None)
    else match At(data, offset - 1)
      case Err(e) => Err(e)
      case Ok(f) => Ok(Some(f))
  }

  /** Reading the header `create_raw` writes: the CRC word and the flags byte come back. */
  lemma HeaderReadBack(a: Architecture, prefix: seq<byte>, crc: nat, flags: seq<byte>, body: seq<byte>)
    requires a.wordSize >= 4 && crc < Pow256(4) && |flags| <= 1
    ensures var hdr := ToBytes(crc, 4, a.endianness);
      ExpectedCrc(prefix + hdr + flags + body, |prefix| + 4 + |flags|, |flags| == 1, a) == crc
    ensures var d := prefix + ToBytes(crc, 4, a.endianness) + flags + body;
      EnvFlags(d, |prefix| + 4 + |flags|, |flags| == 1) == Ok(if |flags| == 1 then Some(flags[0]) else None)
  {
    var hdr := ToBytes(crc, 4, a.endianness);
    var d := prefix + hdr + flags + body;
    var off := |prefix| + 4 + |flags|;
    ExpectedCrcWord(d, off, |flags| == 1, a);
    FromToBytes(crc, 4, a.endianness);
    if |flags| == 1 {
      assert d[off - 5..off - 1] == hdr;
      assert d[off - 1] == flags[0];
    } else {
      assert d[off - 4..off] == hdr;
    }
  }

  // ---- _actual_offset_size_crc ----

  /** `(actual_offset, actual_size, crc)` of a stored environment. */
  datatype Found = Found(off: int, size: int, crc: nat)

  /** `bytes.index(b'=')`: the first position of '=', None where `index` raises. */
  function FirstEq(w: seq<byte>): (r: Option<nat>)
    ensures r.Some? ==> r.value < |w|
  {
    if |w| == 0 then None
    else if w[0] == 0x3d then Some(0)
    else match FirstEq(w[1..])
      case None => None
      case Some(k) => Some(k + 1)
  }

  /** `FirstEq` finds the first '=' and only fails when there is none. */
  lemma {:induction false} FirstEqMeaning(w: seq<byte>)
    ensures FirstEq(w).Some? ==> w[FirstEq(w).value] == 0x3d
    ensures FirstEq(w).Some? ==> forall k :: 0 <= k < FirstEq(w).value ==> w[k] != 0x3d
    ensures FirstEq(w).None? ==> forall k :: 0 <= k < |w| ==> w[k] != 0x3d
  {
    if |w| > 0 && w[0] != 0x3d {
      FirstEqMeaning(w[1..]);
      assert forall k :: 1 <= k < |w| ==> w[k] == w[1..][k - 1];
    }
  }

  /** The checksum the search compares with the header word: `zlib.crc32` as an
    * unsigned integer in the model proper, any function in the structural lemmas. */
  type Checksum = seq<byte> -> nat

  function Crc32Value(): Checksum
  {
    d => UBootEnv.CrcValue(d)
  }

  /** `crc` is `zlib.crc32`. The loops are proved for any such `crc`; the trigger keeps
    * the CRC's definition out of the reasoning about the search itself. */
  ghost predicate IsZlibCrc(crc: Checksum)
  {
    forall d {:trigger UBootEnv.CrcValue(d)} :: crc(d) == UBootEnv.CrcValue(d)
  }

  lemma ZlibCrc()
    ensures IsZlibCrc(Crc32Value())
  {
  }

  /** The unused portion: extend the span one byte at a time from `i` until its CRC
    * equals the expected value, the range ends, or `self._data[i]` raises IndexError
    * (which abandons this candidate offset). */
  function Extend(crc: Checksum, data: seq<byte>, ao: nat, i: int, stop: int, expected: nat): (r: Option<Found>)
    requires ao <= i
    ensures r.Some? ==> r.value.off == ao && i - ao + 1 <= r.value.size <= stop - ao
    ensures r.Some? ==> ao + r.value.size <= |data|
    ensures r.Some? ==> r.value.crc == expected == crc(data[ao..ao + r.value.size])
    decreases stop - i
  {
    if i >= stop || i >= |data| then None
    else if crc(data[ao..i + 1]) == expected then Some(Found(ao, i - ao + 1, expected))
    else Extend(crc, data, ao, i + 1, stop, expected)
  }

  /** The header CRC the search compares with, as a function of the candidate offset;
    * the structural lemmas hold for any such function. */
  type Header = int -> nat

  function HeaderCrc(data: seq<byte>, redundant: bool, a: Architecture): Header
  {
    o => ExpectedCrc(data, o, redundant, a)
  }

  /** `exp` reads the header word before each candidate offset. */
  ghost predicate IsHeaderCrc(exp: Header, data: seq<byte>, redundant: bool, a: Architecture)
  {
    forall o {:trigger ExpectedCrc(data, o, redundant, a)} :: exp(o) == ExpectedCrc(data, o, redundant, a)
  }

  lemma HeaderCrcIs(data: seq<byte>, redundant: bool, a: Architecture)
    ensures IsHeaderCrc(HeaderCrc(data, redundant, a), data, redundant, a)
  {
  }

  /** One candidate offset `ao`: the CRC of the used portion `data[ao:ao + size]`, then
    * of ever longer spans, up to `max_size` bytes. */
  function TryAt(crc: Checksum, data: seq<byte>, ao: nat, size: nat, maxSize: int, exp: Header): (r: Option<Found>)
    ensures r.Some? ==> r.value.off == ao && size <= r.value.size
    ensures r.Some? ==> r.value.size == size || r.value.size <= maxSize
    ensures r.Some? ==> r.value.crc == exp(ao)
  {
    var expected := exp(ao);
    if crc(Slice(data, ao, ao + size)) == expected then Some(Found(ao, size, expected))
    else Extend(crc, data, ao, ao + size, ao + maxSize, expected)
  }

  /** An accepted candidate carries the checksum of the span `data[ao:ao + size]` it
    * reports. */
  lemma TryAtSpan(crc: Checksum, data: seq<byte>, ao: nat, size: nat, maxSize: int, exp: Header, f: Found)
    requires TryAt(crc, data, ao, size, maxSize, exp) == Some(f)
    ensures f.off == ao && f.crc == exp(ao)
    ensures f.crc == crc(Slice(data, f.off, f.off + f.size))
  {
    if f.size != size {
      SliceInRange(data, ao, ao + f.size);
    }
  }

  /** The first candidate offset in [ao, last] that `try` accepts. */
  function FirstFound(try: int -> Option<Found>, ao: int, last: int): (r: Option<Found>)
    decreases last - ao + 1
  {
    if ao > last then None
    else match try(ao)
      case Some(f) => Some(f)
      case None => FirstFound(try, ao + 1, last)
  }

  /** The first accepted candidate: it lies in the range, it is what `try` answered
    * there, and every offset before it was refused; no answer means every offset was. */
  lemma {:induction false} FirstFoundSpec(try: int -> Option<Found>, ao: int, last: int)
    ensures FirstFound(try, ao, last).Some? ==>
      exists o :: ao <= o <= last && try(o) == FirstFound(try, ao, last) &&
        forall p :: ao <= p < o ==> try(p).None?
    ensures FirstFound(try, ao, last).None? ==> forall p :: ao <= p <= last ==> try(p).None?
    decreases last - ao + 1
  {
    if ao <= last && try(ao).None? {
      FirstFoundSpec(try, ao + 1, last);
      if FirstFound(try, ao + 1, last).Some? {
        var o :| ao + 1 <= o <= last && try(o) == FirstFound(try, ao + 1, last) &&
          forall p :: ao + 1 <= p < o ==> try(p).None?;
        assert forall p :: ao <= p < o ==> try(p).None?;
      }
    }
  }

  function Candidate(crc: Checksum, data: seq<byte>, size: nat, maxSize: int, exp: Header): int -> Option<Found>
  {
    ao => if ao < 0 then None else TryAt(crc, data, ao, size, maxSize, exp)
  }

  /** `_actual_offset_size_crc`: the candidate offsets run from the match up to its
    * first '=' (a CRC made of printable bytes can be read as the start of the first
    * name); `index` raises ValueError when the matched bytes hold no '='. */
  function ActualOffsetSizeCrc(crc: Checksum, data: seq<byte>, offset: nat, size: nat, maxSize: int, exp: Header): (r: Result<Option<Found>>)
    ensures r.Err? <==> FirstEq(Slice(data, offset, offset + size)).None?
    ensures r.Err? ==> r.error == ValueError
  {
    match FirstEq(Slice(data, offset, offset + size))
    case None => Err(ValueError)
    case Some(k) => Ok(FirstFound(Candidate(crc, data, size, maxSize, exp), offset, offset + k))
  }

  /** When some span `data[ao..j + 1]` with `i <= j < stop` has the expected CRC, the
    * extension finds one, no longer than that span. */
  lemma {:induction false} ExtendComplete(crc: Checksum, data: seq<byte>, ao: nat, i: int, stop: int, expected: nat, j: int)
    requires ao <= i <= j < stop && j < |data|
    requires crc(data[ao..j + 1]) == expected
    ensures Extend(crc, data, ao, i, stop, expected).Some?
    ensures Extend(crc, data, ao, i, stop, expected).value.size <= j - ao + 1
    decreases j - i
  {
    if i < j && crc(data[ao..i + 1]) != expected {
      ExtendComplete(crc, data, ao, i + 1, stop, expected, j);
    }
  }

  /** A stored environment whose header CRC covers `data[ao..ao + n]`, with the used
    * portion no longer than the span and the span within `max_size`, is recognised at
    * `ao`, with a span no longer than `n`. */
  lemma TryAtComplete(crc: Checksum, data: seq<byte>, ao: nat, size: nat, maxSize: int, exp: Header, n: nat)
    requires size <= n <= maxSize && ao + n <= |data|
    requires crc(data[ao..ao + n]) == exp(ao)
    ensures TryAt(crc, data, ao, size, maxSize, exp).Some?
    ensures TryAt(crc, data, ao, size, maxSize, exp).value.size <= n
  {
    var expected := exp(ao);
    SliceInRange(data, ao, ao + size);
    if crc(data[ao..ao + size]) != expected {
      assert size < n;
      ExtendComplete(crc, data, ao, ao + size, ao + maxSize, expected, ao + n - 1);
    }
  }

  /** Continuing the CRC of `d[ao..i]` with `d[i]` gives the CRC of `d[ao..i + 1]`. */
  lemma CrcNextChain(d: seq<byte>, ao: int, i: int)
    requires 0 <= ao <= i < |d|
    ensures Crc32From(Crc32(d[ao..i]), [d[i]]) == Crc32(d[ao..i + 1])
  {
    Crc32Chain(0, d[ao..i], [d[i]]);
    assert d[ao..i] + [d[i]] == d[ao..i + 1];
  }

  /** A refused byte moves the extension on to the next one. */
  lemma ExtendStep(crc: Checksum, data: seq<byte>, ao: nat, i: int, stop: int, expected: nat)
    requires ao <= i < stop && i < |data| && crc(data[ao..i + 1]) != expected
    ensures Extend(crc, data, ao, i, stop, expected) == Extend(crc, data, ao, i + 1, stop, expected)
  {
  }

  /** The running register after one more byte, and its value as the model's checksum. */
  lemma CrcStep(data: seq<byte>, ao: nat, i: int, c0: bv32, c1: bv32)
    requires ao <= i < |data| && c0 == Crc32(data[ao..i]) && c1 == Crc32From(c0, [data[i]])
    ensures c1 == Crc32(data[ao..i + 1])
    ensures UBootEnv.CrcValue(data[ao..i + 1]) == c1 as int
  {
    CrcNextChain(data, ao, i);
  }

  /** The inner `for` loop of `_actual_offset_size_crc`, feeding one byte at a time to
    * `zlib.crc32`; running past the data ends the candidate as the IndexError does. */
  method ExtendLoop(ghost crc: Checksum, data: seq<byte>, ao: nat, from: int, stop: int, reg0: bv32, expected: nat)
    returns (r: Option<Found>)
    requires IsZlibCrc(crc)
    requires ao <= from
    requires from <= |data| ==> reg0 == Crc32(data[ao..from])
    ensures r == Extend(crc, data, ao, from, stop, expected)
  {
    var reg := reg0;
    var i := from;
    ghost var whole := Extend(crc, data, ao, from, stop, expected);
    while i < stop
      invariant ao <= i
      invariant i <= |data| ==> reg == Crc32(data[ao..i])
      invariant Extend(crc, data, ao, i, stop, expected) == whole
      decreases stop - i
    {
      if i >= |data| {
        return None;
      }
      ghost var c0 := reg;
      reg := Crc32From(reg, [data[i]]);
      CrcStep(data, ao, i, c0, reg);
      if reg as int == expected {
        return Some(Found(ao, i - ao + 1, reg as int));
      }
      ExtendStep(crc, data, ao, i, stop, expected);
      i := i + 1;
    }
    return None;
  }

  /** How one candidate is decided: by the used portion, or else by the extension. */
  lemma TryAtCases(crc: Checksum, data: seq<byte>, ao: nat, size: nat, maxSize: int, exp: Header, expected: nat)
    requires expected == exp(ao)
    ensures crc(Slice(data, ao, ao + size)) == expected ==>
      TryAt(crc, data, ao, size, maxSize, exp) == Some(Found(ao, size, expected))
    ensures crc(Slice(data, ao, ao + size)) != expected ==>
      TryAt(crc, data, ao, size, maxSize, exp) == Extend(crc, data, ao, ao + size, ao + maxSize, expected)
  {
  }

  lemma FirstFoundStep(try: int -> Option<Found>, ao: int, last: int, f: Option<Found>)
    requires ao <= last && try(ao) == f
    ensures f.Some? ==> FirstFound(try, ao, last) == f
    ensures f.None? ==> FirstFound(try, ao, last) == FirstFound(try, ao + 1, last)
  {
  }

  lemma CandidateAt(crc: Checksum, data: seq<byte>, size: nat, maxSize: int, exp: Header, ao: nat)
    ensures Candidate(crc, data, size, maxSize, exp)(ao) == TryAt(crc, data, ao, size, maxSize, exp)
  {
  }

  lemma CrcWindow(data: seq<byte>, ao: nat, size: nat, c: bv32)
    requires c == Crc32(Slice(data, ao, ao + size))
    ensures UBootEnv.CrcValue(Slice(data, ao, ao + size)) == c as int
    ensures ao + size <= |data| ==> c == Crc32(data[ao..ao + size])
  {
    if ao + size <= |data| {
      SliceInRange(data, ao, ao + size);
    }
  }

  /** `crc32(self._data[ao:ao + size])`, both as the register the extension continues
    * from and as the integer compared with the header. */
  method WindowCrc(ghost crc: Checksum, data: seq<byte>, ao: nat, size: nat) returns (v: nat, c: bv32)
    requires IsZlibCrc(crc)
    ensures v == crc(Slice(data, ao, ao + size))
    ensures ao + size <= |data| ==> c == Crc32(data[ao..ao + size])
  {
    c := Crc32(Slice(data, ao, ao + size));
    CrcWindow(data, ao, size, c);
    v := c as int;
  }

  /** The body of `_actual_offset_size_crc`'s outer loop: one candidate offset. */
  method TryAtImpl(ghost crc: Checksum, data: seq<byte>, ao: nat, size: nat, maxSize: int, redundant: bool,
                   a: Architecture, ghost exp: Header) returns (r: Option<Found>)
    requires IsZlibCrc(crc) && IsHeaderCrc(exp, data, redundant, a)
    ensures r == TryAt(crc, data, ao, size, maxSize, exp)
  {
    var expected := ExpectedCrc(data, ao, redundant, a);
    var v, c := WindowCrc(crc, data, ao, size);
    TryAtCases(crc, data, ao, size, maxSize, exp, expected);
    if v == expected {
      return Some(Found(ao, size, v));
    }
    r := ExtendLoop(crc, data, ao, ao + size, ao + maxSize, c, expected);
  }

  /** `_actual_offset_size_crc`'s outer loop over the candidate offsets in
    * [offset, last]. */
  method CandidatesLoop(ghost crc: Checksum, data: seq<byte>, offset: nat, last: int, size: nat, maxSize: int,
                        redundant: bool, a: Architecture, ghost exp: Header) returns (r: Option<Found>)
    requires IsZlibCrc(crc) && IsHeaderCrc(exp, data, redundant, a)
    ensures r == FirstFound(Candidate(crc, data, size, maxSize, exp), offset, last)
  {
    ghost var try := Candidate(crc, data, size, maxSize, exp);
    ghost var whole := FirstFound(try, offset, last);
    var ao := offset;
    while ao <= last
      invariant offset <= ao <= last + 1 || (ao == offset && last < offset)
      invariant FirstFound(try, ao, last) == whole
      decreases last - ao + 1
    {
      var f := TryAtImpl(crc, data, ao, size, maxSize, redundant, a, exp);
      CandidateAt(crc, data, size, maxSize, exp, ao);
      FirstFoundStep(try, ao, last, f);
      if f.Some? {
        return f;
      }
      ao := ao + 1;
    }
    return None;
  }

  /** `_actual_offset_size_crc`, returning the triple where line 82 returns a bare size
    * (see `TryAtAsWritten`). */
  method ActualOffsetSizeCrcLoop(ghost crc: Checksum, data: seq<byte>, offset: nat, size: nat, maxSize: int,
                                 redundant: bool, a: Architecture, ghost exp: Header) returns (r: Result<Option<Found>>)
    requires IsZlibCrc(crc) && IsHeaderCrc(exp, data, redundant, a)
    ensures r == ActualOffsetSizeCrc(crc, data, offset, size, maxSize, exp)
  {
    var k := FirstEq(Slice(data, offset, offset + size));
    match k
    case None =>
      return Err(ValueError);
    case Some(j) =>
      var f := CandidatesLoop(crc, data, offset, offset + j, size, maxSize, redundant, a, exp);
      return Ok(f);
  }

  /** No answer: the offset `p` in the range was refused. */
  lemma {:induction false} FirstFoundNone(try: int -> Option<Found>, ao: int, last: int, p: int)
    requires FirstFound(try, ao, last).None? && ao <= p <= last
    ensures try(p).None?
    decreases last - ao + 1
  {
    if ao < p {
      FirstFoundNone(try, ao + 1, last, p);
    }
  }

  /** The offset at which `FirstFound` stopped. */
  lemma {:induction false} FirstFoundAt(try: int -> Option<Found>, ao: int, last: int) returns (o: int)
    requires FirstFound(try, ao, last).Some?
    ensures ao <= o <= last && try(o) == FirstFound(try, ao, last)
    decreases last - ao + 1
  {
    if try(ao).Some? {
      o := ao;
    } else {
      o := FirstFoundAt(try, ao + 1, last);
    }
  }

  /** `try` reports each accepted candidate at its own offset. */
  ghost predicate AtOffset(try: int -> Option<Found>, q: int)
  {
    try(q).Some? ==> try(q).value.off == q
  }

  ghost predicate OffsetsKept(try: int -> Option<Found>)
  {
    forall q {:trigger AtOffset(try, q)} :: AtOffset(try, q)
  }

  /** Every offset before the one `FirstFound` reports was refused. */
  lemma {:induction false} FirstFoundBefore(try: int -> Option<Found>, ao: int, last: int, f: Found, p: int)
    requires OffsetsKept(try)
    requires FirstFound(try, ao, last) == Some(f) && ao <= p < f.off
    ensures try(p).None?
    decreases last - ao + 1
  {
    assert AtOffset(try, ao);
    if p > ao {
      FirstFoundBefore(try, ao + 1, last, f, p);
    }
  }

  lemma CandidateOffsets(crc: Checksum, data: seq<byte>, size: nat, maxSize: int, exp: Header)
    ensures OffsetsKept(Candidate(crc, data, size, maxSize, exp))
  {
    forall q
      ensures AtOffset(Candidate(crc, data, size, maxSize, exp), q)
    {
    }
  }

  /** A result of the search: where it lies, that it carries the header's CRC and that
    * this is the checksum of the span it reports. */
  lemma ActualOffsetSizeCrcFound(crc: Checksum, data: seq<byte>, offset: nat, size: nat,
                                 maxSize: int, exp: Header, f: Found)
    requires ActualOffsetSizeCrc(crc, data, offset, size, maxSize, exp) == Ok(Some(f))
    ensures offset <= f.off <= offset + FirstEq(Slice(data, offset, offset + size)).value
    ensures f.crc == exp(f.off)
    ensures f.crc == crc(Slice(data, f.off, f.off + f.size))
    ensures size <= f.size && (f.size == size || f.size <= maxSize)
  {
    var k := FirstEq(Slice(data, offset, offset + size)).value;
    var o := FirstFoundAt(Candidate(crc, data, size, maxSize, exp), offset, offset + k);
    CandidateAt(crc, data, size, maxSize, exp, o);
    TryAtSpan(crc, data, o, size, maxSize, exp, f);
  }

  /** Every candidate offset before the one reported was refused. */
  lemma ActualOffsetSizeCrcFirst(crc: Checksum, data: seq<byte>, offset: nat, size: nat,
                                 maxSize: int, exp: Header, f: Found, p: nat)
    requires ActualOffsetSizeCrc(crc, data, offset, size, maxSize, exp) == Ok(Some(f))
    requires offset <= p < f.off
    ensures TryAt(crc, data, p, size, maxSize, exp).None?
  {
    var k := FirstEq(Slice(data, offset, offset + size)).value;
    CandidateOffsets(crc, data, size, maxSize, exp);
    FirstFoundBefore(Candidate(crc, data, size, maxSize, exp), offset, offset + k, f, p);
    CandidateAt(crc, data, size, maxSize, exp, p);
  }

  /** No result means every candidate offset up to the first '=' was refused. */
  lemma ActualOffsetSizeCrcNone(crc: Checksum, data: seq<byte>, offset: nat, size: nat, maxSize: int, exp: Header, p: nat)
    requires ActualOffsetSizeCrc(crc, data, offset, size, maxSize, exp) == Ok(None)
    requires offset <= p <= offset + FirstEq(Slice(data, offset, offset + size)).value
    ensures TryAt(crc, data, p, size, maxSize, exp).None?
  {
    var k := FirstEq(Slice(data, offset, offset + size)).value;
    FirstFoundNone(Candidate(crc, data, size, maxSize, exp), offset, offset + k, p);
    CandidateAt(crc, data, size, maxSize, exp, p);
  }

  // ---- line 82 as written ----

  /** What a candidate offset answers as written: the triple from the unused-portion
    * loop, the bare `size` that line 82 returns, or nothing. */
  datatype Outcome = Triple(f: Found) | BareSize(size: int) | NoAnswer

  /** A candidate as written: a used portion whose CRC matches returns `size` alone. */
  function TryAtAsWritten(crc: Checksum, data: seq<byte>, ao: nat, size: nat, maxSize: int, exp: Header): Outcome
  {
    var expected := exp(ao);
    if crc(Slice(data, ao, ao + size)) == expected then BareSize(size)
    else match Extend(crc, data, ao, ao + size, ao + maxSize, expected)
      case Some(f) => Triple(f)
      case None => NoAnswer
  }

  function FirstOutcome(crc: Checksum, data: seq<byte>, size: nat, maxSize: int, exp: Header, ao: nat, last: int): Outcome
    decreases last - ao + 1
  {
    if ao > last then NoAnswer
    else match TryAtAsWritten(crc, data, ao, size, maxSize, exp)
      case NoAnswer => FirstOutcome(crc, data, size, maxSize, exp, ao + 1, last)
      case o => o
  }

  /** `_actual_offset_size_crc` as written. */
  function ActualOffsetSizeCrcAsWritten(crc: Checksum, data: seq<byte>, offset: nat, size: nat, maxSize: int, exp: Header): Result<Outcome>
  {
    match FirstEq(Slice(data, offset, offset + size))
    case None => Err(ValueError)
    case Some(k) => Ok(FirstOutcome(crc, data, size, maxSize, exp, offset, offset + k))
  }

  /** `(actual_off, actual_size, crc) = ...` at lines 147 and 152: unpacking a bare int
    * raises TypeError. */
  function Unpack(r: Result<Outcome>): Result<Option<Found>>
  {
    match r
    case Err(e) => Err(e)
    case Ok(Triple(f)) => Ok(Some(f))
    case Ok(NoAnswer) => Ok(None)
    case Ok(BareSize(_)) => Err(TypeError)
  }

  /** The answer as written, read off the corrected one: a result covering just the
    * used portion comes back as the bare size. */
  function AsWritten(f: Option<Found>, size: nat): Outcome
  {
    if f.None? then NoAnswer else if f.value.size == size then BareSize(size) else Triple(f.value)
  }

  lemma TryAtAsWrittenIs(crc: Checksum, data: seq<byte>, ao: nat, size: nat, maxSize: int, exp: Header)
    ensures TryAtAsWritten(crc, data, ao, size, maxSize, exp) ==
      AsWritten(TryAt(crc, data, ao, size, maxSize, exp), size)
  {
  }

  lemma {:induction false} FirstOutcomeIs(crc: Checksum, data: seq<byte>, size: nat, maxSize: int, exp: Header, ao: nat, last: int)
    ensures FirstOutcome(crc, data, size, maxSize, exp, ao, last) ==
      AsWritten(FirstFound(Candidate(crc, data, size, maxSize, exp), ao, last), size)
    decreases last - ao + 1
  {
    if ao <= last {
      TryAtAsWrittenIs(crc, data, ao, size, maxSize, exp);
      CandidateAt(crc, data, size, maxSize, exp, ao);
      if TryAt(crc, data, ao, size, maxSize, exp).None? {
        FirstOutcomeIs(crc, data, size, maxSize, exp, ao + 1, last);
      }
    }
  }

  /** The search as written answers what the corrected search answers, read through
    * `AsWritten`. */
  lemma AsWrittenRelation(crc: Checksum, data: seq<byte>, offset: nat, size: nat, maxSize: int, exp: Header)
    ensures ActualOffsetSizeCrc(crc, data, offset, size, maxSize, exp).Err? ==>
      ActualOffsetSizeCrcAsWritten(crc, data, offset, size, maxSize, exp) ==
        Err(ActualOffsetSizeCrc(crc, data, offset, size, maxSize, exp).error)
    ensures ActualOffsetSizeCrc(crc, data, offset, size, maxSize, exp).Ok? ==>
      ActualOffsetSizeCrcAsWritten(crc, data, offset, size, maxSize, exp) ==
        Ok(AsWritten(ActualOffsetSizeCrc(crc, data, offset, size, maxSize, exp).value, size))
  {
    var k := FirstEq(Slice(data, offset, offset + size));
    if k.Some? {
      var x := FirstFound(Candidate(crc, data, size, maxSize, exp), offset, offset + k.value);
      assert ActualOffsetSizeCrc(crc, data, offset, size, maxSize, exp) == Ok(x);
      FirstOutcomeIs(crc, data, size, maxSize, exp, offset, offset + k.value);
      assert ActualOffsetSizeCrcAsWritten(crc, data, offset, size, maxSize, exp) ==
        Ok(FirstOutcome(crc, data, size, maxSize, exp, offset, offset + k.value));
    }
  }

  /** Line 82 as written: whenever the corrected search finds an environment whose CRC
    * covers exactly the matched variables, the caller's unpacking raises TypeError. */
  lemma BareSizeRaisesTypeError(crc: Checksum, data: seq<byte>, offset: nat, size: nat, maxSize: int,
                                exp: Header, f: Found)
    requires ActualOffsetSizeCrc(crc, data, offset, size, maxSize, exp) == Ok(Some(f)) && f.size == size
    ensures Unpack(ActualOffsetSizeCrcAsWritten(crc, data, offset, size, maxSize, exp)) == Err(TypeError)
  {
    AsWrittenRelation(crc, data, offset, size, maxSize, exp);
    UnpackAsWritten(Some(f), size);
  }

  /** Every other answer of the code as written is the corrected one. */
  lemma OtherAnswersAgree(crc: Checksum, data: seq<byte>, offset: nat, size: nat, maxSize: int, exp: Header)
    requires ActualOffsetSizeCrc(crc, data, offset, size, maxSize, exp).Ok? ==>
      ActualOffsetSizeCrc(crc, data, offset, size, maxSize, exp).value.None? ||
      ActualOffsetSizeCrc(crc, data, offset, size, maxSize, exp).value.value.size != size
    ensures Unpack(ActualOffsetSizeCrcAsWritten(crc, data, offset, size, maxSize, exp)) ==
      ActualOffsetSizeCrc(crc, data, offset, size, maxSize, exp)
  {
    AsWrittenRelation(crc, data, offset, size, maxSize, exp);
    var r := ActualOffsetSizeCrc(crc, data, offset, size, maxSize, exp);
    if r.Ok? {
      UnpackAsWritten(r.value, size);
    }
  }

  lemma UnpackAsWritten(x: Option<Found>, size: nat)
    ensures x.Some? && x.value.size == size ==> Unpack(Ok(AsWritten(x, size))) == Err(TypeError)
    ensures !(x.Some? && x.value.size == size) ==> Unpack(Ok(AsWritten(x, size))) == Ok(x)
  {
  }

  /** The first candidate is the match itself; when the CRC of the matched bytes is the
    * header word before them, the corrected search reports exactly the match and the
    * code as written raises TypeError. */
  lemma FullyUsedEnvironment(crc: Checksum, data: seq<byte>, offset: nat, size: nat, maxSize: int, exp: Header)
    requires FirstEq(Slice(data, offset, offset + size)).Some?
    requires crc(Slice(data, offset, offset + size)) == exp(offset)
    ensures ActualOffsetSizeCrc(crc, data, offset, size, maxSize, exp) ==
      Ok(Some(Found(offset, size, exp(offset))))
    ensures Unpack(ActualOffsetSizeCrcAsWritten(crc, data, offset, size, maxSize, exp)) == Err(TypeError)
  {
    var k := FirstEq(Slice(data, offset, offset + size)).value;
    CandidateAt(crc, data, size, maxSize, exp, offset);
    FirstFoundStep(Candidate(crc, data, size, maxSize, exp), offset, offset + k,
                   Some(Found(offset, size, exp(offset))));
    BareSizeRaisesTypeError(crc, data, offset, size, maxSize, exp, Found(offset, size, exp(offset)));
  }

  // ---- _search_at ----

  /** `_actual_offset_size_crc` bound to the data: the match's offset and size and the
    * header layout (redundant or not) to the triple found, none, or an exception. */
  type Locator = (nat, nat, bool) -> Result<Option<Found>>

  /** The search as corrected, with `crc` for `zlib.crc32`. */
  function Corrected(crc: Checksum, data: seq<byte>, maxSize: int, a: Architecture): Locator
  {
    (o: nat, n: nat, r: bool) => ActualOffsetSizeCrc(crc, data, o, n, maxSize, HeaderCrc(data, r, a))
  }

  /** The search as written, unpacked by the caller (line 82, see `Unpack`). */
  function AsWrittenLocator(crc: Checksum, data: seq<byte>, maxSize: int, a: Architecture): Locator
  {
    (o: nat, n: nat, r: bool) => Unpack(ActualOffsetSizeCrcAsWritten(crc, data, o, n, maxSize, HeaderCrc(data, r, a)))
  }

  /** The header layout and what was found with it: the caller's `redundant_env` is
    * trusted; without one `True` is tried before `False`, and the first layout that
    * finds a CRC decides `redundant_env`. */
  function Locate(loc: Locator, offset: nat, size: nat, redundant: Option<bool>): (r: Result<(Option<Found>, Option<bool>)>)
    ensures redundant.Some? ==> r.Err? == loc(offset, size, redundant.value).Err?
    ensures redundant.Some? && r.Ok? ==> r.value == (loc(offset, size, redundant.value).value, redundant)
    ensures redundant.None? && r.Ok? && r.value.0.Some? ==>
      r.value.1.Some? && loc(offset, size, r.value.1.value) == Ok(r.value.0)
    ensures redundant.None? && r.Ok? && r.value.1 == Some(false) ==> loc(offset, size, true) == Ok(None)
    ensures redundant.None? && r.Ok? && r.value.0.None? ==>
      r.value.1.None? && loc(offset, size, true) == Ok(None) && loc(offset, size, false) == Ok(None)
    ensures redundant.None? && r.Err? ==>
      loc(offset, size, true).Err? || (loc(offset, size, true) == Ok(None) && loc(offset, size, false).Err?)
    ensures r.Err? ==>
      (loc(offset, size, true) == Err(r.error) || loc(offset, size, false) == Err(r.error) ||
       (redundant.Some? && loc(offset, size, redundant.value) == Err(r.error)))
  {
    match redundant
    case Some(rd) => (
      match loc(offset, size, rd)
      case Err(e) => Err(e)
      case Ok(x) => Ok((x, redundant)))
    case None => (
      match loc(offset, size, true)
      case Err(e) => Err(e)
      case Ok(Some(f)) => Ok((Some(f), Some(true)))
      case Ok(None) => (
        match loc(offset, size, false)
        case Err(e) => Err(e)
        case Ok(Some(f)) => Ok((Some(f), Some(false)))
        case Ok(None) => Ok((None, None))))
  }

  /** `extra_info['type']`. */
  datatype EnvType = BuiltIn | Stored | StoredRedundant

  /** `extra_info`: the header's CRC and flags where present, the type, the raw bytes,
    * their parse and the architecture's name. */
  datatype EnvInfo = EnvInfo(crc: Option<nat>, flags: Option<byte>, kind: EnvType,
                             raw: seq<byte>, vars: UBootEnv.Env, arch: string)

  /** The `target` argument: none, a byte string, or a text string encoded as ASCII. */
  datatype EnvTarget = NoTarget | Bytes(b: seq<byte>) | Text(s: string)

  /** `len(target)` for the range check. */
  function TargetLen(t: EnvTarget): Option<nat>
  {
    match t
    case NoTarget => None
    case Bytes(b) => Some(|b|)
    case Text(s) => Some(|s|)
  }

  /** The bytes looked for; a text target that is not ASCII raises UnicodeEncodeError. */
  function TargetBytes(t: EnvTarget): (r: Result<seq<byte>>)
    ensures t.NoTarget? ==> r == Ok([])
    ensures t.Bytes? ==> r == Ok(t.b)
    ensures t.Text? ==> (r.Err? <==> exists k :: 0 <= k < |t.s| && t.s[k] as int >= 0x80)
    ensures t.Text? && r.Ok? ==> |r.value| == |t.s| && forall k :: 0 <= k < |t.s| ==> r.value[k] == t.s[k] as int
    ensures r.Err? ==> r.error == UnicodeEncodeError
  {
    match t
    case NoTarget => Ok([])
    case Bytes(b) => Ok(b)
    case Text(s) => (
      match UBootEnv.Encode(s)
      case None => Err(UnicodeEncodeError)
      case Some(w) => Ok(w))
  }

  /** What one `_search_at` call works with: the data, the architecture, the bounds of
    * `raw_regex`, the target as bytes (or the error encoding it raised), the caller's
    * `redundant_env`, the header search and the parser of the raw bytes. */
  datatype Query = Query(data: seq<byte>, arch: Architecture, env: StringHunter.Bounds,
                         target: Result<seq<byte>>, redundant: Option<bool>, loc: Locator,
                         parse: seq<byte> -> Result<UBootEnv.Env>)

  /** The end of `_search_at` once the span is known: the raw bytes, their parse and
    * the target check. */
  function Body(q: Query, off: int, n: int, crc: Option<nat>, flags: Option<byte>, kind: EnvType): (r: Probe<EnvInfo>)
    ensures r.Hit? ==> r.off == off && r.size == n
    ensures r.Hit? ==> r.extra == EnvInfo(crc, flags, kind, Slice(q.data, off, off + n), r.extra.vars, q.arch.name)
    ensures r.Hit? ==> q.parse(r.extra.raw) == Ok(r.extra.vars)
    ensures r.Hit? ==> q.target.Ok? && (|q.target.value| > 0 ==> Contains(r.extra.raw, q.target.value))
    ensures r.Fail? ==>
      (r.e == HunterResultNotFound || q.target == Err(r.e) || q.parse(Slice(q.data, off, off + n)) == Err(r.e))
    ensures !r.Skip?
  {
    var raw := Slice(q.data, off, off + n);
    match q.parse(raw)
    case Err(e) => Fail(e)
    case Ok(vars) => (
      match q.target
      case Err(e) => Fail(e)
      case Ok(t) =>
        if |t| > 0 && !Contains(raw, t) then Fail(HunterResultNotFound)
        else Hit(off, n, EnvInfo(crc, flags, kind, raw, vars, q.arch.name)))
  }

  /** The second half of `_search_at`: the result for the match `(offset, size)` and
    * the located header. Without a CRC the match itself is reported as a built-in
    * environment; the flags byte only exists in the redundant layout; IndexError
    * becomes HunterResultNotFound. */
  function Describe(q: Query, offset: nat, size: nat, lr: (Option<Found>, Option<bool>)): (r: Probe<EnvInfo>)
    ensures r.Hit? && lr.0.None? ==> r.off == offset && r.size == size && r.extra.crc.None?
    ensures r.Hit? && lr.0.Some? ==>
      r.off == lr.0.value.off && r.size == lr.0.value.size && r.extra.crc == Some(lr.0.value.crc)
    ensures r.Hit? ==> (r.extra.kind == BuiltIn <==> r.extra.crc.None?)
    ensures r.Hit? ==> (r.extra.kind == StoredRedundant <==> r.extra.flags.Some?)
    ensures r.Hit? && r.extra.flags.Some? ==>
      lr.1 == Some(true) && At(q.data, r.off - 1) == Ok(r.extra.flags.value)
    ensures r.Hit? && r.extra.crc.Some? && r.extra.flags.None? ==> lr.1 != Some(true)
    ensures r.Hit? ==> r == Body(q, r.off, r.size, r.extra.crc, r.extra.flags, r.extra.kind)
    ensures !r.Skip?
  {
    var off: int := if lr.0.Some? then lr.0.value.off else offset;
    var n: int := if lr.0.Some? then lr.0.value.size else size;
    var crc := if lr.0.Some? then Some(lr.0.value.crc) else None;
    var fl := if crc.Some? then EnvFlags(q.data, off, lr.1 == Some(true)) else Ok(None);
    if fl.Err? then Fail(HunterResultNotFound)
    else
      var kind := if crc.None? then BuiltIn else if fl.value.Some? then StoredRedundant else Stored;
      Body(q, off, n, crc, fl.value, kind)
  }

  /** `self._env.search(self._data[start:end])`, as the match's offset in the data and
    * its length. */
  function EnvMatch(data: seq<byte>, b: StringHunter.Bounds, start: nat, end: int): (r: Option<(nat, nat)>)
    ensures r.Some? ==> start <= r.value.0
  {
    match StringHunter.SearchFrom(Slice(data, start, end), 0, EnvMatcher(b))
    case None => None
    case Some(m) => Some((start + m.0, m.1))
  }

  /** The match covers a number of variables within the bounds (see `MatchEnvMeaning`). */
  lemma EnvMatchFound(data: seq<byte>, b: StringHunter.Bounds, start: nat, end: int)
    requires EnvMatch(data, b, start, end).Some?
    ensures EnvMatch(data, b, start, end).value.0 <= start + |Slice(data, start, end)|
    ensures MatchEnv(Slice(data, start, end)[EnvMatch(data, b, start, end).value.0 - start..], b) ==
      Some(EnvMatch(data, b, start, end).value.1)
  {
    var w := Slice(data, start, end);
    var m := StringHunter.SearchFrom(w, 0, EnvMatcher(b)).value;
    assert EnvMatcher(b)(w[m.0..]) == MatchEnv(w[m.0..], b);
  }

  /** The match is the leftmost one: no position of the range before it starts a match,
    * and without a match no position does. */
  lemma EnvMatchLeftmost(data: seq<byte>, b: StringHunter.Bounds, start: nat, end: int, p: nat)
    requires start <= p <= start + |Slice(data, start, end)|
    requires EnvMatch(data, b, start, end).Some? ==> p < EnvMatch(data, b, start, end).value.0
    ensures MatchEnv(Slice(data, start, end)[p - start..], b).None?
  {
    var w := Slice(data, start, end);
    StringHunter.SearchFromLeftmost(w, 0, EnvMatcher(b));
    assert EnvMatcher(b)(w[p - start..]) == MatchEnv(w[p - start..], b);
  }

  /** `_search_at`: no match raises HunterResultNotFound; otherwise the header is
    * located and the result described. */
  function SearchAt(q: Query, start: nat, end: int): (r: Probe<EnvInfo>)
    ensures EnvMatch(q.data, q.env, start, end).None? ==> r == Fail(HunterResultNotFound)
    ensures !r.Skip?
  {
    match EnvMatch(q.data, q.env, start, end)
    case None => Fail(HunterResultNotFound)
    case Some(m) => (
      match Locate(q.loc, m.0, m.1, q.redundant)
      case Err(e) => Fail(e)
      case Ok(lr) => Describe(q, m.0, m.1, lr))
  }

  /** A locator that only answers for a non-empty match, and only with a span that
    * starts at or after it and is not empty. */
  ghost predicate SaneLocator(loc: Locator)
  {
    forall o, n, r :: loc(o, n, r).Ok? ==>
      n >= 1 && (loc(o, n, r).value.Some? ==> loc(o, n, r).value.value.off >= o && loc(o, n, r).value.value.size >= 1)
  }

  lemma CorrectedSane(crc: Checksum, data: seq<byte>, maxSize: int, a: Architecture)
    ensures SaneLocator(Corrected(crc, data, maxSize, a))
  {
    var loc := Corrected(crc, data, maxSize, a);
    forall o: nat, n: nat, r: bool | loc(o, n, r).Ok?
      ensures n >= 1 && (loc(o, n, r).value.Some? ==> loc(o, n, r).value.value.off >= o && loc(o, n, r).value.value.size >= 1)
    {
      assert loc(o, n, r) == ActualOffsetSizeCrc(crc, data, o, n, maxSize, HeaderCrc(data, r, a));
      if loc(o, n, r).value.Some? {
        ActualOffsetSizeCrcFound(crc, data, o, n, maxSize, HeaderCrc(data, r, a), loc(o, n, r).value.value);
      }
    }
  }

  /** A result lies at or after the offset searched from and is not empty. */
  lemma SearchAtForward(q: Query, start: nat, end: int)
    requires SaneLocator(q.loc)
    ensures SearchAt(q, start, end).Hit? ==> SearchAt(q, start, end).off >= start && SearchAt(q, start, end).size >= 1
  {
    var m := EnvMatch(q.data, q.env, start, end);
    if m.Some? {
      var l := Locate(q.loc, m.value.0, m.value.1, q.redundant);
      if l.Ok? {
        if q.redundant.Some? {
          assert q.loc(m.value.0, m.value.1, q.redundant.value).Ok?;
        } else if l.value.0.Some? {
          assert q.loc(m.value.0, m.value.1, l.value.1.value) == Ok(l.value.0);
        } else {
          assert q.loc(m.value.0, m.value.1, true) == Ok(None);
        }
      }
    }
  }

  /** A stored environment came from the locator answering for the match, in the layout
    * its flags show. */
  lemma SearchAtStored(q: Query, start: nat, end: int, o: int, n: int, x: EnvInfo)
    requires SearchAt(q, start, end) == Hit(o, n, x)
    requires x.crc.Some?
    ensures EnvMatch(q.data, q.env, start, end).Some?
    ensures q.loc(EnvMatch(q.data, q.env, start, end).value.0, EnvMatch(q.data, q.env, start, end).value.1, x.flags.Some?) ==
      Ok(Some(Found(o, n, x.crc.value)))
  {
    var m := EnvMatch(q.data, q.env, start, end).value;
    var lr := Locate(q.loc, m.0, m.1, q.redundant).value;
    assert Describe(q, m.0, m.1, lr) == Hit(o, n, x);
    assert lr.1 == Some(x.flags.Some?);
  }

  /** A result's raw bytes are the span it reports, they parse to its variables, and a
    * non-empty target occurs in them. */
  lemma SearchAtRaw(q: Query, start: nat, end: int, o: int, n: int, x: EnvInfo)
    requires SearchAt(q, start, end) == Hit(o, n, x)
    ensures x.raw == Slice(q.data, o, o + n)
    ensures q.parse(x.raw) == Ok(x.vars)
    ensures x.arch == q.arch.name
    ensures q.target.Ok? && (|q.target.value| > 0 ==> Contains(x.raw, q.target.value))
  {
    assert Body(q, o, n, x.crc, x.flags, x.kind) == Hit(o, n, x);
  }

  /** Whatever `loc` finds carries the checksum `crc` of its span and the header word in
    * front of it, read in the layout asked for. */
  ghost predicate CrcChecked(loc: Locator, crc: Checksum, data: seq<byte>, a: Architecture)
  {
    forall o, n, r :: loc(o, n, r).Ok? && loc(o, n, r).value.Some? ==>
      loc(o, n, r).value.value.crc == crc(Slice(data, loc(o, n, r).value.value.off,
                                                loc(o, n, r).value.value.off + loc(o, n, r).value.value.size)) &&
      loc(o, n, r).value.value.crc == ExpectedCrc(data, loc(o, n, r).value.value.off, r, a)
  }

  /** What the corrected search finds carries the checksum of its span and the header
    * word in front of it. */
  lemma CorrectedFound(crc: Checksum, data: seq<byte>, maxSize: int, a: Architecture,
                       offset: nat, size: nat, redundant: bool, f: Found)
    requires Corrected(crc, data, maxSize, a)(offset, size, redundant) == Ok(Some(f))
    ensures f.crc == crc(Slice(data, f.off, f.off + f.size))
    ensures f.crc == ExpectedCrc(data, f.off, redundant, a)
  {
    var exp := HeaderCrc(data, redundant, a);
    assert ActualOffsetSizeCrc(crc, data, offset, size, maxSize, exp) == Ok(Some(f));
    ActualOffsetSizeCrcFound(crc, data, offset, size, maxSize, exp, f);
  }

  lemma CorrectedChecked(crc: Checksum, data: seq<byte>, maxSize: int, a: Architecture)
    ensures CrcChecked(Corrected(crc, data, maxSize, a), crc, data, a)
  {
    var loc := Corrected(crc, data, maxSize, a);
    forall o: nat, n: nat, r: bool | loc(o, n, r).Ok? && loc(o, n, r).value.Some?
      ensures loc(o, n, r).value.value.crc == crc(Slice(data, loc(o, n, r).value.value.off,
                                                          loc(o, n, r).value.value.off + loc(o, n, r).value.value.size))
      ensures loc(o, n, r).value.value.crc == ExpectedCrc(data, loc(o, n, r).value.value.off, r, a)
    {
      CorrectedFound(crc, data, maxSize, a, o, n, r, loc(o, n, r).value.value);
    }
  }

  /** A stored environment's CRC is the checksum of the raw bytes reported and the header
    * word in front of them, read in the layout its flags show. */
  lemma StoredCrc(crc: Checksum, q: Query, start: nat, end: int, o: int, n: int, x: EnvInfo)
    requires CrcChecked(q.loc, crc, q.data, q.arch)
    requires SearchAt(q, start, end) == Hit(o, n, x)
    requires x.crc.Some?
    ensures x.crc.value == crc(x.raw)
    ensures x.crc.value == ExpectedCrc(q.data, o, x.flags.Some?, q.arch)
  {
    SearchAtStored(q, start, end, o, n, x);
    SearchAtRaw(q, start, end, o, n, x);
  }

  /** How a search answers for the match and a layout in a as-written version of
    * `loc`: a result covering exactly the match raises TypeError when unpacked. */
  function Bare(x: Result<Option<Found>>, n: nat): Result<Option<Found>>
  {
    if x.Ok? && x.value.Some? && x.value.value.size == n then Err(TypeError) else x
  }

  ghost predicate BareOf(written: Locator, loc: Locator)
  {
    forall o, n, r :: written(o, n, r) == Bare(loc(o, n, r), n)
  }

  lemma AsWrittenBare(crc: Checksum, data: seq<byte>, maxSize: int, a: Architecture)
    ensures BareOf(AsWrittenLocator(crc, data, maxSize, a), Corrected(crc, data, maxSize, a))
  {
    forall o: nat, n: nat, r: bool
      ensures AsWrittenLocator(crc, data, maxSize, a)(o, n, r) == Bare(Corrected(crc, data, maxSize, a)(o, n, r), n)
    {
      var exp := HeaderCrc(data, r, a);
      var x := ActualOffsetSizeCrc(crc, data, o, n, maxSize, exp);
      if x.Ok? && x.value.Some? && x.value.value.size == n {
        BareSizeRaisesTypeError(crc, data, o, n, maxSize, exp, x.value.value);
      } else {
        OtherAnswersAgree(crc, data, o, n, maxSize, exp);
      }
    }
  }

  /** The corrected search reports a stored environment covering exactly the match. */
  predicate FullyUsed(loc: Locator, offset: nat, size: nat, redundant: Option<bool>)
  {
    Locate(loc, offset, size, redundant).Ok? && Locate(loc, offset, size, redundant).value.0.Some? &&
    Locate(loc, offset, size, redundant).value.0.value.size == size
  }

  /** Choosing the layout as written: a fully used environment raises TypeError, whichever
    * layout it was found in; every other choice is the corrected one. */
  lemma LocateAsWritten(written: Locator, loc: Locator, offset: nat, size: nat, redundant: Option<bool>)
    requires BareOf(written, loc)
    ensures FullyUsed(loc, offset, size, redundant) ==> Locate(written, offset, size, redundant) == Err(TypeError)
    ensures !FullyUsed(loc, offset, size, redundant) ==>
      Locate(written, offset, size, redundant) == Locate(loc, offset, size, redundant)
  {
    assert written(offset, size, true) == Bare(loc(offset, size, true), size);
    assert written(offset, size, false) == Bare(loc(offset, size, false), size);
  }

  /** The variables matched from `start` form a stored environment exactly. */
  predicate FullyUsedMatch(q: Query, start: nat, end: int)
  {
    EnvMatch(q.data, q.env, start, end).Some? &&
    FullyUsed(q.loc, EnvMatch(q.data, q.env, start, end).value.0, EnvMatch(q.data, q.env, start, end).value.1, q.redundant)
  }

  /** `_search_at` as written (line 82): where the corrected search reports a stored
    * environment covering exactly the matched variables, the call raises TypeError;
    * everywhere else it answers as the corrected one. */
  lemma SearchAtAsWritten(q: Query, written: Locator, start: nat, end: int)
    requires BareOf(written, q.loc)
    ensures FullyUsedMatch(q, start, end) ==> SearchAt(q.(loc := written), start, end) == Fail(TypeError)
    ensures !FullyUsedMatch(q, start, end) ==> SearchAt(q.(loc := written), start, end) == SearchAt(q, start, end)
  {
    var m := EnvMatch(q.data, q.env, start, end);
    if m.Some? {
      LocateAsWritten(written, q.loc, m.value.0, m.value.1, q.redundant);
      if !FullyUsed(q.loc, m.value.0, m.value.1, q.redundant) {
        var lr := Locate(q.loc, m.value.0, m.value.1, q.redundant);
        if lr.Ok? {
          DescribeLocator(q, written, m.value.0, m.value.1, lr.value);
        }
      }
    }
  }

  /** The description does not depend on the header search it followed. */
  lemma DescribeLocator(q: Query, loc: Locator, offset: nat, size: nat, lr: (Option<Found>, Option<bool>))
    ensures Describe(q.(loc := loc), offset, size, lr) == Describe(q, offset, size, lr)
  {
    var ql := q.(loc := loc);
    assert ql.data == q.data && ql.arch == q.arch && ql.target == q.target && ql.parse == q.parse;
  }

  /** The classification of a result: built-in exactly when no CRC was found (then the
    * match itself is reported), redundant exactly when a flags byte was read, from the
    * byte in front of the data. */
  lemma SearchAtKind(q: Query, start: nat, end: int, o: int, n: int, x: EnvInfo)
    requires SearchAt(q, start, end) == Hit(o, n, x)
    ensures EnvMatch(q.data, q.env, start, end).Some?
    ensures x.kind == BuiltIn <==> x.crc.None?
    ensures x.kind == StoredRedundant <==> x.flags.Some?
    ensures x.kind == BuiltIn ==> (o, n) == EnvMatch(q.data, q.env, start, end).value
    ensures x.flags.Some? ==> At(q.data, o - 1) == Ok(x.flags.value)
    ensures x.flags.Some? ==> q.redundant != Some(false)
    ensures x.kind == Stored ==> q.redundant != Some(true)
  {
    var m := EnvMatch(q.data, q.env, start, end).value;
    var lr := Locate(q.loc, m.0, m.1, q.redundant).value;
    assert Describe(q, m.0, m.1, lr) == Hit(o, n, x);
  }

  // ---- EnvironmentHunter ----

  /** `env_size_max`'s default: the largest `CONFIG_ENV_SIZE` of U-Boot's defconfigs. */
  const EnvSizeMax: int := 0x100000

  /** An `EnvironmentHunter`: the shared hunter state, the architecture and the bounds of
    * its compiled `raw_regex`. */
  datatype EnvironmentHunter = EnvironmentHunter(h: Hunter, arch: Architecture, env: StringHunter.Bounds)

  /** The constructor: the `Hunter` checks first, then compiling `raw_regex` (which raises
    * for an upper bound below the lower one). */
  function MakeEnvironmentHunter(data: seq<byte>, address: int, startOffset: int, endOffset: int,
                                 gs: seq<GapSpec>, arch: Architecture, minEntries: nat,
                                 maxEntries: Option<nat>): (r: Result<EnvironmentHunter>)
    ensures Make(data, address, startOffset, endOffset, gs).Err? ==>
      r == Err(Make(data, address, startOffset, endOffset, gs).error)
    ensures Make(data, address, startOffset, endOffset, gs).Ok? ==>
      (r.Err? <==> RawRegex(minEntries, maxEntries).Err?)
    ensures r.Ok? ==> (Make(data, address, startOffset, endOffset, gs) == Ok(r.value.h) &&
      RawRegex(minEntries, maxEntries) == Ok(r.value.env) && r.value.arch == arch)
  {
    match Make(data, address, startOffset, endOffset, gs)
    case Err(e) => Err(e)
    case Ok(h) => (
      match RawRegex(minEntries, maxEntries)
      case Err(e) => Err(e)
      case Ok(b) => Ok(EnvironmentHunter(h, arch, b)))
  }

  /** The `_search_at` call for a target and keyword arguments, with `crc` for
    * `zlib.crc32`. */
  function QueryOf(eh: EnvironmentHunter, target: EnvTarget, redundant: Option<bool>, maxSize: int,
                   crc: Checksum): Query
  {
    Query(eh.h.data, eh.arch, eh.env, TargetBytes(target), redundant, Corrected(crc, eh.h.data, maxSize, eh.arch),
          d => UBootEnv.ParseRaw(d))
  }

  /** The probe `find` hands the search loop; it only ever asks about offsets in the
    * data. */
  function EnvProbe(q: Query): (int, int) -> Probe<EnvInfo>
  {
    (i, stop) => if i < 0 then Skip else SearchAt(q, i, stop)
  }

  lemma EnvProbeForward(q: Query)
    requires SaneLocator(q.loc)
    ensures Forward(EnvProbe(q))
  {
    forall i, stop | EnvProbe(q)(i, stop).Hit?
      ensures EnvProbe(q)(i, stop).off >= i && EnvProbe(q)(i, stop).size >= 1
    {
      SearchAtForward(q, i, stop);
    }
  }

  /** `EnvironmentHunter.find`. */
  function FindEnv(eh: EnvironmentHunter, target: EnvTarget, redundant: Option<bool>, maxSize: int,
                   crc: Checksum, start: int, end: int): (r: Result<Match<EnvInfo>>)
    ensures SearchRange(eh.h, TargetLen(target), start, end).Err? ==> r == Err(IndexError)
    ensures r.Ok? ==> r.value.srcAddr == eh.h.address + r.value.srcOff && !IsInGap(r.value.srcOff, r.value.srcSize, eh.h.gaps)
  {
    Find(eh.h, EnvProbe(QueryOf(eh, target, redundant, maxSize, crc)), TargetLen(target), start, end)
  }

  /** `EnvironmentHunter.finditer`, for the first `limit` results. */
  function FindIterEnv(eh: EnvironmentHunter, target: EnvTarget, redundant: Option<bool>, maxSize: int,
                       crc: Checksum, start: int, end: int, limit: nat): (r: Stream<Match<EnvInfo>>)
    ensures |r.items| <= limit
    ensures SearchRange(eh.h, TargetLen(target), start, end).Ok? && r.raised.Some? ==>
      r.raised.value != IndexError && r.raised.value != HunterResultNotFound
  {
    FindIter(eh.h, EnvProbe(QueryOf(eh, target, redundant, maxSize, crc)), TargetLen(target), start, end, limit)
  }

  /** `finditer` yields environments that ascend, never overlap and touch no gap. */
  lemma FindIterEnvOrdered(eh: EnvironmentHunter, target: EnvTarget, redundant: Option<bool>, maxSize: int,
                           crc: Checksum, start: int, end: int, limit: nat)
    ensures Ordered(FindIterEnv(eh, target, redundant, maxSize, crc, start, end, limit).items, 0, eh.h.gaps)
  {
    var q := QueryOf(eh, target, redundant, maxSize, crc);
    CorrectedSane(crc, eh.h.data, maxSize, eh.arch);
    EnvProbeForward(q);
    FindIterOrdered(eh.h, EnvProbe(q), TargetLen(target), start, end, limit);
  }

  /** What a probe answer carries: the raw bytes of its span, parsed, and for a stored
    * environment the checksum of those bytes, which the header holds. */
  ghost predicate HitsChecked(probe: (int, int) -> Probe<EnvInfo>, q: Query, crc: Checksum)
  {
    forall i, stop :: probe(i, stop).Hit? ==>
      probe(i, stop).extra.raw == Slice(q.data, probe(i, stop).off, probe(i, stop).off + probe(i, stop).size) &&
      q.parse(probe(i, stop).extra.raw) == Ok(probe(i, stop).extra.vars) &&
      (probe(i, stop).extra.crc.Some? ==>
        probe(i, stop).extra.crc.value == crc(probe(i, stop).extra.raw) &&
        probe(i, stop).extra.crc.value == ExpectedCrc(q.data, probe(i, stop).off, probe(i, stop).extra.flags.Some?, q.arch))
  }

  lemma EnvProbeChecked(q: Query, crc: Checksum)
    requires CrcChecked(q.loc, crc, q.data, q.arch)
    ensures HitsChecked(EnvProbe(q), q, crc)
  {
    forall i, stop | EnvProbe(q)(i, stop).Hit?
      ensures EnvProbe(q)(i, stop).extra.raw ==
        Slice(q.data, EnvProbe(q)(i, stop).off, EnvProbe(q)(i, stop).off + EnvProbe(q)(i, stop).size)
      ensures q.parse(EnvProbe(q)(i, stop).extra.raw) == Ok(EnvProbe(q)(i, stop).extra.vars)
      ensures EnvProbe(q)(i, stop).extra.crc.Some? ==>
        EnvProbe(q)(i, stop).extra.crc.value == crc(EnvProbe(q)(i, stop).extra.raw) &&
        EnvProbe(q)(i, stop).extra.crc.value ==
          ExpectedCrc(q.data, EnvProbe(q)(i, stop).off, EnvProbe(q)(i, stop).extra.flags.Some?, q.arch)
    {
      var p := SearchAt(q, i, stop);
      SearchAtRaw(q, i, stop, p.off, p.size, p.extra);
      if p.extra.crc.Some? {
        StoredCrc(crc, q, i, stop, p.off, p.size, p.extra);
      }
    }
  }

  /** A found environment (the unit tests' check): its raw bytes are the data at its
    * offset, their parse gives its variables, and a stored one's checksum is the CRC-32
    * of those bytes and the header's value in front of them. */
  lemma FindEnvChecked(eh: EnvironmentHunter, target: EnvTarget, redundant: Option<bool>, maxSize: int,
                       crc: Checksum, start: int, end: int, m: Match<EnvInfo>)
    requires FindEnv(eh, target, redundant, maxSize, crc, start, end) == Ok(m)
    ensures m.extra.raw == Slice(eh.h.data, m.srcOff, m.srcOff + m.srcSize)
    ensures UBootEnv.ParseRaw(m.extra.raw) == Ok(m.extra.vars)
    ensures m.extra.crc.Some? ==> m.extra.crc.value == crc(m.extra.raw)
    ensures m.extra.crc.Some? ==> m.extra.crc.value == ExpectedCrc(eh.h.data, m.srcOff, m.extra.flags.Some?, eh.arch)
  {
    var q := QueryOf(eh, target, redundant, maxSize, crc);
    CorrectedChecked(crc, eh.h.data, maxSize, eh.arch);
    EnvProbeChecked(q, crc);
    FoundChecked(eh.h, EnvProbe(q), q, crc, TargetLen(target), start, end, m);
    assert q.parse(m.extra.raw) == UBootEnv.ParseRaw(m.extra.raw);
  }

  /** What `Find` returns through a probe whose answers are checked is checked. */
  lemma FoundChecked(h: Hunter, probe: (int, int) -> Probe<EnvInfo>, q: Query, crc: Checksum, tlen: Option<nat>,
                     start: int, end: int, m: Match<EnvInfo>)
    requires HitsChecked(probe, q, crc) && Find(h, probe, tlen, start, end) == Ok(m)
    ensures m.extra.raw == Slice(q.data, m.srcOff, m.srcOff + m.srcSize)
    ensures q.parse(m.extra.raw) == Ok(m.extra.vars)
    ensures m.extra.crc.Some? ==> m.extra.crc.value == crc(m.extra.raw)
    ensures m.extra.crc.Some? ==> m.extra.crc.value == ExpectedCrc(q.data, m.srcOff, m.extra.flags.Some?, q.arch)
  {
    FindFromProbe(h, probe, tlen, start, end, m);
    var i, stop :| probe(i, stop) == Hit(m.srcOff, m.srcSize, m.extra);
  }

  /** A `find` result from an offset lies at or after it, is not empty and touches no gap. */
  lemma FindEnvForward(eh: EnvironmentHunter, target: EnvTarget, redundant: Option<bool>, maxSize: int,
                       crc: Checksum, start: int, end: int, m: Match<EnvInfo>)
    requires start >= 0
    requires FindEnv(eh, target, redundant, maxSize, crc, start, end) == Ok(m)
    ensures m.srcOff >= start && m.srcSize >= 1 && m.srcAddr == eh.h.address + m.srcOff
    ensures !IsInGap(m.srcOff, m.srcSize, eh.h.gaps)
  {
    var q := QueryOf(eh, target, redundant, maxSize, crc);
    CorrectedSane(crc, eh.h.data, maxSize, eh.arch);
    EnvProbeForward(q);
    FindForward(eh.h, EnvProbe(q), TargetLen(target), start, end);
  }
}
