/** `StringHunter`: searches the data for NUL-terminated ASCII strings. The regular
  * expressions it compiles are modelled by what they accept: a run of printable bytes of
  * bounded length followed by a NUL, or a literal byte string followed by a NUL. */
module StringHunter {
  import opened Errors
  import opened PyBytes
  import opened Hunter

  /** The default character class: tab, line feed, carriage return and 0x20-0x7e. */
  predicate Printable(b: byte)
  {
    b == 0x09 || b == 0x0a || b == 0x0d || (0x20 <= b <= 0x7e)
  }

  /** A repetition count `{lo,}` (no upper bound) or `{lo,hi}`. */
  datatype Bounds = Bounds(lo: nat, hi: Option<nat>)

  /** A compiled pattern: the default class repeated within bounds then a NUL, or a
    * literal byte string (which already carries its terminating NUL). */
  datatype Pattern = Class(b: Bounds) | Literal(w: seq<byte>)

  /** The search target: none (or empty), a byte pattern, or an object of another type. */
  datatype Target = NoTarget | Bytes(pat: seq<byte>) | WrongType

  predicate WithinBounds(n: int, b: Bounds)
  {
    b.lo <= n && (b.hi.None? || n <= b.hi.value)
  }

  /** The strings a pattern matches. */
  predicate InLang(w: seq<byte>, p: Pattern)
  {
    match p
    case Class(b) =>
      |w| >= 1 && w[|w| - 1] == 0 && WithinBounds(|w| - 1, b) &&
      forall k :: 0 <= k < |w| - 1 ==> Printable(w[k])
    case Literal(l) => w == l
  }

  /** The length of the run of printable bytes `s` starts with. */
  function RunLen(s: seq<byte>): (r: nat)
    ensures r <= |s|
  {
    if |s| == 0 || !Printable(s[0]) then 0 else 1 + RunLen(s[1..])
  }

  /** The run is printable and maximal. */
  lemma {:induction false} RunLenMaximal(s: seq<byte>)
    ensures forall k :: 0 <= k < RunLen(s) ==> Printable(s[k])
    ensures RunLen(s) == |s| || !Printable(s[RunLen(s)])
  {
    if |s| > 0 && Printable(s[0]) {
      RunLenMaximal(s[1..]);
      assert forall k :: 1 <= k < RunLen(s) ==> s[k] == s[1..][k - 1];
    }
  }

  /** `re.match`: the length of the match at the start of `s`, if there is one. The class
    * excludes NUL, so the NUL can only follow the whole printable run. */
  function MatchAt(s: seq<byte>, p: Pattern): (r: Option<nat>)
    ensures r.Some? ==> r.value <= |s|
    ensures r.Some? && (p.Class? || |p.w| >= 1) ==> r.value >= 1
  {
    match p
    case Class(b) =>
      var n := RunLen(s);
      if WithinBounds(n, b) && n < |s| && s[n] == 0 then Some(n + 1) else None
    case Literal(l) =>
      if |l| <= |s| && s[..|l|] == l then Some(|l|) else None
  }

  /** The match at the start is the one prefix of `s` that the pattern accepts. */
  lemma MatchAtMeaning(s: seq<byte>, p: Pattern, n: nat)
    requires n <= |s|
    ensures MatchAt(s, p) == Some(n) <==> InLang(s[..n], p)
  {
    RunLenMaximal(s);
    if p.Class? && InLang(s[..n], p) {
      var r := RunLen(s);
      assert forall k :: 0 <= k < n - 1 ==> s[k] == s[..n][k];
      assert s[n - 1] == s[..n][n - 1];
    }
    if p.Class? && MatchAt(s, p) == Some(n) {
      assert forall k :: 0 <= k < n - 1 ==> s[..n][k] == s[k];
    }
  }

  /** `re.match` with the pattern fixed. */
  function Matcher(pat: Pattern): seq<byte> -> Option<nat>
  {
    x => MatchAt(x, pat)
  }

  /** `re.search` from position `p`: the first position at which the matcher `m` succeeds. */
  function SearchFrom(s: seq<byte>, p: nat, m: seq<byte> -> Option<nat>): (r: Option<(nat, nat)>)
    ensures r.Some? ==> p <= r.value.0 <= |s| && m(s[r.value.0..]) == Some(r.value.1)
    decreases |s| - p
  {
    if p > |s| then None
    else match m(s[p..])
      case Some(n) => Some((p, n))
      case None => SearchFrom(s, p + 1, m)
  }

  /** The search reports the leftmost match at or after `p`, or none. */
  lemma {:induction false} SearchFromLeftmost(s: seq<byte>, p: nat, m: seq<byte> -> Option<nat>)
    ensures SearchFrom(s, p, m).Some? ==>
      forall q :: p <= q < SearchFrom(s, p, m).value.0 ==> m(s[q..]).None?
    ensures SearchFrom(s, p, m).None? ==> forall q :: p <= q <= |s| ==> m(s[q..]).None?
    decreases |s| - p
  {
    if p <= |s| && m(s[p..]).None? {
      SearchFromLeftmost(s, p + 1, m);
    }
  }

  /** `_str_regex` for a NUL-terminated search: the default class with the length bounds
    * shifted down by one for the NUL and a lower bound of at least 1, or the target with a
    * NUL appended unless it already ends in one. */
  function StrRegex(pat: seq<byte>, minLen: int, maxLen: int): (r: Pattern)
    ensures r.Literal? ==> |r.w| >= 1 && r.w[|r.w| - 1] == 0
    ensures r.Literal? ==> r.w == pat || r.w == pat + [0]
    ensures r.Class? <==> |pat| == 0
  {
    if |pat| == 0 then
      var lo := if minLen - 1 < 1 then 1 else minLen - 1;
      var hi := maxLen - 1;
      Class(Bounds(lo, if hi > 0 && hi >= lo then Some(hi) else None))
    else if pat[|pat| - 1] == 0 then Literal(pat)
    else Literal(pat + [0])
  }

  /** `_str_regex` as written: `pat[-1] != b'\x00'` compares an int with a bytes object,
    * which is always true, so a NUL is appended even to a pattern that ends in one. */
  function StrRegexAsWritten(pat: seq<byte>, minLen: int, maxLen: int): Pattern
  {
    if |pat| == 0 then StrRegex(pat, minLen, maxLen) else Literal(pat + [0])
  }

  /** Every compiled pattern matches only strings that end in a single NUL, and the
    * default class matches at least one printable byte. */
  lemma StrRegexTerminated(pat: seq<byte>, minLen: int, maxLen: int, w: seq<byte>)
    requires InLang(w, StrRegex(pat, minLen, maxLen))
    ensures |w| >= 1 && w[|w| - 1] == 0
    ensures |pat| == 0 ==> |w| >= 2 && forall k :: 0 <= k < |w| - 1 ==> Printable(w[k])
    ensures |pat| == 0 ==> |w| >= minLen
    ensures |pat| == 0 && maxLen - 1 > 0 && maxLen - 1 >= minLen - 1 ==> |w| <= maxLen
    ensures |pat| > 0 ==> w == pat || w == pat + [0]
  {
  }

  /** A target that already ends in NUL, searched in data that holds exactly it: the
    * pattern as written asks for a second NUL and does not match. */
  lemma StrRegexDoubleNul()
    ensures StrRegexAsWritten([0x41, 0], -1, -1) == Literal([0x41, 0, 0])
    ensures MatchAt([0x41, 0], StrRegexAsWritten([0x41, 0], -1, -1)).None?
    ensures MatchAt([0x41, 0], StrRegex([0x41, 0], -1, -1)) == Some(2)
  {
  }

  /** `regexp.match` on the sliced data, as a probe answer at `start`. */
  function Anchored(s: seq<byte>, pat: Pattern, start: int): (r: Probe<()>)
    ensures r.Hit? ==> r.off == start && r.size <= |s|
    ensures r.Hit? && (pat.Class? || |pat.w| >= 1) ==> r.size >= 1
    ensures !r.Fail?
  {
    match MatchAt(s, pat)
    case None => Skip
    case Some(n) => Hit(start, n, ())
  }

  /** `regexp.search` on the sliced data, as a probe answer relative to `start`. */
  function Searched(s: seq<byte>, pat: Pattern, start: int): (r: Probe<()>)
    ensures r.Hit? ==> start <= r.off <= start + |s|
    ensures r.Hit? && (pat.Class? || |pat.w| >= 1) ==> r.size >= 1
    ensures r.Fail? ==> r.e == HunterResultNotFound
  {
    match SearchFrom(s, 0, Matcher(pat))
    case None => Fail(HunterResultNotFound)
    case Some(m) => Hit(m.0 + start, m.1, ())
  }

  /** `_search_at`: the `match` keyword anchors the match at `start` (None when it fails);
    * otherwise the whole rest of the range is searched and a failure raises
    * HunterResultNotFound. Results are `(offset, length)` with the NUL included. */
  function SearchAt(data: seq<byte>, target: Target, start: int, end: int,
                    minLen: int, maxLen: int, matchOnly: bool): (r: Probe<()>)
    ensures r.Fail? ==> r.e == (if target.WrongType? then TypeError else HunterResultNotFound)
    ensures r.Hit? ==> r.size >= 1 && r.off >= start
    ensures r.Hit? && matchOnly ==> r.off == start
  {
    if target.WrongType? then Fail(TypeError)
    else
      var pat := StrRegex(if target.NoTarget? then [] else target.pat, minLen, maxLen);
      if matchOnly then Anchored(Slice(data, start, end), pat, start)
      else Searched(Slice(data, start, end), pat, start)
  }

  /** With the data, target and keyword arguments fixed, the probe `find` hands the
    * search loop. */
  function Probe(data: seq<byte>, target: Target, minLen: int, maxLen: int, matchOnly: bool): (int, int) -> Probe<()>
  {
    (i, stop) => SearchAt(data, target, i, stop, minLen, maxLen, matchOnly)
  }

  lemma ProbeForward(data: seq<byte>, target: Target, minLen: int, maxLen: int, matchOnly: bool)
    ensures Forward(Probe(data, target, minLen, maxLen, matchOnly))
  {
  }

  /** `finditer` yields strings that ascend, never overlap and never touch a gap. */
  lemma FindIterOrderedString(h: Hunter, target: Target, minLen: int, maxLen: int, matchOnly: bool,
                              start: int, end: int, limit: nat)
    ensures Ordered(FindIter(h, Probe(h.data, target, minLen, maxLen, matchOnly), None, start, end, limit).items, 0, h.gaps)
  {
    ProbeForward(h.data, target, minLen, maxLen, matchOnly);
    FindIterOrdered(h, Probe(h.data, target, minLen, maxLen, matchOnly), None, start, end, limit);
  }

  /** The string `s` (without its NUL) is stored at `offset`, its NUL at or before
    * `last`, and it satisfies the default pattern for the length bounds. */
  predicate StringStored(data: seq<byte>, offset: int, last: int, s: seq<byte>, minLen: int, maxLen: int)
  {
    0 <= offset && offset + |s| <= last < |data| &&
    data[offset..offset + |s| + 1] == s + [0] &&
    InLang(s + [0], StrRegex([], minLen, maxLen))
  }

  /** The bytes less a trailing NUL, if there is one. */
  function StripNul(s: seq<byte>): seq<byte>
  {
    if |s| > 0 && s[|s| - 1] == 0 then s[..|s| - 1] else s
  }

  /** `string_at` past its range checks: the anchored match at `offset` of the default
    * pattern in the data up to `last`, less its NUL; HunterResultNotFound when none. */
  function StringMatch(data: seq<byte>, offset: int, last: int, minLen: int, maxLen: int): Result<seq<byte>>
  {
    match Anchored(Slice(data, offset, last + 1), StrRegex([], minLen, maxLen), offset)
    case Hit(_, n, _) => Ok(StripNul(Slice(data, offset, offset + n)))
    case Skip => Err(HunterResultNotFound)
    case Fail(e) => Err(e)
  }

  /** `string_at`: IndexError when the address is outside [start, end_offset] of the
    * hunter, the empty string for a NUL there when `allow_empty` is set, otherwise the
    * string stored there without its NUL, or HunterResultNotFound. */
  function StringAt(h: Hunter, address: int, minLen: int, maxLen: int, allowEmpty: bool): Result<seq<byte>>
    requires Valid(h)
  {
    var offset := address - h.address;
    if offset < 0 || offset > h.endOffset then Err(IndexError)
    else if allowEmpty && h.data[offset] == 0 then Ok([])
    else StringMatch(h.data, offset, h.endOffset, minLen, maxLen)
  }

  /** `string_at`'s call of `_search_at` (no target, `match=True`) is the anchored match
    * of the default pattern. */
  lemma SearchAtAnchored(data: seq<byte>, start: int, end: int, minLen: int, maxLen: int)
    ensures SearchAt(data, NoTarget, start, end, minLen, maxLen, true) ==
      Anchored(Slice(data, start, end), StrRegex([], minLen, maxLen), start)
  {
  }

  lemma StripNulPrefix(w: seq<byte>, n: nat)
    requires 1 <= n <= |w| && w[n - 1] == 0
    ensures StripNul(w[..n]) == w[..n - 1]
  {
    assert w[..n][..n - 1] == w[..n - 1];
  }

  lemma StringMatchHit(data: seq<byte>, offset: int, last: int, minLen: int, maxLen: int, n: nat, x: seq<byte>)
    requires 0 <= offset <= last < |data|
    requires MatchAt(data[offset..last + 1], StrRegex([], minLen, maxLen)) == Some(n)
    requires x == data[offset..last + 1][..n - 1]
    ensures StringMatch(data, offset, last, minLen, maxLen) == Ok(x)
  {
    var w := data[offset..last + 1];
    var pat := StrRegex([], minLen, maxLen);
    assert Slice(data, offset, last + 1) == w;
    assert pat.Class? && w[RunLen(w)] == 0 && n == RunLen(w) + 1;
    assert Anchored(w, pat, offset) == Hit(offset, n, ());
    assert Slice(data, offset, offset + n) == w[..n];
    StripNulPrefix(w, n);
  }

  lemma StringMatchMiss(data: seq<byte>, offset: int, last: int, minLen: int, maxLen: int)
    requires 0 <= offset <= last < |data|
    requires MatchAt(data[offset..last + 1], StrRegex([], minLen, maxLen)).None?
    ensures StringMatch(data, offset, last, minLen, maxLen) == Err(HunterResultNotFound)
  {
    assert Slice(data, offset, last + 1) == data[offset..last + 1];
  }

  /** A stored string is exactly a match of the default pattern, less its NUL. */
  lemma StoredMeaning(data: seq<byte>, offset: int, last: int, s: seq<byte>, minLen: int, maxLen: int)
    requires 0 <= offset <= last < |data|
    ensures StringStored(data, offset, last, s, minLen, maxLen) <==>
      (MatchAt(data[offset..last + 1], StrRegex([], minLen, maxLen)) == Some(|s| + 1) &&
       data[offset..last + 1][..|s|] == s)
  {
    var w := data[offset..last + 1];
    if |s| + 1 <= |w| {
      MatchAtMeaning(w, StrRegex([], minLen, maxLen), |s| + 1);
      assert w[..|s| + 1] == data[offset..offset + |s| + 1];
      assert w[..|s| + 1] == w[..|s|] + [w[|s|]];
      if MatchAt(w, StrRegex([], minLen, maxLen)) == Some(|s| + 1) {
        assert w[|s|] == 0;
      }
    }
  }

  /** The anchored match returns exactly the string stored at `offset`. */
  lemma StringMatchFound(data: seq<byte>, offset: int, last: int, minLen: int, maxLen: int, s: seq<byte>)
    requires 0 <= offset <= last < |data|
    ensures StringMatch(data, offset, last, minLen, maxLen) == Ok(s) <==>
      StringStored(data, offset, last, s, minLen, maxLen)
  {
    var w := data[offset..last + 1];
    StoredMeaning(data, offset, last, s, minLen, maxLen);
    match MatchAt(w, StrRegex([], minLen, maxLen))
    case None =>
      StringMatchMiss(data, offset, last, minLen, maxLen);
    case Some(n) =>
      StringMatchHit(data, offset, last, minLen, maxLen, n, w[..n - 1]);
  }

  /** It raises HunterResultNotFound exactly when no string is stored at `offset`, and
    * raises nothing else. */
  lemma StringMatchNotFound(data: seq<byte>, offset: int, last: int, minLen: int, maxLen: int)
    requires 0 <= offset <= last < |data|
    ensures StringMatch(data, offset, last, minLen, maxLen).Err? ==>
      StringMatch(data, offset, last, minLen, maxLen).error == HunterResultNotFound
    ensures StringMatch(data, offset, last, minLen, maxLen).Err? <==>
      !exists s :: StringStored(data, offset, last, s, minLen, maxLen)
  {
    var w := data[offset..last + 1];
    match MatchAt(w, StrRegex([], minLen, maxLen))
    case None =>
      StringMatchMiss(data, offset, last, minLen, maxLen);
      forall s | StringStored(data, offset, last, s, minLen, maxLen)
        ensures false
      {
        StoredMeaning(data, offset, last, s, minLen, maxLen);
      }
    case Some(n) =>
      StringMatchHit(data, offset, last, minLen, maxLen, n, w[..n - 1]);
      StoredMeaning(data, offset, last, w[..n - 1], minLen, maxLen);
  }

  /** `string_at` raises IndexError exactly for an address outside the hunter's offset
    * range, and returns '' for a NUL there when `allow_empty` is set. */
  lemma StringAtRange(h: Hunter, address: int, offset: int, minLen: int, maxLen: int, allowEmpty: bool)
    requires Valid(h) && offset == address - h.address
    ensures StringAt(h, address, minLen, maxLen, allowEmpty) == Err(IndexError) <==>
      (offset < 0 || offset > h.endOffset)
    ensures 0 <= offset <= h.endOffset && allowEmpty && h.data[offset] == 0 ==>
      StringAt(h, address, minLen, maxLen, allowEmpty) == Ok([])
  {
    if 0 <= offset <= h.endOffset && !(allowEmpty && h.data[offset] == 0) {
      StringMatchNotFound(h.data, offset, h.endOffset, minLen, maxLen);
    }
  }

  /** Otherwise `string_at` returns exactly the string stored at the address. */
  lemma StringAtFound(h: Hunter, address: int, offset: int, minLen: int, maxLen: int, allowEmpty: bool, s: seq<byte>)
    requires Valid(h) && offset == address - h.address
    requires 0 <= offset <= h.endOffset && !(allowEmpty && h.data[offset] == 0)
    ensures StringAt(h, address, minLen, maxLen, allowEmpty) == Ok(s) <==>
      StringStored(h.data, offset, h.endOffset, s, minLen, maxLen)
  {
    StringMatchFound(h.data, offset, h.endOffset, minLen, maxLen, s);
  }

  /** ... and raises HunterResultNotFound exactly when no string is stored there. */
  lemma StringAtNotFound(h: Hunter, address: int, offset: int, minLen: int, maxLen: int, allowEmpty: bool)
    requires Valid(h) && offset == address - h.address
    requires 0 <= offset <= h.endOffset && !(allowEmpty && h.data[offset] == 0)
    ensures StringAt(h, address, minLen, maxLen, allowEmpty) == Err(HunterResultNotFound) <==>
      !exists s :: StringStored(h.data, offset, h.endOffset, s, minLen, maxLen)
  {
    StringMatchNotFound(h.data, offset, h.endOffset, minLen, maxLen);
  }

  /** Without gaps, `find` for a string reports the leftmost match at or after the start
    * of its range, or HunterResultNotFound. */
  lemma FindLeftmost(h: Hunter, target: Target, minLen: int, maxLen: int, start: int, end: int,
                     r: Range, pat: Pattern)
    requires h.gaps == [] && !target.WrongType?
    requires SearchRange(h, None, start, end) == Ok(r)
    requires pat == StrRegex(if target.NoTarget? then [] else target.pat, minLen, maxLen)
    ensures Find(h, Probe(h.data, target, minLen, maxLen, false), None, start, end).Ok? <==>
      SearchFrom(h.data[r.start..r.stop], 0, Matcher(pat)).Some?
    ensures Find(h, Probe(h.data, target, minLen, maxLen, false), None, start, end).Err? ==>
      Find(h, Probe(h.data, target, minLen, maxLen, false), None, start, end).error == HunterResultNotFound
    ensures Find(h, Probe(h.data, target, minLen, maxLen, false), None, start, end).Ok? ==>
      Find(h, Probe(h.data, target, minLen, maxLen, false), None, start, end).value.srcOff ==
        r.start + SearchFrom(h.data[r.start..r.stop], 0, Matcher(pat)).value.0 &&
      Find(h, Probe(h.data, target, minLen, maxLen, false), None, start, end).value.srcSize ==
        SearchFrom(h.data[r.start..r.stop], 0, Matcher(pat)).value.1
  {
    assert FreeOffsets(r.start, r.stop, []) == [r.start] + FreeOffsets(r.start + 1, r.stop, []);
    assert Slice(h.data, r.start, r.stop) == h.data[r.start..r.stop];
    assert Probe(h.data, target, minLen, maxLen, false)(r.start, r.stop) ==
      Searched(h.data[r.start..r.stop], pat, r.start);
  }
}
