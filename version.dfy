/** `UBootVersion` (depthcharge/uboot/version.py): a U-Boot version
  * `v?VERSION.PATCHLEVEL[.SUBLEVEL][-rcN]`, as the U-Boot Makefile defines it, read
  * into four numbers and ordered lexicographically by them. A missing sublevel is 0,
  * and a release (no `-rcN`) carries the "extra" number one million, which puts it
  * after the release candidates. */
module UBootVersion {
  import opened Errors
  import PyInt

  /** The "extra" number of a release (`1e6` in the source, which compares equal to
    * this integer). */
  const Release: nat := 1000000

  datatype Version = Version(version: nat, patch: nat, sub: nat, extra: nat)

  /** The `[0-9]` of the pattern. */
  predicate IsDigit(c: char)
  {
    '0' <= c <= '9'
  }

  /** The length of the run of digits at `i`: the greedy `[0-9]+`, or 0 when there is
    * no digit at `i`. */
  function DigitRun(s: string, i: nat): (n: nat)
    requires i <= |s|
    ensures i + n <= |s|
    ensures forall k :: i <= k < i + n ==> IsDigit(s[k])
    ensures i + n < |s| ==> !IsDigit(s[i + n])
    decreases |s| - i
  {
    if i < |s| && IsDigit(s[i]) then 1 + DigitRun(s, i + 1) else 0
  }

  /** A non-empty run of digits. */
  predicate Numeral(d: string)
  {
    |d| >= 1 && forall k :: 0 <= k < |d| ==> IsDigit(d[k])
  }

  /** The pattern's groups, as `re.match` hands them over. */
  datatype Groups = Groups(version: string, patch: string, sub: Option<string>, extra: Option<string>)

  predicate WellFormed(g: Groups)
  {
    Numeral(g.version) && Numeral(g.patch) &&
    (g.sub.Some? ==> Numeral(g.sub.value)) && (g.extra.Some? ==> Numeral(g.extra.value))
  }

  /** The digits at `i`, when there are any, and the position after them. */
  function GroupAt(s: string, i: nat): (r: Option<(string, nat)>)
    requires i <= |s|
    ensures r.Some? ==> Numeral(r.value.0) && r.value.1 == i + |r.value.0| <= |s|
  {
    var n := DigitRun(s, i);
    if n == 0 then None
    else
      var d := s[i..i + n];
      assert forall k :: 0 <= k < |d| ==> d[k] == s[i + k];
      Some((d, i + n))
  }

  /** The optional `(\.[0-9]+)?` at `m`: the sublevel's digits, and where the match
    * goes on. */
  function SubAt(s: string, m: nat): (r: (Option<string>, nat))
    requires m <= |s|
    ensures r.1 <= |s|
    ensures r.0.Some? ==> Numeral(r.0.value)
  {
    if m < |s| && s[m] == '.' && GroupAt(s, m + 1).Some? then
      (Some(GroupAt(s, m + 1).value.0), GroupAt(s, m + 1).value.1)
    else (None, m)
  }

  /** The optional `(-rc[0-9]+)?` at `m`. */
  function ExtraAt(s: string, m: nat): (r: Option<string>)
    requires m <= |s|
    ensures r.Some? ==> Numeral(r.value)
  {
    if m + 3 <= |s| && s[m..m + 3] == "-rc" && GroupAt(s, m + 3).Some? then
      Some(GroupAt(s, m + 3).value.0)
    else None
  }

  /** `_VERSION_RE.match(s[i:])`: an optional `v`, two runs of digits separated by `.`,
    * then, each only if present in full, `.` and a run of digits and `-rc` and a run of
    * digits. Anything may follow. */
  function MatchAt(s: string, i: nat): (r: Option<Groups>)
    requires i <= |s|
    ensures r.Some? ==> WellFormed(r.value)
  {
    var j := if i < |s| && s[i] == 'v' then i + 1 else i;
    match GroupAt(s, j)
    case None => None
    case Some((v, k)) =>
      if k >= |s| || s[k] != '.' then None
      else
        match GroupAt(s, k + 1)
        case None => None
        case Some((p, m)) =>
          var (sub, m2) := SubAt(s, m);
          Some(Groups(v, p, sub, ExtraAt(s, m2)))
  }

  /** `int()` of a run of digits. */
  function Number(d: string): nat
    requires Numeral(d)
  {
    assert PyInt.AllDigits(d, 10) by {
      forall k | 0 <= k < |d|
        ensures PyInt.IsDigit(d[k], 10)
      {
        assert IsDigit(d[k]);
      }
    }
    PyInt.Value(d, 10)
  }

  /** The constructor's conversion of the groups: a missing sublevel is 0 and a missing
    * release candidate number is the release's. */
  function FromGroups(g: Groups): (v: Version)
    requires WellFormed(g)
    ensures g.sub.None? ==> v.sub == 0
    ensures g.extra.None? ==> v.extra == Release
  {
    Version(Number(g.version), Number(g.patch),
            if g.sub.Some? then Number(g.sub.value) else 0,
            if g.extra.Some? then Number(g.extra.value) else Release)
  }

  /** `UBootVersion(s)` for a string: ValueError when the pattern does not match at the
    * start. */
  function Parse(s: string): (r: Result<Version>)
    ensures r.Ok? <==> MatchAt(s, 0).Some?
    ensures r.Ok? ==> r.value == FromGroups(MatchAt(s, 0).value)
    ensures r.Err? ==> r.error == ValueError
  {
    match MatchAt(s, 0)
    case Some(g) => Ok(FromGroups(g))
    case None => Err(ValueError)
  }

  /** The first position from `i` to `n` where `f` holds: the leftmost-match rule of
    * `re.search`. */
  function FirstAt(f: nat -> bool, i: nat, n: nat): (r: Option<nat>)
    ensures r.None? <==> forall p :: i <= p <= n ==> !f(p)
    ensures r.Some? ==> i <= r.value <= n && f(r.value) && forall q :: i <= q < r.value ==> !f(q)
    decreases if i <= n then n - i + 1 else 0
  {
    if i > n then None
    else if f(i) then Some(i)
    else FirstAt(f, i + 1, n)
  }

  /** `UBootVersion.find(s)`: the version matched at the leftmost position where the
    * pattern matches, or None. */
  function Find(s: string): (r: Option<Version>)
    ensures r.None? <==> forall p :: 0 <= p <= |s| ==> MatchAt(s, p).None?
    ensures r.Some? ==>
      exists p :: 0 <= p <= |s| && MatchAt(s, p).Some? && r.value == FromGroups(MatchAt(s, p).value) &&
        forall q :: 0 <= q < p ==> MatchAt(s, q).None?
  {
    var f := (p: nat) => p <= |s| && MatchAt(s, p).Some?;
    assert forall p: nat :: f(p) == (p <= |s| && MatchAt(s, p).Some?);
    match FirstAt(f, 0, |s|)
    case None => None
    case Some(p) => Some(FromGroups(MatchAt(s, p).value))
  }

  /** `__lt__`. */
  predicate Less(a: Version, b: Version)
  {
    if a.version < b.version then true
    else if a.version > b.version then false
    else if a.patch > b.patch then false
    else if a.patch < b.patch then true
    else if a.sub > b.sub then false
    else if a.sub < b.sub then true
    else a.extra < b.extra
  }

  /** `__gt__`. */
  predicate Greater(a: Version, b: Version)
  {
    if a.version > b.version then true
    else if a.version < b.version then false
    else if a.patch < b.patch then false
    else if a.patch > b.patch then true
    else if a.sub < b.sub then false
    else if a.sub > b.sub then true
    else a.extra > b.extra
  }

  /** `__le__` and `__ge__` (`__eq__` compares the four numbers, which is equality of
    * the values here). */
  predicate LessEq(a: Version, b: Version)
  {
    Less(a, b) || a == b
  }

  predicate GreaterEq(a: Version, b: Version)
  {
    Greater(a, b) || a == b
  }

  /** The four numbers in order of significance. */
  function Key(v: Version): seq<nat>
  {
    [v.version, v.patch, v.sub, v.extra]
  }

  /** Lexicographic order on sequences of numbers of the same length. */
  predicate LexLess(x: seq<nat>, y: seq<nat>)
    requires |x| == |y|
  {
    |x| > 0 && (x[0] < y[0] || (x[0] == y[0] && LexLess(x[1..], y[1..])))
  }

  /** `<` is the lexicographic order of the four numbers, and `>` is its converse. */
  lemma LessIsLexicographic(a: Version, b: Version)
    ensures Less(a, b) <==> LexLess(Key(a), Key(b))
    ensures Greater(a, b) <==> Less(b, a)
  {
    var x, y := Key(a), Key(b);
    var x1, y1 := [a.patch, a.sub, a.extra], [b.patch, b.sub, b.extra];
    var x2, y2 := [a.sub, a.extra], [b.sub, b.extra];
    var x3, y3 := [a.extra], [b.extra];
    assert x[1..] == x1 && y[1..] == y1 && x1[1..] == x2 && y1[1..] == y2;
    assert x2[1..] == x3 && y2[1..] == y3 && x3[1..] == [] && y3[1..] == [];
    assert !LexLess(x3[1..], y3[1..]);
    assert LexLess(x3, y3) <==> a.extra < b.extra;
    assert LexLess(x2, y2) <==> a.sub < b.sub || (a.sub == b.sub && a.extra < b.extra);
    assert LexLess(x1, y1) <==> a.patch < b.patch || (a.patch == b.patch && LexLess(x2, y2));
    assert LexLess(x, y) <==> a.version < b.version || (a.version == b.version && LexLess(x1, y1));
  }

  /** Exactly one of `<`, `==` and `>` holds. */
  lemma Trichotomy(a: Version, b: Version)
    ensures (if Less(a, b) then 1 else 0) + (if a == b then 1 else 0) + (if Greater(a, b) then 1 else 0) == 1
  {
  }

  /** `<` is transitive, and so is `<=`. */
  lemma LessTransitive(a: Version, b: Version, c: Version)
    ensures Less(a, b) && Less(b, c) ==> Less(a, c)
    ensures LessEq(a, b) && LessEq(b, c) ==> LessEq(a, c)
  {
  }

  /** `compare(other)` with a version: the `assert self == other` of the source holds
    * since neither `<` nor `>` does. */
  function Compare(a: Version, b: Version): (r: int)
    ensures r == -1 <==> Less(a, b)
    ensures r == 1 <==> Greater(a, b)
    ensures r == 0 <==> a == b
  {
    if Less(a, b) then -1
    else if Greater(a, b) then 1
    else
      assert a == b;
      0
  }

  /** Swapping the versions negates the comparison. */
  lemma CompareAntisymmetric(a: Version, b: Version)
    ensures Compare(a, b) == -Compare(b, a)
  {
    LessIsLexicographic(a, b);
    LessIsLexicographic(b, a);
  }

  /** What `compare` and `in_range` accept for the other versions: a version, a string,
    * or anything else. */
  datatype VersionArg = VObject(v: Version) | VString(s: string) | VOther

  /** A version, the version a string parses to, or TypeError. */
  function Coerce(arg: VersionArg): (r: Result<Version>)
    ensures arg.VObject? ==> r == Ok(arg.v)
    ensures arg.VString? ==> r == Parse(arg.s)
    ensures arg.VOther? ==> r == Err(TypeError)
  {
    match arg
    case VObject(v) => Ok(v)
    case VString(s) => Parse(s)
    case VOther => Err(TypeError)
  }

  /** `compare(other)`. */
  function CompareArg(a: Version, other: VersionArg): (r: Result<int>)
    ensures r.Ok? <==> Coerce(other).Ok?
    ensures r.Ok? ==> r.value in {-1, 0, 1} && r.value == Compare(a, Coerce(other).value)
    ensures r.Err? ==> r.error == Coerce(other).error
  {
    match Coerce(other)
    case Err(e) => Err(e)
    case Ok(b) => Ok(Compare(a, b))
  }

  /** `in_range(min_version, max_version)`: the minimum is converted (and may fail)
    * first, then the maximum; the range is inclusive at both ends. */
  function InRange(v: Version, lo: VersionArg, hi: VersionArg): (r: Result<bool>)
    ensures r.Ok? <==> Coerce(lo).Ok? && Coerce(hi).Ok?
    ensures Coerce(lo).Err? ==> r == Err(Coerce(lo).error)
    ensures Coerce(lo).Ok? && Coerce(hi).Err? ==> r == Err(Coerce(hi).error)
  {
    match Coerce(lo)
    case Err(e) => Err(e)
    case Ok(mn) =>
      match Coerce(hi)
      case Err(e) => Err(e)
      case Ok(mx) => Ok(LessEq(mn, v) && LessEq(v, mx))
  }

  /** A version is in range exactly when neither bound compares above or below it, and
    * both bounds are themselves in a non-empty range. */
  lemma InRangeMeaning(v: Version, lo: Version, hi: Version)
    ensures InRange(v, VObject(lo), VObject(hi)) == Ok(Compare(lo, v) <= 0 && Compare(v, hi) <= 0)
    ensures LessEq(lo, hi) ==> InRange(lo, VObject(lo), VObject(hi)) == Ok(true) &&
                               InRange(hi, VObject(lo), VObject(hi)) == Ok(true)
  {
  }

  /** `version_in_range(version, min_version, max_version)` with three strings. */
  function VersionInRange(version: string, lo: string, hi: string): (r: Result<bool>)
    ensures Parse(version).Err? ==> r == Err(ValueError)
    ensures Parse(version).Ok? ==> r == InRange(Parse(version).value, VString(lo), VString(hi))
  {
    match Parse(version)
    case Err(e) => Err(e)
    case Ok(v) => InRange(v, VString(lo), VString(hi))
  }

  /** A release comes after each of its release candidates below the millionth. */
  lemma ReleaseAfterCandidates(v: nat, p: nat, s: nat, rc: nat)
    requires rc < Release
    ensures Less(Version(v, p, s, rc), Version(v, p, s, Release))
  {
  }

  /** The text whose match has the groups `g`. */
  function Text(g: Groups): string
  {
    g.version + "." + g.patch + (if g.sub.Some? then "." + g.sub.value else "") +
    (if g.extra.Some? then "-rc" + g.extra.value else "")
  }

  /** The run of digits at `i` is `n` long when `n` digits are followed by the end or
    * by a character that is not a digit. */
  lemma {:induction false} RunAt(s: string, i: nat, n: nat)
    requires i + n <= |s| && forall k :: i <= k < i + n ==> IsDigit(s[k])
    requires i + n == |s| || !IsDigit(s[i + n])
    ensures DigitRun(s, i) == n
    decreases n
  {
    if n > 0 {
      RunAt(s, i + 1, n - 1);
    }
  }

  /** The group at `i` is the numeral `d` written there. */
  lemma GroupAtOf(s: string, i: nat, d: string)
    requires Numeral(d) && i + |d| <= |s| && s[i..i + |d|] == d
    requires i + |d| == |s| || !IsDigit(s[i + |d|])
    ensures GroupAt(s, i) == Some((d, i + |d|))
  {
    forall k | i <= k < i + |d|
      ensures IsDigit(s[k])
    {
      assert s[k] == d[k - i];
    }
    RunAt(s, i, |d|);
  }

  /** Where the groups sit in the text. */
  lemma TextLayout(g: Groups)
    requires WellFormed(g)
    ensures var s, a := Text(g), |g.version|;
      var b := a + 1 + |g.patch|;
      var c := b + (if g.sub.Some? then 1 + |g.sub.value| else 0);
      c + (if g.extra.Some? then 3 + |g.extra.value| else 0) == |s| &&
      s[..a] == g.version && s[a] == '.' && s[a + 1..b] == g.patch &&
      (g.sub.Some? ==> s[b] == '.' && s[b + 1..c] == g.sub.value) &&
      (g.extra.Some? ==> s[c..c + 3] == "-rc" && s[c + 3..] == g.extra.value)
  {
    var subText := if g.sub.Some? then "." + g.sub.value else "";
    var rcText := if g.extra.Some? then "-rc" + g.extra.value else "";
    var s := Text(g);
    var a := |g.version|;
    var b := a + 1 + |g.patch|;
    var c := b + |subText|;
    assert s == g.version + "." + g.patch + subText + rcText;
    assert s[..a] == g.version;
    assert s[a + 1..b] == g.patch;
    assert s[b..c] == subText;
    assert s[c..] == rcText;
    if g.sub.Some? {
      assert s[b + 1..c] == subText[1..];
    }
    if g.extra.Some? {
      assert s[c..c + 3] == rcText[..3];
      assert s[c + 3..] == rcText[3..];
    }
  }

  /** The optional sublevel group at `b`: present and ending at `c`, or absent with
    * `c == b`, followed by the end or by `-`. */
  lemma SubAtOf(s: string, b: nat, sub: Option<string>, c: nat)
    requires b <= c <= |s| && (c == |s| || s[c] == '-')
    requires sub.Some? ==> Numeral(sub.value) && b < |s| && s[b] == '.' &&
                           c == b + 1 + |sub.value| && s[b + 1..c] == sub.value
    requires sub.None? ==> c == b
    ensures SubAt(s, b) == (sub, c)
  {
    if sub.Some? {
      GroupAtOf(s, b + 1, sub.value);
    }
  }

  /** The optional release-candidate group at `c`, which ends the text. */
  lemma ExtraAtOf(s: string, c: nat, extra: Option<string>)
    requires c <= |s|
    requires extra.Some? ==> Numeral(extra.value) && c + 3 + |extra.value| == |s| &&
                             s[c..c + 3] == "-rc" && s[c + 3..] == extra.value
    requires extra.None? ==> c == |s|
    ensures ExtraAt(s, c) == extra
  {
    if extra.Some? {
      assert s[c + 3..c + 3 + |extra.value|] == extra.value;
      GroupAtOf(s, c + 3, extra.value);
    }
  }

  /** The pattern matches the text of well-formed groups with exactly those groups. */
  lemma MatchText(g: Groups)
    requires WellFormed(g)
    ensures MatchAt(Text(g), 0) == Some(g)
  {
    var s, a := Text(g), |g.version|;
    var b := a + 1 + |g.patch|;
    var c := b + (if g.sub.Some? then 1 + |g.sub.value| else 0);
    TextLayout(g);
    MatchAtOf(s, g, b, c);
  }

  lemma MatchAtOf(s: string, g: Groups, b: nat, c: nat)
    requires WellFormed(g)
    requires var a := |g.version|;
      b == a + 1 + |g.patch| && c == b + (if g.sub.Some? then 1 + |g.sub.value| else 0) &&
      c + (if g.extra.Some? then 3 + |g.extra.value| else 0) == |s| &&
      s[..a] == g.version && s[a] == '.' && s[a + 1..b] == g.patch &&
      (g.sub.Some? ==> s[b] == '.' && s[b + 1..c] == g.sub.value) &&
      (g.extra.Some? ==> s[c..c + 3] == "-rc" && s[c + 3..] == g.extra.value)
    ensures MatchAt(s, 0) == Some(g)
  {
    var a := |g.version|;
    assert s[0] == g.version[0];
    assert s[0..a] == g.version;
    GroupAtOf(s, 0, g.version);
    assert b < |s| ==> s[b] == '.' || s[b] == '-';
    GroupAtOf(s, a + 1, g.patch);
    assert c < |s| ==> s[c] == '-' by {
      if c < |s| {
        assert s[c..c + 3][0] == '-';
      }
    }
    SubAtOf(s, b, g.sub, c);
    ExtraAtOf(s, c, g.extra);
  }

  /** The groups of a version's text: the sublevel is left out when it is 0, and
    * `-rcN` when the version is a release. */
  function GroupsOf(v: Version): (g: Groups)
    ensures WellFormed(g)
  {
    DecimalDigits(v.version);
    DecimalDigits(v.patch);
    DecimalDigits(v.sub);
    DecimalDigits(v.extra);
    Groups(PyInt.Decimal(v.version), PyInt.Decimal(v.patch),
           if v.sub != 0 then Some(PyInt.Decimal(v.sub)) else None,
           if v.extra != Release then Some(PyInt.Decimal(v.extra)) else None)
  }

  /** `'{:d}'` gives ASCII digits that `int()` reads back. */
  lemma DecimalDigits(n: nat)
    ensures Numeral(PyInt.Decimal(n)) && Number(PyInt.Decimal(n)) == n
  {
    PyInt.DigitsValue(n, 10);
    var d := PyInt.Decimal(n);
    forall k | 0 <= k < |d|
      ensures IsDigit(d[k])
    {
      assert PyInt.IsDigit(d[k], 10);
    }
  }

  /** The constructor reads back every version from its text. */
  lemma ParseRender(v: Version)
    ensures Parse(Text(GroupsOf(v))) == Ok(v)
  {
    MatchText(GroupsOf(v));
    DecimalDigits(v.version);
    DecimalDigits(v.patch);
    DecimalDigits(v.sub);
    DecimalDigits(v.extra);
  }

  lemma Parses(g: Groups)
    requires WellFormed(g)
    ensures Parse(Text(g)) == Ok(FromGroups(g))
  {
    MatchText(g);
  }

  /** A leading zero does not change `int()` of the digits. */
  lemma LeadingZero(d: string)
    requires Numeral(d)
    ensures Numeral("0" + d) && Number("0" + d) == Number(d)
  {
    assert "0" + d == PyInt.Zeros(1) + d;
    assert PyInt.AllDigits(d, 10) by {
      forall k | 0 <= k < |d|
        ensures PyInt.IsDigit(d[k], 10)
      {
        assert IsDigit(d[k]);
      }
    }
    PyInt.ZerosValue(1, d, 10);
  }

  /** A sublevel written as 0 is the same as none. */
  lemma ImplicitSublevel(d1: string, d2: string, extra: Option<string>)
    requires WellFormed(Groups(d1, d2, None, extra))
    ensures Parse(Text(Groups(d1, d2, Some("0"), extra))) == Parse(Text(Groups(d1, d2, None, extra)))
  {
    assert Number("0") == 0 by {
      assert "0"[..0] == [];
    }
    Parses(Groups(d1, d2, Some("0"), extra));
    Parses(Groups(d1, d2, None, extra));
  }

  /** Leading zeros of the patch level do not count (`2020.01` is `2020.1`). */
  lemma LeadingZeroPatch(d1: string, d2: string, sub: Option<string>, extra: Option<string>)
    requires WellFormed(Groups(d1, d2, sub, extra))
    ensures Parse(Text(Groups(d1, "0" + d2, sub, extra))) == Parse(Text(Groups(d1, d2, sub, extra)))
  {
    LeadingZero(d2);
    Parses(Groups(d1, "0" + d2, sub, extra));
    Parses(Groups(d1, d2, sub, extra));
  }

  /** Strings that do not start with the pattern are refused. */
  lemma Malformed()
    ensures Parse("202001") == Err(ValueError)
    ensures Parse("2020.a1") == Err(ValueError)
    ensures Parse("2020-rc1") == Err(ValueError)
    ensures Parse("Back off man") == Err(ValueError)
  {
    RunAt("202001", 0, 6);
    RunAt("2020.a1", 0, 4);
    RunAt("2020.a1", 5, 0);
    RunAt("2020-rc1", 0, 4);
    RunAt("Back off man", 0, 0);
  }

  /** `_extra` of a release is the number of the millionth release candidate, so the
    * two compare equal. */
  lemma MillionthCandidateIsRelease(d1: string, d2: string, sub: Option<string>)
    requires WellFormed(Groups(d1, d2, sub, None))
    ensures Parse(Text(Groups(d1, d2, sub, Some("1000000")))) == Parse(Text(Groups(d1, d2, sub, None)))
  {
    DecimalDigits(Release);
    assert PyInt.Decimal(Release) == "1000000";
    Parses(Groups(d1, d2, sub, Some("1000000")));
    Parses(Groups(d1, d2, sub, None));
  }
}
