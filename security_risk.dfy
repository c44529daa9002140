/** `SecurityImpact` and `SecurityRisk` (depthcharge/checker/security_risk.py): the
  * impact flags of a configuration risk, the text that describes them, and a risk
  * record that is told apart from others by its identifier alone. */
module SecurityRisk {
  import opened Errors
  import UBootVersion

  // ---- SecurityImpact ----

  /** The flags of a `SecurityImpact` value (an `enum.IntFlag`): one boolean per
    * named flag, so that two values are equal exactly when their flags are. */
  datatype Impact = Impact(unknown: bool, infoLeak: bool, attackSurface: bool, rdMem: bool,
                           limitedWrMem: bool, weakAuth: bool, verificationBypass: bool,
                           exec: bool, wrMem: bool)

  const NoImpact := Impact(false, false, false, false, false, false, false, false, false)
  const UnknownImpact := NoImpact.(unknown := true)

  function Bit(b: bool, weight: nat): nat
  {
    if b then weight else 0
  }

  /** The integer value of the flags: UNKNOWN is bit 0, INFO_LEAK bit 6, ATTACK_SURFACE
    * bit 7, RD_MEM bit 8, LIMITED_WR_MEM bit 9, WEAK_AUTH bit 10, VERIFICATION_BYPASS
    * bit 16, EXEC bit 23 and WR_MEM bit 24. Reports sort by this value. */
  function Value(i: Impact): (v: nat)
    ensures v == 0 <==> i == NoImpact
    ensures i.wrMem ==> v >= 0x100_0000
    ensures v < 0x200_0000
  {
    Bit(i.unknown, 0x1) + Bit(i.infoLeak, 0x40) + Bit(i.attackSurface, 0x80) +
    Bit(i.rdMem, 0x100) + Bit(i.limitedWrMem, 0x200) + Bit(i.weakAuth, 0x400) +
    Bit(i.verificationBypass, 0x1_0000) + Bit(i.exec, 0x80_0000) + Bit(i.wrMem, 0x100_0000)
  }

  /** The paragraphs `describe` can emit, in the order it emits them. */
  datatype Section =
    | NoRisk | Unknown | InfoLeak | AttackSurface | RdMem | LimitedWrMem
    | WeakAuth | VerificationBypass | Exec | WrMem

  function Rank(s: Section): nat
  {
    match s
    case NoRisk => 0 case Unknown => 1 case InfoLeak => 2 case AttackSurface => 3
    case RdMem => 4 case LimitedWrMem => 5 case WeakAuth => 6
    case VerificationBypass => 7 case Exec => 8 case WrMem => 9
  }

  /** When a paragraph is shown: the informational note only for an impact with no
    * flag, the unknown-impact paragraph only when UNKNOWN is the sole flag (an
    * equality test, not a bit test), every other one when its flag is set. */
  predicate Shown(i: Impact, s: Section)
  {
    match s
    case NoRisk => i == NoImpact
    case Unknown => i == UnknownImpact
    case InfoLeak => i.infoLeak
    case AttackSurface => i.attackSurface
    case RdMem => i.rdMem
    case LimitedWrMem => i.limitedWrMem
    case WeakAuth => i.weakAuth
    case VerificationBypass => i.verificationBypass
    case Exec => i.exec
    case WrMem => i.wrMem
  }

  /** Every section, in the order `describe` considers them. */
  const AllSections: seq<Section> :=
    [NoRisk, Unknown, InfoLeak, AttackSurface, RdMem, LimitedWrMem, WeakAuth, VerificationBypass, Exec, WrMem]

  lemma AllSectionsRanked(k: nat)
    requires k < |AllSections|
    ensures Rank(AllSections[k]) == k
  {
  }

  /** The sections among the first `k` that are shown. */
  function ShownUpTo(i: Impact, all: seq<Section>, k: nat): seq<Section>
    requires k <= |all|
  {
    if k == 0 then []
    else ShownUpTo(i, all, k - 1) + (if Shown(i, all[k - 1]) then [all[k - 1]] else [])
  }

  /** The paragraphs `describe` emits for an impact, in its fixed order. */
  function Sections(i: Impact): seq<Section>
  {
    ShownUpTo(i, AllSections, |AllSections|)
  }

  /** The text of one paragraph, ending in a blank line. */
  function Paragraph(s: Section): string
  {
    match s
    case NoRisk => "No immediate security risk; informational note.\n\n"
    case Unknown =>
      "**Unknown impact:** The security impact associated with the relevant defect or configuration is \n" +
      "not entirely clear or known. Additional factors or more context are likely \n" +
      "required before the impact, if any, can be realized.\n\n"
    case InfoLeak =>
      "**Information leak:** Behavior discloses information that may aid in reverse engineering efforts \n" +
      "or actively exploiting security vulnerabilities on the system.\n\n"
    case AttackSurface =>
      "**Increased attack surface:** Feature or behavior increases bootloader's attack surface \n" +
      "beyond that which is necessitated by its functional requirements.\n\n"
    case RdMem =>
      "**Memory read primitive:** Operation can be abused to read memory at an attacker-controlled address.\n\n"
    case LimitedWrMem =>
      "**Limited memory write primitive:** Operation can be abused to perform a limited, but attacker-controlled memory \n" +
      "write. The address and/or value written are constrained, or the write is \n" +
      "otherwise unlikely to result in arbitrary code execution due to other \n" +
      "mitigating factors.\n\n"
    case WeakAuth =>
      "**Weak authentication:** Authentication mechanism or underlying algorithm contains known \n" +
      "weaknesses or its use is otherwise inconsistent with modern security \n" +
      "standards and best practices.\n\n"
    case VerificationBypass =>
      "**Verification bypass:** One or more security-critical verifications (or associated operations) can be bypassed.\n\n"
    case Exec =>
      "**Execution primitive:** Operation can be abused to directly execute arbitrary code, \n" +
      "provided that there exists a means to load code.\n\n"
    case WrMem =>
      "**Memory write primitive:** Operation can be abused to read write memory at an attacker-controlled \n" +
      "address, potentially leading to execution of attacker-supplied code.\n\n"
  }

  /** The text made of the paragraphs `text` gives for `ss`, in order. */
  function Concat(text: Section -> string, ss: seq<Section>): string
  {
    if |ss| == 0 then "" else Concat(text, ss[..|ss| - 1]) + text(ss[|ss| - 1])
  }

  /** `describe()` (plain text): the paragraphs of the impact's sections, in order. */
  method Describe(i: Impact) returns (ret: string)
    ensures ret == Concat(Paragraph, Sections(i))
  {
    ret := DescribeFirst(i, AllSections, |AllSections|, Paragraph);
  }

  /** The loop of `describe` over the first `n` sections of `all`. */
  method DescribeFirst(i: Impact, all: seq<Section>, n: nat, text: Section -> string) returns (ret: string)
    requires n <= |all|
    ensures ret == Concat(text, ShownUpTo(i, all, n))
  {
    ret := "";
    for k := 0 to n
      invariant ret == Concat(text, ShownUpTo(i, all, k))
    {
      if Shown(i, all[k]) {
        assert ShownUpTo(i, all, k + 1) == ShownUpTo(i, all, k) + [all[k]];
        ConcatSnoc(text, ShownUpTo(i, all, k), all[k]);
        ret := ret + text(all[k]);
        assert ret == Concat(text, ShownUpTo(i, all, k + 1));
      } else {
        assert ShownUpTo(i, all, k + 1) == ShownUpTo(i, all, k);
        assert ret == Concat(text, ShownUpTo(i, all, k + 1));
      }
    }
  }

  lemma ConcatSnoc(text: Section -> string, ss: seq<Section>, s: Section)
    ensures Concat(text, ss + [s]) == Concat(text, ss) + text(s)
  {
    assert (ss + [s])[..|ss|] == ss;
  }

  /** A paragraph is among the first `k` emitted exactly when its condition holds
    * and it comes before position `k`; those come in rank order, each once. */
  lemma {:induction false} ShownUpToMeaning(i: Impact, k: nat)
    requires k <= |AllSections|
    ensures forall s :: s in ShownUpTo(i, AllSections, k) <==> Shown(i, s) && Rank(s) < k
    ensures forall a, b :: 0 <= a < b < |ShownUpTo(i, AllSections, k)| ==>
      Rank(ShownUpTo(i, AllSections, k)[a]) < Rank(ShownUpTo(i, AllSections, k)[b])
  {
    if k > 0 {
      ShownUpToMeaning(i, k - 1);
      AllSectionsRanked(k - 1);
      forall s | Rank(s) == k - 1
        ensures s == AllSections[k - 1]
      {
      }
    }
  }

  /** A paragraph is emitted exactly when its condition holds. */
  lemma SectionsShown(i: Impact, s: Section)
    ensures s in Sections(i) <==> Shown(i, s)
  {
    ShownUpToMeaning(i, |AllSections|);
  }

  /** The paragraphs come in the fixed order, each at most once. */
  lemma SectionsOrdered(i: Impact, a: nat, b: nat)
    requires a < b < |Sections(i)|
    ensures Rank(Sections(i)[a]) < Rank(Sections(i)[b])
  {
    ShownUpToMeaning(i, |AllSections|);
  }

  /** An impact with flags beside UNKNOWN never gets the unknown-impact paragraph,
    * and every impact gets at least one paragraph. */
  lemma UnknownOnlyAlone(i: Impact)
    ensures i.unknown && i != UnknownImpact ==> Unknown !in Sections(i)
    ensures |Sections(i)| >= 1
  {
    SectionsShown(i, Unknown);
    var s :=
      if i == NoImpact then NoRisk else if i == UnknownImpact then Unknown
      else if i.infoLeak then InfoLeak else if i.attackSurface then AttackSurface
      else if i.rdMem then RdMem else if i.limitedWrMem then LimitedWrMem
      else if i.weakAuth then WeakAuth else if i.verificationBypass then VerificationBypass
      else if i.exec then Exec else WrMem;
    SectionsShown(i, s);
  }

  // ---- SecurityRisk ----

  /** A risk: identifier, impact, source, summary, description, recommendation and the
    * inclusive range of affected versions (both bounds or neither, as the
    * constructor stores them). */
  datatype Risk = Risk(ident: string, impact: Impact, source: string, summary: string,
                       description: string, recommendation: string,
                       minVersion: Option<string>, maxVersion: Option<string>)

  /** The `impact` argument: a SecurityImpact, or an object of another type. */
  datatype ImpactArg = IImpact(i: Impact) | IOther

  /** `SecurityRisk(identifier, impact, ..., affected_versions)`: an impact that is not
    * a SecurityImpact is a TypeError; a version range, when given, supplies both
    * bounds. */
  function NewRisk(ident: string, impact: ImpactArg, source: string, summary: string,
                   description: string, recommendation: string,
                   affected: Option<(string, string)>): (r: Result<Risk>)
    ensures r.Ok? <==> impact.IImpact?
    ensures r.Err? ==> r.error == TypeError
    ensures r.Ok? ==>
      r.value.ident == ident && r.value.impact == impact.i && r.value.source == source &&
      r.value.summary == summary && r.value.description == description &&
      r.value.recommendation == recommendation &&
      r.value.minVersion == (if affected.Some? then Some(affected.value.0) else None) &&
      r.value.maxVersion == (if affected.Some? then Some(affected.value.1) else None)
  {
    if impact.IOther? then Err(TypeError)
    else
      var lo := if affected.Some? then Some(affected.value.0) else None;
      var hi := if affected.Some? then Some(affected.value.1) else None;
      Ok(Risk(ident, impact.i, source, summary, description, recommendation, lo, hi))
  }

  /** What a risk is compared with: an object with an `identifier` attribute (another
    * SecurityRisk), a string, or anything else. */
  datatype Other = WithIdentifier(id: string) | Str(s: string) | Anything

  /** `__eq__`: by identifier, also against a plain string; never equal to anything
    * else. */
  predicate Eq(r: Risk, other: Other)
  {
    match other
    case WithIdentifier(id) => r.ident == id
    case Str(s) => r.ident == s
    case Anything => false
  }

  /** Two risks are equal exactly when their identifiers are: equality is reflexive,
    * symmetric and transitive, whatever else the risks hold, and a risk equals the
    * string of its identifier. */
  lemma EqByIdentifier(a: Risk, b: Risk, c: Risk)
    ensures Eq(a, WithIdentifier(b.ident)) <==> a.ident == b.ident
    ensures Eq(a, WithIdentifier(a.ident)) && Eq(a, Str(a.ident))
    ensures Eq(a, WithIdentifier(b.ident)) ==> Eq(b, WithIdentifier(a.ident))
    ensures Eq(a, WithIdentifier(b.ident)) && Eq(b, WithIdentifier(c.ident)) ==> Eq(a, WithIdentifier(c.ident))
    ensures !Eq(a, Anything)
  {
  }

  /** `__hash__`: the identifier's hash, for a string hash `h`. Equal risks hash
    * alike, as a set needs. */
  function Hash(h: string -> int, r: Risk): (v: int)
    ensures forall b: Risk {:trigger Eq(r, WithIdentifier(b.ident))} :: Eq(r, WithIdentifier(b.ident)) ==> v == h(b.ident)
  {
    h(r.ident)
  }

  /** A version bound that Python reads as false: missing or empty. */
  predicate Falsy(v: Option<string>)
  {
    v.None? || v.value == ""
  }

  /** `applicable_to_version(version)`: true for a risk without a version range;
    * otherwise the version (a string is parsed, any other type is a TypeError) must
    * lie in the inclusive range, whose bounds are parsed in turn. */
  function ApplicableToVersion(r: Risk, version: UBootVersion.VersionArg): (res: Result<bool>)
    ensures Falsy(r.minVersion) || Falsy(r.maxVersion) ==> res == Ok(true)
    ensures !Falsy(r.minVersion) && !Falsy(r.maxVersion) && version.VOther? ==> res == Err(TypeError)
  {
    if Falsy(r.minVersion) || Falsy(r.maxVersion) then Ok(true)
    else
      match UBootVersion.Coerce(version)
      case Err(e) => Err(e)
      case Ok(v) => UBootVersion.InRange(v, UBootVersion.VString(r.minVersion.value), UBootVersion.VString(r.maxVersion.value))
  }

  /** With a range whose bounds parse, a risk applies exactly to the versions between
    * them, both included. */
  lemma ApplicableMeaning(r: Risk, v: UBootVersion.Version, lo: UBootVersion.Version, hi: UBootVersion.Version)
    requires !Falsy(r.minVersion) && !Falsy(r.maxVersion)
    requires UBootVersion.Parse(r.minVersion.value) == Ok(lo)
    requires UBootVersion.Parse(r.maxVersion.value) == Ok(hi)
    ensures ApplicableToVersion(r, UBootVersion.VObject(v)) ==
      Ok(UBootVersion.LessEq(lo, v) && UBootVersion.LessEq(v, hi))
    ensures UBootVersion.LessEq(lo, hi) ==>
      ApplicableToVersion(r, UBootVersion.VObject(lo)) == Ok(true) &&
      ApplicableToVersion(r, UBootVersion.VObject(hi)) == Ok(true)
  {
  }

  // ---- to_dict / from_dict ----

  /** A dictionary describing a risk: each key present or not (`affected_versions`
    * present with None reads as absent). */
  datatype RiskDict = RiskDict(identifier: Option<string>, impact: Option<ImpactArg>, source: Option<string>,
                               summary: Option<string>, description: Option<string>,
                               recommendation: Option<string>, affected: Option<(string, string)>)

  /** `from_dict(d)`: identifier, impact, source, summary, description and
    * recommendation are required (KeyError), the version range optional; then the
    * constructor's checks. */
  function FromDict(d: RiskDict): (r: Result<Risk>)
    ensures (d.identifier.None? || d.impact.None? || d.source.None? || d.summary.None? ||
             d.description.None? || d.recommendation.None?) ==> r == Err(KeyError)
    ensures r.Ok? ==> r.value.ident == d.identifier.value && r.value.summary == d.summary.value
  {
    if d.identifier.None? || d.impact.None? || d.source.None? || d.summary.None? ||
       d.description.None? || d.recommendation.None? then Err(KeyError)
    else NewRisk(d.identifier.value, d.impact.value, d.source.value, d.summary.value,
                 d.description.value, d.recommendation.value, d.affected)
  }

  /** `to_dict()` as written: identifier, impact, source, description and
    * recommendation, without the summary its documentation lists. */
  function ToDictAsWritten(r: Risk): (d: RiskDict)
    ensures d.identifier == Some(r.ident) && d.summary.None?
  {
    RiskDict(Some(r.ident), Some(IImpact(r.impact)), Some(r.source), None,
             Some(r.description), Some(r.recommendation), None)
  }

  /** As written, no dictionary `to_dict` produces can be read back by `from_dict`:
    * the summary is missing, so every round trip raises KeyError. */
  lemma RoundTripAsWrittenFails(r: Risk)
    ensures FromDict(ToDictAsWritten(r)) == Err(KeyError)
  {
  }

  /** `to_dict()` with exactly the six keys its documentation lists: the summary is
    * added, but no version range. */
  function ToDictDocumented(r: Risk): (d: RiskDict)
    ensures d.identifier == Some(r.ident) && d.summary == Some(r.summary) && d.affected.None?
  {
    RiskDict(Some(r.ident), Some(IImpact(r.impact)), Some(r.source), Some(r.summary),
             Some(r.description), Some(r.recommendation), None)
  }

  /** With only the documented keys, the round trip keeps everything but the version
    * range, which `from_dict` then reads as absent. */
  lemma RoundTripDocumented(r: Risk)
    ensures FromDict(ToDictDocumented(r)) == Ok(r.(minVersion := None, maxVersion := None))
  {
  }

  /** `to_dict()` with the summary its documentation lists, and also the version range
    * `from_dict` reads as `affected_versions`. */
  function ToDict(r: Risk): (d: RiskDict)
    ensures d.identifier == Some(r.ident) && d.summary == Some(r.summary)
    ensures d.affected.Some? <==> r.minVersion.Some? && r.maxVersion.Some?
  {
    var affected := if r.minVersion.Some? && r.maxVersion.Some? then Some((r.minVersion.value, r.maxVersion.value)) else None;
    RiskDict(Some(r.ident), Some(IImpact(r.impact)), Some(r.source), Some(r.summary),
             Some(r.description), Some(r.recommendation), affected)
  }

  /** With the summary included, every risk the constructor builds survives the round
    * trip unchanged. */
  lemma RoundTrip(r: Risk)
    requires r.minVersion.Some? <==> r.maxVersion.Some?
    ensures FromDict(ToDict(r)) == Ok(r)
  {
  }

  /** Every risk the constructor builds has both version bounds or neither. */
  lemma NewRiskBounds(ident: string, impact: ImpactArg, source: string, summary: string,
                      description: string, recommendation: string, affected: Option<(string, string)>)
    requires NewRisk(ident, impact, source, summary, description, recommendation, affected).Ok?
    ensures var r := NewRisk(ident, impact, source, summary, description, recommendation, affected).value;
      r.minVersion.Some? <==> r.maxVersion.Some?
  {
  }
}
