/** The configuration checker: handlers registered per configuration key, the
  * configuration entries a loader collects, and the audit that turns matching
  * entries into a report of security risks. */
module ConfigChecker {
  import opened Errors
  import PyStr
  import UBootVersion
  import SR = SecurityRisk
  import Rep = Report

  /** A configuration value: True/False for boolean items, otherwise the verbatim text. */
  datatype CfgValue = CBool(b: bool) | CStr(s: string)

  /** The checker's configuration dictionary: key -> (value, source). */
  type Config = map<string, (CfgValue, string)>

  /** The `user_data` a handler was registered with: none, the checker's own
    * configuration dictionary (as the builtin handlers pass it), or another object. */
  datatype UserData = NoData | LiveConfig | Opaque(tag: string)

  /** What a callable handler receives as `user_data` when the audit runs. The
    * configuration dictionary is passed by reference, so it sees the entries loaded
    * by then. */
  datatype Seen = SeenNone | SeenConfig(config: Config) | SeenOpaque(tag: string)

  /** The `match` argument of `register_handler`. A compiled regular expression is
    * given by what its `match` method accepts; a callable by its result, or by the
    * exception it raises. */
  datatype Match =
    | MBool(b: bool)
    | MStr(s: string)
    | MRegex(matches: string -> bool)
    | MCall(f: (CfgValue, Seen) -> Result<bool>)
    | MOther

  datatype Handler = Handler(criterion: Match, risk: SR.Risk, data: UserData)

  type Handlers = map<string, seq<Handler>>

  // ---- registering handlers ----

  /** `register_handler`: a risk argument that is not a `SecurityRisk` (None here) or
    * a match of another type raises TypeError; otherwise the handler is appended to
    * those of its key. */
  function Register(hs: Handlers, key: string, criterion: Match, risk: Option<SR.Risk>, data: UserData): (r: Result<Handlers>)
    ensures r.Err? <==> risk.None? || criterion.MOther?
    ensures r.Err? ==> r.error == TypeError
    ensures r.Ok? ==> r.value.Keys == hs.Keys + {key}
    ensures r.Ok? ==> r.value[key] == (if key in hs then hs[key] else []) + [Handler(criterion, risk.value, data)]
    ensures r.Ok? ==> forall k :: k in hs && k != key ==> r.value[k] == hs[k]
  {
    if risk.None? || criterion.MOther? then Err(TypeError)
    else
      var h := Handler(criterion, risk.value, data);
      Ok(hs[key := if key in hs then hs[key] + [h] else [h]])
  }

  /** Registering only ever adds: every handler registered before stays in place. */
  lemma RegisterKeeps(hs: Handlers, key: string, criterion: Match, risk: Option<SR.Risk>, data: UserData, k: string, i: nat)
    requires Register(hs, key, criterion, risk, data).Ok?
    requires k in hs && i < |hs[k]|
    ensures k in Register(hs, key, criterion, risk, data).value
    ensures i < |Register(hs, key, criterion, risk, data).value[k]|
    ensures Register(hs, key, criterion, risk, data).value[k][i] == hs[k][i]
  {
  }

  // ---- the SPL variants of builtin keys ----

  /** `'CONFIG_SPL_' in s`. */
  predicate Contains(s: string, p: string)
  {
    exists i :: 0 <= i <= |s| && PyStr.StartsWith(s[i..], p)
  }

  /** `s.replace(pat, rep)`: every non-overlapping occurrence, scanning left to right. */
  function ReplaceAll(s: string, pat: string, rep: string): string
    requires |pat| > 0
    decreases |s|
  {
    if |s| == 0 then []
    else if PyStr.StartsWith(s, pat) then rep + ReplaceAll(s[|pat|..], pat, rep)
    else [s[0]] + ReplaceAll(s[1..], pat, rep)
  }

  /** The extra key a builtin definition is registered under: `CONFIG_X` also fires on
    * its SPL variant, unless it names an SPL option already. */
  function SplVariant(key: string): Option<string>
  {
    if !Contains(key, "CONFIG_SPL_") && PyStr.StartsWith(key, "CONFIG_") then
      Some(ReplaceAll(key, "CONFIG_", "CONFIG_SPL_"))
    else None
  }

  /** The SPL variant of a key is an SPL key, so it gets no variant of its own, and
    * it differs from the key it came from. */
  lemma SplVariantShape(key: string)
    requires SplVariant(key).Some?
    ensures PyStr.StartsWith(SplVariant(key).value, "CONFIG_SPL_")
    ensures SplVariant(SplVariant(key).value).None?
    ensures SplVariant(key).value != key
  {
    var spl := SplVariant(key).value;
    var rest := ReplaceAll(key[7..], "CONFIG_", "CONFIG_SPL_");
    assert spl == "CONFIG_SPL_" + rest;
    assert spl[..11] == "CONFIG_SPL_";
    assert spl[0..] == spl;
    assert Contains(spl, "CONFIG_SPL_");
  }

  /** One entry of the builtin definitions: key, match and the risk's dictionary. */
  datatype BuiltinDef = BuiltinDef(key: string, criterion: Match, risk: SR.RiskDict)

  /** The constructor's loop over the builtin definitions: each risk is built with
    * `from_dict` and registered under its key and, where there is one, under the SPL
    * variant of its key, with the configuration dictionary as `user_data`. */
  function WithBuiltins(hs: Handlers, defs: seq<BuiltinDef>): Result<Handlers>
  {
    if |defs| == 0 then Ok(hs)
    else
      match WithBuiltins(hs, defs[..|defs| - 1])
      case Err(e) => Err(e)
      case Ok(before) => WithBuiltin(before, defs[|defs| - 1])
  }

  function WithBuiltin(hs: Handlers, d: BuiltinDef): (r: Result<Handlers>)
    ensures SR.FromDict(d.risk).Ok? && !d.criterion.MOther? ==> r.Ok?
    ensures r.Ok? ==> SR.FromDict(d.risk).Ok?
  {
    match SR.FromDict(d.risk)
    case Err(e) => Err(e)
    case Ok(risk) =>
      match Register(hs, d.key, d.criterion, Some(risk), LiveConfig)
      case Err(e) => Err(e)
      case Ok(once) =>
        match SplVariant(d.key)
        case None => Ok(once)
        case Some(spl) => Register(once, spl, d.criterion, Some(risk), LiveConfig)
  }

  /** After a successful construction, every builtin definition has its handler under
    * its key, and under the SPL variant of its key where there is one. */
  lemma {:induction false} BuiltinsRegistered(hs: Handlers, defs: seq<BuiltinDef>, i: nat)
    requires WithBuiltins(hs, defs).Ok? && i < |defs|
    ensures SR.FromDict(defs[i].risk).Ok?
    ensures var h := Handler(defs[i].criterion, SR.FromDict(defs[i].risk).value, LiveConfig);
      var r := WithBuiltins(hs, defs).value;
      defs[i].key in r && h in r[defs[i].key] &&
      (SplVariant(defs[i].key).Some? ==> SplVariant(defs[i].key).value in r && h in r[SplVariant(defs[i].key).value])
  {
    var init := defs[..|defs| - 1];
    var before := WithBuiltins(hs, init).value;
    var d := defs[|defs| - 1];
    if i < |defs| - 1 {
      BuiltinsRegistered(hs, init, i);
      assert init[i] == defs[i];
      BuiltinKeeps(before, d, defs[i].key);
      if SplVariant(defs[i].key).Some? {
        BuiltinKeeps(before, d, SplVariant(defs[i].key).value);
      }
    } else {
      var risk := SR.FromDict(d.risk).value;
      var once := Register(before, d.key, d.criterion, Some(risk), LiveConfig).value;
      if SplVariant(d.key).Some? {
        RegisterKeeps(once, SplVariant(d.key).value, d.criterion, Some(risk), LiveConfig, d.key, |once[d.key]| - 1);
      }
    }
  }

  /** Registering one more builtin keeps every handler already registered. */
  lemma BuiltinKeeps(hs: Handlers, d: BuiltinDef, k: string)
    requires WithBuiltin(hs, d).Ok? && k in hs
    ensures k in WithBuiltin(hs, d).value
    ensures forall h :: h in hs[k] ==> h in WithBuiltin(hs, d).value[k]
  {
    var risk := SR.FromDict(d.risk).value;
    var once := Register(hs, d.key, d.criterion, Some(risk), LiveConfig).value;
    forall h | h in hs[k]
      ensures h in WithBuiltin(hs, d).value[k]
    {
      var i :| 0 <= i < |hs[k]| && hs[k][i] == h;
      RegisterKeeps(hs, d.key, d.criterion, Some(risk), LiveConfig, k, i);
      if SplVariant(d.key).Some? {
        RegisterKeeps(once, SplVariant(d.key).value, d.criterion, Some(risk), LiveConfig, k, i);
      }
    }
  }

  // ---- configuration entries ----

  /** `_add_config_entry` on the dictionary (its keys in insertion order, and its
    * entries): a key already present keeps its first definition unless `force` is
    * set; an overwritten key keeps its place. */
  function Entered(keys: seq<string>, cfg: Config, key: string, value: CfgValue, source: string, force: bool):
    (r: (seq<string>, Config))
    ensures key in r.1
    ensures r.1.Keys == cfg.Keys + {key}
    ensures r.1[key] == (if key in cfg && !force then cfg[key] else (value, source))
    ensures forall k :: k in cfg && k != key ==> r.1[k] == cfg[k]
    ensures key in cfg ==> r.0 == keys
    ensures key !in cfg ==> r.0 == keys + [key]
  {
    if key !in cfg then (keys + [key], cfg[key := (value, source)])
    else if force then (keys, cfg[key := (value, source)])
    else (keys, cfg)
  }

  /** Once a key is defined, later definitions without `force` change nothing. */
  lemma FirstDefinitionWins(keys: seq<string>, cfg: Config, key: string, v1: CfgValue, s1: string,
                            v2: CfgValue, s2: string)
    requires key !in cfg
    ensures var (k1, c1) := Entered(keys, cfg, key, v1, s1, false);
      Entered(k1, c1, key, v2, s2, false) == (k1, c1) && c1[key] == (v1, s1)
  {
  }

  // ---- auditing ----

  /** Python's `bool(value)`: an empty string is false. */
  predicate Truthy(v: CfgValue)
  {
    match v
    case CBool(b) => b
    case CStr(s) => |s| > 0
  }

  /** Whether one handler's match criterion fires on a value. A regular expression
    * applied to a boolean value raises TypeError, as does a match of no known type;
    * a callable's own exception escapes as it is. */
  function Judge(m: Match, v: CfgValue, seen: Seen): (r: Result<bool>)
    ensures m.MBool? ==> r == Ok(m.b == Truthy(v))
    ensures m.MStr? ==> r == Ok(v == CStr(m.s))
    ensures m.MCall? ==> r == m.f(v, seen)
    ensures r.Err? <==> m.MOther? || (m.MRegex? && v.CBool?) || (m.MCall? && m.f(v, seen).Err?)
    ensures r.Err? && !m.MCall? ==> r.error == TypeError
  {
    match m
    case MBool(b) => Ok(b == Truthy(v))
    case MStr(s) => Ok(v == CStr(s))
    case MRegex(matches) => if v.CStr? then Ok(matches(v.s)) else Err(TypeError)
    case MCall(f) => f(v, seen)
    case MOther => Err(TypeError)
  }

  function SeenBy(d: UserData, cfg: Config): Seen
  {
    match d
    case NoData => SeenNone
    case LiveConfig => SeenConfig(cfg)
    case Opaque(t) => SeenOpaque(t)
  }

  /** One handler on one value: skipped (false) when its risk does not apply to the
    * version, otherwise its match decides. */
  function Outcome(h: Handler, v: CfgValue, cfg: Config, version: UBootVersion.Version): (r: Result<bool>)
    ensures SR.ApplicableToVersion(h.risk, UBootVersion.VObject(version)).Err? ==>
      r == Err(SR.ApplicableToVersion(h.risk, UBootVersion.VObject(version)).error)
    ensures SR.ApplicableToVersion(h.risk, UBootVersion.VObject(version)) == Ok(false) ==> r == Ok(false)
    ensures r == Ok(true) ==> SR.ApplicableToVersion(h.risk, UBootVersion.VObject(version)) == Ok(true)
    ensures SR.ApplicableToVersion(h.risk, UBootVersion.VObject(version)) == Ok(true) ==>
      r == Judge(h.criterion, v, SeenBy(h.data, cfg))
  {
    match SR.ApplicableToVersion(h.risk, UBootVersion.VObject(version))
    case Err(e) => Err(e)
    case Ok(applies) => if applies then Judge(h.criterion, v, SeenBy(h.data, cfg)) else Ok(false)
  }

  /** A finding: a copy of the risk whose source is where the value came from. */
  function Finding(r: SR.Risk, source: string): SR.Risk
  {
    r.(source := source)
  }

  /** The inner loop of `audit` over the handlers of one key: the findings, in order,
    * up to the first exception, which is returned beside them. */
  function KeyFindings(hs: seq<Handler>, v: CfgValue, source: string, cfg: Config,
                       version: UBootVersion.Version): (seq<SR.Risk>, Option<Error>)
  {
    if |hs| == 0 then ([], None)
    else
      var (fs, e) := KeyFindings(hs[..|hs| - 1], v, source, cfg, version);
      if e.Some? then (fs, e)
      else
        match Outcome(hs[|hs| - 1], v, cfg, version)
        case Err(x) => (fs, Some(x))
        case Ok(fires) => (if fires then fs + [Finding(hs[|hs| - 1].risk, source)] else fs, None)
  }

  /** Every finding comes from a handler that applies to the version and whose match
    * fired, and carries the value's source. */
  lemma {:induction false} KeyFindingsSound(hs: seq<Handler>, v: CfgValue, source: string, cfg: Config,
                                           version: UBootVersion.Version, i: nat)
    requires i < |KeyFindings(hs, v, source, cfg, version).0|
    ensures exists j :: (0 <= j < |hs| && Outcome(hs[j], v, cfg, version) == Ok(true) &&
                         KeyFindings(hs, v, source, cfg, version).0[i] == Finding(hs[j].risk, source))
  {
    var init := hs[..|hs| - 1];
    var last := |hs| - 1;
    var fs := KeyFindings(init, v, source, cfg, version).0;
    var all := KeyFindings(hs, v, source, cfg, version).0;
    KeyFindingsPrefix(hs, v, source, cfg, version);
    if i < |fs| {
      KeyFindingsSound(init, v, source, cfg, version, i);
      var j :| 0 <= j < |init| && Outcome(init[j], v, cfg, version) == Ok(true) &&
        fs[i] == Finding(init[j].risk, source);
      assert init[j] == hs[j];
      assert all[i] == fs[i];
    } else {
      assert Outcome(hs[last], v, cfg, version) == Ok(true) && all[i] == Finding(hs[last].risk, source);
    }
  }

  /** One handler more keeps the findings so far and adds at most the last handler's,
    * which it adds only when that handler fired. */
  lemma KeyFindingsPrefix(hs: seq<Handler>, v: CfgValue, source: string, cfg: Config,
                          version: UBootVersion.Version)
    requires |hs| > 0
    ensures var fs := KeyFindings(hs[..|hs| - 1], v, source, cfg, version).0;
      var all := KeyFindings(hs, v, source, cfg, version).0;
      all == fs ||
      (Outcome(hs[|hs| - 1], v, cfg, version) == Ok(true) && all == fs + [Finding(hs[|hs| - 1].risk, source)])
  {
  }

  /** Without an exception, every handler that applies and fires gives its finding. */
  lemma {:induction false} KeyFindingsComplete(hs: seq<Handler>, v: CfgValue, source: string, cfg: Config,
                                              version: UBootVersion.Version, j: nat)
    requires j < |hs| && KeyFindings(hs, v, source, cfg, version).1.None?
    requires Outcome(hs[j], v, cfg, version) == Ok(true)
    ensures Finding(hs[j].risk, source) in KeyFindings(hs, v, source, cfg, version).0
  {
    var init := hs[..|hs| - 1];
    var fs := KeyFindings(init, v, source, cfg, version).0;
    var f := Finding(hs[j].risk, source);
    KeyFindingsLast(hs, v, source, cfg, version);
    if j < |hs| - 1 {
      assert init[j] == hs[j];
      KeyFindingsComplete(init, v, source, cfg, version, j);
      assert f in fs;
    }
  }

  /** Without an exception, the handlers before the last raised nothing either, and the
    * last adds its finding exactly when it fired. */
  lemma KeyFindingsLast(hs: seq<Handler>, v: CfgValue, source: string, cfg: Config,
                        version: UBootVersion.Version)
    requires |hs| > 0 && KeyFindings(hs, v, source, cfg, version).1.None?
    ensures KeyFindings(hs[..|hs| - 1], v, source, cfg, version).1.None?
    ensures var fs := KeyFindings(hs[..|hs| - 1], v, source, cfg, version).0;
      var f := Finding(hs[|hs| - 1].risk, source);
      KeyFindings(hs, v, source, cfg, version).0 ==
        if Outcome(hs[|hs| - 1], v, cfg, version) == Ok(true) then fs + [f] else fs
  {
  }

  /** An exception comes from a handler whose version check or match raised. */
  lemma {:induction false} KeyFindingsError(hs: seq<Handler>, v: CfgValue, source: string, cfg: Config,
                                           version: UBootVersion.Version)
    requires KeyFindings(hs, v, source, cfg, version).1.Some?
    ensures exists j :: 0 <= j < |hs| && Outcome(hs[j], v, cfg, version) == Err(KeyFindings(hs, v, source, cfg, version).1.value)
  {
    var init := hs[..|hs| - 1];
    if KeyFindings(init, v, source, cfg, version).1.Some? {
      KeyFindingsError(init, v, source, cfg, version);
      var j :| 0 <= j < |init| && Outcome(init[j], v, cfg, version) == Err(KeyFindings(init, v, source, cfg, version).1.value);
      assert init[j] == hs[j];
    }
  }

  /** Adding findings to a report one after the other. */
  function AddAll(m: Rep.Risks, fs: seq<SR.Risk>): Rep.Risks
  {
    if |fs| == 0 then m else Rep.AddTo(AddAll(m, fs[..|fs| - 1]), fs[|fs| - 1])
  }

  /** Adding findings keeps what the report held. */
  lemma {:induction false} AddAllKeeps(m: Rep.Risks, fs: seq<SR.Risk>)
    ensures forall id :: id in m ==> id in AddAll(m, fs) && AddAll(m, fs)[id] == m[id]
    ensures Rep.Keyed(m) ==> Rep.Keyed(AddAll(m, fs))
  {
    if |fs| > 0 {
      AddAllKeeps(m, fs[..|fs| - 1]);
    }
  }

  /** Every finding's identifier ends up in the report. */
  lemma {:induction false} AddAllHas(m: Rep.Risks, fs: seq<SR.Risk>)
    ensures forall i :: 0 <= i < |fs| ==> fs[i].ident in AddAll(m, fs)
  {
    if |fs| > 0 {
      var init := fs[..|fs| - 1];
      AddAllHas(m, init);
      var after := AddAll(m, fs);
      assert after.Keys == AddAll(m, init).Keys + {fs[|fs| - 1].ident};
      forall i | 0 <= i < |init|
        ensures fs[i].ident in after
      {
        assert fs[i] == init[i];
      }
    }
  }

  /** What the report holds under a new identifier is one of the findings. */
  lemma {:induction false} AddAllFrom(m: Rep.Risks, fs: seq<SR.Risk>)
    ensures forall id :: id in AddAll(m, fs) && id !in m ==>
      exists i :: 0 <= i < |fs| && AddAll(m, fs)[id] == fs[i]
  {
    if |fs| > 0 {
      var init := fs[..|fs| - 1];
      AddAllFrom(m, init);
      var before, last := AddAll(m, init), fs[|fs| - 1];
      var after := AddAll(m, fs);
      assert after == Rep.AddTo(before, last);
      forall id | id in after && id !in m
        ensures exists i :: 0 <= i < |fs| && after[id] == fs[i]
      {
        if id in before {
          var i :| 0 <= i < |init| && before[id] == init[i];
          assert after[id] == before[id] && fs[i] == init[i];
        } else {
          assert id == last.ident && after[id] == last;
        }
      }
    }
  }

  /** All keys of the configuration, in order, are defined in it. */
  predicate Covers(keys: seq<string>, cfg: Config)
  {
    forall k :: 0 <= k < |keys| ==> keys[k] in cfg
  }

  /** `audit`: the report's risks after the keys in order, or the exception that
    * escapes it. A key without handlers raises KeyError, which is caught, and so is a
    * KeyError raised by a handler, which ends that key's handlers early. */
  function Audited(keys: seq<string>, cfg: Config, hs: Handlers, version: UBootVersion.Version): (Rep.Risks, Option<Error>)
    requires Covers(keys, cfg)
  {
    if |keys| == 0 then (map[], None)
    else
      var (m, e) := Audited(keys[..|keys| - 1], cfg, hs, version);
      var key := keys[|keys| - 1];
      if e.Some? then (m, e)
      else if key !in hs then (m, None)
      else
        var (fs, e2) := KeyFindings(hs[key], cfg[key].0, cfg[key].1, cfg, version);
        (AddAll(m, fs), if e2 == Some(KeyError) then None else e2)
  }

  /** A risk is justified by the audit of `keys` when some key has a handler for it
    * that applies to the version and fired on the key's value; the recorded risk is
    * that handler's risk with the key's source. */
  ghost predicate Justified(x: SR.Risk, keys: seq<string>, cfg: Config, hs: Handlers, version: UBootVersion.Version)
    requires Covers(keys, cfg)
  {
    exists k, j :: 0 <= k < |keys| && keys[k] in hs && 0 <= j < |hs[keys[k]]| &&
      Outcome(hs[keys[k]][j], cfg[keys[k]].0, cfg, version) == Ok(true) &&
      x == Finding(hs[keys[k]][j].risk, cfg[keys[k]].1)
  }

  /** Everything the audit reports is justified by some key and handler. */
  lemma {:induction false} AuditSound(keys: seq<string>, cfg: Config, hs: Handlers, version: UBootVersion.Version)
    requires Covers(keys, cfg)
    ensures Rep.Keyed(Audited(keys, cfg, hs, version).0)
    ensures forall id :: id in Audited(keys, cfg, hs, version).0 ==>
      Justified(Audited(keys, cfg, hs, version).0[id], keys, cfg, hs, version)
  {
    if |keys| > 0 {
      var init := keys[..|keys| - 1];
      AuditSound(init, cfg, hs, version);
      var (m, e) := Audited(init, cfg, hs, version);
      var key := keys[|keys| - 1];
      forall id | id in m
        ensures Justified(m[id], keys, cfg, hs, version)
      {
        var k, j :| 0 <= k < |init| && init[k] in hs && 0 <= j < |hs[init[k]]| &&
          Outcome(hs[init[k]][j], cfg[init[k]].0, cfg, version) == Ok(true) &&
          m[id] == Finding(hs[init[k]][j].risk, cfg[init[k]].1);
        assert init[k] == keys[k];
      }
      if e.None? && key in hs {
        var fs := KeyFindings(hs[key], cfg[key].0, cfg[key].1, cfg, version).0;
        AddAllKeeps(m, fs);
        AddAllFrom(m, fs);
        var r := AddAll(m, fs);
        forall id | id in r
          ensures Justified(r[id], keys, cfg, hs, version)
        {
          if id !in m {
            var i :| 0 <= i < |fs| && r[id] == fs[i];
            KeyFindingsSound(hs[key], cfg[key].0, cfg[key].1, cfg, version, i);
            var j :| 0 <= j < |hs[key]| && Outcome(hs[key][j], cfg[key].0, cfg, version) == Ok(true) &&
              fs[i] == Finding(hs[key][j].risk, cfg[key].1);
            assert keys[|keys| - 1] == key;
          }
        }
      }
    }
  }

  /** Without an exception, every handler that applies and fires on its key's value
    * gets its identifier into the report (de-duplicated by identifier). */
  lemma {:induction false} AuditComplete(keys: seq<string>, cfg: Config, hs: Handlers, version: UBootVersion.Version,
                                         k: nat, j: nat)
    requires Covers(keys, cfg) && Audited(keys, cfg, hs, version).1.None?
    requires k < |keys| && keys[k] in hs && j < |hs[keys[k]]|
    requires Outcome(hs[keys[k]][j], cfg[keys[k]].0, cfg, version) == Ok(true)
    requires KeyFindings(hs[keys[k]], cfg[keys[k]].0, cfg[keys[k]].1, cfg, version).1.None?
    ensures hs[keys[k]][j].risk.ident in Audited(keys, cfg, hs, version).0
  {
    var init := keys[..|keys| - 1];
    var key := keys[|keys| - 1];
    AuditLast(keys, cfg, hs, version);
    var m := Audited(init, cfg, hs, version).0;
    if k < |keys| - 1 {
      assert init[k] == keys[k];
      AuditComplete(init, cfg, hs, version, k, j);
      if key in hs {
        AddAllKeeps(m, KeyFindings(hs[key], cfg[key].0, cfg[key].1, cfg, version).0);
      }
    } else {
      var fs := KeyFindings(hs[key], cfg[key].0, cfg[key].1, cfg, version).0;
      KeyFindingsComplete(hs[key], cfg[key].0, cfg[key].1, cfg, version, j);
      AddAllHas(m, fs);
      var i :| 0 <= i < |fs| && fs[i] == Finding(hs[key][j].risk, cfg[key].1);
    }
  }

  /** One step of the audit that raised nothing: the keys before the last raised
    * nothing either, and the last key's findings, if it has handlers, were added. */
  lemma AuditLast(keys: seq<string>, cfg: Config, hs: Handlers, version: UBootVersion.Version)
    requires Covers(keys, cfg) && |keys| > 0 && Audited(keys, cfg, hs, version).1.None?
    ensures Covers(keys[..|keys| - 1], cfg)
    ensures Audited(keys[..|keys| - 1], cfg, hs, version).1.None?
    ensures keys[|keys| - 1] !in hs ==> Audited(keys, cfg, hs, version).0 == Audited(keys[..|keys| - 1], cfg, hs, version).0
    ensures keys[|keys| - 1] in hs ==>
      var key := keys[|keys| - 1];
      Audited(keys, cfg, hs, version).0 ==
        AddAll(Audited(keys[..|keys| - 1], cfg, hs, version).0, KeyFindings(hs[key], cfg[key].0, cfg[key].1, cfg, version).0)
  {
  }

  /** A ConfigChecker: its handlers, its configuration dictionary (keys in insertion
    * order) and the U-Boot version under inspection. */
  class ConfigChecker {
    var handlers: Handlers
    var keys: seq<string>
    var config: Config
    var version: UBootVersion.Version

    predicate Valid()
      reads this
    {
      (forall k :: k in config ==> k in keys) &&
      (forall k :: k in keys ==> k in config) &&
      (forall a, b :: 0 <= a < b < |keys| ==> keys[a] != keys[b])
    }

    /** The state the constructor starts from, once the version string has parsed. */
    constructor (version: UBootVersion.Version)
      ensures Valid()
      ensures handlers == map[] && keys == [] && config == map[] && this.version == version
    {
      handlers := map[];
      keys := [];
      config := map[];
      this.version := version;
    }

    /** `register_handler`. */
    method RegisterHandler(key: string, criterion: Match, risk: Option<SR.Risk>, data: UserData)
      returns (err: Option<Error>)
      modifies this
      ensures err.None? <==> Register(old(handlers), key, criterion, risk, data).Ok?
      ensures err.None? ==> handlers == Register(old(handlers), key, criterion, risk, data).value
      ensures err.Some? ==> err == Some(TypeError) && handlers == old(handlers)
      ensures keys == old(keys) && config == old(config) && version == old(version)
    {
      if risk.None? || criterion.MOther? {
        return Some(TypeError);
      }
      var h := Handler(criterion, risk.value, data);
      if key in handlers {
        handlers := handlers[key := handlers[key] + [h]];
      } else {
        handlers := handlers[key := [h]];
      }
      return None;
    }

    /** The builtin part of the constructor. */
    method RegisterBuiltins(defs: seq<BuiltinDef>) returns (err: Option<Error>)
      modifies this
      ensures err.None? <==> WithBuiltins(old(handlers), defs).Ok?
      ensures err.None? ==> handlers == WithBuiltins(old(handlers), defs).value
      ensures keys == old(keys) && config == old(config) && version == old(version)
    {
      for i := 0 to |defs|
        invariant WithBuiltins(old(handlers), defs[..i]).Ok?
        invariant handlers == WithBuiltins(old(handlers), defs[..i]).value
        invariant keys == old(keys) && config == old(config) && version == old(version)
      {
        assert defs[..i + 1][..i] == defs[..i];
        var d := defs[i];
        var risk := SR.FromDict(d.risk);
        if risk.Err? {
          BuiltinsStop(old(handlers), defs, i + 1);
          return Some(risk.error);
        }
        err := RegisterHandler(d.key, d.criterion, Some(risk.value), LiveConfig);
        if err.Some? {
          BuiltinsStop(old(handlers), defs, i + 1);
          return err;
        }
        var spl := SplVariant(d.key);
        if spl.Some? {
          err := RegisterHandler(spl.value, d.criterion, Some(risk.value), LiveConfig);
        }
      }
      assert defs[..|defs|] == defs;
      return None;
    }

    /** `_add_config_entry`; the warning it logs is not modelled. */
    method AddConfigEntry(key: string, value: CfgValue, source: string, force: bool)
      requires Valid()
      modifies this
      ensures Valid()
      ensures (keys, config) == Entered(old(keys), old(config), key, value, source, force)
      ensures handlers == old(handlers) && version == old(version)
    {
      if key !in config || force {
        if key !in config {
          keys := keys + [key];
        }
        config := config[key := (value, source)];
      }
    }

    /** `audit`: a fresh report of the findings, or the exception that escapes. */
    method Audit() returns (report: Rep.Report, err: Option<Error>)
      requires Valid()
      ensures fresh(report) && report.Valid()
      ensures Covers(keys, config)
      ensures err == Audited(keys, config, handlers, version).1
      ensures err.None? ==> report.risks == Audited(keys, config, handlers, version).0
    {
      report := new Rep.Report();
      assert Covers(keys, config);
      for k := 0 to |keys|
        invariant fresh(report) && report.Valid()
        invariant Audited(keys[..k], config, handlers, version) == (report.risks, None)
      {
        AuditStep(keys, config, handlers, version, k);
        var key := keys[k];
        if key in handlers {
          ghost var before := report.risks;
          var e := CheckKey(report, handlers[key], config[key].0, config[key].1, config, version);
          assert report.risks == AddAll(before, KeyFindings(handlers[key], config[key].0, config[key].1, config, version).0);
          if e.Some? && e.value != KeyError {
            AuditStops(keys, config, handlers, version, k + 1);
            return report, e;
          }
        }
      }
      assert keys[..|keys|] == keys;
      return report, None;
    }
  }

  /** The inner loop of `audit`: each handler of one key in turn, adding findings to
    * the report, until the first exception. */
  method CheckKey(report: Rep.Report, hs: seq<Handler>, v: CfgValue, source: string, cfg: Config,
                  version: UBootVersion.Version) returns (err: Option<Error>)
    requires report.Valid()
    modifies report
    ensures report.Valid()
    ensures err == KeyFindings(hs, v, source, cfg, version).1
    ensures report.risks == AddAll(old(report.risks), KeyFindings(hs, v, source, cfg, version).0)
    ensures report.i == old(report.i) && report.ordered == old(report.ordered)
  {
    ghost var start := report.risks;
    ghost var found: seq<SR.Risk> := [];
    for j := 0 to |hs|
      invariant report.Valid()
      invariant KeyFindings(hs[..j], v, source, cfg, version) == (found, None)
      invariant report.risks == AddAll(start, found)
      invariant report.i == old(report.i) && report.ordered == old(report.ordered)
    {
      KeyFindingsStep(hs, v, source, cfg, version, j);
      var fired;
      err, fired := CheckHandler(report, hs[j], v, source, cfg, version);
      if err.Some? {
        KeyFindingsStop(hs, v, source, cfg, version, j + 1);
        return err;
      }
      if fired {
        AddAllSnoc(start, found, Finding(hs[j].risk, source));
        found := found + [Finding(hs[j].risk, source)];
      }
    }
    assert hs[..|hs|] == hs;
    return None;
  }

  /** The body of that loop: one handler on the key's value. */
  method CheckHandler(report: Rep.Report, h: Handler, v: CfgValue, source: string, cfg: Config,
                      version: UBootVersion.Version) returns (err: Option<Error>, fired: bool)
    requires report.Valid()
    modifies report
    ensures report.Valid()
    ensures fired <==> Outcome(h, v, cfg, version) == Ok(true)
    ensures Outcome(h, v, cfg, version).Err? ==> err == Some(Outcome(h, v, cfg, version).error) && report.risks == old(report.risks)
    ensures Outcome(h, v, cfg, version) == Ok(false) ==> err == None && report.risks == old(report.risks)
    ensures Outcome(h, v, cfg, version) == Ok(true) ==> err == None && report.risks == Rep.AddTo(old(report.risks), Finding(h.risk, source))
    ensures report.i == old(report.i) && report.ordered == old(report.ordered)
  {
    var applies := SR.ApplicableToVersion(h.risk, UBootVersion.VObject(version));
    if applies.Err? {
      return Some(applies.error), false;
    }
    if applies.value {
      var fires := Judge(h.criterion, v, SeenBy(h.data, cfg));
      if fires.Err? {
        return Some(fires.error), false;
      }
      if fires.value {
        var finding := Finding(h.risk, source);
        ghost var before := report.risks;
        var added := report.Add(Rep.ARisk(finding));
        assert report.risks == Rep.AddTo(before, finding);
        return None, true;
      }
    }
    return None, false;
  }

  /** One more handler of a key, after those before it raised nothing. */
  lemma KeyFindingsStep(hs: seq<Handler>, v: CfgValue, source: string, cfg: Config,
                        version: UBootVersion.Version, j: nat)
    requires j < |hs| && KeyFindings(hs[..j], v, source, cfg, version).1.None?
    ensures var fs := KeyFindings(hs[..j], v, source, cfg, version).0;
      KeyFindings(hs[..j + 1], v, source, cfg, version) ==
        match Outcome(hs[j], v, cfg, version)
        case Err(x) => (fs, Some(x))
        case Ok(fires) => (if fires then fs + [Finding(hs[j].risk, source)] else fs, None)
  {
    assert hs[..j + 1][..j] == hs[..j];
  }

  lemma AddAllSnoc(m: Rep.Risks, fs: seq<SR.Risk>, x: SR.Risk)
    ensures AddAll(m, fs + [x]) == Rep.AddTo(AddAll(m, fs), x)
  {
    assert (fs + [x])[..|fs|] == fs;
  }

  /** Once a key's handlers have raised, the later ones add nothing. */
  lemma {:induction false} KeyFindingsStop(hs: seq<Handler>, v: CfgValue, source: string, cfg: Config,
                                          version: UBootVersion.Version, n: nat)
    requires n <= |hs| && KeyFindings(hs[..n], v, source, cfg, version).1.Some?
    ensures KeyFindings(hs, v, source, cfg, version) == KeyFindings(hs[..n], v, source, cfg, version)
    decreases |hs| - n
  {
    if n < |hs| {
      assert hs[..|hs| - 1][..n] == hs[..n];
      KeyFindingsStop(hs[..|hs| - 1], v, source, cfg, version, n);
    } else {
      assert hs[..n] == hs;
    }
  }

  /** One more key of the audit, after the keys before it raised nothing. */
  lemma AuditStep(keys: seq<string>, cfg: Config, hs: Handlers, version: UBootVersion.Version, k: nat)
    requires Covers(keys, cfg) && k < |keys| && Audited(keys[..k], cfg, hs, version).1.None?
    ensures Covers(keys[..k + 1], cfg)
    ensures var m := Audited(keys[..k], cfg, hs, version).0;
      var key := keys[k];
      Audited(keys[..k + 1], cfg, hs, version) ==
        if key !in hs then (m, None)
        else
          var (fs, e) := KeyFindings(hs[key], cfg[key].0, cfg[key].1, cfg, version);
          (AddAll(m, fs), if e == Some(KeyError) then None else e)
  {
    assert keys[..k + 1][..k] == keys[..k];
  }

  /** Once the audit has raised, the later keys change nothing. */
  lemma {:induction false} AuditStops(keys: seq<string>, cfg: Config, hs: Handlers, version: UBootVersion.Version, n: nat)
    requires Covers(keys, cfg) && n <= |keys| && Audited(keys[..n], cfg, hs, version).1.Some?
    ensures Audited(keys, cfg, hs, version).1 == Audited(keys[..n], cfg, hs, version).1
    decreases |keys| - n
  {
    if n < |keys| {
      assert keys[..|keys| - 1][..n] == keys[..n];
      AuditStops(keys[..|keys| - 1], cfg, hs, version, n);
    } else {
      assert keys[..n] == keys;
    }
  }

  /** Once a builtin definition has failed, the constructor raises. */
  lemma {:induction false} BuiltinsStop(hs: Handlers, defs: seq<BuiltinDef>, n: nat)
    requires n <= |defs| && WithBuiltins(hs, defs[..n]).Err?
    ensures WithBuiltins(hs, defs).Err?
    decreases |defs| - n
  {
    if n < |defs| {
      assert defs[..|defs| - 1][..n] == defs[..n];
      BuiltinsStop(hs, defs[..|defs| - 1], n);
    } else {
      assert defs[..n] == defs;
    }
  }

  /** The constructor: the version string must parse (ValueError otherwise); with
    * builtins enabled, their handlers are registered. */
  method NewChecker(versionText: string, enableBuiltins: bool, defs: seq<BuiltinDef>)
    returns (r: Result<ConfigChecker>)
    ensures UBootVersion.Parse(versionText).Err? ==> r == Err(UBootVersion.Parse(versionText).error)
    ensures r.Ok? ==> fresh(r.value) && r.value.Valid() && r.value.keys == []
    ensures r.Ok? ==> UBootVersion.Parse(versionText) == Ok(r.value.version)
    ensures r.Ok? && !enableBuiltins ==> r.value.handlers == map[]
    ensures enableBuiltins && UBootVersion.Parse(versionText).Ok? ==>
      (r.Ok? <==> WithBuiltins(map[], defs).Ok?) &&
      (r.Ok? ==> r.value.handlers == WithBuiltins(map[], defs).value)
  {
    var v := UBootVersion.Parse(versionText);
    if v.Err? {
      return Err(v.error);
    }
    var c := new ConfigChecker(v.value);
    if enableBuiltins {
      var err := c.RegisterBuiltins(defs);
      if err.Some? {
        return Err(err.value);
      }
    }
    return Ok(c);
  }
}
